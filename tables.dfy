/** Result tables, and the loop every routine runs over the items of a page:
    take one row from each item, skip an item whose page could not be
    fetched, and stop at the first exception. */
module Tables {
  import opened Wrappers
  import opened Exceptions

  datatype Cell = Text(text: string) | Count(count: nat)

  type Row = seq<Cell>

  /** An ordered sequence of rows, the header first. */
  type Table = seq<Row>

  /** Every row has as many fields as the header. */
  predicate Rectangular(t: Table) {
    t != [] && forall k :: 0 <= k < |t| ==> |t[k]| == |t[0]|
  }

  /** How far a loop over items got: the rows it produced, and the exception
      that stopped it, if one did. */
  datatype Progress<T> = Progress(items: seq<T>, failure: Option<Error>)

  /** The loop after it has seen `xs`, one item at a time from the front. */
  function Collect<X, T>(xs: seq<X>, step: X -> Result<Option<T>, Error>): (p: Progress<T>)
    decreases |xs|
  {
    if xs == [] then Progress([], None)
    else
      var p := Collect(xs[..|xs| - 1], step);
      if p.failure.Some? then p
      else match step(xs[|xs| - 1])
        case Err(e) => Progress(p.items, Some(e))
        case Ok(None) => p
        case Ok(Some(t)) => Progress(p.items + [t], None)
  }

  /** The rows of items that raise nothing, in item order, skipped items
      left out. */
  function Kept<X, T>(xs: seq<X>, step: X -> Result<Option<T>, Error>): seq<T>
    requires forall i :: 0 <= i < |xs| ==> step(xs[i]).Ok?
  {
    if xs == [] then []
    else (if step(xs[0]).value.Some? then [step(xs[0]).value.value] else []) + Kept(xs[1..], step)
  }

  lemma {:induction false} KeptAppend<X, T>(xs: seq<X>, x: X, step: X -> Result<Option<T>, Error>)
    requires forall i :: 0 <= i < |xs| ==> step(xs[i]).Ok?
    requires step(x).Ok?
    ensures forall i :: 0 <= i < |xs + [x]| ==> step((xs + [x])[i]).Ok?
    ensures Kept(xs + [x], step) == Kept(xs, step) + (if step(x).value.Some? then [step(x).value.value] else [])
    decreases |xs|
  {
    assert forall i :: 0 <= i < |xs + [x]| ==> step((xs + [x])[i]).Ok? by {
      forall i | 0 <= i < |xs + [x]| ensures step((xs + [x])[i]).Ok? {
        if i < |xs| { assert (xs + [x])[i] == xs[i]; }
      }
    }
    if xs != [] {
      var ys := xs + [x];
      assert ys[0] == xs[0] && ys[1..] == xs[1..] + [x];
      assert forall i :: 0 <= i < |xs[1..]| ==> xs[1..][i] == xs[i + 1];
      KeptAppend(xs[1..], x, step);
      var first := if step(xs[0]).value.Some? then [step(xs[0]).value.value] else [];
      assert Kept(ys, step) == first + Kept(xs[1..] + [x], step);
      assert Kept(xs, step) == first + Kept(xs[1..], step);
    }
  }

  /** What the loop yields: it finishes exactly when no item raises, and then
      holds the rows of all items in order; otherwise it stopped at the first
      item that raised, with that item's exception and the rows of the items
      before it. */
  lemma {:induction false} CollectMeaning<X, T>(xs: seq<X>, step: X -> Result<Option<T>, Error>)
    ensures Collect(xs, step).failure.None? <==> forall i :: 0 <= i < |xs| ==> step(xs[i]).Ok?
    ensures Collect(xs, step).failure.None? ==> Collect(xs, step).items == Kept(xs, step)
    ensures Collect(xs, step).failure.Some? ==>
      exists i :: 0 <= i < |xs| && step(xs[i]) == Err(Collect(xs, step).failure.value)
        && (forall j :: 0 <= j < i ==> step(xs[j]).Ok?)
        && Collect(xs, step).items == Kept(xs[..i], step)
    decreases |xs|
  {
    if xs != [] {
      var n := |xs| - 1;
      var init := xs[..n];
      CollectMeaning(init, step);
      assert xs == init + [xs[n]];
      var p := Collect(init, step);
      if p.failure.Some? {
        var i :| 0 <= i < |init| && step(init[i]) == Err(p.failure.value)
          && (forall j :: 0 <= j < i ==> step(init[j]).Ok?) && p.items == Kept(init[..i], step);
        assert init[..i] == xs[..i];
        assert step(xs[i]) == Err(p.failure.value);
        assert forall j :: 0 <= j < i ==> xs[j] == init[j];
      } else if step(xs[n]).Err? {
        assert xs[..n] == init;
        assert forall j :: 0 <= j < n ==> xs[j] == init[j];
      } else {
        KeptAppend(init, xs[n], step);
      }
    }
  }

  /** One more item: the loop's state after `xs[..i + 1]` from its state
      after `xs[..i]`, while it has not stopped. A step of the proofs only;
      `CollectMeaning` states what the loop yields. */
  lemma CollectNext<X, T>(xs: seq<X>, i: nat, step: X -> Result<Option<T>, Error>)
    requires i < |xs|
    requires Collect(xs[..i], step).failure.None?
    ensures Collect(xs[..i + 1], step) ==
      match step(xs[i])
      case Err(e) => Progress(Collect(xs[..i], step).items, Some(e))
      case Ok(None) => Collect(xs[..i], step)
      case Ok(Some(t)) => Progress(Collect(xs[..i], step).items + [t], None)
  {
    assert xs[..i + 1][..i] == xs[..i];
  }

  /** One turn of the loop: an item that raises stops it for good, and any
      other item adds its row, if it has one. */
  lemma CollectStep<X, T>(xs: seq<X>, i: nat, step: X -> Result<Option<T>, Error>, items: seq<T>)
    requires i < |xs|
    requires Collect(xs[..i], step) == Progress(items, None)
    ensures step(xs[i]).Err? ==> Collect(xs, step) == Progress(items, Some(step(xs[i]).error))
    ensures step(xs[i]).Ok? ==>
      Collect(xs[..i + 1], step) ==
        Progress(items + (if step(xs[i]).value.Some? then [step(xs[i]).value.value] else []), None)
  {
    CollectNext(xs, i, step);
    if step(xs[i]).Err? {
      CollectStops(xs, i + 1, step);
    }
  }

  /** Once the loop has stopped, later items change nothing. */
  lemma {:induction false} CollectStops<X, T>(xs: seq<X>, i: nat, step: X -> Result<Option<T>, Error>)
    requires i <= |xs|
    requires Collect(xs[..i], step).failure.Some?
    ensures Collect(xs, step) == Collect(xs[..i], step)
    decreases |xs| - i
  {
    if i < |xs| {
      assert xs[..i + 1][..i] == xs[..i];
      CollectStops(xs, i + 1, step);
    } else {
      assert xs[..i] == xs;
    }
  }

  /** A property every produced row has holds of everything the loop keeps. */
  lemma {:induction false} KeptAll<X, T>(xs: seq<X>, step: X -> Result<Option<T>, Error>, P: T -> bool)
    requires forall i :: 0 <= i < |xs| ==> step(xs[i]).Ok?
    requires forall i :: 0 <= i < |xs| && step(xs[i]).value.Some? ==> P(step(xs[i]).value.value)
    ensures forall k :: 0 <= k < |Kept(xs, step)| ==> P(Kept(xs, step)[k])
    decreases |xs|
  {
    if xs != [] {
      KeptAll(xs[1..], step, P);
      assert forall i :: 1 <= i < |xs| ==> xs[1..][i - 1] == xs[i];
    }
  }

  /** `row` is what one of the items yields. */
  ghost predicate RowOf<X, T>(xs: seq<X>, step: X -> Result<Option<T>, Error>, row: T) {
    exists i :: 0 <= i < |xs| && step(xs[i]) == Ok(Some(row))
  }

  /** Every row kept is the row of one of the items. */
  lemma {:induction false} KeptFrom<X, T>(xs: seq<X>, step: X -> Result<Option<T>, Error>)
    requires forall i :: 0 <= i < |xs| ==> step(xs[i]).Ok?
    ensures forall j :: 0 <= j < |Kept(xs, step)| ==> RowOf(xs, step, Kept(xs, step)[j])
    decreases |xs|
  {
    if xs != [] {
      KeptFrom(xs[1..], step);
      var head: seq<T> := if step(xs[0]).value.Some? then [step(xs[0]).value.value] else [];
      var rest := Kept(xs[1..], step);
      assert Kept(xs, step) == head + rest;
      forall j | 0 <= j < |Kept(xs, step)| ensures RowOf(xs, step, Kept(xs, step)[j]) {
        if j < |head| {
          assert step(xs[0]) == Ok(Some(Kept(xs, step)[j]));
        } else {
          assert RowOf(xs[1..], step, rest[j - |head|]);
          var i :| 0 <= i < |xs[1..]| && step(xs[1..][i]) == Ok(Some(rest[j - |head|]));
          assert xs[1..][i] == xs[i + 1];
          assert Kept(xs, step)[j] == rest[j - |head|];
          assert step(xs[i + 1]) == Ok(Some(Kept(xs, step)[j]));
        }
      }
    } else {
      assert |Kept(xs, step)| == 0;
    }
  }

  /** Every row an item yields is kept. */
  lemma {:induction false} KeptHas<X, T>(xs: seq<X>, step: X -> Result<Option<T>, Error>)
    requires forall i :: 0 <= i < |xs| ==> step(xs[i]).Ok?
    ensures forall i :: 0 <= i < |xs| && step(xs[i]).value.Some? ==> step(xs[i]).value.value in Kept(xs, step)
    decreases |xs|
  {
    if xs != [] {
      KeptHas(xs[1..], step);
      var head: seq<T> := if step(xs[0]).value.Some? then [step(xs[0]).value.value] else [];
      assert Kept(xs, step) == head + Kept(xs[1..], step);
      forall i | 0 <= i < |xs| && step(xs[i]).value.Some?
        ensures step(xs[i]).value.value in Kept(xs, step)
      {
        if i > 0 {
          assert xs[1..][i - 1] == xs[i];
        }
      }
    }
  }

  /** Every row of a table built from the kept rows, after its header, is
      the row of one of the items. */
  lemma TableRowsFrom<X, T>(xs: seq<X>, step: X -> Result<Option<T>, Error>, header: T, t: seq<T>)
    requires forall i :: 0 <= i < |xs| ==> step(xs[i]).Ok?
    requires t == [header] + Kept(xs, step)
    ensures forall k :: 1 <= k < |t| ==> RowOf(xs, step, t[k])
  {
    KeptFrom(xs, step);
    forall k | 1 <= k < |t| ensures RowOf(xs, step, t[k]) {
      assert t[k] == Kept(xs, step)[k - 1];
    }
  }

  /** When every item yields a row, the loop keeps one row per item, in order. */
  lemma {:induction false} KeptEvery<X, T>(xs: seq<X>, step: X -> Result<Option<T>, Error>)
    requires forall i :: 0 <= i < |xs| ==> step(xs[i]).Ok? && step(xs[i]).value.Some?
    ensures |Kept(xs, step)| == |xs|
    ensures forall j :: 0 <= j < |xs| ==> Kept(xs, step)[j] == step(xs[j]).value.value
    decreases |xs|
  {
    if xs != [] {
      assert forall i :: 1 <= i < |xs| ==> xs[1..][i - 1] == xs[i];
      KeptEvery(xs[1..], step);
    }
  }

  /** When every item that raises nothing yields a row as wide as the
      header, a loop that raised nothing built a table with one row per
      item, in order. */
  lemma EveryRowTable<X>(xs: seq<X>, step: X -> Result<Option<Row>, Error>, header: Row, t: Table)
    requires Collect(xs, step).failure.None?
    requires t == [header] + Collect(xs, step).items
    requires forall i :: 0 <= i < |xs| && step(xs[i]).Ok? ==>
      step(xs[i]).value.Some? && |step(xs[i]).value.value| == |header|
    ensures |t| == |xs| + 1 && t[0] == header && Rectangular(t)
    ensures forall j :: 0 <= j < |xs| ==> step(xs[j]) == Ok(Some(t[j + 1]))
  {
    CollectMeaning(xs, step);
    KeptEvery(xs, step);
    var rows := Kept(xs, step);
    forall j | 0 <= j < |xs| ensures step(xs[j]) == Ok(Some(t[j + 1])) && |t[j + 1]| == |header| {
      assert t[j + 1] == rows[j];
    }
  }
}
