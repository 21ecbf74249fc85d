/** The status tally of the PEP routine: a Python dictionary from status to
    count, kept as its items in insertion order. Assigning to a key that is
    present changes its value in place; assigning to a new key appends it. */
module Counting {

  type Counts = seq<(string, nat)>

  function Keys(d: Counts): (r: seq<string>)
    ensures |r| == |d|
    ensures forall i :: 0 <= i < |d| ==> r[i] == d[i].0
  {
    if d == [] then [] else [d[0].0] + Keys(d[1..])
  }

  /** `d.get(k, 0)`. */
  function Lookup(d: Counts, k: string): nat {
    if d == [] then 0
    else if d[0].0 == k then d[0].1
    else Lookup(d[1..], k)
  }

  /** `d[k] = v`. */
  function Put(d: Counts, k: string, v: nat): Counts {
    if d == [] then [(k, v)]
    else if d[0].0 == k then [(k, v)] + d[1..]
    else [d[0]] + Put(d[1..], k, v)
  }

  /** `sum(d.values())`. */
  function Sum(d: Counts): nat {
    if d == [] then 0 else d[0].1 + Sum(d[1..])
  }

  /** After an assignment the key holds the new value, every other key keeps
      its value, and the keys stay in place, the new one appended at the end. */
  lemma PutMeaning(d: Counts, k: string, v: nat)
    ensures Lookup(Put(d, k, v), k) == v
    ensures forall j :: j != k ==> Lookup(Put(d, k, v), j) == Lookup(d, j)
    ensures Keys(Put(d, k, v)) == if k in Keys(d) then Keys(d) else Keys(d) + [k]
    ensures Sum(Put(d, k, v)) == Sum(d) - Lookup(d, k) + v
  {
    PutValues(d, k, v);
    PutKeys(d, k, v);
  }

  lemma {:induction false} PutValues(d: Counts, k: string, v: nat)
    ensures Lookup(Put(d, k, v), k) == v
    ensures forall j :: j != k ==> Lookup(Put(d, k, v), j) == Lookup(d, j)
    ensures Sum(Put(d, k, v)) == Sum(d) - Lookup(d, k) + v
  {
    if d != [] {
      PutValues(d[1..], k, v);
      if d[0].0 != k {
        assert Put(d, k, v)[1..] == Put(d[1..], k, v);
      } else {
        assert Put(d, k, v)[1..] == d[1..];
      }
    }
  }

  lemma {:induction false} PutKeys(d: Counts, k: string, v: nat)
    ensures Keys(Put(d, k, v)) == if k in Keys(d) then Keys(d) else Keys(d) + [k]
  {
    if d != [] {
      PutKeys(d[1..], k, v);
      assert Keys(d) == [d[0].0] + Keys(d[1..]);
      if d[0].0 != k {
        assert Put(d, k, v) == [d[0]] + Put(d[1..], k, v);
        assert Keys(Put(d, k, v)) == [d[0].0] + Keys(Put(d[1..], k, v));
      } else {
        assert Keys(Put(d, k, v)) == [k] + Keys(d[1..]);
      }
    }
  }

  /** Assigning twice to a key leaves what assigning the second value does. */
  lemma {:induction false} PutTwice(d: Counts, k: string, v: nat, w: nat)
    ensures Put(Put(d, k, v), k, w) == Put(d, k, w)
  {
    if d != [] && d[0].0 != k {
      PutTwice(d[1..], k, v, w);
      assert Put(d, k, v)[1..] == Put(d[1..], k, v);
    }
  }

  /** With distinct keys, every entry holds the value its key reads. */
  lemma {:induction false} GetAtDistinct(d: Counts, k: nat)
    requires k < |d| && NoDuplicates(Keys(d))
    ensures Lookup(d, d[k].0) == d[k].1
  {
    if k > 0 {
      assert Keys(d)[0] != Keys(d)[k];
      assert Keys(d[1..]) == Keys(d)[1..];
      GetAtDistinct(d[1..], k - 1);
    }
  }

  /** How many times `x` occurs in `s`. */
  function Occurrences(s: seq<string>, x: string): nat {
    if s == [] then 0
    else Occurrences(s[..|s| - 1], x) + (if s[|s| - 1] == x then 1 else 0)
  }

  /** The distinct values of `s` in order of first occurrence. */
  function FirstSeen(s: seq<string>): seq<string> {
    if s == [] then []
    else
      var init := FirstSeen(s[..|s| - 1]);
      if s[|s| - 1] in s[..|s| - 1] then init else init + [s[|s| - 1]]
  }

  predicate NoDuplicates(s: seq<string>) {
    forall i, j :: 0 <= i < j < |s| ==> s[i] != s[j]
  }

  lemma NoDuplicatesAppend(s: seq<string>, x: string)
    requires NoDuplicates(s) && x !in s
    ensures NoDuplicates(s + [x])
  {
    forall i, j | 0 <= i < j < |s| + 1
      ensures (s + [x])[i] != (s + [x])[j]
    {
      if j == |s| {
        assert s[i] in s;
      }
    }
  }

  /** `FirstSeen` lists every value of `s` exactly once. */
  lemma {:induction false} FirstSeenMeaning(s: seq<string>)
    ensures NoDuplicates(FirstSeen(s))
    ensures forall x :: x in FirstSeen(s) <==> x in s
  {
    if s != [] {
      var init := s[..|s| - 1];
      FirstSeenMeaning(init);
      assert s == init + [s[|s| - 1]];
    }
  }

  /** The loop that counts statuses into a `defaultdict(int)`: each status
      adds one to its entry, a new status entering with 0 at the end. */
  function Tally(statuses: seq<string>): Counts {
    if statuses == [] then []
    else
      var d := Tally(statuses[..|statuses| - 1]);
      var x := statuses[|statuses| - 1];
      Put(d, x, Lookup(d, x) + 1)
  }

  /** A value that is not a key reads as 0. */
  lemma {:induction false} GetAbsent(d: Counts, k: string)
    requires k !in Keys(d)
    ensures Lookup(d, k) == 0
  {
    if d != [] {
      assert Keys(d) == [d[0].0] + Keys(d[1..]);
      GetAbsent(d[1..], k);
    }
  }

  /** Setting a new key to 0 and then adding one to it is adding one to
      what it reads. */
  lemma IncrementNew(d: Counts, x: string)
    requires x !in Keys(d)
    ensures var d' := Put(d, x, 0); Put(d', x, Lookup(d', x) + 1) == Put(d, x, Lookup(d, x) + 1)
  {
    GetAbsent(d, x);
    PutMeaning(d, x, 0);
    PutTwice(d, x, 0, 1);
  }

  /** `if x not in d: d[x] = 0` followed by `d[x] += 1`. */
  method Increment(d: Counts, x: string) returns (r: Counts)
    ensures r == Put(d, x, Lookup(d, x) + 1)
  {
    r := d;
    if x !in Keys(r) {
      r := Put(r, x, 0);
      IncrementNew(d, x);
    }
    r := Put(r, x, Lookup(r, x) + 1);
  }

  /** Counting one more status at the end. */
  lemma TallyAppend(statuses: seq<string>, x: string)
    ensures Tally(statuses + [x]) == Put(Tally(statuses), x, Lookup(Tally(statuses), x) + 1)
  {
    assert (statuses + [x])[..|statuses|] == statuses;
  }

  /** The tally holds each distinct status once, in order of first
      occurrence, with the number of times it occurs; its values add up to
      the number of statuses counted. */
  lemma TallyMeaning(statuses: seq<string>)
    ensures Keys(Tally(statuses)) == FirstSeen(statuses)
    ensures forall x :: Lookup(Tally(statuses), x) == Occurrences(statuses, x)
    ensures Sum(Tally(statuses)) == |statuses|
  {
    TallyKeys(statuses);
    TallyCounts(statuses);
  }

  lemma {:induction false} TallyKeys(statuses: seq<string>)
    ensures Keys(Tally(statuses)) == FirstSeen(statuses)
  {
    if statuses != [] {
      var init := statuses[..|statuses| - 1];
      var x := statuses[|statuses| - 1];
      TallyKeys(init);
      var d := Tally(init);
      KeysAfterPut(d, init, x, Lookup(d, x) + 1);
    }
  }

  lemma KeysAfterPut(d: Counts, init: seq<string>, x: string, v: nat)
    requires Keys(d) == FirstSeen(init)
    ensures Keys(Put(d, x, v)) == if x in init then FirstSeen(init) else FirstSeen(init) + [x]
  {
    FirstSeenMeaning(init);
    PutKeys(d, x, v);
  }

  lemma {:induction false} TallyCounts(statuses: seq<string>)
    ensures forall x :: Lookup(Tally(statuses), x) == Occurrences(statuses, x)
    ensures Sum(Tally(statuses)) == |statuses|
  {
    if statuses != [] {
      var init := statuses[..|statuses| - 1];
      var x := statuses[|statuses| - 1];
      TallyCounts(init);
      var d := Tally(init);
      PutValues(d, x, Lookup(d, x) + 1);
    }
  }

  /** The routine's final assignment `pep_count['Total'] = sum(...)`. */
  function Totalled(d: Counts): (r: Counts)
    ensures Lookup(r, "Total") == Sum(d)
    ensures forall j :: j != "Total" ==> Lookup(r, j) == Lookup(d, j)
  {
    PutValues(d, "Total", Sum(d));
    Put(d, "Total", Sum(d))
  }

  /** When no page's status is "Total", the tally gains a last entry "Total"
      holding the number of statuses counted. */
  lemma TotalComesLast(statuses: seq<string>)
    requires "Total" !in statuses
    ensures Totalled(Tally(statuses)) == Tally(statuses) + [("Total", |statuses|)]
  {
    TallyMeaning(statuses);
    FirstSeenMeaning(statuses);
    PutAppends(Tally(statuses), "Total", |statuses|);
  }

  /** When some page's status is "Total", that entry keeps its place and its
      count is replaced by the number of statuses counted. */
  lemma TotalOverwritesStatus(statuses: seq<string>)
    requires "Total" in statuses
    ensures Keys(Totalled(Tally(statuses))) == FirstSeen(statuses)
    ensures Lookup(Totalled(Tally(statuses)), "Total") == |statuses|
  {
    TallyMeaning(statuses);
    FirstSeenMeaning(statuses);
    PutMeaning(Tally(statuses), "Total", |statuses|);
  }

  lemma {:induction false} PutAppends(d: Counts, k: string, v: nat)
    requires k !in Keys(d)
    ensures Put(d, k, v) == d + [(k, v)]
  {
    if d != [] {
      assert Keys(d) == [d[0].0] + Keys(d[1..]);
      PutAppends(d[1..], k, v);
      assert d == [d[0]] + d[1..];
    }
  }
}
