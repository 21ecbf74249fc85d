/** A parsed HTML document as BeautifulSoup presents it: elements with a name,
    attributes and children, and the strings between them. A position in the
    tree is a path of child indices from the root. */
module Html {
  import opened Wrappers
  import opened Strings

  datatype Node =
    | Element(name: string, attrs: map<string, string>, children: seq<Node>)
    | Str(value: string)

  type Path = seq<nat>

  function ChildCount(n: Node): nat {
    if n.Element? then |n.children| else 0
  }

  /** `Tag.text`: every string of the subtree, concatenated in document order. */
  function TextOf(n: Node): string
    decreases n, ChildCount(n) + 1
  {
    match n
    case Str(s) => s
    case Element(_, _, _) => TextFrom(n, 0)
  }

  function TextFrom(parent: Node, i: nat): string
    requires parent.Element? && i <= |parent.children|
    decreases parent, |parent.children| - i
  {
    if i == |parent.children| then ""
    else TextOf(parent.children[i]) + TextFrom(parent, i + 1)
  }

  /** The node reached from `n` by following `p`, if `p` leads anywhere. */
  function At(n: Node, p: Path): Option<Node>
    decreases |p|
  {
    if p == [] then Some(n)
    else if n.Str? || p[0] >= |n.children| then None
    else At(n.children[p[0]], p[1..])
  }

  function Under(i: nat, ds: seq<(Path, Node)>): (r: seq<(Path, Node)>)
    ensures |r| == |ds|
    ensures forall k :: 0 <= k < |ds| ==> r[k] == ([i] + ds[k].0, ds[k].1)
  {
    seq(|ds|, k requires 0 <= k < |ds| => ([i] + ds[k].0, ds[k].1))
  }

  /** `Tag.descendants`: every node strictly below `n`, in document order
      (a node, then its subtree, then its next sibling), with its path. */
  function Descendants(n: Node): seq<(Path, Node)>
    decreases n, ChildCount(n) + 1
  {
    match n
    case Str(_) => []
    case Element(_, _, _) => DescendantsFrom(n, 0)
  }

  function DescendantsFrom(parent: Node, i: nat): seq<(Path, Node)>
    requires parent.Element? && i <= |parent.children|
    decreases parent, |parent.children| - i
  {
    if i == |parent.children| then []
    else [([i], parent.children[i])] + Under(i, Descendants(parent.children[i]))
         + DescendantsFrom(parent, i + 1)
  }

  /** Every descendant is listed under a non-empty path that leads to it. */
  lemma {:induction false} DescendantsAreAt(n: Node)
    ensures forall k :: 0 <= k < |Descendants(n)| ==>
      Descendants(n)[k].0 != [] && At(n, Descendants(n)[k].0) == Some(Descendants(n)[k].1)
    decreases n, ChildCount(n) + 1
  {
    if n.Element? {
      DescendantsFromAreAt(n, 0);
    }
  }

  lemma {:induction false} DescendantsFromAreAt(parent: Node, i: nat)
    requires parent.Element? && i <= |parent.children|
    ensures forall k :: 0 <= k < |DescendantsFrom(parent, i)| ==>
      DescendantsFrom(parent, i)[k].0 != [] &&
      At(parent, DescendantsFrom(parent, i)[k].0) == Some(DescendantsFrom(parent, i)[k].1)
    decreases parent, |parent.children| - i
  {
    if i < |parent.children| {
      var c := parent.children[i];
      DescendantsAreAt(c);
      DescendantsFromAreAt(parent, i + 1);
      var head := [([i], c)];
      var mid := Under(i, Descendants(c));
      var tail := DescendantsFrom(parent, i + 1);
      var all := head + mid + tail;
      assert all == DescendantsFrom(parent, i);
      forall k | 0 <= k < |all|
        ensures all[k].0 != [] && At(parent, all[k].0) == Some(all[k].1)
      {
        if k == 0 {
          assert At(parent, [i]) == At(c, []);
        } else if k < 1 + |mid| {
          var d := Descendants(c)[k - 1];
          assert all[k] == ([i] + d.0, d.1);
          assert ([i] + d.0)[1..] == d.0;
        } else {
          assert all[k] == tail[k - 1 - |mid|];
        }
      }
    }
  }

  /** One test a filter applies to an attribute value: equality with a
      string, or the archive pattern `.+pdf-a4\.zip$` searched in the value. */
  datatype AttrTest = Is(expected: string) | PdfA4Zip

  /** An attribute filter, in the order the source writes the dictionary. */
  type Filter = seq<(string, AttrTest)>

  /** What one `find`/`find_all` call looks for: an element by name and
      attribute filter, or a string matching `^text$`. */
  datatype Query = ByTag(tagName: string, filter: Filter) | ByString(text: string)

  const ArchiveSuffix := "pdf-a4.zip"

  /** `re.search(r'.+pdf-a4\.zip$', v)`: the suffix is preceded by at least one
      character other than a newline, and ends the value or comes right before
      a final newline (where Python's `$` also matches). */
  predicate EndsWithArchiveSuffix(v: string) {
    || (|v| > |ArchiveSuffix| && v[|v| - |ArchiveSuffix|..] == ArchiveSuffix
        && v[|v| - |ArchiveSuffix| - 1] != '\n')
    || (|v| > |ArchiveSuffix| + 1 && v[|v| - 1] == '\n'
        && v[|v| - 1 - |ArchiveSuffix|..|v| - 1] == ArchiveSuffix
        && v[|v| - 2 - |ArchiveSuffix|] != '\n')
  }

  predicate Passes(t: AttrTest, v: string) {
    match t
    case Is(s) => v == s
    case PdfA4Zip => EndsWithArchiveSuffix(v)
  }

  /** A test on the attribute `key`. BeautifulSoup keeps `class` as the list
      of its space-separated names: a test passes on it when it passes on the
      whole value or on any one name. */
  predicate PassesAttr(key: string, t: AttrTest, v: string) {
    || Passes(t, v)
    || (key == "class" && exists k :: 0 <= k < |Split(v, ' ')| && Passes(t, Split(v, ' ')[k]))
  }

  predicate MatchesFilter(attrs: map<string, string>, filter: Filter) {
    forall j :: 0 <= j < |filter| ==> filter[j].0 in attrs && PassesAttr(filter[j].0, filter[j].1, attrs[filter[j].0])
  }

  /** An element whose `class` lists a name among others is found by a
      filter asking for that name. */
  lemma ClassNamePasses(name: string, others: string)
    requires ' ' !in name
    ensures PassesAttr("class", Is(name), name + " " + others)
  {
    SplitFirst(name, others, ' ');
    assert name + " " + others == name + [' '] + others;
    assert Split(name + " " + others, ' ')[0] == name;
  }

  /** An element such as `<div class="toctree-wrapper compound">` is what a
      filter asking for its first class name finds. */
  lemma ClassFilterFinds(n: Node, name: string, others: string)
    requires n.Element? && "class" in n.attrs && n.attrs["class"] == name + " " + others
    requires ' ' !in name
    ensures Satisfies(n, ByTag(n.name, [("class", Is(name))]))
  {
    ClassNamePasses(name, others);
    var filter: Filter := [("class", Is(name))];
    assert PassesAttr(filter[0].0, filter[0].1, n.attrs["class"]);
  }

  predicate Satisfies(n: Node, q: Query) {
    match q
    case ByTag(name, filter) => n.Element? && n.name == name && MatchesFilter(n.attrs, filter)
    case ByString(text) => n.Str? && (n.value == text || n.value == text + "\n")
  }

  /** The index of the first entry of `ds`, from `i` on, that satisfies `q`. */
  function FirstFrom(ds: seq<(Path, Node)>, q: Query, i: nat): (r: Option<nat>)
    requires i <= |ds|
    ensures r.Some? ==> i <= r.value < |ds| && Satisfies(ds[r.value].1, q)
                        && forall k :: i <= k < r.value ==> !Satisfies(ds[k].1, q)
    ensures r.None? ==> forall k :: i <= k < |ds| ==> !Satisfies(ds[k].1, q)
    decreases |ds| - i
  {
    if i == |ds| then None
    else if Satisfies(ds[i].1, q) then Some(i)
    else FirstFrom(ds, q, i + 1)
  }

  /** `n.find(...)`: the first descendant of `n`, in document order, that the
      query accepts, with its path below `n`. */
  function Find(n: Node, q: Query): (r: Option<(Path, Node)>)
    ensures r.Some? ==> r.value.0 != [] && At(n, r.value.0) == Some(r.value.1) && Satisfies(r.value.1, q)
  {
    DescendantsAreAt(n);
    match FirstFrom(Descendants(n), q, 0)
    case None => None
    case Some(k) => Some(Descendants(n)[k])
  }

  function Select(ds: seq<(Path, Node)>, q: Query): (r: seq<Node>)
    ensures forall x :: x in r ==> Satisfies(x, q)
    ensures forall k :: 0 <= k < |ds| && Satisfies(ds[k].1, q) ==> ds[k].1 in r
    ensures |r| <= |ds|
  {
    if ds == [] then []
    else
      assert forall k :: 1 <= k < |ds| ==> ds[k] == ds[1..][k - 1];
      (if Satisfies(ds[0].1, q) then [ds[0].1] else []) + Select(ds[1..], q)
  }

  /** `n.find_all(...)`: every descendant the query accepts, in document order. */
  function FindAll(n: Node, q: Query): (r: seq<Node>)
    ensures forall x :: x in r ==> Satisfies(x, q)
    ensures forall k :: 0 <= k < |Descendants(n)| && Satisfies(Descendants(n)[k].1, q) ==> Descendants(n)[k].1 in r
  {
    Select(Descendants(n), q)
  }

  /** Selecting from two stretches one after the other keeps the nodes of
      the first, then those of the second. */
  lemma {:induction false} SelectConcat(a: seq<(Path, Node)>, b: seq<(Path, Node)>, q: Query)
    ensures Select(a + b, q) == Select(a, q) + Select(b, q)
  {
    if a == [] {
      assert a + b == b;
    } else {
      assert (a + b)[0] == a[0] && (a + b)[1..] == a[1..] + b;
      SelectConcat(a[1..], b, q);
    }
  }

  /** The order `find_all` keeps: scanning one more descendant appends it
      when the query accepts it and leaves the result as it was otherwise. */
  lemma SelectNext(ds: seq<(Path, Node)>, i: nat, q: Query)
    requires i < |ds|
    ensures Select(ds[..i + 1], q) == Select(ds[..i], q) + (if Satisfies(ds[i].1, q) then [ds[i].1] else [])
  {
    var last: seq<(Path, Node)> := [ds[i]];
    assert ds[..i + 1] == ds[..i] + last;
    SelectConcat(ds[..i], last, q);
    assert last[1..] == [];
  }

  lemma {:induction false} SelectHeadIsFirst(ds: seq<(Path, Node)>, q: Query, i: nat)
    requires i <= |ds|
    ensures Select(ds[i..], q) == [] <==> FirstFrom(ds, q, i).None?
    ensures FirstFrom(ds, q, i).Some? ==> Select(ds[i..], q)[0] == ds[FirstFrom(ds, q, i).value].1
    decreases |ds| - i
  {
    if i < |ds| {
      assert ds[i..][0] == ds[i] && ds[i..][1..] == ds[i + 1..];
      SelectHeadIsFirst(ds, q, i + 1);
    }
  }

  /** `find` is `find_all` limited to one result: it finds something exactly
      when `find_all` does, and then it is the first of them. */
  lemma FindIsFirstOfFindAll(n: Node, q: Query)
    ensures Find(n, q).None? <==> FindAll(n, q) == []
    ensures Find(n, q).Some? ==> Find(n, q).value.1 == FindAll(n, q)[0]
  {
    assert Descendants(n)[0..] == Descendants(n);
    SelectHeadIsFirst(Descendants(n), q, 0);
  }

  /** The path of the node `k` places after the node at `p` under the same
      parent. Its contract only spells out that path; `NextSibling` states
      what it means for `.next_sibling`. */
  function Shifted(p: Path, k: nat): (r: Path)
    requires p != []
    ensures |r| == |p| && r[..|p| - 1] == p[..|p| - 1] && r[|p| - 1] == p[|p| - 1] + k
  {
    p[..|p| - 1] + [p[|p| - 1] + k]
  }

  /** `.next_sibling` of the node at `p`: the node right after it under the
      same parent, if there is one. The root has no siblings. */
  function NextSibling(root: Node, p: Path): (r: Option<(Path, Node)>)
    ensures p == [] ==> r.None?
    ensures p != [] ==> (r.Some? <==> At(root, Shifted(p, 1)).Some?)
    ensures r.Some? ==> r.value.0 == Shifted(p, 1) && At(root, r.value.0) == Some(r.value.1)
  {
    if p == [] then None
    else
      var q := Shifted(p, 1);
      match At(root, q)
      case None => None
      case Some(m) => Some((q, m))
  }

  /** The node at a non-empty path is a child of the element at the path's
      parent. */
  lemma {:induction false} AtParent(n: Node, p: Path)
    requires p != [] && At(n, p).Some?
    ensures var up := At(n, p[..|p| - 1]);
      && up.Some? && up.value.Element? && p[|p| - 1] < |up.value.children|
      && up.value.children[p[|p| - 1]] == At(n, p).value
    decreases |p|
  {
    if |p| > 1 {
      AtParent(n.children[p[0]], p[1..]);
      assert p[1..][..|p| - 2] == p[..|p| - 1][1..];
    }
  }

  /** The node at `p + s` is the node at `s` below the node at `p`. */
  lemma {:induction false} AtConcat(n: Node, p: Path, s: Path)
    requires At(n, p).Some?
    ensures At(n, p + s) == At(At(n, p).value, s)
    decreases |p|
  {
    if p != [] {
      assert (p + s)[0] == p[0] && (p + s)[1..] == p[1..] + s;
      AtConcat(n.children[p[0]], p[1..], s);
    } else {
      assert p + s == s;
    }
  }
}
