/** `latest_versions`: one row per link of the sidebar list that offers all
    documentation versions, with the version and status read from the link
    text. */
module LatestVersions {
  import opened Wrappers
  import opened Html
  import opened Strings
  import opened Exceptions
  import opened Constants
  import opened Utils
  import opened Tables

  const Header: Row := [Text("Ссылка на документацию"), Text("Версия"), Text("Статус")]

  const ListMarker := "All versions"

  predicate IsDigit(c: char) {
    '0' <= c <= '9'
  }

  /** A version as `\d\.\d+` accepts it. */
  predicate IsVersion(v: string) {
    |v| >= 3 && IsDigit(v[0]) && v[1] == '.' && forall k :: 2 <= k < |v| ==> IsDigit(v[k])
  }

  /** Where the run of digits starting at `i` ends (`\d+` is greedy). */
  function DigitsEnd(s: string, i: nat): (e: nat)
    requires i <= |s|
    ensures i <= e <= |s|
    ensures forall k :: i <= k < e ==> IsDigit(s[k])
    ensures e < |s| ==> !IsDigit(s[e])
    decreases |s| - i
  {
    if i < |s| && IsDigit(s[i]) then DigitsEnd(s, i + 1) else i
  }

  /** Where the line starting at `j` ends: `.` does not match a newline. */
  function LineEnd(s: string, j: nat): (e: nat)
    requires j <= |s|
    ensures j <= e <= |s|
    ensures forall k :: j <= k < e ==> s[k] != '\n'
    ensures e < |s| ==> s[e] == '\n'
    decreases |s| - j
  {
    if j < |s| && s[j] != '\n' then LineEnd(s, j + 1) else j
  }

  /** The last `)` in `s[j..e]`: where the greedy `.*` gives back to `\)`. */
  function LastClose(s: string, j: nat, e: nat): (k: Option<nat>)
    requires j <= e <= |s|
    ensures k.Some? ==> j <= k.value < e && s[k.value] == ')' && forall m :: k.value < m < e ==> s[m] != ')'
    ensures k.None? ==> forall m :: j <= m < e ==> s[m] != ')'
    decreases e - j
  {
    if e == j then None
    else if s[e - 1] == ')' then Some(e - 1)
    else LastClose(s, j, e - 1)
  }

  /** A match of the pattern: where it starts and its two groups. */
  datatype VersionMatch = VersionMatch(start: nat, version: string, status: string)

  const Keyword := "Python "

  /** The first half of the pattern, `Python \d\.\d+ \(`, tried at `i`:
      where the version group ends, if it fits. */
  function VersionEnd(s: string, i: nat): (e: Option<nat>)
    requires i <= |s|
    ensures e.Some? ==> && i + 10 <= e.value && e.value + 2 <= |s|
                        && s[i..i + 7] == Keyword && IsVersion(s[i + 7..e.value])
                        && s[e.value] == ' ' && s[e.value + 1] == '('
  {
    if !(i + 9 <= |s| && s[i..i + 7] == Keyword && IsDigit(s[i + 7]) && s[i + 8] == '.') then None
    else
      var e := DigitsEnd(s, i + 9);
      if e == i + 9 || e + 2 > |s| || s[e] != ' ' || s[e + 1] != '(' then None
      else Some(e)
  }

  /** The pattern `Python (?P<version>\d\.\d+) \((?P<status>.*)\)` tried at
      position `i`. */
  function MatchAt(s: string, i: nat): (r: Option<VersionMatch>)
    requires i <= |s|
    ensures r.Some? ==> r.value.start == i && IsVersion(r.value.version) && '\n' !in r.value.status
  {
    match VersionEnd(s, i)
    case None => None
    case Some(e) =>
      match LastClose(s, e + 2, LineEnd(s, e + 2))
      case None => None
      case Some(k) => Some(VersionMatch(i, s[i + 7..e], s[e + 2..k]))
  }

  /** The text a match covers. */
  function Spelled(m: VersionMatch): string {
    Keyword + m.version + " (" + m.status + ")"
  }

  /** A match spells out "Python ", the version, " (", the status and ")"
      at its position, and the status runs to the last `)` of its line. */
  lemma MatchAtSpells(s: string, i: nat)
    requires i <= |s| && MatchAt(s, i).Some?
    ensures var m := MatchAt(s, i).value; var w := Spelled(m);
      && i + |w| <= |s| && s[i..i + |w|] == w
      && forall k :: i + |w| <= k < LineEnd(s, i + |w|) ==> s[k] != ')'
  {
    var m := MatchAt(s, i).value;
    var e := VersionEnd(s, i).value;
    var k := LastClose(s, e + 2, LineEnd(s, e + 2)).value;
    assert m.version == s[i + 7..e] && m.status == s[e + 2..k];
    SpellOut(s, i, e, k);
    LineEndFrom(s, e + 2, k + 1);
  }

  lemma SpellOut(s: string, i: nat, e: nat, k: nat)
    requires i + 7 <= e && e + 2 <= k < |s|
    requires s[i..i + 7] == Keyword && s[e] == ' ' && s[e + 1] == '(' && s[k] == ')'
    ensures s[i..k + 1] == Keyword + s[i + 7..e] + " (" + s[e + 2..k] + ")"
  {
    assert s[e..e + 2] == " (" && s[k..k + 1] == ")";
    assert s[i..k + 1] == s[i..i + 7] + s[i + 7..e] + s[e..e + 2] + s[e + 2..k] + s[k..k + 1];
  }

  /** Starting inside a line finds the same line end. */
  lemma {:induction false} LineEndFrom(s: string, j: nat, k: nat)
    requires j <= |s| && j <= k <= LineEnd(s, j)
    ensures LineEnd(s, k) == LineEnd(s, j)
    decreases k - j
  {
    if j < k {
      LineEndFrom(s, j + 1, k);
    }
  }

  /** `re.search` from position `i` on: the leftmost position that matches. */
  function SearchFrom(s: string, i: nat): (r: Option<VersionMatch>)
    requires i <= |s|
    ensures r.Some? ==> (i <= r.value.start <= |s| && MatchAt(s, r.value.start) == r
                         && forall j :: i <= j < r.value.start ==> MatchAt(s, j).None?)
    ensures r.None? ==> forall j :: i <= j <= |s| ==> MatchAt(s, j).None?
    decreases |s| - i
  {
    match MatchAt(s, i)
    case Some(m) => Some(m)
    case None => if i == |s| then None else SearchFrom(s, i + 1)
  }

  /** `re.search(pattern, text)`. */
  function Search(text: string): (r: Option<VersionMatch>)
    ensures r.Some? ==> r.value.start <= |text| && MatchAt(text, r.value.start) == r
                        && forall j :: 0 <= j < r.value.start ==> MatchAt(text, j).None?
    ensures r.None? ==> forall j :: 0 <= j <= |text| ==> MatchAt(text, j).None?
  {
    SearchFrom(text, 0)
  }

  lemma {:induction false} DigitsEndAt(s: string, i: nat, e: nat)
    requires i <= e <= |s|
    requires forall k :: i <= k < e ==> IsDigit(s[k])
    requires e < |s| ==> !IsDigit(s[e])
    ensures DigitsEnd(s, i) == e
    decreases e - i
  {
    if i < e {
      DigitsEndAt(s, i + 1, e);
    }
  }

  lemma {:induction false} LineEndAt(s: string, j: nat)
    requires j <= |s|
    requires forall k :: j <= k < |s| ==> s[k] != '\n'
    ensures LineEnd(s, j) == |s|
    decreases |s| - j
  {
    if j < |s| {
      LineEndAt(s, j + 1);
    }
  }

  /** A link text made of "Python ", a version, " (", a status on one line
      and a final ")" yields that version and that status. */
  lemma VersionTextMatches(s: string, e: nat)
    requires 10 <= e && e + 3 <= |s|
    requires s[..7] == Keyword && IsVersion(s[7..e]) && s[e] == ' ' && s[e + 1] == '('
    requires s[|s| - 1] == ')' && forall k :: e + 2 <= k < |s| ==> s[k] != '\n'
    ensures Search(s) == Some(VersionMatch(0, s[7..e], s[e + 2..|s| - 1]))
  {
    assert forall k :: 9 <= k < e ==> s[k] == s[7..e][k - 7];
    DigitsEndAt(s, 9, e);
    assert VersionEnd(s, 0) == Some(e);
    LineEndAt(s, e + 2);
    assert LastClose(s, e + 2, |s|) == Some(|s| - 1);
    assert SearchFrom(s, 0) == MatchAt(s, 0);
  }

  /** The example of the version listing: "Python 3.10 (Deferred)". */
  lemma VersionTextExample(text: string)
    requires text == "Python 3.10 (Deferred)"
    ensures Search(text) == Some(VersionMatch(0, "3.10", "Deferred"))
  {
    assert text[..7] == Keyword;
    assert text[7..11] == "3.10" && IsVersion(text[7..11]);
    assert text[13..|text| - 1] == "Deferred";
    VersionTextMatches(text, 11);
  }

  /** A text that never says "Python " does not match. */
  lemma NoMatchWithoutPrefix(text: string)
    requires !Contains(text, Keyword)
    ensures Search(text).None?
  {
    if Search(text).Some? {
      ContainsAt(text, Keyword, Search(text).value.start);
    }
  }

  /** A position where the text spells "Python ", a version, " (" and,
      later on the same line, a ")" is matched there: the version group is
      the version spelled, and the status reaches at least to that ")". */
  lemma MatchAtComplete(s: string, i: nat, e: nat, k: nat)
    requires i + 10 <= e && e + 2 <= k < |s|
    requires s[i..i + 7] == Keyword && IsVersion(s[i + 7..e]) && s[e] == ' ' && s[e + 1] == '('
    requires s[k] == ')' && forall m :: e + 2 <= m < k ==> s[m] != '\n'
    ensures MatchAt(s, i).Some?
    ensures MatchAt(s, i).value.version == s[i + 7..e]
    ensures k <= e + 2 + |MatchAt(s, i).value.status|
  {
    assert s[i + 7] == s[i + 7..e][0] && s[i + 8] == s[i + 7..e][1];
    assert forall m :: i + 9 <= m < e ==> s[m] == s[i + 7..e][m - i - 7];
    DigitsEndAt(s, i + 9, e);
    assert VersionEnd(s, i) == Some(e);
    assert k < LineEnd(s, e + 2);
  }

  /** `re.search` finds a match wherever the pattern is spelled out: at that
      position or at an earlier one. */
  lemma SearchFindsPattern(s: string, i: nat, e: nat, k: nat)
    requires i + 10 <= e && e + 2 <= k < |s|
    requires s[i..i + 7] == Keyword && IsVersion(s[i + 7..e]) && s[e] == ' ' && s[e + 1] == '('
    requires s[k] == ')' && forall m :: e + 2 <= m < k ==> s[m] != '\n'
    ensures Search(s).Some? && Search(s).value.start <= i
  {
    MatchAtComplete(s, i, e, k);
  }

  /** One link's row: its target, then the version and status when the text
      matches the pattern, and otherwise the whole text and an empty status. */
  function VersionRow(a: Node): (r: Result<Row, Error>)
    ensures r.Err? <==> !a.Element? || "href" !in a.attrs
    ensures r.Ok? ==> |r.value| == 3 && r.value[0] == Text(a.attrs["href"])
    ensures r.Ok? && Search(TextOf(a)).Some? ==>
      r.value[1..] == [Text(Search(TextOf(a)).value.version), Text(Search(TextOf(a)).value.status)]
    ensures r.Ok? && Search(TextOf(a)).None? ==> r.value[1..] == [Text(TextOf(a)), Text("")]
  {
    match a
    case Str(_) => Err(TypeError("string indices must be integers"))
    case Element(_, attrs, _) =>
      if "href" !in attrs then Err(KeyError("href"))
      else
        var text := TextOf(a);
        match Search(text)
        case Some(m) => Ok([Text(attrs["href"]), Text(m.version), Text(m.status)])
        case None => Ok([Text(attrs["href"]), Text(text), Text("")])
  }

  function VersionStep(a: Node): Result<Option<Row>, Error> {
    var row :- VersionRow(a);
    Ok(Some(row))
  }

  /** The first list whose text holds `needle`. */
  function FirstHolding(uls: seq<Node>, needle: string, i: nat): (r: Option<nat>)
    requires i <= |uls|
    ensures r.Some? ==> (i <= r.value < |uls| && Contains(TextOf(uls[r.value]), needle)
                         && forall k :: i <= k < r.value ==> !Contains(TextOf(uls[k]), needle))
    ensures r.None? ==> forall k :: i <= k < |uls| ==> !Contains(TextOf(uls[k]), needle)
    decreases |uls| - i
  {
    if i == |uls| then None
    else if Contains(TextOf(uls[i]), needle) then Some(i)
    else FirstHolding(uls, needle, i + 1)
  }

  /** The lists of the sidebar, when the page has one. */
  function SidebarLists(doc: Node): Result<seq<Node>, Error> {
    var sidebar :- FindTag(doc, "div", Some([("class", Is("sphinxsidebarwrapper"))]));
    Ok(FindAll(sidebar, ByTag("ul", [])))
  }

  /** The links of the first sidebar list mentioning "All versions"; with no
      such list the routine raises. */
  function VersionLinks(doc: Node): Result<seq<Node>, Error> {
    var uls :- SidebarLists(doc);
    match FirstHolding(uls, ListMarker, 0)
    case None => Err(NothingFound)
    case Some(k) => Ok(FindAll(uls[k], ByTag("a", [])))
  }

  /** The routine's whole effect. */
  function LatestVersionsOf(session: Session): Result<Option<Table>, Error> {
    var soup :- SoupOf(session.get(MainDocUrl));
    if soup.None? then Ok(None)
    else
      var links :- VersionLinks(soup.value);
      LinksTable(links)
  }

  /** What the loop over the links ends with: the first exception raised, or
      the header followed by one row per link. */
  function LinksTable(links: seq<Node>): Result<Option<Table>, Error> {
    var p := Collect(links, VersionStep);
    if p.failure.Some? then Err(p.failure.value) else Ok(Some([Header] + p.items))
  }

  /** `latest_versions(session)`. */
  method LatestVersions(session: Session) returns (r: Result<Option<Table>, Error>)
    ensures r == LatestVersionsOf(session)
  {
    var soup := GetSoup(session, MainDocUrl);
    if soup.Err? {
      return Err(soup.error);
    }
    if soup.value.None? {
      return Ok(None);
    }
    var ulTags := SidebarLists(soup.value.value);
    if ulTags.Err? {
      return Err(ulTags.error);
    }
    var uls := ulTags.value;
    var aTags: seq<Node> := [];
    var found := false;
    var i := 0;
    while i < |uls|
      invariant 0 <= i <= |uls|
      invariant forall k :: 0 <= k < i ==> !Contains(TextOf(uls[k]), ListMarker)
    {
      if Contains(TextOf(uls[i]), ListMarker) {
        aTags := FindAll(uls[i], ByTag("a", []));
        found := true;
        break;
      }
      i := i + 1;
    }
    if !found {
      return Err(NothingFound);
    }
    assert VersionLinks(soup.value.value) == Ok(aTags);
    r := VersionRows(aTags);
  }

  /** The loop of `latest_versions` over the links of the list found. */
  method VersionRows(aTags: seq<Node>) returns (r: Result<Option<Table>, Error>)
    ensures r == LinksTable(aTags)
  {
    var result: Table := [Header];
    var j := 0;
    while j < |aTags|
      invariant 0 <= j <= |aTags|
      invariant |result| >= 1 && result[0] == Header
      invariant Collect(aTags[..j], VersionStep) == Progress(result[1..], None)
    {
      var row := VersionRow(aTags[j]);
      CollectStep(aTags, j, VersionStep, result[1..]);
      if row.Err? {
        return Err(row.error);
      }
      assert (result + [row.value])[1..] == result[1..] + [row.value];
      result := result + [row.value];
      j := j + 1;
    }
    assert aTags[..j] == aTags;
    assert result == [Header] + result[1..];
    r := Ok(Some(result));
  }

  /** A table comes back only when the page has a sidebar list mentioning
      "All versions"; it holds the header and then exactly one row per link
      of the first such list, in order, each being that link's row. */
  lemma LatestVersionsTable(session: Session, t: Table)
    requires LatestVersionsOf(session) == Ok(Some(t))
    ensures session.get(MainDocUrl).Served?
    ensures var links := VersionLinks(session.get(MainDocUrl).parsed(DefaultEncoding));
      && links.Ok? && |t| == |links.value| + 1 && t[0] == Header
      && forall j :: 0 <= j < |links.value| ==> Ok(t[j + 1]) == VersionRow(links.value[j])
    ensures Rectangular(t)
  {
    var reply := session.get(MainDocUrl);
    assert reply.Served?;
    var links := VersionLinks(reply.parsed(DefaultEncoding));
    assert links.Ok? && LinksTable(links.value) == Ok(Some(t));
    TableOfLinks(links.value, t);
  }

  /** The table the loop builds from links none of which raised. */
  lemma TableOfLinks(links: seq<Node>, t: Table)
    requires LinksTable(links) == Ok(Some(t))
    ensures |t| == |links| + 1 && t[0] == Header
    ensures forall j :: 0 <= j < |links| ==> Ok(t[j + 1]) == VersionRow(links[j])
    ensures Rectangular(t)
  {
    forall i | 0 <= i < |links| && VersionStep(links[i]).Ok?
      ensures VersionStep(links[i]).value.Some? && |VersionStep(links[i]).value.value| == |Header|
    {
      assert VersionRow(links[i]).Ok? && VersionStep(links[i]) == Ok(Some(VersionRow(links[i]).value));
    }
    EveryRowTable(links, VersionStep, Header, t);
    forall j | 0 <= j < |links| ensures Ok(t[j + 1]) == VersionRow(links[j]) {
      assert VersionStep(links[j]) == Ok(Some(VersionRow(links[j]).value));
    }
  }

  /** With no sidebar list mentioning "All versions" the routine raises
      rather than returning a table. */
  lemma NoVersionListRaises(session: Session)
    requires session.get(MainDocUrl).Served?
    requires var uls := SidebarLists(session.get(MainDocUrl).parsed(DefaultEncoding));
      uls.Ok? && forall k :: 0 <= k < |uls.value| ==> !Contains(TextOf(uls.value[k]), ListMarker)
    ensures LatestVersionsOf(session) == Err(NothingFound)
  {
  }
}
