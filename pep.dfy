/** `pep`: the number of PEPs in each status, read from every PEP's own
    page, checked against the status letter the index shows. */
module Pep {
  import opened Wrappers
  import opened Html
  import opened Urls
  import opened Exceptions
  import opened Constants
  import opened Utils
  import opened Tables
  import opened Counting

  const Header: Row := [Text("Статус"), Text("Количество")]

  /** What one fetched PEP page gives: its URL, the status letter the index
      shows for it, the status on the page, and the statuses that letter
      allows. */
  datatype Observation = Observation(link: string, code: string, status: string, expected: seq<string>)

  /** The message logged for a PEP whose page shows a status its letter does
      not allow. */
  datatype Mismatch = Mismatch(link: string, status: string, expected: seq<string>)

  /** `td.text[1:]`: the index cell without its leading type letter. */
  function StatusCode(cell: string): (r: string)
    ensures cell == [] ==> r == []
    ensures cell != [] ==> cell == [cell[0]] + r
  {
    if cell == [] then [] else cell[1..]
  }

  /** An element with a child string `Status` (or `Status` and a newline). */
  predicate IsStatusLabel(n: Node) {
    n.Element? && exists j :: 0 <= j < |n.children| && Satisfies(n.children[j], ByString("Status"))
  }

  /** `find_tag(soup, 'dl').find(string=re.compile(r'^Status$')).parent`: the
      path of the element holding the first such string in the page's first
      definition list. */
  function StatusLabel(doc: Node): (r: Result<Path, Error>)
    ensures FindTag(doc, "dl").Err? ==> r == Err(TagNotFound("dl", None))
    ensures FindTag(doc, "dl").Ok? ==>
      (r.Err? <==> FindAll(FindTag(doc, "dl").value, ByString("Status")) == [])
    ensures FindTag(doc, "dl").Ok? && r.Err? ==> r.error == AttributeError("parent")
    ensures r.Ok? ==> r.value != [] && At(doc, r.value).Some? && IsStatusLabel(At(doc, r.value).value)
    ensures r.Ok? ==>
      && Find(doc, TagQuery("dl", None)).Some?
      && Find(doc, TagQuery("dl", None)).value.1 == FindTag(doc, "dl").value
      && var (dlPath, dl) := Find(doc, TagQuery("dl", None)).value;
         && Find(dl, ByString("Status")).Some?
         && Find(dl, ByString("Status")).value.1 == FindAll(dl, ByString("Status"))[0]
         && var sPath := Find(dl, ByString("Status")).value.0;
            r.value == dlPath + sPath[..|sPath| - 1]
  {
    var q := TagQuery("dl", None);
    FindIsFirstOfFindAll(doc, q);
    match Find(doc, q)
    case None => Err(TagNotFound("dl", None))
    case Some((dlPath, dl)) =>
      FindIsFirstOfFindAll(dl, ByString("Status"));
      match Find(dl, ByString("Status"))
      case None => Err(AttributeError("parent"))
      case Some((sPath, s)) =>
        var up := sPath[..|sPath| - 1];
        LabelAt(doc, dlPath, dl, sPath, s);
        Ok(dlPath + up)
  }

  lemma LabelAt(doc: Node, dlPath: Path, dl: Node, sPath: Path, s: Node)
    requires dlPath != [] && At(doc, dlPath) == Some(dl)
    requires sPath != [] && At(dl, sPath) == Some(s) && Satisfies(s, ByString("Status"))
    ensures var p := dlPath + sPath[..|sPath| - 1];
      At(doc, p).Some? && IsStatusLabel(At(doc, p).value)
  {
    var up := sPath[..|sPath| - 1];
    AtParent(dl, sPath);
    AtConcat(doc, dlPath, up);
    var holder := At(dl, up).value;
    assert holder.children[sPath[|sPath| - 1]] == s;
  }

  /** `status.next_sibling.next_sibling.text`: the text of the node two
      places after the label element. A missing first sibling fails on reading its
      `next_sibling`, a missing second one on reading its `text`. */
  function StatusCard(doc: Node): (r: Result<string, Error>)
    ensures StatusLabel(doc).Err? ==> r == Err(StatusLabel(doc).error)
    ensures StatusLabel(doc).Ok? ==> var holder := StatusLabel(doc).value;
      && (r == Err(AttributeError("next_sibling")) <==> At(doc, Shifted(holder, 1)).None?)
      && (r.Ok? <==> At(doc, Shifted(holder, 1)).Some? && At(doc, Shifted(holder, 2)).Some?)
      && (r.Ok? ==> r.value == TextOf(At(doc, Shifted(holder, 2)).value))
  {
    var holder :- StatusLabel(doc);
    match NextSibling(doc, holder)
    case None => Err(AttributeError("next_sibling"))
    case Some((first, _)) =>
      match NextSibling(doc, first)
      case None => Err(AttributeError("text"))
      case Some((_, card)) => Ok(TextOf(card))
  }

  /** `urljoin(PEP_DOC_URL, find_tag(tr_tag, 'a')['href'])`: the PEP page a
      row of the index points to. */
  function RowLink(tr: Node): (r: Result<string, Error>)
    ensures FindTag(tr, "a").Err? ==> r == Err(TagNotFound("a", None))
    ensures FindTag(tr, "a").Ok? && "href" !in FindTag(tr, "a").value.attrs ==> r == Err(KeyError("href"))
    ensures FindTag(tr, "a").Ok? && "href" in FindTag(tr, "a").value.attrs ==>
      r == Ok(UrlJoin(PepDocUrl, FindTag(tr, "a").value.attrs["href"]))
  {
    var a :- FindTag(tr, "a");
    if "href" !in a.attrs then Err(KeyError("href"))
    else Ok(UrlJoin(PepDocUrl, a.attrs["href"]))
  }

  /** What one row of the index contributes. Its status letter and link come
      from the row; a PEP page that cannot be fetched is skipped; otherwise
      the page's status card is read and the letter is looked up among the
      expected statuses, an unknown letter raising `KeyError`. A card status
      the letter does not allow is kept like any other. */
  function PepRow(session: Session, tr: Node): (r: Result<Option<Observation>, Error>)
    ensures r.Ok? && r.value.Some? ==> var o := r.value.value;
      && o.code in ExpectedStatus && o.expected == ExpectedStatus[o.code]
      && session.get(o.link).Served?
      && StatusCard(session.get(o.link).parsed(DefaultEncoding)) == Ok(o.status)
    ensures FindTag(tr, "td").Err? ==> r == Err(TagNotFound("td", None))
    ensures FindTag(tr, "td").Ok? && RowLink(tr).Err? ==> r == Err(RowLink(tr).error)
    ensures r.Ok? ==> FindTag(tr, "td").Ok? && RowLink(tr).Ok?
    ensures FindTag(tr, "td").Ok? && RowLink(tr).Ok? ==>
      var link := RowLink(tr).value;
      var code := StatusCode(TextOf(FindTag(tr, "td").value));
      && (r == Ok(None) <==> session.get(link).RequestFailed?)
      && (session.get(link).Crashed? ==> r == Err(SessionError(session.get(link).message)))
      && (session.get(link).Served? ==>
            var card := StatusCard(session.get(link).parsed(DefaultEncoding));
            && (card.Err? ==> r == Err(card.error))
            && (card.Ok? && code !in ExpectedStatus ==> r == Err(KeyError(code)))
            && (card.Ok? && code in ExpectedStatus ==>
                  r == Ok(Some(Observation(link, code, card.value, ExpectedStatus[code])))))
  {
    var td :- FindTag(tr, "td");
    var code := StatusCode(TextOf(td));
    var link :- RowLink(tr);
    match session.get(link)
    case RequestFailed(_) => Ok(None)
    case Crashed(message) => Err(SessionError(message))
    case Served(parsed, _, _) =>
      var card :- StatusCard(parsed(DefaultEncoding));
      if code !in ExpectedStatus then Err(KeyError(code))
      else Ok(Some(Observation(link, code, card, ExpectedStatus[code])))
  }

  /** Which rows the loop keeps, when none raises: a row is dropped exactly
      when fetching its own PEP page raised `RequestException`; every other
      row's observation is kept, and everything kept is the observation of a
      page that was served. */
  lemma PepKeptRows(session: Session, trs: seq<Node>)
    requires forall i :: 0 <= i < |trs| ==> PepRow(session, trs[i]).Ok?
    ensures forall i :: 0 <= i < |trs| ==>
      && RowLink(trs[i]).Ok?
      && (PepRow(session, trs[i]) == Ok(None) <==> session.get(RowLink(trs[i]).value).RequestFailed?)
    ensures forall i :: 0 <= i < |trs| && !session.get(RowLink(trs[i]).value).RequestFailed? ==>
      && PepRow(session, trs[i]).value.Some?
      && PepRow(session, trs[i]).value.value.link == RowLink(trs[i]).value
      && PepRow(session, trs[i]).value.value in Kept(trs, PepStep(session))
    ensures forall j :: 0 <= j < |Kept(trs, PepStep(session))| ==>
      session.get(Kept(trs, PepStep(session))[j].link).Served?
  {
    var step := PepStep(session);
    assert forall i :: 0 <= i < |trs| ==> step(trs[i]) == PepRow(session, trs[i]);
    KeptHas(trs, step);
    KeptAll(trs, step, (o: Observation) => session.get(o.link).Served?);
    forall i | 0 <= i < |trs|
      ensures RowLink(trs[i]).Ok?
      ensures PepRow(session, trs[i]) == Ok(None) <==> session.get(RowLink(trs[i]).value).RequestFailed?
      ensures !session.get(RowLink(trs[i]).value).RequestFailed? ==>
        PepRow(session, trs[i]).value.Some? && PepRow(session, trs[i]).value.value.link == RowLink(trs[i]).value
    {
      RowSkipped(session, trs[i]);
    }
  }

  /** A row that raises nothing is skipped exactly when its own page raised
      `RequestException`; otherwise it observes that page. */
  lemma RowSkipped(session: Session, tr: Node)
    requires PepRow(session, tr).Ok?
    ensures RowLink(tr).Ok?
    ensures PepRow(session, tr) == Ok(None) <==> session.get(RowLink(tr).value).RequestFailed?
    ensures !session.get(RowLink(tr).value).RequestFailed? ==>
      PepRow(session, tr).value.Some? && PepRow(session, tr).value.value.link == RowLink(tr).value
  {
  }

  function PepStep(session: Session): Node -> Result<Option<Observation>, Error> {
    tr => PepRow(session, tr)
  }

  /** The rows of the numerical index. */
  function IndexRows(doc: Node): Result<seq<Node>, Error> {
    var section :- FindTag(doc, "section", Some([("id", Is("numerical-index"))]));
    var tbody :- FindTag(section, "tbody");
    Ok(FindAll(tbody, ByTag("tr", [])))
  }

  function Statuses(obs: seq<Observation>): (r: seq<string>)
    ensures |r| == |obs| && forall i :: 0 <= i < |obs| ==> r[i] == obs[i].status
  {
    seq(|obs|, i requires 0 <= i < |obs| => obs[i].status)
  }

  function Report(o: Observation): Mismatch {
    Mismatch(o.link, o.status, o.expected)
  }

  /** The mismatch messages logged while the pages are read, in order. */
  function Mismatches(obs: seq<Observation>): (r: seq<Mismatch>)
    ensures r == [] <==> forall i :: 0 <= i < |obs| ==> obs[i].status in obs[i].expected
    ensures forall k :: 0 <= k < |r| ==>
      exists i :: 0 <= i < |obs| && obs[i].status !in obs[i].expected && r[k] == Report(obs[i])
  {
    if obs == [] then []
    else
      var init := obs[..|obs| - 1];
      var o := obs[|obs| - 1];
      var r := Mismatches(init) + (if o.status in o.expected then [] else [Report(o)]);
      assert forall i :: 0 <= i < |init| ==> init[i] == obs[i];
      r
  }

  /** `result.extend(pep_count.items())`. Its contract gives the rows entry
      by entry; `CountTableMeaning` states what the table holds. */
  function CountRows(d: Counts): (t: Table)
    ensures |t| == |d| && forall k :: 0 <= k < |d| ==> t[k] == [Text(d[k].0), Count(d[k].1)]
  {
    seq(|d|, k requires 0 <= k < |d| => [Text(d[k].0), Count(d[k].1)])
  }

  /** The routine's result: nothing when the index cannot be fetched, the
      first exception raised, or the table of counts. */
  function PepOf(session: Session): Result<Option<Table>, Error> {
    var soup :- SoupOf(session.get(PepDocUrl));
    if soup.None? then Ok(None)
    else
      var trs :- IndexRows(soup.value);
      IndexTable(session, trs)
  }

  /** What the loop over the index rows ends with: the first exception
      raised, or the table of the statuses read. */
  function IndexTable(session: Session, trs: seq<Node>): Result<Option<Table>, Error> {
    var p := Collect(trs, PepStep(session));
    if p.failure.Some? then Err(p.failure.value)
    else Ok(Some(CountTable(Statuses(p.items))))
  }

  /** The mismatches the routine logs before it returns or raises. */
  function PepLogOf(session: Session): seq<Mismatch> {
    match SoupOf(session.get(PepDocUrl))
    case Ok(Some(doc)) =>
      (match IndexRows(doc)
       case Ok(trs) => Mismatches(Collect(trs, PepStep(session)).items)
       case Err(_) => [])
    case _ => []
  }

  /** The body of the loop over the index rows, up to the counting. */
  method FetchPepRow(session: Session, tr: Node) returns (row: Result<Option<Observation>, Error>)
    ensures row == PepRow(session, tr)
  {
    var td := FindTag(tr, "td");
    if td.Err? {
      return Err(td.error);
    }
    var code := StatusCode(TextOf(td.value));
    var a := FindTag(tr, "a");
    if a.Err? {
      return Err(a.error);
    }
    if "href" !in a.value.attrs {
      return Err(KeyError("href"));
    }
    var link := UrlJoin(PepDocUrl, a.value.attrs["href"]);
    var response := GetResponse(session, link);
    if response.Err? {
      return Err(response.error);
    }
    if response.value.None? {
      return Ok(None);
    }
    var card := StatusCard(response.value.value.Soup());
    if card.Err? {
      return Err(card.error);
    }
    if code !in ExpectedStatus {
      return Err(KeyError(code));
    }
    row := Ok(Some(Observation(link, code, card.value, ExpectedStatus[code])));
  }

  /** One more fetched page: its status is counted. */
  lemma CountedNext(seen: seq<Observation>, o: Observation)
    ensures var d := Tally(Statuses(seen));
      Tally(Statuses(seen + [o])) == Put(d, o.status, Lookup(d, o.status) + 1)
  {
    assert Statuses(seen + [o]) == Statuses(seen) + [o.status];
    TallyAppend(Statuses(seen), o.status);
  }

  /** One more fetched page: a mismatch is logged when its letter does not
      allow its status. */
  lemma LoggedNext(seen: seq<Observation>, o: Observation)
    ensures Mismatches(seen + [o]) == Mismatches(seen) + (if o.status in o.expected then [] else [Report(o)])
  {
    assert (seen + [o])[..|seen|] == seen;
  }

  /** The end of the loop body: `pep_count[status_card] = 0` for a new
      status, `pep_count[status_card] += 1`, and the mismatch log. When the
      dictionary and the log hold what the pages `seen` so far give, they
      afterwards hold what those pages and this one give. */
  method Record(pepCount: Counts, log: seq<Mismatch>, ghost seen: seq<Observation>, o: Observation)
    returns (counted: Counts, logged: seq<Mismatch>)
    requires pepCount == Tally(Statuses(seen)) && log == Mismatches(seen)
    ensures counted == Tally(Statuses(seen + [o]))
    ensures logged == Mismatches(seen + [o])
  {
    counted := Increment(pepCount, o.status);
    CountedNext(seen, o);
    LoggedNext(seen, o);
    if o.status in o.expected {
      logged := log;
    } else {
      logged := log + [Report(o)];
    }
  }

  /** `pep(session)`: the tally is a dictionary the loop updates in place,
      and a mismatch is logged as soon as it is seen. */
  method Pep(session: Session) returns (r: Result<Option<Table>, Error>, log: seq<Mismatch>)
    ensures r == PepOf(session)
    ensures log == PepLogOf(session)
  {
    log := [];
    var soup := GetSoup(session, PepDocUrl);
    if soup.Err? {
      return Err(soup.error), log;
    }
    if soup.value.None? {
      return Ok(None), log;
    }
    var index := IndexRows(soup.value.value);
    if index.Err? {
      return Err(index.error), log;
    }
    r, log := CountStatuses(session, index.value);
  }

  /** The loop of `pep` over the index rows, and the final total. */
  method CountStatuses(session: Session, trs: seq<Node>) returns (r: Result<Option<Table>, Error>, log: seq<Mismatch>)
    ensures r == IndexTable(session, trs)
    ensures log == Mismatches(Collect(trs, PepStep(session)).items)
  {
    log := [];
    var step := PepStep(session);
    var pepCount: Counts := [];
    ghost var seen: seq<Observation> := [];
    var i := 0;
    while i < |trs|
      invariant 0 <= i <= |trs|
      invariant Collect(trs[..i], step) == Progress(seen, None)
      invariant pepCount == Tally(Statuses(seen))
      invariant log == Mismatches(seen)
    {
      var row := NextRow(session, trs, i, seen);
      if row.Err? {
        return Err(row.error), log;
      }
      if row.value.Some? {
        pepCount, log := Record(pepCount, log, seen, row.value.value);
        seen := seen + [row.value.value];
      }
      i := i + 1;
    }
    assert trs[..i] == trs;
    r := Finish(session, trs, seen, pepCount);
  }

  /** One turn of the loop of `pep(session)`: the row at `i` is read, and
      what the loop has seen so far either stops or grows by its page. */
  method NextRow(session: Session, trs: seq<Node>, i: nat, ghost seen: seq<Observation>)
    returns (row: Result<Option<Observation>, Error>)
    requires i < |trs|
    requires Collect(trs[..i], PepStep(session)) == Progress(seen, None)
    ensures row == PepStep(session)(trs[i])
    ensures row.Err? ==>
      && IndexTable(session, trs) == Err(row.error)
      && Mismatches(Collect(trs, PepStep(session)).items) == Mismatches(seen)
    ensures row.Ok? ==>
      Collect(trs[..i + 1], PepStep(session)) ==
        Progress(seen + (if row.value.Some? then [row.value.value] else []), None)
  {
    row := FetchPepRow(session, trs[i]);
    CollectStep(trs, i, PepStep(session), seen);
    if row.Err? {
      IndexTableStops(session, trs, seen, row.error);
    }
  }

  /** The end of `pep(session)`: the total goes into the dictionary under
      "Total" and the dictionary becomes the rows under the header. */
  method Finish(session: Session, trs: seq<Node>, ghost seen: seq<Observation>, pepCount: Counts)
    returns (r: Result<Option<Table>, Error>)
    requires Collect(trs, PepStep(session)) == Progress(seen, None)
    requires pepCount == Tally(Statuses(seen))
    ensures r == IndexTable(session, trs)
  {
    IndexTableFinishes(session, trs, seen);
    var totalled := Totalled(pepCount);
    r := Ok(Some([Header] + CountRows(totalled)));
  }

  lemma IndexTableStops(session: Session, trs: seq<Node>, seen: seq<Observation>, e: Error)
    requires Collect(trs, PepStep(session)) == Progress(seen, Some(e))
    ensures IndexTable(session, trs) == Err(e)
    ensures Mismatches(Collect(trs, PepStep(session)).items) == Mismatches(seen)
  {
  }

  lemma IndexTableFinishes(session: Session, trs: seq<Node>, seen: seq<Observation>)
    requires Collect(trs, PepStep(session)) == Progress(seen, None)
    ensures IndexTable(session, trs) == Ok(Some([Header] + CountRows(Totalled(Tally(Statuses(seen))))))
    ensures Mismatches(Collect(trs, PepStep(session)).items) == Mismatches(seen)
  {
  }

  /** A table comes back only when the index was fetched and every one of
      its rows was read without an exception; it is built from the statuses
      of the pages that were fetched, in index order. */
  lemma PepTable(session: Session, t: Table)
    requires PepOf(session) == Ok(Some(t))
    ensures session.get(PepDocUrl).Served?
    ensures var trs := IndexRows(session.get(PepDocUrl).parsed(DefaultEncoding));
      && trs.Ok?
      && (forall k :: 0 <= k < |trs.value| ==> PepRow(session, trs.value[k]).Ok?)
      && t == CountTable(Statuses(Kept(trs.value, PepStep(session))))
  {
    var trs := IndexRows(session.get(PepDocUrl).parsed(DefaultEncoding)).value;
    var step := PepStep(session);
    CollectMeaning(trs, step);
    assert forall k :: 0 <= k < |trs| ==> step(trs[k]) == PepRow(session, trs[k]);
  }

  /** The table built from the statuses read. */
  function CountTable(statuses: seq<string>): Table {
    [Header] + CountRows(Totalled(Tally(statuses)))
  }

  /** The table is the header, then one row per distinct status in order
      of first appearance with the number of pages showing it, then the
      total number of pages read; a page whose status is literally "Total"
      has its count overwritten by that total in place. */
  lemma CountTableMeaning(statuses: seq<string>)
    ensures var t := CountTable(statuses);
      && Rectangular(t) && t[0] == Header
      && (forall k :: 1 <= k < |t| ==> t[k][0].Text? && t[k][1].Count?)
      && (forall k :: 1 <= k < |t| && t[k][0].text != "Total" ==>
            t[k][1].count == Occurrences(statuses, t[k][0].text))
      && ("Total" !in statuses ==>
            && |t| == |FirstSeen(statuses)| + 2 && t[|t| - 1] == [Text("Total"), Count(|statuses|)]
            && forall k :: 0 <= k < |FirstSeen(statuses)| ==> t[k + 1][0] == Text(FirstSeen(statuses)[k]))
  {
    CountTableShape(statuses);
    CountTableCounts(statuses);
    if "Total" !in statuses {
      CountTableTotal(statuses);
    }
  }

  lemma CountTableShape(statuses: seq<string>)
    ensures var t := CountTable(statuses);
      && Rectangular(t) && t[0] == Header
      && (forall k :: 1 <= k < |t| ==> t[k][0].Text? && t[k][1].Count?)
  {
    CountRowsShape(Totalled(Tally(statuses)));
  }

  /** The header over the rows of any dictionary makes a two-column table. */
  lemma CountRowsShape(d: Counts)
    ensures var t := [Header] + CountRows(d);
      && Rectangular(t) && t[0] == Header
      && (forall k :: 1 <= k < |t| ==> t[k][0].Text? && t[k][1].Count?)
  {
    var rows := CountRows(d);
    var t: Table := [Header] + rows;
    forall k | 1 <= k < |t| ensures |t[k]| == 2 && t[k][0].Text? && t[k][1].Count? {
      assert t[k] == rows[k - 1];
    }
  }

  lemma CountTableCounts(statuses: seq<string>)
    ensures var t := CountTable(statuses);
      forall k :: 1 <= k < |t| && t[k][0].text != "Total" ==>
        t[k][1].count == Occurrences(statuses, t[k][0].text)
  {
    var t: Table := CountTable(statuses);
    var d := Tally(statuses);
    var rows := CountRows(Totalled(d));
    TallyMeaning(statuses);
    FirstSeenMeaning(statuses);
    forall k | 1 <= k < |t| && t[k][0].text != "Total"
      ensures t[k][1].count == Occurrences(statuses, t[k][0].text)
    {
      assert t[k] == rows[k - 1];
      TotalledEntry(d, k - 1);
    }
  }

  lemma CountTableTotal(statuses: seq<string>)
    requires "Total" !in statuses
    ensures var t := CountTable(statuses);
      && |t| == |FirstSeen(statuses)| + 2 && t[|t| - 1] == [Text("Total"), Count(|statuses|)]
      && forall k :: 0 <= k < |FirstSeen(statuses)| ==> t[k + 1][0] == Text(FirstSeen(statuses)[k])
  {
    CountTableAppendsTotal(statuses);
    TallyKeys(statuses);
    TotalRowLast(Tally(statuses), |statuses|);
  }

  /** With no status "Total", the table is the header, the rows of the
      tally and the row of the total. */
  lemma CountTableAppendsTotal(statuses: seq<string>)
    requires "Total" !in statuses
    ensures var rows := CountRows(Tally(statuses) + [("Total", |statuses|)]);
      && |CountTable(statuses)| == |rows| + 1
      && forall k :: 0 <= k < |rows| ==> CountTable(statuses)[k + 1] == rows[k]
  {
    TotalComesLast(statuses);
  }

  /** The rows of a tally with "Total" appended: one labelled row per entry,
      then the total. */
  lemma TotalRowLast(d: Counts, n: nat)
    ensures var rows := CountRows(d + [("Total", n)]);
      && |rows| == |d| + 1 && rows[|d|] == [Text("Total"), Count(n)]
      && forall k :: 0 <= k < |d| ==> rows[k][0] == Text(Keys(d)[k])
  {
    var e := d + [("Total", n)];
    assert e[|d|] == ("Total", n);
    forall k | 0 <= k < |d| ensures CountRows(e)[k][0] == Text(Keys(d)[k]) {
      assert e[k] == d[k];
    }
  }

  /** An entry other than "Total" in the totalled tally holds what the
      tally counted for it. */
  lemma TotalledEntry(d: Counts, k: nat)
    requires k < |Totalled(d)| && Totalled(d)[k].0 != "Total"
    requires NoDuplicates(Keys(d))
    ensures Totalled(d)[k].1 == Lookup(d, Totalled(d)[k].0)
  {
    var t := Totalled(d);
    PutKeys(d, "Total", Sum(d));
    if "Total" !in Keys(d) {
      NoDuplicatesAppend(Keys(d), "Total");
    }
    GetAtDistinct(t, k);
  }

  /** Three pages showing Active, Active and Final give the rows Active 2,
      Final 1 and Total 3. */
  lemma CountTableExample(statuses: seq<string>)
    requires statuses == ["Active", "Active", "Final"]
    ensures CountTable(statuses) ==
      [Header, [Text("Active"), Count(2)], [Text("Final"), Count(1)], [Text("Total"), Count(3)]]
  {
    var s0: seq<string> := [];
    TallyAppend(s0, "Active");
    assert Tally(s0 + ["Active"]) == [("Active", 1)];
    TallyAppend(s0 + ["Active"], "Active");
    assert Tally(s0 + ["Active"] + ["Active"]) == [("Active", 2)];
    TallyAppend(s0 + ["Active"] + ["Active"], "Final");
    assert s0 + ["Active"] + ["Active"] + ["Final"] == statuses;
    var d := Tally(statuses);
    assert d == [("Active", 2), ("Final", 1)];
    assert "Total" !in statuses;
    TotalComesLast(statuses);
    assert Totalled(d) == [("Active", 2), ("Final", 1), ("Total", 3)];
    assert CountRows(Totalled(d)) ==
      [[Text("Active"), Count(2)], [Text("Final"), Count(1)], [Text("Total"), Count(3)]];
  }

  /** A page listed with no status letter whose card says Rejected is not
      an error: the empty letter is a key of the expected statuses, and the
      page is logged as a mismatch. */
  lemma EmptyCodeMismatch(o: Observation)
    requires o.code == [] && o.status == "Rejected" && o.expected == ExpectedStatus[o.code]
    ensures o.code in ExpectedStatus
    ensures Mismatches([o]) == [Report(o)]
  {
    ExpectedStatusEntries();
    assert o.expected == ["Draft", "Active"];
    assert o.status != "Draft" && o.status != "Active";
    assert [o][..0] == [];
  }
}
