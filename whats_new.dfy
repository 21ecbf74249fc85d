/** `whats_new`: one row per version's "What's New" page, taken from the
    index of those pages. */
module WhatsNew {
  import opened Wrappers
  import opened Html
  import opened Strings
  import opened Urls
  import opened Exceptions
  import opened Constants
  import opened Utils
  import opened Tables

  /** `urljoin(MAIN_DOC_URL, 'whatsnew/')`, written out. */
  const WhatsNewUrl := "https://docs.python.org/3/whatsnew/"

  lemma WhatsNewUrlIsJoined()
    ensures WhatsNewUrl == UrlJoin(MainDocUrl, "whatsnew/")
  {
    var base, ref := MainDocUrl, "whatsnew/";
    assert !HasScheme(ref) by {
      assert ref[0] == 'w' && "http://"[0] == 'h' && "https://"[0] == 'h';
    }
    assert base + ref == WhatsNewUrl;
    JoinBelowDirectory(base, ref);
  }

  const Header: Row := [Text("Ссылка на статью"), Text("Заголовок"), Text("Редактор, Автор")]

  /** The list items of the index, one per version. */
  function Items(doc: Node): Result<seq<Node>, Error> {
    var mainDiv :- FindTag(doc, "section", Some([("id", Is("what-s-new-in-python"))]));
    var divWithUl :- FindTag(mainDiv, "div", Some([("class", Is("toctree-wrapper"))]));
    Ok(FindAll(divWithUl, ByTag("li", [("class", Is("toctree-l1"))])))
  }

  /** The absolute URL of an item's detail page. The item's first link is
      found with a plain `find`, so an item without one fails on `None['href']`. */
  function ItemLink(li: Node): Result<string, Error> {
    match Find(li, ByTag("a", []))
    case None => Err(TypeError("'NoneType' object is not subscriptable"))
    case Some((_, a)) =>
      if "href" in a.attrs then Ok(UrlJoin(WhatsNewUrl, a.attrs["href"])) else Err(KeyError("href"))
  }

  /** What one item contributes: no row when its page cannot be fetched,
      otherwise the page's URL, its top heading and its first definition
      list with every newline turned into a space. */
  function ItemRow(session: Session, li: Node): (r: Result<Option<Row>, Error>)
    ensures ItemLink(li).Ok? ==> (r == Ok(None) <==> session.get(ItemLink(li).value).RequestFailed?)
    ensures r.Ok? && r.value.Some? ==>
      ItemLink(li).Ok? && |r.value.value| == 3 && r.value.value[0] == Text(ItemLink(li).value)
      && r.value.value[1].Text? && r.value.value[2].Text? && '\n' !in r.value.value[2].text
    ensures ItemLink(li).Err? ==> r == Err(ItemLink(li).error)
    ensures ItemLink(li).Ok? && session.get(ItemLink(li).value).Crashed? ==>
      r == Err(SessionError(session.get(ItemLink(li).value).message))
    ensures ItemLink(li).Ok? && session.get(ItemLink(li).value).Served? ==>
      var page := session.get(ItemLink(li).value).parsed(DefaultEncoding);
      && (FindTag(page, "h1").Err? ==> r == Err(TagNotFound("h1", None)))
      && (FindTag(page, "h1").Ok? && FindTag(page, "dl").Err? ==> r == Err(TagNotFound("dl", None)))
      && (FindTag(page, "h1").Ok? && FindTag(page, "dl").Ok? ==>
            r.Ok? && r.value.Some?
            && r.value.value[1] == Text(TextOf(FindTag(page, "h1").value))
            && r.value.value[2] == Text(ReplaceNewlines(TextOf(FindTag(page, "dl").value))))
  {
    var link :- ItemLink(li);
    match session.get(link)
    case RequestFailed(_) => Ok(None)
    case Crashed(message) => Err(SessionError(message))
    case Served(parsed, _, _) =>
      var doc := parsed(DefaultEncoding);
      var h1 :- FindTag(doc, "h1");
      var dl :- FindTag(doc, "dl");
      Ok(Some([Text(link), Text(TextOf(h1)), Text(ReplaceNewlines(TextOf(dl)))]))
  }

  function ItemStep(session: Session): Node -> Result<Option<Row>, Error> {
    li => ItemRow(session, li)
  }

  /** The routine's whole effect: nothing when the index cannot be fetched,
      the first exception raised, or the table. */
  function WhatsNewOf(session: Session): Result<Option<Table>, Error> {
    var soup :- SoupOf(session.get(WhatsNewUrl));
    if soup.None? then Ok(None)
    else
      var items :- Items(soup.value);
      SectionsTable(session, items)
  }

  /** What the loop over the index's items ends with: the first exception
      raised, or the header followed by the rows of the pages fetched. */
  function SectionsTable(session: Session, sections: seq<Node>): Result<Option<Table>, Error> {
    var p := Collect(sections, ItemStep(session));
    if p.failure.Some? then Err(p.failure.value) else Ok(Some([Header] + p.items))
  }

  /** The body of the loop over the index's items: fetch the item's page
      and build its row. */
  method FetchItemRow(session: Session, section: Node) returns (row: Result<Option<Row>, Error>)
    ensures row == ItemRow(session, section)
  {
    var link := ItemLink(section);
    if link.Err? {
      return Err(link.error);
    }
    var response := GetResponse(session, link.value);
    if response.Err? {
      return Err(response.error);
    }
    if response.value.None? {
      return Ok(None);
    }
    var page := response.value.value.Soup();
    var h1 := FindTag(page, "h1");
    if h1.Err? {
      return Err(h1.error);
    }
    var dl := FindTag(page, "dl");
    if dl.Err? {
      return Err(dl.error);
    }
    var dlText := ReplaceNewlines(TextOf(dl.value));
    row := Ok(Some([Text(link.value), Text(TextOf(h1.value)), Text(dlText)]));
  }

  /** `whats_new(session)`. */
  method WhatsNew(session: Session) returns (r: Result<Option<Table>, Error>)
    ensures r == WhatsNewOf(session)
  {
    var soup := GetSoup(session, WhatsNewUrl);
    if soup.Err? {
      return Err(soup.error);
    }
    if soup.value.None? {
      return Ok(None);
    }
    var items := Items(soup.value.value);
    if items.Err? {
      return Err(items.error);
    }
    r := FetchSections(session, items.value);
  }

  /** The loop of `whats_new` over the index's items. */
  method FetchSections(session: Session, sections: seq<Node>) returns (r: Result<Option<Table>, Error>)
    ensures r == SectionsTable(session, sections)
  {
    var step := ItemStep(session);
    var result: Table := [Header];
    ghost var rows: seq<Row> := [];
    var i := 0;
    while i < |sections|
      invariant 0 <= i <= |sections|
      invariant result == [Header] + rows
      invariant Collect(sections[..i], step) == Progress(rows, None)
    {
      var row := NextItem(session, sections, i, rows);
      if row.Err? {
        return Err(row.error);
      }
      if row.value.Some? {
        result := result + [row.value.value];
        rows := rows + [row.value.value];
      }
      i := i + 1;
    }
    assert sections[..i] == sections;
    r := Ok(Some(result));
  }

  /** One turn of the loop of `whats_new`: the item at `i` is read, and the
      rows built so far either stop the loop or grow by its row. */
  method NextItem(session: Session, sections: seq<Node>, i: nat, ghost rows: seq<Row>)
    returns (row: Result<Option<Row>, Error>)
    requires i < |sections|
    requires Collect(sections[..i], ItemStep(session)) == Progress(rows, None)
    ensures row == ItemStep(session)(sections[i])
    ensures row.Err? ==> SectionsTable(session, sections) == Err(row.error)
    ensures row.Ok? ==>
      Collect(sections[..i + 1], ItemStep(session)) ==
        Progress(rows + (if row.value.Some? then [row.value.value] else []), None)
  {
    row := FetchItemRow(session, sections[i]);
    CollectStep(sections, i, ItemStep(session), rows);
  }

  /** A table comes back only when the index and every fetched detail page
      had the expected structure; it is the header followed by one row per
      item whose page was fetched, in index order, every row has the three
      fields of the header, and no dl text holds a newline. */
  lemma WhatsNewTable(session: Session, t: Table)
    requires WhatsNewOf(session) == Ok(Some(t))
    ensures session.get(WhatsNewUrl).Served?
    ensures var items := Items(session.get(WhatsNewUrl).parsed(DefaultEncoding));
      && items.Ok?
      && (forall k :: 0 <= k < |items.value| ==> ItemRow(session, items.value[k]).Ok?)
      && t == [Header] + Kept(items.value, ItemStep(session))
      && forall k :: 1 <= k < |t| ==> RowOf(items.value, ItemStep(session), t[k])
    ensures Rectangular(t) && t[0] == Header
    ensures forall k :: 1 <= k < |t| ==> t[k][2].Text? && '\n' !in t[k][2].text
  {
    var reply := session.get(WhatsNewUrl);
    assert reply.Served?;
    var items := Items(reply.parsed(DefaultEncoding));
    assert items.Ok? && SectionsTable(session, items.value) == Ok(Some(t));
    SectionsTableMeaning(session, items.value, t);
  }

  /** The table the loop ends with holds the header and then the rows of the
      items whose page was fetched, none of the items having raised. */
  lemma SectionsTableMeaning(session: Session, sections: seq<Node>, t: Table)
    requires SectionsTable(session, sections) == Ok(Some(t))
    ensures forall k :: 0 <= k < |sections| ==> ItemRow(session, sections[k]).Ok?
    ensures t == [Header] + Kept(sections, ItemStep(session))
    ensures Rectangular(t) && t[0] == Header
    ensures forall k :: 1 <= k < |t| ==> t[k][2].Text? && '\n' !in t[k][2].text
    ensures forall k :: 1 <= k < |t| ==> RowOf(sections, ItemStep(session), t[k])
  {
    var step := ItemStep(session);
    CollectMeaning(sections, step);
    forall k | 0 <= k < |sections| ensures ItemRow(session, sections[k]).Ok? {
      assert step(sections[k]) == ItemRow(session, sections[k]);
    }
    TableRowsFrom(sections, step, Header, t);
    KeptRows(session, sections);
    RowsShape(Kept(sections, step), t);
  }

  /** A table made of the header and rows of three fields with a
      newline-free last field. */
  lemma RowsShape(rows: seq<Row>, t: Table)
    requires forall j :: 0 <= j < |rows| ==> |rows[j]| == 3 && rows[j][2].Text? && '\n' !in rows[j][2].text
    requires t == [Header] + rows
    ensures Rectangular(t) && t[0] == Header
    ensures forall k :: 1 <= k < |t| ==> t[k][2].Text? && '\n' !in t[k][2].text
  {
    forall k | 1 <= k < |t| ensures |t[k]| == 3 && t[k][2].Text? && '\n' !in t[k][2].text {
      assert t[k] == rows[k - 1];
    }
  }

  /** Every row kept from items that raised nothing has three fields and a
      newline-free last field. */
  lemma KeptRows(session: Session, items: seq<Node>)
    requires forall k :: 0 <= k < |items| ==> ItemRow(session, items[k]).Ok?
    ensures var rows: seq<Row> := Kept(items, ItemStep(session));
      forall j :: 0 <= j < |rows| ==> |rows[j]| == 3 && rows[j][2].Text? && '\n' !in rows[j][2].text
  {
    var step := ItemStep(session);
    assert forall k :: 0 <= k < |items| ==> step(items[k]) == ItemRow(session, items[k]);
    KeptAll(items, step, (row: Row) => |row| == 3 && row[2].Text? && '\n' !in row[2].text);
  }
}
