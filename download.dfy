/** `download`: find the link to the A4 PDF archive of the documentation on
    the downloads page, fetch the archive, and save its bytes under the last
    segment of the archive's URL. */
module Download {
  import opened Wrappers
  import opened Html
  import opened Urls
  import opened Exceptions
  import opened Constants
  import opened Utils

  /** `urljoin(MAIN_DOC_URL, 'download.html')`, written out. */
  const DownloadsUrl := "https://docs.python.org/3/download.html"

  lemma DownloadsUrlIsJoined()
    ensures DownloadsUrl == UrlJoin(MainDocUrl, "download.html")
  {
    var base, ref := MainDocUrl, "download.html";
    assert !HasScheme(ref) by {
      assert ref[0] == 'd' && "http://"[0] == 'h' && "https://"[0] == 'h';
    }
    assert base + ref == DownloadsUrl;
    JoinBelowDirectory(base, ref);
  }

  /** The file written: its name in the downloads directory and its bytes. */
  datatype Archive = Archive(name: string, content: seq<bv8>)

  /** The `href` of the first link in the documentation table whose `href`
      matches `.+pdf-a4\.zip$`. */
  function ArchiveLink(doc: Node): (r: Result<string, Error>)
    ensures r.Ok? ==> EndsWithArchiveSuffix(r.value)
  {
    var mainTag :- FindTag(doc, "div", Some([("role", Is("main"))]));
    var tableTag :- FindTag(mainTag, "table", Some([("class", Is("docutils"))]));
    var filter: Filter := [("href", PdfA4Zip)];
    var pdfA4Tag :- FindTag(tableTag, "a", Some(filter));
    assert filter[0].0 in pdfA4Tag.attrs && PassesAttr(filter[0].0, filter[0].1, pdfA4Tag.attrs[filter[0].0]);
    assert filter[0].0 != "class";
    Ok(pdfA4Tag.attrs["href"])
  }

  /** What the routine saves: nothing when the downloads page cannot be
      fetched, the first exception raised, or the archive. A failure to
      fetch the archive itself is not caught. */
  function DownloadOf(session: Session): Result<Option<Archive>, Error> {
    var soup :- SoupOf(session.get(DownloadsUrl));
    if soup.None? then Ok(None)
    else
      var pdfA4Link :- ArchiveLink(soup.value);
      var archiveUrl := UrlJoin(DownloadsUrl, pdfA4Link);
      match session.get(archiveUrl)
      case Served(_, content, _) => Ok(Some(Archive(LastSegment(archiveUrl), content)))
      case RequestFailed(reason) => Err(RequestError(reason))
      case Crashed(message) => Err(SessionError(message))
  }

  /** `download(session)`. */
  method Download(session: Session) returns (saved: Result<Option<Archive>, Error>)
    ensures saved == DownloadOf(session)
  {
    var soup := GetSoup(session, DownloadsUrl);
    if soup.Err? {
      return Err(soup.error);
    }
    if soup.value.None? {
      return Ok(None);
    }
    var pdfA4Link := ArchiveLink(soup.value.value);
    if pdfA4Link.Err? {
      return Err(pdfA4Link.error);
    }
    var archiveUrl := UrlJoin(DownloadsUrl, pdfA4Link.value);
    var filename := LastSegment(archiveUrl);
    var response := Get(session, archiveUrl);
    if response.Err? {
      return Err(response.error);
    }
    saved := Ok(Some(Archive(filename, response.value.content)));
  }

  /** A file name with no slash that ends with `pdf-a4.zip`, or with it and
      the newline the pattern's `$` lets through. */
  predicate IsArchiveName(name: string) {
    && '/' !in name
    && ((|name| >= |ArchiveSuffix| && name[|name| - |ArchiveSuffix|..] == ArchiveSuffix)
        || (|name| > |ArchiveSuffix| && name[|name| - 1 - |ArchiveSuffix|..] == ArchiveSuffix + "\n"))
  }

  /** The last segment of a link matching the archive pattern is such a
      name. */
  lemma ArchiveNameOfLink(href: string)
    requires EndsWithArchiveSuffix(href)
    ensures IsArchiveName(LastSegment(href))
  {
    var n := |ArchiveSuffix|;
    if |href| > n && href[|href| - n..] == ArchiveSuffix {
      assert '/' !in ArchiveSuffix;
      LastSegmentKeepsEnding(href, ArchiveSuffix);
    } else {
      var end := ArchiveSuffix + "\n";
      assert href[|href| - 1 - n..] == end;
      assert '/' !in end;
      LastSegmentKeepsEnding(href, end);
    }
  }

  /** The saved archive holds exactly the bytes served for the archive's
      URL, under a name that is the last segment of the link on the page:
      no slash, ending with `pdf-a4.zip`. */
  lemma DownloadedArchive(session: Session, a: Archive)
    requires DownloadOf(session) == Ok(Some(a))
    ensures session.get(DownloadsUrl).Served?
    ensures var href := ArchiveLink(session.get(DownloadsUrl).parsed(DefaultEncoding));
      && href.Ok?
      && session.get(UrlJoin(DownloadsUrl, href.value)).Served?
      && a.content == session.get(UrlJoin(DownloadsUrl, href.value)).content
      && a.name == LastSegment(href.value)
    ensures IsArchiveName(a.name)
  {
    var href := ArchiveLink(session.get(DownloadsUrl).parsed(DefaultEncoding)).value;
    JoinedLastSegment(DownloadsUrl, href);
    ArchiveNameOfLink(href);
  }
}
