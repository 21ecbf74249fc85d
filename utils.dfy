/** The page fetcher and the tag locator. The HTTP session is abstract: for
    each URL it says what one GET would give. */
module Utils {
  import opened Wrappers
  import opened Html
  import opened Exceptions

  const DefaultEncoding := "utf-8"

  /** What one `session.get(url)` does. */
  datatype Reply =
    /** A response: the tree lxml builds from the body decoded with a given
        encoding, the raw body, and the encoding taken from the headers. */
    | Served(parsed: string -> Node, content: seq<bv8>, encoding: string)
    /** `session.get` raises `requests.RequestException`. */
    | RequestFailed(reason: string)
    /** `session.get` raises any other exception. */
    | Crashed(message: string)

  datatype Session = Session(get: string -> Reply)

  /** A `requests.Response`; its `encoding` is a field that callers set. */
  class Response {
    var encoding: string
    const parsed: string -> Node
    const content: seq<bv8>

    constructor (reply: Reply)
      requires reply.Served?
      ensures encoding == reply.encoding && parsed == reply.parsed && content == reply.content
    {
      encoding := reply.encoding;
      parsed := reply.parsed;
      content := reply.content;
    }

    /** `BeautifulSoup(response.text, 'lxml')`: the body is decoded with the
        encoding the response holds now. */
    function Soup(): Node
      reads this
    {
      parsed(encoding)
    }
  }

  /** `session.get(url)`: a new response object, or the exception raised. */
  method Get(session: Session, url: string) returns (r: Result<Response, Error>)
    ensures session.get(url).Served? ==>
      r.Ok? && fresh(r.value) && r.value.parsed == session.get(url).parsed
      && r.value.content == session.get(url).content && r.value.encoding == session.get(url).encoding
    ensures session.get(url).RequestFailed? ==> r == Err(RequestError(session.get(url).reason))
    ensures session.get(url).Crashed? ==> r == Err(SessionError(session.get(url).message))
  {
    var reply := session.get(url);
    match reply
    case Served(_, _, _) =>
      var response := new Response(reply);
      r := Ok(response);
    case RequestFailed(reason) =>
      r := Err(RequestError(reason));
    case Crashed(message) =>
      r := Err(SessionError(message));
  }

  /** `get_response`: a transport failure becomes `None` instead of an
      exception; a response gets the requested encoding before it is
      returned. Any other exception from the session propagates. */
  method GetResponse(session: Session, url: string, encoding: string := DefaultEncoding)
    returns (r: Result<Option<Response>, Error>)
    ensures session.get(url).Served? ==>
      r.Ok? && r.value.Some? && r.value.value.encoding == encoding
      && r.value.value.parsed == session.get(url).parsed && r.value.value.content == session.get(url).content
    ensures session.get(url).RequestFailed? <==> r == Ok(None)
    ensures session.get(url).Crashed? ==> r == Err(SessionError(session.get(url).message))
  {
    var got := Get(session, url);
    match got
    case Ok(response) =>
      response.encoding := encoding;
      r := Ok(Some(response));
    case Err(e) =>
      if e.RequestError? {
        r := Ok(None);
      } else {
        r := Err(e);
      }
  }

  /** The document a GET of a URL yields after `get_soup`. */
  function SoupOf(reply: Reply): Result<Option<Node>, Error> {
    match reply
    case Served(parsed, _, _) => Ok(Some(parsed(DefaultEncoding)))
    case RequestFailed(_) => Ok(None)
    case Crashed(message) => Err(SessionError(message))
  }

  /** `get_soup`: no document exactly when `get_response` gave no response;
      otherwise the page parsed from its body decoded as UTF-8. */
  method GetSoup(session: Session, url: string) returns (r: Result<Option<Node>, Error>)
    ensures r.Ok? && r.value.None? <==> session.get(url).RequestFailed?
    ensures r == SoupOf(session.get(url))
  {
    var response := GetResponse(session, url);
    match response
    case Err(e) =>
      r := Err(e);
    case Ok(None) =>
      r := Ok(None);
    case Ok(Some(resp)) =>
      r := Ok(Some(resp.Soup()));
  }

  /** The query `find_tag` runs: an absent filter searches with an empty one. */
  function TagQuery(tag: string, attrs: Option<Filter>): Query {
    ByTag(tag, if attrs.Some? then attrs.value else [])
  }

  /** `find_tag`: the first descendant that `find_all` would list, never
      nothing: when there is none it raises, naming the tag and the filter. */
  function FindTag(n: Node, tag: string, attrs: Option<Filter> := None): (r: Result<Node, Error>)
    ensures r.Ok? <==> FindAll(n, TagQuery(tag, attrs)) != []
    ensures r.Ok? ==> r.value == FindAll(n, TagQuery(tag, attrs))[0] && Satisfies(r.value, TagQuery(tag, attrs))
    ensures r.Err? ==> r.error == TagNotFound(tag, attrs)
  {
    FindIsFirstOfFindAll(n, TagQuery(tag, attrs));
    match Find(n, TagQuery(tag, attrs))
    case None => Err(TagNotFound(tag, attrs))
    case Some((_, found)) => Ok(found)
  }

  /** Without a filter the locator accepts any attributes: it finds an
      element exactly when some descendant has the tag's name, and finds the
      same element as with an empty filter. */
  lemma FindTagWithoutFilter(n: Node, tag: string)
    ensures FindTag(n, tag).Ok? <==>
      exists k :: 0 <= k < |Descendants(n)| && Descendants(n)[k].1.Element? && Descendants(n)[k].1.name == tag
    ensures FindTag(n, tag).Ok? ==> FindTag(n, tag) == FindTag(n, tag, Some([]))
  {
    var q := TagQuery(tag, None);
    var ds := Descendants(n);
    FindIsFirstOfFindAll(n, q);
    var f := FirstFrom(ds, q, 0);
    if f.Some? {
      assert Find(n, q).Some?;
      assert FindTag(n, tag).Ok?;
      var k := f.value;
      assert 0 <= k < |Descendants(n)| && Descendants(n)[k].1.Element? && Descendants(n)[k].1.name == tag;
    } else {
      forall k | 0 <= k < |ds| ensures !(ds[k].1.Element? && ds[k].1.name == tag) {
        assert !Satisfies(ds[k].1, q);
      }
    }
  }
}
