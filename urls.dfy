/** URL handling: the part of `urllib.parse.urljoin` the scraper relies on,
    and the file name taken from an archive URL. */
module Urls {
  import opened Strings

  /** `url.split('/')[-1]`: the text after the last slash. */
  function LastSegment(url: string): string {
    var parts := Split(url, '/');
    parts[|parts| - 1]
  }

  /** `t` ends `s`, holds no slash, and is all of `s` or follows a slash. */
  predicate IsFinalSegment(t: string, s: string) {
    && |t| <= |s| && s[|s| - |t|..] == t
    && '/' !in t
    && (|t| == |s| || s[|s| - |t| - 1] == '/')
  }

  /** Joined pieces end with the last piece, right after a separator when
      there is more than one piece. */
  lemma {:induction false} JoinEndsWithLast(parts: seq<string>, sep: char)
    requires |parts| >= 1
    ensures var s, t := Join(parts, sep), parts[|parts| - 1];
      |t| <= |s| && s[|s| - |t|..] == t && (|parts| > 1 ==> |t| < |s| && s[|s| - |t| - 1] == sep)
  {
    if |parts| > 1 {
      JoinEndsWithLast(parts[1..], sep);
      var rest := Join(parts[1..], sep);
      assert Join(parts, sep) == (parts[0] + [sep]) + rest;
      var t := parts[|parts| - 1];
      assert t == parts[1..][|parts[1..]| - 1];
      if |parts| == 2 {
        assert rest == t;
      }
    }
  }

  /** The last segment is exactly the final slash-free stretch of the URL. */
  lemma LastSegmentIsFinal(url: string)
    ensures IsFinalSegment(LastSegment(url), url)
  {
    JoinEndsWithLast(Split(url, '/'), '/');
  }

  /** A slash-free ending of a string is also an ending of its final
      slash-free stretch. */
  lemma FinalSegmentEndsWith(t: string, s: string, suffix: string)
    requires IsFinalSegment(t, s)
    requires '/' !in suffix && |suffix| <= |s| && s[|s| - |suffix|..] == suffix
    ensures |suffix| <= |t| && t[|t| - |suffix|..] == suffix
  {
    assert t[|t| - |suffix|..] == s[|s| - |suffix|..];
  }

  /** A URL that ends with a slash-free text keeps that ending in its last
      segment. */
  lemma LastSegmentKeepsEnding(url: string, ending: string)
    requires '/' !in ending && |ending| <= |url| && url[|url| - |ending|..] == ending
    ensures '/' !in LastSegment(url)
    ensures |ending| <= |LastSegment(url)| && LastSegment(url)[|LastSegment(url)| - |ending|..] == ending
  {
    LastSegmentIsFinal(url);
    FinalSegmentEndsWith(LastSegment(url), url, ending);
  }

  /** A string has only one final slash-free stretch. */
  lemma FinalSegmentUnique(t1: string, t2: string, s: string)
    requires IsFinalSegment(t1, s) && IsFinalSegment(t2, s)
    ensures t1 == t2
  {
  }

  /** Putting a prefix in front does not change the last segment when the
      prefix is empty or ends with a slash, or when the rest has a slash. */
  lemma LastSegmentOfAppend(a: string, b: string)
    requires a == [] || a[|a| - 1] == '/' || '/' in b
    ensures LastSegment(a + b) == LastSegment(b)
  {
    LastSegmentIsFinal(b);
    FinalSegmentOfAppend(LastSegment(b), a, b);
    LastSegmentIsFinal(a + b);
    FinalSegmentUnique(LastSegment(b), LastSegment(a + b), a + b);
  }

  /** The final segment of `b` stays final behind a prefix that is empty or
      ends with a slash, and behind any prefix when `b` has a slash. */
  lemma FinalSegmentOfAppend(t: string, a: string, b: string)
    requires IsFinalSegment(t, b)
    requires a == [] || a[|a| - 1] == '/' || '/' in b
    ensures IsFinalSegment(t, a + b)
  {
    assert (a + b)[|a + b| - |t|..] == b[|b| - |t|..];
    if |t| == |b| {
      if '/' in b {
        assert false;
      }
      assert a == [] || (a + b)[|a + b| - |t| - 1] == a[|a| - 1];
    } else {
      assert (a + b)[|a + b| - |t| - 1] == b[|b| - |t| - 1];
    }
  }

  predicate StartsWith(s: string, prefix: string) {
    prefix <= s
  }

  /** The reference carries its own scheme (only the web schemes the site
      uses are recognised). */
  predicate HasScheme(ref: string) {
    StartsWith(ref, "http://") || StartsWith(ref, "https://")
  }

  /** The length of the host part of `rest`: everything before its first slash. */
  function HostLength(rest: string): (n: nat)
    ensures n <= |rest| && '/' !in rest[..n]
    ensures n < |rest| ==> rest[n] == '/'
  {
    if rest == [] || rest[0] == '/' then 0 else 1 + HostLength(rest[1..])
  }

  /** `scheme://host` of an absolute URL; empty for anything else. */
  function Origin(base: string): string {
    if StartsWith(base, "https://") then base[..8 + HostLength(base[8..])]
    else if StartsWith(base, "http://") then base[..7 + HostLength(base[7..])]
    else ""
  }

  /** The base URL up to and including its last slash. */
  function Directory(base: string): (d: string)
    ensures d == [] || d[|d| - 1] == '/'
    ensures d + LastSegment(base) == base
  {
    LastSegmentIsFinal(base);
    var d := base[..|base| - |LastSegment(base)|];
    assert base == d + base[|base| - |LastSegment(base)|..];
    d
  }

  /** `urljoin(base, ref)` for the references the site's pages hold: an empty
      reference gives the base, an absolute one replaces it, one starting
      with a slash keeps only the base's origin, and any other is resolved
      against the base's directory. */
  function UrlJoin(base: string, ref: string): string {
    if ref == [] then base
    else if HasScheme(ref) then ref
    else if ref[0] == '/' then Origin(base) + ref
    else Directory(base) + ref
  }

  /** A relative reference below a base that ends with a slash is appended
      to the base. */
  lemma JoinBelowDirectory(base: string, ref: string)
    requires base != [] && base[|base| - 1] == '/'
    requires ref != [] && ref[0] != '/' && !HasScheme(ref)
    ensures UrlJoin(base, ref) == base + ref
  {
    LastSegmentIsFinal(base);
    assert IsFinalSegment("", base);
    FinalSegmentUnique("", LastSegment(base), base);
    assert Directory(base) == base;
  }

  /** However a non-empty link is resolved, the file it names keeps its name:
      the last segment of the joined URL is the last segment of the link. */
  lemma JoinedLastSegment(base: string, ref: string)
    requires ref != []
    ensures LastSegment(UrlJoin(base, ref)) == LastSegment(ref)
  {
    if HasScheme(ref) {
    } else if ref[0] == '/' {
      LastSegmentOfAppend(Origin(base), ref);
    } else {
      LastSegmentOfAppend(Directory(base), ref);
    }
  }
}
