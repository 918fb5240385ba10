/**
 * The part of `urllib.parse` that `get_local_path` reads: the network location and the path
 * of `urlparse(url)`, and `unquote`.
 *
 * `Parse` follows `urlsplit`: an optional scheme, a `//` network location ending at the first
 * `/`, `?` or `#`, then the fragment and the query are cut off; for the schemes that take
 * parameters, `urlparse` also cuts `;params` from the last path segment.
 */
module Urls {
  import opened PyText

  /** The pieces of `urlparse(url)` that `get_local_path` reads. */
  datatype UrlParts = UrlParts(netloc: string, path: string)

  /** `s.find(c, start)`: the first index at or after `start` holding `c`, or -1. */
  function FindFrom(s: string, c: char, start: nat): (r: int)
    ensures r == -1 || start <= r < |s|
    ensures r >= 0 ==> s[r] == c
    ensures forall k :: start <= k < |s| && (r == -1 || k < r) ==> s[k] != c
    decreases |s| - start
  {
    if start >= |s| then -1 else if s[start] == c then start else FindFrom(s, c, start + 1)
  }

  /** The index `find` returns is the first occurrence and no other. */
  lemma FindFromIs(s: string, c: char, start: nat, m: nat)
    requires start <= m < |s| && s[m] == c
    requires forall k :: start <= k < m ==> s[k] != c
    ensures FindFrom(s, c, start) == m
  {
  }

  /** The first index at or after `start` holding one of `stops`, or `|s|`. */
  function FirstOfFrom(s: string, stops: set<char>, start: nat): (r: nat)
    requires start <= |s|
    ensures start <= r <= |s|
    ensures r < |s| ==> s[r] in stops
    ensures forall k :: start <= k < r ==> s[k] !in stops
    decreases |s| - start
  {
    if start == |s| || s[start] in stops then start else FirstOfFrom(s, stops, start + 1)
  }

  /** `s.split(c, 1)[0]`: everything before the first `c`. */
  function BeforeFirst(s: string, c: char): (r: string)
    ensures r <= s && Lacks(r, c)
    ensures |r| < |s| ==> s[|r|] == c
  {
    var i := FindFrom(s, c, 0);
    if i < 0 then s else s[..i]
  }

  predicate AsciiLetter(c: char) {
    'a' <= c <= 'z' || 'A' <= c <= 'Z'
  }

  /** A character allowed in a scheme name. */
  predicate SchemeChar(c: char) {
    AsciiLetter(c) || '0' <= c <= '9' || c == '+' || c == '-' || c == '.'
  }

  /** The schemes for which `urlparse` splits `;params` off the path. */
  const UsesParams: seq<string> := ["", "ftp", "hdl", "prospero", "http", "imap", "https", "shttp",
                                    "rtsp", "rtsps", "rtspu", "sip", "sips", "mms", "sftp", "tel"]

  /** `x in names`, one name at a time. */
  predicate Listed(x: string, names: seq<string>)
    decreases |names|
  {
    names != [] && (names[0] == x || Listed(x, names[1..]))
  }

  /** `Listed` is list membership. */
  lemma {:induction false} ListedIsMembership(x: string, names: seq<string>)
    ensures Listed(x, names) <==> x in names
    decreases |names|
  {
    if names != [] {
      ListedIsMembership(x, names[1..]);
      assert names == [names[0]] + names[1..];
    }
  }

  /** Every one of the first `n` characters of `s` is allowed in a scheme name. */
  predicate SchemeCharsUpTo(s: string, n: nat)
    requires n <= |s|
  {
    n == 0 || (SchemeChar(s[n - 1]) && SchemeCharsUpTo(s, n - 1))
  }

  lemma {:induction false} SchemeCharsUpToAll(s: string, n: nat)
    requires n <= |s|
    ensures SchemeCharsUpTo(s, n) <==> (forall k :: 0 <= k < n ==> SchemeChar(s[k]))
  {
    if n > 0 {
      SchemeCharsUpToAll(s, n - 1);
    }
  }

  /** The lower-cased scheme and what follows its `:`; no scheme when the text before the first `:` is not one. */
  function SplitScheme(url: string): (r: (string, string))
    ensures r.0 == [] ==> r.1 == url
    ensures r.0 != [] ==> |r.0| < |url| && url[|r.0|] == ':' && Lacks(url[..|r.0|], ':') && r.1 == url[|r.0| + 1..]
  {
    var i := FindFrom(url, ':', 0);
    if i > 0 && AsciiLetter(url[0]) && SchemeCharsUpTo(url, i)
    then (Lower(url[..i]), url[i + 1..])
    else ("", url)
  }

  /** The network location and the rest, when the rest starts with `//`. */
  function SplitNetloc(rest: string): (r: (string, string))
    ensures Lacks(r.0, '/') && Lacks(r.0, '?') && Lacks(r.0, '#')
  {
    if |rest| >= 2 && rest[..2] == "//" then
      var delim := FirstOfFrom(rest, {'/', '?', '#'}, 2);
      (rest[2..delim], rest[delim..])
    else ("", rest)
  }

  /** `_splitparams`: `;params` are cut from the last path segment (from the whole path when it has no `/`). */
  function StripParams(path: string): (r: string)
    ensures r <= path
  {
    if OccursFrom(path, '/', 0) then
      var i := FindFrom(path, ';', AfterLast(path, '/'));
      if i < 0 then path else path[..i]
    else BeforeFirst(path, ';')
  }

  /** `(urlparse(url).netloc, urlparse(url).path)` */
  function Parse(url: string): (r: UrlParts)
    ensures Lacks(r.netloc, '/')
    ensures Lacks(r.path, '#') && Lacks(r.path, '?')
  {
    var (scheme, rest) := SplitScheme(url);
    var (netloc, afterNetloc) := SplitNetloc(rest);
    var noQuery := BeforeFirst(BeforeFirst(afterNetloc, '#'), '?');
    var path := if Listed(scheme, UsesParams) && OccursFrom(noQuery, ';', 0) then StripParams(noQuery) else noQuery;
    UrlParts(netloc, path)
  }

  /** The value of a hexadecimal digit. */
  function HexValue(c: char): (r: int)
    ensures -1 <= r < 16
    ensures r == -1 <==> !('0' <= c <= '9' || 'a' <= c <= 'f' || 'A' <= c <= 'F')
    ensures 0 <= r < 10 ==> c == ('0' as int + r) as char
    ensures 10 <= r ==> c == ('a' as int + r - 10) as char || c == ('A' as int + r - 10) as char
  {
    if '0' <= c <= '9' then c as int - '0' as int
    else if 'a' <= c <= 'f' then c as int - 'a' as int + 10
    else if 'A' <= c <= 'F' then c as int - 'A' as int + 10
    else -1
  }

  /**
   * `unquote(s)`: each `%` followed by two hexadecimal digits becomes the character with that
   * code; any other `%` is kept.
   */
  function Unquote(s: string): (r: string)
    ensures |r| <= |s|
    ensures s != [] ==> r != []
    decreases |s|
  {
    if s == [] then []
    else if s[0] == '%' && |s| >= 3 && HexValue(s[1]) >= 0 && HexValue(s[2]) >= 0 then
      [(16 * HexValue(s[1]) + HexValue(s[2])) as char] + Unquote(s[3..])
    else [s[0]] + Unquote(s[1..])
  }

  /** Text without escapes is returned unchanged (the source's fast path). */
  lemma {:induction false} UnquotePlain(s: string)
    requires Lacks(s, '%')
    ensures Unquote(s) == s
    decreases |s|
  {
    if s != [] {
      assert forall k :: 0 <= k < |s| - 1 ==> s[1..][k] == s[k + 1];
      UnquotePlain(s[1..]);
      assert s == [s[0]] + s[1..];
    }
  }

  /** `%2F` decodes to a `/`, so an encoded slash becomes a path separator once decoded. */
  lemma UnquoteEncodedSlash(a: string, b: string)
    requires Lacks(a, '%') && Lacks(b, '%')
    ensures Unquote(a + "%2F" + b) == a + "/" + b
    decreases |a|
  {
    if a == [] {
      assert a + "%2F" + b == "%2F" + b;
      assert ("%2F" + b)[3..] == b;
      UnquotePlain(b);
    } else {
      assert (a + "%2F" + b)[0] == a[0];
      assert (a + "%2F" + b)[1..] == a[1..] + "%2F" + b;
      UnquoteEncodedSlash(a[1..], b);
    }
  }

  lemma HttpScheme(scheme: string, rest: string)
    requires scheme == "http" || scheme == "https"
    ensures SplitScheme(scheme + ":" + rest) == (scheme, rest)
  {
    var url := scheme + ":" + rest;
    var i := |scheme|;
    assert forall k :: 0 <= k < i ==> url[k] == scheme[k] && url[k] != ':';
    FindFromIs(url, ':', 0, i);
    assert url[..i] == scheme;
    assert url[i + 1..] == rest;
    assert AsciiLetter(url[0]);
    assert forall k :: 0 <= k < i ==> SchemeChar(url[k]);
    SchemeCharsUpToAll(url, i);
    assert Lower(scheme) == scheme;
  }

  lemma HostNetloc(host: string, after: string)
    requires forall k :: 0 <= k < |host| ==> host[k] !in {'/', '?', '#'}
    requires after != [] && after[0] == '/'
    ensures SplitNetloc("//" + host + after) == (host, after)
  {
    var rest := "//" + host + after;
    var delim := |host| + 2;
    assert rest[..2] == "//";
    assert rest[delim] == '/';
    assert forall k :: 2 <= k < delim ==> rest[k] == host[k - 2];
    assert FirstOfFrom(rest, {'/', '?', '#'}, 2) == delim;
    assert rest[2..delim] == host;
    assert rest[delim..] == after;
  }

  lemma PathBeforeTail(path: string, tail: string)
    requires '?' !in path && '#' !in path
    requires tail == [] || tail[0] == '?' || tail[0] == '#'
    ensures BeforeFirst(BeforeFirst(path + tail, '#'), '?') == path
  {
    var after := path + tail;
    assert forall k :: 0 <= k < |path| ==> after[k] == path[k];
    if tail == [] {
      assert after == path;
    } else {
      assert after[..|path|] == path;
      assert after[|path|] == tail[0];
      if tail[0] == '#' {
        FindFromIs(after, '#', 0, |path|);
      } else {
        FindFromIs(after, '?', 0, |path|);
        var noFragment := BeforeFirst(after, '#');
        assert noFragment[..|path|] == path && noFragment[|path|] == '?';
        FindFromIs(noFragment, '?', 0, |path|);
      }
    }
  }

  /**
   * An `http(s)` URL with a host and an absolute path of plain segments parses into exactly that
   * host and that path; a query or a fragment after it is dropped.
   */
  lemma ParseHttpUrl(scheme: string, host: string, path: string, tail: string)
    requires scheme == "http" || scheme == "https"
    requires forall k :: 0 <= k < |host| ==> host[k] !in {'/', '?', '#'}
    requires path != [] && path[0] == '/' && '?' !in path && '#' !in path && ';' !in path
    requires tail == [] || tail[0] == '?' || tail[0] == '#'
    ensures Parse(scheme + "://" + host + path + tail) == UrlParts(host, path)
  {
    var after := path + tail;
    assert after != [] && after[0] == '/';
    assert scheme + "://" + host + path + tail == scheme + ":" + ("//" + host + after);
    HttpScheme(scheme, "//" + host + after);
    HostNetloc(host, after);
    PathBeforeTail(path, tail);
    OccursFromIsIn(path, ';', 0);
    assert path[0..] == path;
  }
}
