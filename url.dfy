/**
 * The part of urllib.parse.urlparse that the crawler reads: the network
 * location (`netloc`) and the `path`. A URL is `scheme:` (optional), then
 * `//netloc` (optional), then the path, then an optional `?query` and
 * `#fragment`, which are cut off.
 */
module Url {
  import opened Wrappers
  import opened Text

  /** Characters Python allows in a scheme (urllib.parse.scheme_chars). */
  predicate IsSchemeChar(c: char) {
    IsAsciiLetter(c) || IsAsciiDigit(c) || c == '+' || c == '-' || c == '.'
  }

  /** The prefix of s up to (not including) its first character satisfying stop. */
  function PrefixBefore(s: string, stop: char -> bool): (r: string)
    ensures |r| <= |s| && r == s[..|r|]
    ensures forall k :: 0 <= k < |r| ==> !stop(r[k])
    ensures |r| < |s| ==> stop(s[|r|])
    decreases |s|
  {
    if s == [] || stop(s[0]) then [] else [s[0]] + PrefixBefore(s[1..], stop)
  }

  /** The URL with a leading `scheme:` removed, when the text before the first ':'
      is a scheme: non-empty, starting with an ASCII letter, all scheme characters. */
  function AfterScheme(url: string): (rest: string)
    ensures |rest| <= |url| && rest == url[|url| - |rest|..]
  {
    match IndexOf(url, ':')
    case None => url
    case Some(i) =>
      if i > 0 && IsAsciiLetter(url[0]) && forall k :: 0 <= k < i ==> IsSchemeChar(url[k])
      then url[i + 1..] else url
  }

  predicate EndsNetloc(c: char) { c == '/' || c == '?' || c == '#' }

  predicate EndsPath(c: char) { c == '?' || c == '#' }

  /** True when the text after the scheme starts with "//". */
  predicate HasAuthority(rest: string) {
    |rest| >= 2 && rest[..2] == "//"
  }

  /** urlparse(url).netloc */
  function Netloc(url: string): (host: string)
    ensures forall k :: 0 <= k < |host| ==> !EndsNetloc(host[k])
  {
    var rest := AfterScheme(url);
    if HasAuthority(rest) then PrefixBefore(rest[2..], EndsNetloc) else []
  }

  /** urlparse(url).path */
  function Path(url: string): (path: string)
    ensures forall k :: 0 <= k < |path| ==> !EndsPath(path[k])
  {
    var rest := AfterScheme(url);
    var tail := if HasAuthority(rest) then rest[2 + |PrefixBefore(rest[2..], EndsNetloc)|..] else rest;
    PrefixBefore(tail, EndsPath)
  }

  /** A plain URL `scheme://host/path`, built from its parts, parses back into
      that host and that path. */
  lemma ParsePlainUrl(scheme: string, host: string, path: string)
    requires scheme != [] && IsAsciiLetter(scheme[0])
    requires forall k :: 0 <= k < |scheme| ==> IsSchemeChar(scheme[k])
    requires forall k :: 0 <= k < |host| ==> !EndsNetloc(host[k])
    requires path == [] || path[0] == '/'
    requires forall k :: 0 <= k < |path| ==> !EndsPath(path[k])
    ensures Netloc(scheme + "://" + host + path) == host
    ensures Path(scheme + "://" + host + path) == path
  {
    var rest := "//" + host + path;
    assert scheme + "://" + host + path == scheme + [':'] + rest;
    SchemeRemoved(scheme, rest);
    AuthorityParts(host, path);
  }

  /** A valid scheme and its ':' are removed from the front of the URL. */
  lemma SchemeRemoved(scheme: string, rest: string)
    requires scheme != [] && IsAsciiLetter(scheme[0])
    requires forall k :: 0 <= k < |scheme| ==> IsSchemeChar(scheme[k])
    ensures AfterScheme(scheme + [':'] + rest) == rest
  {
    var url := scheme + [':'] + rest;
    assert ':' !in scheme by {
      forall k | 0 <= k < |scheme|
        ensures scheme[k] != ':'
      {
        assert IsSchemeChar(scheme[k]);
      }
    }
    FirstIndexAt(scheme, ':', rest);
    assert url[0] == scheme[0];
    assert forall k :: 0 <= k < |scheme| ==> url[k] == scheme[k];
    assert url[|scheme| + 1..] == rest;
  }

  /** After the scheme, "//host/path" splits into that host and that path. */
  lemma AuthorityParts(host: string, path: string)
    requires forall k :: 0 <= k < |host| ==> !EndsNetloc(host[k])
    requires path == [] || path[0] == '/'
    requires forall k :: 0 <= k < |path| ==> !EndsPath(path[k])
    ensures HasAuthority("//" + host + path)
    ensures PrefixBefore(("//" + host + path)[2..], EndsNetloc) == host
    ensures ("//" + host + path)[2 + |host|..] == path
    ensures PrefixBefore(path, EndsPath) == path
  {
    var rest := "//" + host + path;
    AuthoritySlices(rest, host, path);
    PrefixStops(host, path, EndsNetloc);
    PrefixStops(path, [], EndsPath);
    assert path + [] == path;
  }

  lemma AuthoritySlices(rest: string, host: string, path: string)
    requires rest == "//" + host + path
    ensures HasAuthority(rest)
    ensures rest[2..] == host + path
    ensures rest[2 + |host|..] == path
  {
    assert rest[..2] == "//";
  }

  /** The first c in a + [c] + b is the one right after a, when a holds no c. */
  lemma FirstIndexAt(a: string, c: char, b: string)
    requires c !in a
    ensures IndexOf(a + [c] + b, c) == Some(|a|)
  {
    var s := a + [c] + b;
    assert s[|a|] == c;
    assert forall k :: 0 <= k < |a| ==> s[k] == a[k];
    var r := IndexOf(s, c);
    assert r.Some?;
    assert r.value >= |a|;
    assert r.value <= |a| by {
      assert forall j :: 0 <= j < r.value ==> s[..r.value][j] == s[j];
    }
  }

  /** PrefixBefore stops exactly where the first stop character is. */
  lemma PrefixStops(a: string, b: string, stop: char -> bool)
    requires forall k :: 0 <= k < |a| ==> !stop(a[k])
    requires b == [] || stop(b[0])
    ensures PrefixBefore(a + b, stop) == a
    decreases |a|
  {
    if a != [] {
      assert (a + b)[1..] == a[1..] + b;
      PrefixStops(a[1..], b, stop);
    }
  }
}
