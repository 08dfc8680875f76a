/** The part of Python's `urllib.parse.urlsplit` the crawler relies on: the host name
    (`urlsplit(url).hostname`) and the path (`urlsplit(url).path`). */
module Urls {
  import opened Wrappers
  import opened Text

  /** The first index in `s` holding a character of `cs`, or `|s|` when there is none. */
  function IndexOfAny(s: string, cs: set<char>): (r: nat)
    ensures r <= |s|
    ensures forall k :: 0 <= k < r ==> s[k] !in cs
    ensures r < |s| ==> s[r] in cs
    decreases |s|
  {
    if s == [] then 0 else if s[0] in cs then 0 else 1 + IndexOfAny(s[1..], cs)
  }

  /** The first index of `c` in `s`, or `|s|` (Python's `find`, with `|s|` for -1). */
  function IndexOf(s: string, c: char): nat
  {
    IndexOfAny(s, {c})
  }

  /** Past a prefix free of `cs`, the search continues in the rest. */
  lemma {:induction false} IndexOfAnyAfter(a: string, b: string, cs: set<char>)
    requires forall k :: 0 <= k < |a| ==> a[k] !in cs
    ensures IndexOfAny(a + b, cs) == |a| + IndexOfAny(b, cs)
    decreases |a|
  {
    if a == [] {
      assert a + b == b;
    } else {
      assert (a + b)[0] == a[0];
      assert (a + b)[1..] == a[1..] + b;
      IndexOfAnyAfter(a[1..], b, cs);
    }
  }

  predicate IsAsciiAlpha(c: char)
  {
    ('a' <= c <= 'z') || ('A' <= c <= 'Z')
  }

  /** `urllib.parse.scheme_chars`. */
  predicate IsSchemeChar(c: char)
  {
    IsAsciiAlpha(c) || IsDigit(c) || c == '+' || c == '-' || c == '.'
  }

  /** A scheme `urlsplit` accepts: an ASCII letter followed by scheme characters. */
  predicate IsScheme(s: string)
  {
    s != [] && IsAsciiAlpha(s[0]) && forall k :: 0 <= k < |s| ==> IsSchemeChar(s[k])
  }

  /** `_WHATWG_C0_CONTROL_OR_SPACE`: the C0 control characters and the space. */
  predicate IsC0OrSpace(c: char)
  {
    c <= ' '
  }

  /** `_UNSAFE_URL_BYTES_TO_REMOVE`: tab, carriage return and line feed. */
  predicate IsUnsafe(c: char)
  {
    c == '\t' || c == '\r' || c == '\n'
  }

  /** `url.lstrip(_WHATWG_C0_CONTROL_OR_SPACE)`. */
  function LStripC0(s: string): (r: string)
    ensures |r| <= |s| && r == s[|s| - |r|..]
    ensures r == [] || !IsC0OrSpace(r[0])
    decreases |s|
  {
    if s != [] && IsC0OrSpace(s[0]) then LStripC0(s[1..]) else s
  }

  /** `url.replace(b, "")` for each unsafe character `b`. */
  function RemoveUnsafe(s: string): (r: string)
    ensures forall k :: 0 <= k < |r| ==> !IsUnsafe(r[k])
    decreases |s|
  {
    if s == [] then []
    else if IsUnsafe(s[0]) then RemoveUnsafe(s[1..])
    else [s[0]] + RemoveUnsafe(s[1..])
  }

  /** The clean-up `urlsplit` applies before it parses: leading controls and spaces are
      dropped, then every tab, carriage return and line feed. */
  function Sanitize(url: string): string
  {
    RemoveUnsafe(LStripC0(url))
  }

  /** The sanitized text starts with neither a control character nor a space, holds no unsafe
      character, and keeps every other character of the input in order. */
  lemma SanitizeShape(url: string)
    ensures var r := Sanitize(url);
            (r == [] || !IsC0OrSpace(r[0])) && (forall k :: 0 <= k < |r| ==> !IsUnsafe(r[k]))
  {
    var l := LStripC0(url);
    if l != [] {
      assert !IsUnsafe(l[0]);
      assert RemoveUnsafe(l) == [l[0]] + RemoveUnsafe(l[1..]);
    }
  }

  /** Text without a leading control or space and without unsafe characters is left alone. */
  lemma {:induction false} SanitizeClean(url: string)
    requires url == [] || !IsC0OrSpace(url[0])
    requires forall k :: 0 <= k < |url| ==> !IsUnsafe(url[k])
    ensures Sanitize(url) == url
  {
    assert LStripC0(url) == url;
    RemoveUnsafeClean(url);
  }

  lemma {:induction false} RemoveUnsafeClean(s: string)
    requires forall k :: 0 <= k < |s| ==> !IsUnsafe(s[k])
    ensures RemoveUnsafe(s) == s
    decreases |s|
  {
    if s != [] {
      assert forall k :: 0 <= k < |s[1..]| ==> !IsUnsafe(s[1..][k]) by {
        forall k | 0 <= k < |s[1..]| ensures !IsUnsafe(s[1..][k]) {
          assert s[1..][k] == s[k + 1];
        }
      }
      RemoveUnsafeClean(s[1..]);
      assert [s[0]] + s[1..] == s;
    }
  }

  /** A leading control character or space makes no difference to what `urlsplit` reads. */
  lemma LeadingC0Ignored(c: char, url: string)
    requires IsC0OrSpace(c)
    ensures Sanitize([c] + url) == Sanitize(url)
    ensures Hostname([c] + url) == Hostname(url) && Path([c] + url) == Path(url)
  {
    assert ([c] + url)[1..] == url;
  }

  /** An unsafe character after the first is dropped wherever it stands. */
  lemma {:induction false} UnsafeIgnored(a: string, c: char, b: string)
    requires IsUnsafe(c)
    ensures RemoveUnsafe(a + [c] + b) == RemoveUnsafe(a + b)
    decreases |a|
  {
    if a == [] {
      assert a + [c] + b == [c] + b && ([c] + b)[1..] == b && a + b == b;
    } else {
      assert (a + [c] + b)[0] == a[0] && (a + [c] + b)[1..] == a[1..] + [c] + b;
      assert (a + b)[0] == a[0] && (a + b)[1..] == a[1..] + b;
      UnsafeIgnored(a[1..], c, b);
    }
  }

  /** `urlsplit`'s first step: the lowered scheme before the first ':', and what follows it;
      with no valid scheme the whole string is the rest. */
  function SplitScheme(url: string): (string, string)
  {
    var i := IndexOf(url, ':');
    if i < |url| && IsScheme(url[..i]) then (Lower(url[..i]), url[i + 1..]) else ("", url)
  }

  /** `_splitnetloc`: after a leading "//", the network location runs up to the first
      '/', '?' or '#'. Without "//" there is none. */
  function SplitNetloc(rest: string): (string, string)
  {
    if StartsWith(rest, "//") then
      var d := 2 + IndexOfAny(rest[2..], {'/', '?', '#'});
      (rest[2..d], rest[d..])
    else ("", rest)
  }

  /** The network location of the sanitized URL. */
  function Netloc(url: string): string
  {
    SplitNetloc(SplitScheme(Sanitize(url)).1).0
  }

  /** `netloc.rpartition('@')[2]`: what follows the last '@'. */
  function AfterLastAt(s: string): string
    decreases |s|
  {
    if s == [] then s
    else if s[|s| - 1] == '@' then s[|s|..]
    else if '@' in s[..|s| - 1] then AfterLastAt(s[..|s| - 1]) + [s[|s| - 1]]
    else s
  }

  /** `_hostinfo`'s host name: inside brackets when the host info has a '[', else up to the
      first ':' (the port). */
  function HostPart(hostinfo: string): string
  {
    var b := IndexOf(hostinfo, '[');
    if b < |hostinfo| then
      var bracketed := hostinfo[b + 1..];
      bracketed[..IndexOf(bracketed, ']')]
    else hostinfo[..IndexOf(hostinfo, ':')]
  }

  /** `urlsplit(url).hostname`: None when empty; otherwise lowered up to a '%' zone suffix. */
  function Hostname(url: string): Option<string>
  {
    var host := HostPart(AfterLastAt(Netloc(url)));
    if host == [] then None
    else
      var z := IndexOf(host, '%');
      Some(Lower(host[..z]) + host[z..])
  }

  /** `(urlsplit(url).hostname or "")`. */
  function HostOf(url: string): string
  {
    Hostname(url).GetOr("")
  }

  /** `urlsplit(url).path`: what follows the network location up to the query or fragment. */
  function Path(url: string): string
  {
    var after := SplitNetloc(SplitScheme(Sanitize(url)).1).1;
    after[..IndexOfAny(after, {'?', '#'})]
  }

  /** `urlsplit` raises `ValueError("Invalid IPv6 URL")` when the network location holds a
      '[' without a ']', or a ']' without a '['. */
  predicate SplitRaises(url: string)
  {
    var n := Netloc(url);
    ('[' in n) != (']' in n)
  }

  /** Text that stays inside a network location: no '/', '?' or '#', and no unsafe character. */
  predicate InNetloc(h: string)
  {
    forall k :: 0 <= k < |h| ==> h[k] !in {'/', '?', '#'} && !IsUnsafe(h[k])
  }

  /** A plain host name: no character that ends or qualifies a network location. */
  predicate IsPlainHost(h: string)
  {
    h != [] && InNetloc(h) && forall k :: 0 <= k < |h| ==> h[k] !in {'@', ':', '[', ']', '%'}
  }

  /** What may follow the host: nothing, or a path, query or fragment, with no unsafe character. */
  predicate IsUrlTail(tail: string)
  {
    (tail == [] || tail[0] in {'/', '?', '#'}) && forall k :: 0 <= k < |tail| ==> !IsUnsafe(tail[k])
  }

  /** A valid scheme followed by ':' is split off and lowered. */
  lemma SchemeOfUrl(scheme: string, rest: string)
    requires IsScheme(scheme)
    ensures SplitScheme(scheme + ":" + rest) == (Lower(scheme), rest)
  {
    var url := scheme + ":" + rest;
    assert url == scheme + (":" + rest);
    IndexOfAnyAfter(scheme, ":" + rest, {':'});
    assert url[..|scheme|] == scheme;
    assert url[|scheme| + 1..] == rest;
  }

  /** After "//", text that stays inside a network location, followed by a path, query or
      fragment, is the network location. */
  lemma NetlocOfHost(h: string, tail: string)
    requires InNetloc(h) && IsUrlTail(tail)
    ensures SplitNetloc("//" + h + tail) == (h, tail)
  {
    var rest := "//" + h + tail;
    assert rest[2..] == h + tail;
    IndexOfAnyAfter(h, tail, {'/', '?', '#'});
    assert rest[2..2 + |h|] == h;
    assert rest[2 + |h|..] == tail;
  }

  /** `scheme://h` followed by a tail is already clean: `urlsplit` reads it as it is. */
  lemma UrlIsClean(scheme: string, h: string, tail: string)
    requires IsScheme(scheme) && InNetloc(h) && IsUrlTail(tail)
    ensures Sanitize(scheme + "://" + h + tail) == scheme + "://" + h + tail
  {
    var url := scheme + "://" + h + tail;
    forall k | 0 <= k < |url| ensures !IsUnsafe(url[k]) {
      if k < |scheme| {
        assert url[k] == scheme[k];
      } else if k < |scheme| + 3 {
      } else if k < |scheme| + 3 + |h| {
        assert url[k] == h[k - |scheme| - 3];
      } else {
        assert url[k] == tail[k - |scheme| - 3 - |h|];
      }
    }
    assert url[0] == scheme[0];
    SanitizeClean(url);
  }

  /** How `urlsplit` reads a clean URL: scheme part, then network location and the rest. */
  lemma SplitOfClean(url: string, rest: string, h: string, tail: string)
    requires Sanitize(url) == url && SplitScheme(url).1 == rest && SplitNetloc(rest) == (h, tail)
    ensures Netloc(url) == h
    ensures SplitNetloc(SplitScheme(Sanitize(url)).1).1 == tail
  {
  }

  lemma ColonSlashes(scheme: string, h: string, tail: string)
    ensures scheme + "://" + h + tail == scheme + ":" + ("//" + h + tail)
  {
  }

  /** The network location of `scheme://h...`, for `h` that stays inside one. */
  lemma NetlocOfUrl(scheme: string, h: string, tail: string)
    requires IsScheme(scheme) && InNetloc(h) && IsUrlTail(tail)
    ensures Netloc(scheme + "://" + h + tail) == h
    ensures SplitNetloc(SplitScheme(Sanitize(scheme + "://" + h + tail)).1).1 == tail
  {
    var url := scheme + "://" + h + tail;
    var rest := "//" + h + tail;
    UrlIsClean(scheme, h, tail);
    ColonSlashes(scheme, h, tail);
    SchemeOfUrl(scheme, rest);
    NetlocOfHost(h, tail);
    SplitOfClean(url, rest, h, tail);
  }

  /** A network location with an opening '[' and no ']' makes `urlsplit` raise, as for
      `http://[x/...`. */
  lemma OpenBracketRaises(scheme: string, h: string, tail: string)
    requires IsScheme(scheme) && InNetloc(h) && ']' !in h && IsUrlTail(tail)
    ensures SplitRaises(scheme + "://[" + h + tail)
  {
    assert scheme + "://[" + h + tail == scheme + "://" + ("[" + h) + tail;
    assert "[" + h == ['['] + h;
    assert InNetloc("[" + h) by {
      forall k | 0 <= k < |"[" + h| ensures ("[" + h)[k] !in {'/', '?', '#'} && !IsUnsafe(("[" + h)[k]) {
        if k > 0 {
          assert ("[" + h)[k] == h[k - 1];
        }
      }
    }
    NetlocOfUrl(scheme, "[" + h, tail);
    assert ("[" + h)[0] == '[';
    assert ']' !in "[" + h;
  }

  /** A plain host is its own host name, lowered. */
  lemma HostPartOfPlainHost(h: string)
    requires IsPlainHost(h)
    ensures HostPart(AfterLastAt(h)) == h
    ensures IndexOf(h, '%') == |h|
  {
    NoAtAfterLast(h);
    IndexOfAnyAfter(h, [], {'['});
    IndexOfAnyAfter(h, [], {':'});
    IndexOfAnyAfter(h, [], {'%'});
    assert h + [] == h;
  }

  /** A URL whose network location is a plain host has that host, lowered, as host name. */
  lemma HostnameOfPlainNetloc(url: string, h: string)
    requires IsPlainHost(h) && Netloc(url) == h
    ensures Hostname(url) == Some(Lower(h))
  {
    HostPartOfPlainHost(h);
    assert h[..|h|] == h && h[|h|..] == [];
    assert Lower(h) + [] == Lower(h);
  }

  /** A network location without brackets does not make `urlsplit` raise. */
  lemma NoBracketNoRaise(url: string)
    requires '[' !in Netloc(url) && ']' !in Netloc(url)
    ensures !SplitRaises(url)
  {
  }

  /** The path of a URL whose text after the network location is `tail`. */
  lemma PathOfTail(url: string, tail: string)
    requires SplitNetloc(SplitScheme(Sanitize(url)).1).1 == tail
    ensures Path(url) == tail[..IndexOfAny(tail, {'?', '#'})]
  {
  }

  /** For `scheme://host/...` with a plain host, `urlsplit` does not raise, the host name is
      the lowered host, and the path is what follows it up to the query or fragment. */
  lemma HostnameOfPlainUrl(scheme: string, h: string, tail: string)
    requires IsScheme(scheme) && IsPlainHost(h) && IsUrlTail(tail)
    ensures !SplitRaises(scheme + "://" + h + tail)
    ensures Hostname(scheme + "://" + h + tail) == Some(Lower(h))
    ensures Path(scheme + "://" + h + tail) == tail[..IndexOfAny(tail, {'?', '#'})]
  {
    var url := scheme + "://" + h + tail;
    NetlocOfUrl(scheme, h, tail);
    NoBracketNoRaise(url);
    HostnameOfPlainNetloc(url, h);
    PathOfTail(url, tail);
  }

  lemma NoAtAfterLast(s: string)
    requires '@' !in s
    ensures AfterLastAt(s) == s
  {
  }

  /** The host name of `scheme://host...` does not depend on what follows the host. */
  lemma HostOfIgnoresTail(scheme: string, h: string, t1: string, t2: string)
    requires IsScheme(scheme) && IsPlainHost(h) && IsUrlTail(t1) && IsUrlTail(t2)
    ensures HostOf(scheme + "://" + h + t1) == HostOf(scheme + "://" + h + t2)
  {
    HostnameOfPlainUrl(scheme, h, t1);
    HostnameOfPlainUrl(scheme, h, t2);
  }
}
