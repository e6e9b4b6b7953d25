/**
 * The network-location ("netloc") part of a URL, as `urllib.parse.urlparse(url).netloc`
 * computes it (CPython 3.12's `urlsplit`). The extractor stores it as the post's
 * `instance` and builds the status API endpoint from it.
 */
module Url {

  import opened Wrappers
  import opened Text

  /** Characters `lstrip` removes from the front of a URL: C0 controls and space. */
  predicate IsControlOrSpace(c: char) {
    c <= ' '
  }

  /** Characters removed from anywhere in a URL before it is split. */
  predicate IsUnsafe(c: char) {
    c == '\t' || c == '\r' || c == '\n'
  }

  predicate IsAsciiLetter(c: char) {
    'a' <= c <= 'z' || 'A' <= c <= 'Z'
  }

  predicate IsSchemeChar(c: char) {
    IsAsciiLetter(c) || IsDigit(c) || c == '+' || c == '-' || c == '.'
  }

  /** Characters that end the network location. */
  predicate IsNetlocDelimiter(c: char) {
    c == '/' || c == '?' || c == '#'
  }

  /** `url.lstrip(...)` of the C0 controls and space: what is left is a suffix that starts with neither. */
  function LStrip(s: string): (r: string)
    ensures |r| <= |s| && r == s[|s| - |r|..]
    ensures r == [] || !IsControlOrSpace(r[0])
  {
    if s != [] && IsControlOrSpace(s[0]) then LStrip(s[1..]) else s
  }

  /** Only controls and spaces are stripped, so the suffix left is the longest one possible. */
  lemma {:induction false} LStripDropsBlanks(s: string)
    ensures forall k :: 0 <= k < |s| - |LStrip(s)| ==> IsControlOrSpace(s[k])
  {
    if s != [] && IsControlOrSpace(s[0]) {
      LStripDropsBlanks(s[1..]);
      assert forall k :: 1 <= k < |s| - |LStrip(s)| ==> s[1..][k - 1] == s[k];
    }
  }

  /** Every tab, CR and LF removed, the other characters kept in order. */
  function RemoveUnsafe(s: string): (r: string)
    ensures forall k :: 0 <= k < |r| ==> !IsUnsafe(r[k])
  {
    if s == [] then []
    else if IsUnsafe(s[0]) then RemoveUnsafe(s[1..])
    else [s[0]] + RemoveUnsafe(s[1..])
  }

  /** Removal works piece by piece: on a concatenation it is the concatenation of the removals. */
  lemma {:induction false} RemoveUnsafeAppend(a: string, b: string)
    ensures RemoveUnsafe(a + b) == RemoveUnsafe(a) + RemoveUnsafe(b)
  {
    if a == [] {
      assert a + b == b;
    } else {
      assert (a + b)[0] == a[0] && (a + b)[1..] == a[1..] + b;
      RemoveUnsafeAppend(a[1..], b);
    }
  }

  /** Removal keeps every occurrence of each other character. */
  lemma {:induction false} RemoveUnsafeCounts(s: string, c: char)
    requires !IsUnsafe(c)
    ensures multiset(RemoveUnsafe(s))[c] == multiset(s)[c]
  {
    if s != [] {
      assert s == [s[0]] + s[1..];
      RemoveUnsafeCounts(s[1..], c);
    }
  }

  /** The URL as `urlsplit` sees it once leading blanks and tabs/newlines are gone. */
  function Sanitize(url: string): (r: string)
    ensures forall k :: 0 <= k < |r| ==> !IsUnsafe(r[k])
    ensures r == [] || !IsControlOrSpace(r[0])
  {
    var t := LStrip(url);
    assert t != [] ==> RemoveUnsafe(t) == [t[0]] + RemoveUnsafe(t[1..]);
    RemoveUnsafe(t)
  }

  /**
   * `s` starts with a scheme whose `:` is at `i`: a first character that is an ASCII
   * letter and only scheme characters (which exclude `:`) before position `i`.
   */
  predicate SchemeColonAt(s: string, i: nat) {
    0 < i < |s| && s[i] == ':' && IsAsciiLetter(s[0]) && forall k :: 0 <= k < i ==> IsSchemeChar(s[k])
  }

  /** Index just past the scheme's `:` when the URL starts with a scheme, else 0. */
  function SchemeEnd(s: string): (k: nat)
    ensures k <= |s|
    ensures 0 < k ==> SchemeColonAt(s, k - 1)
  {
    var i := IndexFrom(s, ':', 0);
    if 0 < i < |s| && IsAsciiLetter(s[0]) && forall k | 0 <= k < i :: IsSchemeChar(s[k]) then i + 1 else 0
  }

  /** A scheme is always recognised, and it ends at its (only possible) `:`. */
  lemma SchemeEndFinds(s: string, i: nat)
    requires SchemeColonAt(s, i)
    ensures SchemeEnd(s) == i + 1
  {
    IndexFromUnique(s, ':', 0, i);
  }

  /** End of the network location that starts at `i`: the first `/`, `?` or `#`, or the end. */
  function NetlocEnd(s: string, i: nat): (e: nat)
    requires i <= |s|
    ensures i <= e <= |s|
    ensures forall k :: i <= k < e ==> !IsNetlocDelimiter(s[k])
    ensures e == |s| || IsNetlocDelimiter(s[e])
    decreases |s| - i
  {
    if i == |s| || IsNetlocDelimiter(s[i]) then i else NetlocEnd(s, i + 1)
  }

  /** A netloc with a `[` but no `]`, or the reverse, makes `urlsplit` raise ValueError. */
  predicate BracketsBalanced(n: string) {
    ('[' in n) == (']' in n)
  }

  /** `urlparse(url).netloc`, or None where `urlparse` raises. */
  function Netloc(url: string): (r: Option<string>)
    ensures r.Some? ==> forall k :: 0 <= k < |r.value| ==> !IsNetlocDelimiter(r.value[k])
    ensures r.Some? ==> BracketsBalanced(r.value)
  {
    SplitNetloc(Sanitize(url))
  }

  /** The netloc of an already sanitized URL: what follows `scheme:` and `//`. */
  function SplitNetloc(s: string): (r: Option<string>)
    ensures r.Some? ==> forall k :: 0 <= k < |r.value| ==> !IsNetlocDelimiter(r.value[k])
    ensures r.Some? ==> BracketsBalanced(r.value)
  {
    var rest := s[SchemeEnd(s)..];
    if |rest| >= 2 && rest[..2] == "//" then
      var n := rest[2..NetlocEnd(rest, 2)];
      assert forall k :: 0 <= k < |n| ==> n[k] == rest[k + 2];
      if BracketsBalanced(n) then Some(n) else None
    else Some("")
  }

  lemma {:induction false} RemoveUnsafeKeeps(s: string)
    requires forall k :: 0 <= k < |s| ==> !IsUnsafe(s[k])
    ensures RemoveUnsafe(s) == s
  {
    if s != [] {
      RemoveUnsafeKeeps(s[1..]);
    }
  }

  /**
   * For a URL written `scheme://host<rest>`, the netloc is exactly `host`: the part
   * between `//` and the first `/`, `?` or `#`; with an unbalanced `[` or `]` in it,
   * `urlparse` raises `ValueError` instead.
   */
  lemma NetlocOfComposed(scheme: string, host: string, rest: string)
    requires scheme != [] && IsAsciiLetter(scheme[0])
    requires forall k :: 0 <= k < |scheme| ==> IsSchemeChar(scheme[k])
    requires forall k :: 0 <= k < |host| ==> !IsNetlocDelimiter(host[k]) && !IsUnsafe(host[k])
    requires rest == [] || IsNetlocDelimiter(rest[0])
    requires forall k :: 0 <= k < |rest| ==> !IsUnsafe(rest[k])
    ensures Netloc(scheme + "://" + host + rest) == if BracketsBalanced(host) then Some(host) else None
  {
    var url := scheme + "://" + host + rest;
    ComposedScheme(scheme, host, rest);
    DropScheme(scheme, host, rest);
    SplitNetlocOfSlashes(url, host, rest);
  }

  lemma DropScheme(scheme: string, host: string, rest: string)
    ensures (scheme + "://" + host + rest)[|scheme| + 1..] == "//" + host + rest
  {
  }

  lemma SplitNetlocOfSlashes(s: string, host: string, rest: string)
    requires s[SchemeEnd(s)..] == "//" + host + rest
    requires forall k :: 0 <= k < |host| ==> !IsNetlocDelimiter(host[k])
    requires rest == [] || IsNetlocDelimiter(rest[0])
    ensures SplitNetloc(s) == if BracketsBalanced(host) then Some(host) else None
  {
    HostAfterSlashes(host, rest);
  }

  lemma HostAfterSlashes(host: string, rest: string)
    requires forall k :: 0 <= k < |host| ==> !IsNetlocDelimiter(host[k])
    requires rest == [] || IsNetlocDelimiter(rest[0])
    ensures NetlocEnd("//" + host + rest, 2) == 2 + |host|
    ensures ("//" + host + rest)[2..2 + |host|] == host
  {
    var r := "//" + host + rest;
    assert forall k :: 2 <= k < 2 + |host| ==> r[k] == host[k - 2];
    NetlocEndUnique(r, 2, 2 + |host|);
  }

  /** `scheme://...` is left as it is by sanitizing, and its scheme ends at the first ':'. */
  lemma ComposedScheme(scheme: string, host: string, rest: string)
    requires scheme != [] && IsAsciiLetter(scheme[0])
    requires forall k :: 0 <= k < |scheme| ==> IsSchemeChar(scheme[k])
    requires forall k :: 0 <= k < |host| ==> !IsUnsafe(host[k])
    requires forall k :: 0 <= k < |rest| ==> !IsUnsafe(rest[k])
    ensures Sanitize(scheme + "://" + host + rest) == scheme + "://" + host + rest
    ensures SchemeEnd(scheme + "://" + host + rest) == |scheme| + 1
  {
    var url := scheme + "://" + host + rest;
    NoUnsafeInConcat(scheme + "://", host);
    NoUnsafeInConcat(scheme + "://" + host, rest);
    SanitizeKeeps(url);
    assert IndexFrom(url, ':', 0) == |scheme| by {
      assert forall k :: 0 <= k < |scheme| ==> url[k] == scheme[k];
      assert url[|scheme|] == ':';
      IndexFromUnique(url, ':', 0, |scheme|);
    }
    assert forall k :: 0 <= k < |scheme| ==> url[k] == scheme[k];
  }

  lemma NoUnsafeInConcat(a: string, b: string)
    requires forall k :: 0 <= k < |a| ==> !IsUnsafe(a[k])
    requires forall k :: 0 <= k < |b| ==> !IsUnsafe(b[k])
    ensures forall k :: 0 <= k < |a + b| ==> !IsUnsafe((a + b)[k])
  {
  }

  /** A URL without leading blanks or tabs/newlines is split as written. */
  lemma SanitizeKeeps(url: string)
    requires url != [] && !IsControlOrSpace(url[0])
    requires forall k :: 0 <= k < |url| ==> !IsUnsafe(url[k])
    ensures Sanitize(url) == url
  {
    RemoveUnsafeKeeps(url);
  }

  lemma {:induction false} NetlocEndUnique(s: string, i: nat, e: nat)
    requires i <= e <= |s|
    requires forall k :: i <= k < e ==> !IsNetlocDelimiter(s[k])
    requires e == |s| || IsNetlocDelimiter(s[e])
    ensures NetlocEnd(s, i) == e
    decreases e - i
  {
    if i < e {
      NetlocEndUnique(s, i + 1, e);
    }
  }
}
