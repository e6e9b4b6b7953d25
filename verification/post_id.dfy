/**
 * `MastodonPostExtractor._extract_post_id`: the numeric status id in a post URL.
 *
 * Four regular expressions are tried in a fixed order with `re.search`, which
 * reports the leftmost position where the whole pattern matches; the first pattern
 * that matches anywhere wins and its `(\d+)` group is the id.
 */
module PostId {

  import opened Wrappers
  import opened Text

  /** The shapes of the four patterns. */
  datatype Pattern =
    | Segment(prefix: string)  // `<prefix>(\d+)`, the prefix a literal such as "/statuses/"
    | Handle                   // `/@[^/]+/(\d+)`

  /** `/statuses/(\d+)`, `/@[^/]+/(\d+)`, `/posts/(\d+)`, `/status/(\d+)`, in this order. */
  const Patterns: seq<Pattern> := [Segment("/statuses/"), Handle, Segment("/posts/"), Segment("/status/")]

  /** The digits of a `(\d+)` group that must start at `d`: the greedy run, if non-empty. */
  function DigitsAt(url: string, d: nat): (r: Option<string>)
    requires d <= |url|
    ensures r.Some? ==> r.value != [] && AllDigits(r.value)
  {
    if d < |url| && IsDigit(url[d]) then
      var e := DigitRunEnd(url, d);
      assert forall k :: 0 <= k < e - d ==> url[d..e][k] == url[d + k];
      Some(url[d..e])
    else None
  }

  /** The group captured when pattern `p` is matched starting exactly at position `i`. */
  function MatchAt(p: Pattern, url: string, i: nat): (r: Option<string>)
    requires i <= |url|
    ensures r.Some? ==> r.value != [] && AllDigits(r.value)
  {
    match p
    case Segment(prefix) =>
      if i + |prefix| <= |url| && url[i..i + |prefix|] == prefix then DigitsAt(url, i + |prefix|) else None
    case Handle =>
      if i + 2 <= |url| && url[i..i + 2] == "/@" then
        // `[^/]+` can only stop at the next '/', which must then be followed by digits
        var j := IndexFrom(url, '/', i + 2);
        if i + 2 < j < |url| then DigitsAt(url, j + 1) else None
      else None
  }

  /** The leftmost position at or after `i` where `p` matches. */
  function Leftmost(p: Pattern, url: string, i: nat): (r: Option<nat>)
    requires i <= |url|
    ensures r.Some? ==> i <= r.value <= |url| && MatchAt(p, url, r.value).Some?
    ensures forall k :: i <= k <= |url| && (r.None? || k < r.value) ==> MatchAt(p, url, k).None?
    decreases |url| - i
  {
    if MatchAt(p, url, i).Some? then Some(i)
    else if i == |url| then None
    else Leftmost(p, url, i + 1)
  }

  /** `re.search(p, url).group(1)`, or None when `re.search` finds nothing. */
  function Search(p: Pattern, url: string): (r: Option<string>)
    ensures r.Some? ==> r.value != [] && AllDigits(r.value)
  {
    match Leftmost(p, url, 0)
    case Some(i) => MatchAt(p, url, i)
    case None => None
  }

  /** The result of the first pattern in `pats` that `Search` finds in `url`: a non-empty run of digits. */
  function FirstMatch(pats: seq<Pattern>, url: string): (r: Option<string>)
    ensures r.Some? ==> r.value != [] && AllDigits(r.value)
  {
    if pats == [] then None
    else if Search(pats[0], url).Some? then Search(pats[0], url)
    else FirstMatch(pats[1..], url)
  }

  /** `_extract_post_id`: a loop over the patterns that returns at the first match. */
  method ExtractPostId(url: string) returns (id: Option<string>)
    ensures id == FirstMatch(Patterns, url)
    ensures id.Some? ==> id.value != [] && AllDigits(id.value)
  {
    var n := 0;
    while n < |Patterns|
      invariant 0 <= n <= |Patterns|
      invariant forall m :: 0 <= m < n ==> Search(Patterns[m], url).None?
    {
      var found := Search(Patterns[n], url);
      if found.Some? {
        FirstMatchSkips(Patterns, url, n);
        return found;
      }
      n := n + 1;
    }
    FirstMatchSkips(Patterns, url, n);
    return None;
  }

  /** There is no post id exactly when none of the patterns occurs in the URL. */
  lemma {:induction false} FirstMatchNone(pats: seq<Pattern>, url: string)
    ensures FirstMatch(pats, url).None? <==> forall n :: 0 <= n < |pats| ==> Search(pats[n], url).None?
    decreases |pats|
  {
    if pats != [] {
      FirstMatchNone(pats[1..], url);
      assert forall n :: 1 <= n < |pats| ==> pats[1..][n - 1] == pats[n];
    }
  }

  /**
   * The patterns are tried in list order: the first one that `Search` finds anywhere
   * in the URL decides, whatever the later ones would find and wherever they find it.
   */
  lemma FirstMatchIsFirst(pats: seq<Pattern>, url: string, n: nat)
    requires n < |pats| && Search(pats[n], url).Some?
    requires forall m :: 0 <= m < n ==> Search(pats[m], url).None?
    ensures FirstMatch(pats, url) == Search(pats[n], url)
  {
    FirstMatchSkips(pats, url, n);
  }

  /** Patterns that find nothing can be dropped from the front of the list. */
  lemma {:induction false} FirstMatchSkips(pats: seq<Pattern>, url: string, n: nat)
    requires n <= |pats|
    requires forall m :: 0 <= m < n ==> Search(pats[m], url).None?
    ensures FirstMatch(pats, url) == FirstMatch(pats[n..], url)
  {
    if n > 0 {
      assert pats[1..][n - 1..] == pats[n..];
      FirstMatchSkips(pats[1..], url, n - 1);
    }
  }

  // ---- The patterns read as regular expressions ----

  /** A `(\d+)` group starting at `d` that captured `g`: non-empty digits, not followed by a digit. */
  ghost predicate GroupAt(url: string, d: nat, g: string) {
    d + |g| <= |url| && url[d..d + |g|] == g && g != [] && AllDigits(g)
    && (d + |g| == |url| || !IsDigit(url[d + |g|]))
  }

  /** `p` matches `url` starting at `i` with group `g`, read directly off the regular expression. */
  ghost predicate IsMatch(p: Pattern, url: string, i: nat, g: string) {
    match p
    case Segment(prefix) => OccursAt(url, prefix, i) && GroupAt(url, i + |prefix|, g)
    case Handle =>
      OccursAt(url, "/@", i) &&
      exists j :: i + 2 < j < |url| && url[j] == '/' && (forall k :: i + 2 <= k < j ==> url[k] != '/') && GroupAt(url, j + 1, g)
  }

  lemma DigitsAtIff(url: string, d: nat, g: string)
    requires d <= |url|
    ensures DigitsAt(url, d) == Some(g) <==> GroupAt(url, d, g)
  {
    if GroupAt(url, d, g) {
      assert IsDigit(g[0]) && url[d] == g[0];
      assert forall k :: d <= k < d + |g| ==> url[k] == g[k - d];
      DigitRunEndUnique(url, d, d + |g|);
    }
  }

  /** `MatchAt` computes exactly the regular expression's match at `i`. */
  lemma MatchAtIff(p: Pattern, url: string, i: nat, g: string)
    requires i <= |url|
    ensures MatchAt(p, url, i) == Some(g) <==> IsMatch(p, url, i, g)
  {
    match p
    case Segment(prefix) =>
      if i + |prefix| <= |url| {
        DigitsAtIff(url, i + |prefix|, g);
      }
    case Handle =>
      HandleMatchAtIff(url, i, g);
  }

  lemma HandleMatchAtIff(url: string, i: nat, g: string)
    requires i <= |url|
    ensures MatchAt(Handle, url, i) == Some(g) <==> IsMatch(Handle, url, i, g)
  {
    if MatchAt(Handle, url, i) == Some(g) {
      HandleMatchSound(url, i, g);
    }
    if IsMatch(Handle, url, i, g) {
      HandleMatchComplete(url, i, g);
    }
  }

  lemma HandleMatchComplete(url: string, i: nat, g: string)
    requires i <= |url|
    requires IsMatch(Handle, url, i, g)
    ensures MatchAt(Handle, url, i) == Some(g)
  {
    var j :| i + 2 < j < |url| && url[j] == '/' && (forall k :: i + 2 <= k < j ==> url[k] != '/') && GroupAt(url, j + 1, g);
    assert IndexFrom(url, '/', i + 2) == j by {
      IndexFromUnique(url, '/', i + 2, j);
    }
    assert DigitsAt(url, j + 1) == Some(g) by {
      DigitsAtIff(url, j + 1, g);
    }
    assert url[i..i + 2] == "/@";
  }

  lemma HandleMatchSound(url: string, i: nat, g: string)
    requires i <= |url|
    requires MatchAt(Handle, url, i) == Some(g)
    ensures IsMatch(Handle, url, i, g)
  {
    var j := IndexFrom(url, '/', i + 2);
    assert i + 2 < j < |url| && DigitsAt(url, j + 1) == Some(g);
    DigitsAtIff(url, j + 1, g);
    assert OccursAt(url, "/@", i);
    assert url[j] == '/' && (forall k :: i + 2 <= k < j ==> url[k] != '/') && GroupAt(url, j + 1, g);
  }

  /** `Search` reports the match at the leftmost position where the pattern matches at all. */
  lemma SearchIsLeftmost(p: Pattern, url: string, i: nat, g: string)
    requires i <= |url|
    requires IsMatch(p, url, i, g)
    requires forall k, h :: 0 <= k < i ==> !IsMatch(p, url, k, h)
    ensures Search(p, url) == Some(g)
  {
    MatchAtIff(p, url, i, g);
    forall k | 0 <= k < i ensures MatchAt(p, url, k).None? {
      if MatchAt(p, url, k).Some? {
        MatchAtIff(p, url, k, MatchAt(p, url, k).value);
      }
    }
    assert Leftmost(p, url, 0) == Some(i);
  }

  /** A URL without any digit carries no post id. */
  lemma NoDigitNoId(url: string)
    requires forall k :: 0 <= k < |url| ==> !IsDigit(url[k])
    ensures FirstMatch(Patterns, url).None?
  {
    forall p: Pattern | Search(p, url).Some? ensures false {
      var i := Leftmost(p, url, 0).value;
      MatchAtIff(p, url, i, Search(p, url).value);
    }
    FirstMatchSkips(Patterns, url, |Patterns|);
  }

  // ---- The profile-style URL `https://<host>/@<user>/<id>` ----

  predicate NoSlash(s: string) {
    forall k :: 0 <= k < |s| ==> s[k] != '/'
  }

  /** A literal prefix of the form `/word/`, the word in lower-case letters. */
  predicate IsSlashWord(prefix: string) {
    |prefix| >= 3 && prefix[0] == '/' && prefix[|prefix| - 1] == '/'
    && forall k :: 0 < k < |prefix| - 1 ==> 'a' <= prefix[k] <= 'z'
  }

  function ProfileUrl(host: string, user: string, id: string): string {
    "https://" + host + "/@" + user + "/" + id
  }

  /** Where the characters of a profile URL, followed by `rest`, come from. */
  lemma ProfileUrlLayout(host: string, user: string, id: string, rest: string)
    ensures var url, h, u := ProfileUrl(host, user, id) + rest, |host|, |user|;
      && |url| == 11 + h + u + |id| + |rest|
      && url[..6] == "https:" && url[6] == '/' && url[7] == '/'
      && (forall k :: 8 <= k < 8 + h ==> url[k] == host[k - 8])
      && url[8 + h] == '/' && url[9 + h] == '@'
      && (forall k :: 10 + h <= k < 10 + h + u ==> url[k] == user[k - 10 - h])
      && url[10 + h + u] == '/'
      && url[11 + h + u..11 + h + u + |id|] == id
      && url[11 + h + u + |id|..] == rest
  {
  }

  /**
   * None of `/statuses/`, `/posts/`, `/status/` matches at a position inside a
   * profile URL, whatever path follows it.
   */
  lemma SegmentMissesProfileUrl(prefix: string, host: string, user: string, id: string, rest: string, i: nat)
    requires IsSlashWord(prefix)
    requires NoSlash(host) && NoSlash(user) && id != [] && AllDigits(id)
    requires rest == [] || rest[0] == '/'
    requires i < |ProfileUrl(host, user, id)|
    ensures MatchAt(Segment(prefix), ProfileUrl(host, user, id) + rest, i).None?
  {
    var url, h, u := ProfileUrl(host, user, id) + rest, |host|, |user|;
    ProfileUrlLayout(host, user, id, rest);
    var n := |prefix|;
    SegmentMatchShape(prefix, url, i);
    if i + n < |url| {
      // each position either is no '/', or is not followed by a lower-case word, a '/' and a digit
      if i < 6 {
        assert url[i] == "https:"[i];
      } else if i == 7 {
        if i + n - 1 < 8 + h {
          assert url[i + n - 1] == host[i + n - 9];
        } else if i + n - 1 > 8 + h {
          assert url[9 + h] == '@';
        }
      } else if 8 <= i < 8 + h {
        assert url[i] == host[i - 8];
      } else if 10 + h <= i < 10 + h + u {
        assert url[i] == user[i - 10 - h];
      } else if i == 10 + h + u {
        assert url[i + 1] == id[0];
      } else if 10 + h + u < i {
        assert url[i] == id[i - 11 - h - u];
      }
    }
  }

  /** What a match of `/word/(\d+)` at `i` says about the characters of the URL. */
  lemma SegmentMatchShape(prefix: string, url: string, i: nat)
    requires IsSlashWord(prefix) && i <= |url|
    ensures MatchAt(Segment(prefix), url, i).Some? ==>
      var n := |prefix|;
      && i + n < |url| && url[i] == '/' && url[i + n - 1] == '/' && IsDigit(url[i + n])
      && forall k :: i < k < i + n - 1 ==> 'a' <= url[k] <= 'z'
  {
    var n := |prefix|;
    if MatchAt(Segment(prefix), url, i).Some? {
      assert url[i..i + n] == prefix;
      assert forall k :: i <= k < i + n ==> url[k] == prefix[k - i];
    }
  }

  /** The handle pattern matches first at the `/@` of a profile URL, capturing the id. */
  lemma HandleFindsProfileId(host: string, user: string, id: string, rest: string)
    requires NoSlash(host) && NoSlash(user) && user != []
    requires id != [] && AllDigits(id)
    requires rest == [] || !IsDigit(rest[0])
    ensures Search(Handle, ProfileUrl(host, user, id) + rest) == Some(id)
  {
    var url, h := ProfileUrl(host, user, id) + rest, |host|;
    HandleMatchesProfileUrl(host, user, id, rest);
    forall k, g | 0 <= k < 8 + h ensures !IsMatch(Handle, url, k, g) {
      NoHandleBeforeUser(host, user, id, rest, k);
      MatchAtIff(Handle, url, k, g);
    }
    SearchIsLeftmost(Handle, url, 8 + h, id);
  }

  lemma HandleMatchesProfileUrl(host: string, user: string, id: string, rest: string)
    requires NoSlash(host) && NoSlash(user) && user != []
    requires id != [] && AllDigits(id)
    requires rest == [] || !IsDigit(rest[0])
    ensures IsMatch(Handle, ProfileUrl(host, user, id) + rest, 8 + |host|, id)
  {
    var url, h, u := ProfileUrl(host, user, id) + rest, |host|, |user|;
    ProfileUrlLayout(host, user, id, rest);
    assert OccursAt(url, "/@", 8 + h);
    assert forall k :: 10 + h <= k < 10 + h + u ==> url[k] != '/';
    assert GroupAt(url, 11 + h + u, id);
  }

  /** The handle pattern matches nowhere before the `/@` that precedes the user. */
  lemma NoHandleBeforeUser(host: string, user: string, id: string, rest: string, k: nat)
    requires NoSlash(host) && k < 8 + |host|
    ensures MatchAt(Handle, ProfileUrl(host, user, id) + rest, k).None?
  {
    var url, h := ProfileUrl(host, user, id) + rest, |host|;
    ProfileUrlLayout(host, user, id, rest);
    if k < 6 {
      assert url[k] == "https:"[k];
    } else if 8 <= k {
      assert url[k] == host[k - 8];
    } else if k == 7 && OccursAt(url, "/@", 7) {
      // a host such as "@example" puts a "/@" here, but its run ends at the '/' before '@'
      assert url[8] == '@' && h >= 1;
      IndexFromUnique(url, '/', 9, 8 + h);
    }
  }

  /** The id in `https://<host>/@<user>/<digits>` is the digits. */
  lemma ProfileUrlId(host: string, user: string, id: string)
    requires NoSlash(host) && NoSlash(user) && user != []
    requires id != [] && AllDigits(id)
    ensures FirstMatch(Patterns, ProfileUrl(host, user, id)) == Some(id)
  {
    var url := ProfileUrl(host, user, id);
    assert url + [] == url;
    forall i | 0 <= i <= |url| ensures MatchAt(Segment("/statuses/"), url, i).None? {
      if i < |url| {
        SegmentMissesProfileUrl("/statuses/", host, user, id, [], i);
      }
    }
    assert Leftmost(Segment("/statuses/"), url, 0).None?;
    HandleFindsProfileId(host, user, id, []);
  }

  // The example URLs of the test script yield their trailing digits.

  lemma MastodonSocialExample()
    ensures FirstMatch(Patterns, "https://mastodon.social/@user/123456789") == Some("123456789")
  {
    var host, user, id := "mastodon.social", "user", "123456789";
    assert NoSlash(host);
    assert NoSlash(user);
    assert AllDigits(id);
    assert "https://mastodon.social/@user/123456789" == ProfileUrl(host, user, id);
    ProfileUrlId(host, user, id);
  }

  lemma FosstodonExample()
    ensures FirstMatch(Patterns, "https://fosstodon.org/@developer/987654321") == Some("987654321")
  {
    var host, user, id := "fosstodon.org", "developer", "987654321";
    assert NoSlash(host);
    assert NoSlash(user);
    assert AllDigits(id);
    assert "https://fosstodon.org/@developer/987654321" == ProfileUrl(host, user, id);
    ProfileUrlId(host, user, id);
  }

  lemma MasToExample()
    ensures FirstMatch(Patterns, "https://mas.to/@someone/555666777") == Some("555666777")
  {
    var host, user, id := "mas.to", "someone", "555666777";
    assert NoSlash(host);
    assert NoSlash(user);
    assert AllDigits(id);
    assert "https://mas.to/@someone/555666777" == ProfileUrl(host, user, id);
    ProfileUrlId(host, user, id);
  }

  /**
   * Pattern order beats position: in `https://<host>/@<user>/<id>/statuses/<id2>` the
   * handle pattern matches further left (capturing `id`), yet `/statuses/` is tried
   * first and its `id2` is the post id.
   */
  lemma EarlierPatternWins(host: string, user: string, id: string, id2: string)
    requires NoSlash(host) && NoSlash(user) && user != []
    requires id != [] && AllDigits(id) && id2 != [] && AllDigits(id2)
    ensures Search(Handle, ProfileUrl(host, user, id) + "/statuses/" + id2) == Some(id)
    ensures FirstMatch(Patterns, ProfileUrl(host, user, id) + "/statuses/" + id2) == Some(id2)
  {
    var rest := "/statuses/" + id2;
    assert ProfileUrl(host, user, id) + "/statuses/" + id2 == ProfileUrl(host, user, id) + rest;
    HandleFindsProfileId(host, user, id, rest);
    StatusesAfterProfile(host, user, id, id2);
    NoStatusesInProfile(host, user, id, rest);
    SearchIsLeftmost(Segment("/statuses/"), ProfileUrl(host, user, id) + rest, |ProfileUrl(host, user, id)|, id2);
  }

  lemma NoStatusesInProfile(host: string, user: string, id: string, rest: string)
    requires NoSlash(host) && NoSlash(user) && id != [] && AllDigits(id)
    requires rest == [] || rest[0] == '/'
    ensures forall k, g :: 0 <= k < |ProfileUrl(host, user, id)| ==> !IsMatch(Segment("/statuses/"), ProfileUrl(host, user, id) + rest, k, g)
  {
    var url := ProfileUrl(host, user, id) + rest;
    forall k, g | 0 <= k < |ProfileUrl(host, user, id)| ensures !IsMatch(Segment("/statuses/"), url, k, g) {
      SegmentMissesProfileUrl("/statuses/", host, user, id, rest, k);
      MatchAtIff(Segment("/statuses/"), url, k, g);
    }
  }

  lemma StatusesAfterProfile(host: string, user: string, id: string, id2: string)
    requires id2 != [] && AllDigits(id2)
    ensures IsMatch(Segment("/statuses/"), ProfileUrl(host, user, id) + ("/statuses/" + id2), |ProfileUrl(host, user, id)|, id2)
  {
    var url, at := ProfileUrl(host, user, id) + ("/statuses/" + id2), |ProfileUrl(host, user, id)|;
    assert url[at..at + 10] == "/statuses/";
    assert url[at + 10..at + 10 + |id2|] == id2;
  }

  // ---- The status API endpoint `https://<host>/api/v1/statuses/<id>` ----

  function EndpointUrl(host: string, id: string): string {
    "https://" + host + "/api/v1/statuses/" + id
  }

  const ApiPath: string := "/api/v1/statuses/"

  lemma EndpointLayout(host: string, id: string)
    ensures var url, h := EndpointUrl(host, id), |host|;
      && |url| == 25 + h + |id|
      && url[..6] == "https:" && url[6] == '/' && url[7] == '/'
      && (forall k :: 8 <= k < 8 + h ==> url[k] == host[k - 8])
      && (forall k :: 8 + h <= k < 25 + h ==> url[k] == ApiPath[k - 8 - h])
      && url[25 + h..] == id
  {
  }

  /** `/statuses/` matches nowhere before the one in the API path. */
  lemma StatusesMissesEndpoint(host: string, id: string, i: nat)
    requires NoSlash(host) && AllDigits(id)
    requires i < 15 + |host|
    ensures MatchAt(Segment("/statuses/"), EndpointUrl(host, id), i).None?
  {
    var url, h := EndpointUrl(host, id), |host|;
    assert !(i + 10 < |url| && url[i] == '/' && url[i + 9] == '/' && IsDigit(url[i + 10])
             && forall k :: i < k < i + 9 ==> 'a' <= url[k] <= 'z') by {
      EndpointLayout(host, id);
      // each position either is no '/', or is not followed by a lower-case word, a '/' and a digit
      if i + 10 < |url| {
        if i < 6 {
          assert url[i] == "https:"[i];
        } else if i == 7 {
          if 16 < 8 + h {
            assert url[16] == host[8];
          } else {
            assert url[16] == ApiPath[8 - h];
          }
        } else if 8 <= i < 8 + h {
          assert url[i] == host[i - 8];
        } else if 8 + h <= i {
          assert url[i] == ApiPath[i - 8 - h];
          assert url[i + 9] == ApiPath[i + 1 - h];
        }
      }
    }
    SegmentMatchShape("/statuses/", url, i);
  }

  /** The endpoint built from a post id carries that same post id. */
  lemma EndpointUrlId(host: string, id: string)
    requires NoSlash(host) && id != [] && AllDigits(id)
    ensures FirstMatch(Patterns, EndpointUrl(host, id)) == Some(id)
  {
    var url, h := EndpointUrl(host, id), |host|;
    EndpointLayout(host, id);
    assert IsMatch(Segment("/statuses/"), url, 15 + h, id) by {
      assert url[15 + h..25 + h] == "/statuses/";
      assert url[25 + h..25 + h + |id|] == id;
    }
    forall k, g | 0 <= k < 15 + h ensures !IsMatch(Segment("/statuses/"), url, k, g) {
      StatusesMissesEndpoint(host, id, k);
      MatchAtIff(Segment("/statuses/"), url, k, g);
    }
    SearchIsLeftmost(Segment("/statuses/"), url, 15 + h, id);
  }
}
