/**
 * Character-level scanning shared by the URL, post-id and reply parsers:
 * digit runs, searches for one character, ASCII lower-casing and substring search.
 */
module Text {

  import opened Wrappers

  /** The characters a `\d` in the post-id patterns accepts (ASCII digits only here). */
  predicate IsDigit(c: char) {
    '0' <= c <= '9'
  }

  predicate AllDigits(s: string) {
    forall k :: 0 <= k < |s| ==> IsDigit(s[k])
  }

  /** End of the longest run of digits in `s` that starts at `i` (greedy `\d+`). */
  function DigitRunEnd(s: string, i: nat): (e: nat)
    requires i <= |s|
    ensures i <= e <= |s|
    ensures forall k :: i <= k < e ==> IsDigit(s[k])
    ensures e == |s| || !IsDigit(s[e])
    decreases |s| - i
  {
    if i < |s| && IsDigit(s[i]) then DigitRunEnd(s, i + 1) else i
  }

  /** A digit run that is bounded by a non-digit (or the end) is the longest one. */
  lemma {:induction false} DigitRunEndUnique(s: string, i: nat, e: nat)
    requires i <= e <= |s|
    requires forall k :: i <= k < e ==> IsDigit(s[k])
    requires e == |s| || !IsDigit(s[e])
    ensures DigitRunEnd(s, i) == e
    decreases e - i
  {
    if i < e {
      DigitRunEndUnique(s, i + 1, e);
    }
  }

  /** Index of the first `c` in `s` at or after `i`, or `|s|` when there is none (`str.find`). */
  function IndexFrom(s: string, c: char, i: nat): (j: nat)
    requires i <= |s|
    ensures i <= j <= |s|
    ensures j < |s| ==> s[j] == c
    ensures forall k :: i <= k < j ==> s[k] != c
    decreases |s| - i
  {
    if i == |s| || s[i] == c then i else IndexFrom(s, c, i + 1)
  }

  /** A position holding `c` with no `c` between `i` and it is what `IndexFrom` finds. */
  lemma {:induction false} IndexFromUnique(s: string, c: char, i: nat, j: nat)
    requires i <= j <= |s|
    requires j == |s| || s[j] == c
    requires forall k :: i <= k < j ==> s[k] != c
    ensures IndexFrom(s, c, i) == j
    decreases j - i
  {
    if i < j {
      IndexFromUnique(s, c, i + 1, j);
    }
  }

  /** Index of the last `c` in `s[..n]`, if any (`str.rfind`). */
  function LastIndexBefore(s: string, c: char, n: nat): (r: Option<nat>)
    requires n <= |s|
    ensures r.Some? ==> r.value < n && s[r.value] == c && forall k :: r.value < k < n ==> s[k] != c
    ensures r.None? ==> forall k :: 0 <= k < n ==> s[k] != c
  {
    if n == 0 then None
    else if s[n - 1] == c then Some(n - 1)
    else LastIndexBefore(s, c, n - 1)
  }

  /** `str.lower` restricted to ASCII letters. */
  function LowerChar(c: char): char {
    if 'A' <= c <= 'Z' then (c as int + 32) as char else c
  }

  function Lower(s: string): (r: string)
    ensures |r| == |s|
    ensures forall k :: 0 <= k < |s| ==> r[k] == LowerChar(s[k])
  {
    if s == [] then [] else [LowerChar(s[0])] + Lower(s[1..])
  }

  /** `sub` occurs in `s` at position `i`. */
  predicate OccursAt(s: string, sub: string, i: nat) {
    i + |sub| <= |s| && s[i..i + |sub|] == sub
  }

  /** `sub in s[i..]`, by trying each start position in turn. */
  function ContainsFrom(s: string, sub: string, i: nat): (b: bool)
    requires i <= |s|
    decreases |s| - i
  {
    OccursAt(s, sub, i) || (i < |s| && ContainsFrom(s, sub, i + 1))
  }

  /** Python's `sub in s`. */
  function Contains(s: string, sub: string): bool {
    ContainsFrom(s, sub, 0)
  }

  /** The scan finds an occurrence exactly when one exists. */
  lemma {:induction false} ContainsFromIff(s: string, sub: string, i: nat)
    requires i <= |s|
    ensures ContainsFrom(s, sub, i) <==> exists k :: i <= k <= |s| && OccursAt(s, sub, k)
    decreases |s| - i
  {
    if i < |s| {
      ContainsFromIff(s, sub, i + 1);
      if ContainsFrom(s, sub, i + 1) {
        var k :| i + 1 <= k <= |s| && OccursAt(s, sub, k);
        assert i <= k <= |s| && OccursAt(s, sub, k);
      }
      if exists k :: i <= k <= |s| && OccursAt(s, sub, k) {
        var k :| i <= k <= |s| && OccursAt(s, sub, k);
        if k != i {
          assert i + 1 <= k <= |s| && OccursAt(s, sub, k);
        }
      }
    } else {
      if exists k :: i <= k <= |s| && OccursAt(s, sub, k) {
        var k :| i <= k <= |s| && OccursAt(s, sub, k);
        assert k == i;
      }
    }
  }

  lemma ContainsIff(s: string, sub: string)
    ensures Contains(s, sub) <==> exists k :: 0 <= k <= |s| && OccursAt(s, sub, k)
  {
    ContainsFromIff(s, sub, 0);
  }
}
