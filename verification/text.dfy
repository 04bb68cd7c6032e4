/**
 Text helpers the password table relies on: Python's `str.lower()` (restricted
 to the alphabets listed at `LowerChar`), the `in` substring test on strings,
 and the run of `*` that stands in for a hidden password.
 */
module Text {

  /** The capitals lower-casing knows: ASCII A-Z, Latin-1 capitals (not the
      multiplication sign) and the basic Cyrillic capitals U+0400-U+042F. */
  predicate IsUpper(c: char)
  {
    || 'A' <= c <= 'Z'
    || ('\U{C0}' <= c <= '\U{DE}' && c != '\U{D7}')
    || '\U{400}' <= c <= '\U{42F}'
  }

  /** Lower-cases one capital to its own small letter, as Unicode pairs them
      in these ranges; every other character is returned unchanged. */
  function LowerChar(c: char): (d: char)
    ensures !IsUpper(d)
    ensures !IsUpper(c) ==> d == c
    ensures 'A' <= c <= 'Z' ==> d as int == c as int + ('a' as int - 'A' as int)
    ensures '\U{C0}' <= c <= '\U{DE}' && c != '\U{D7}' ==> d as int == c as int + ('\U{E0}' as int - '\U{C0}' as int)
    ensures '\U{400}' <= c <= '\U{40F}' ==> d as int == c as int + ('\U{450}' as int - '\U{400}' as int)
    ensures '\U{410}' <= c <= '\U{42F}' ==> d as int == c as int + ('\U{430}' as int - '\U{410}' as int)
  {
    if 'A' <= c <= 'Z' then (c as int + 32) as char
    else if '\U{C0}' <= c <= '\U{DE}' && c != '\U{D7}' then (c as int + 32) as char
    else if '\U{400}' <= c <= '\U{40F}' then (c as int + 80) as char
    else if '\U{410}' <= c <= '\U{42F}' then (c as int + 32) as char
    else c
  }

  /** `s.lower()`, character by character. */
  function Lower(s: string): (r: string)
    ensures |r| == |s|
    ensures forall k :: 0 <= k < |r| ==> !IsUpper(r[k])
    ensures forall k :: 0 <= k < |s| && !IsUpper(s[k]) ==> r[k] == s[k]
    ensures forall k :: 0 <= k < |s| ==> r[k] == LowerChar(s[k])
  {
    seq(|s|, k requires 0 <= k < |s| => LowerChar(s[k]))
  }

  /** Lower-casing a lower-cased string changes nothing. */
  lemma LowerIdempotent(s: string)
    ensures Lower(Lower(s)) == Lower(s)
  {
  }

  /** A capitalised word lower-cases letter by letter to its small form. */
  lemma LowerExample()
    ensures Lower("BaNK") == "bank"
    ensures Lower("\U{41F}\U{43E}\U{427}\U{422}\U{410}") == "\U{43F}\U{43E}\U{447}\U{442}\U{430}"
  {
  }

  /** A string without capitals lower-cases to itself. */
  lemma LowerOfLowerCase(s: string)
    requires forall k :: 0 <= k < |s| ==> !IsUpper(s[k])
    ensures Lower(s) == s
  {
  }

  /** `s.startswith(p)`. */
  predicate StartsWith(s: string, p: string)
  {
    |p| <= |s| && s[..|p|] == p
  }

  /** `sub in s`: `sub` starts at some position of `s`. The empty string is
      in every string, and nothing longer than `s` is in it. */
  predicate Contains(s: string, sub: string)
    ensures sub == "" ==> Contains(s, sub)
    ensures Contains(s, sub) ==> |sub| <= |s|
    decreases |s|
  {
    StartsWith(s, sub) || (|s| > 0 && Contains(s[1..], sub))
  }

  /** `sub` occurs in `s` starting at position `k`. */
  predicate OccursAt(s: string, sub: string, k: int)
  {
    0 <= k && k + |sub| <= |s| && s[k..k + |sub|] == sub
  }

  /** `Contains` is the substring relation: it holds exactly when `sub` occurs
      somewhere in `s`. */
  lemma {:induction false} ContainsIsSubstring(s: string, sub: string)
    ensures Contains(s, sub) <==> exists k :: OccursAt(s, sub, k)
    decreases |s|
  {
    if StartsWith(s, sub) {
      assert OccursAt(s, sub, 0);
    }
    if |s| > 0 {
      ContainsIsSubstring(s[1..], sub);
      if Contains(s[1..], sub) {
        var k :| OccursAt(s[1..], sub, k);
        assert s[1..][k..k + |sub|] == s[k + 1..k + 1 + |sub|];
        assert OccursAt(s, sub, k + 1);
      }
    }
    if exists k :: OccursAt(s, sub, k) {
      var k :| OccursAt(s, sub, k);
      if k == 0 {
        assert StartsWith(s, sub);
      } else {
        assert s[1..][k - 1..k - 1 + |sub|] == s[k..k + |sub|];
        assert OccursAt(s[1..], sub, k - 1);
      }
    }
  }

  /** Nothing longer than `s` is in `s`. */
  lemma {:induction false} ShorterDoesNotContain(s: string, sub: string)
    requires |s| < |sub|
    ensures !Contains(s, sub)
    decreases |s|
  {
    if |s| > 0 {
      ShorterDoesNotContain(s[1..], sub);
    }
  }

  /** `s` does not start with `p` when they differ at a shared position. */
  lemma DiffersAt(s: string, p: string, k: nat)
    requires k < |s| && k < |p| && s[k] != p[k]
    ensures !StartsWith(s, p)
  {
  }

  /** `p` does not occur in `s` from position `from` on when no character of
      `s` from there on is the first character of `p`. */
  lemma {:induction false} NoLaterMatch(s: string, p: string, from: nat)
    requires |p| > 0 && from <= |s|
    requires forall k :: from <= k < |s| ==> s[k] != p[0]
    ensures !Contains(s[from..], p)
    decreases |s| - from
  {
    if from < |s| {
      DiffersAt(s[from..], p, 0);
      NoLaterMatch(s, p, from + 1);
      assert s[from..][1..] == s[from + 1..];
    }
  }

  /** `"*" * n`. */
  function Mask(n: nat): (m: string)
    ensures |m| == n
    ensures forall k :: 0 <= k < n ==> m[k] == '*'
  {
    seq(n, _ => '*')
  }
}
