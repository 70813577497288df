/** The handful of .NET string operations the controllers rely on:
    String.Replace, String.TrimEnd, String.IsNullOrEmpty, String.IsNullOrWhiteSpace
    and the decimal rendering of an int inside an interpolated string. */
module Strings {
  import opened Wrappers

  /** `p` occurs in `s` starting at index `i`. */
  predicate OccursAt(s: string, p: string, i: int) {
    0 <= i && i + |p| <= |s| && s[i..i + |p|] == p
  }

  /** `s.Contains(p)` */
  predicate Contains(s: string, p: string) {
    exists i | 0 <= i <= |s| :: OccursAt(s, p, i)
  }

  /** An occurrence in a suffix is an occurrence in the whole string. */
  lemma OccursInSuffix(s: string, p: string, k: nat, i: int)
    requires k <= |s|
    requires OccursAt(s[k..], p, i)
    ensures OccursAt(s, p, i + k)
  {
    assert s[k..][i..i + |p|] == s[i + k..i + k + |p|];
  }

  /** What occurs after the first character occurs in the whole string. */
  lemma ContainsInTail(s: string, p: string)
    requires |s| > 0
    ensures Contains(s[1..], p) ==> Contains(s, p)
  {
    if Contains(s[1..], p) {
      var i :| OccursAt(s[1..], p, i);
      OccursInSuffix(s, p, 1, i);
    }
  }

  /** `s.Replace(p, q)` with a non-empty `p`: every occurrence of `p`, found by a
      left-to-right scan that does not overlap what it already replaced, becomes `q`.
      (C# throws for an empty `p`; every call site passes a literal.) */
  function ReplaceAll(s: string, p: string, q: string): (r: string)
    requires |p| > 0
    decreases |s|
  {
    if |s| < |p| then s
    else if s[..|p|] == p then q + ReplaceAll(s[|p|..], p, q)
    else [s[0]] + ReplaceAll(s[1..], p, q)
  }

  /** A string in which `p` does not occur comes back unchanged. */
  lemma {:induction false} ReplaceWithoutOccurrence(s: string, p: string, q: string)
    requires |p| > 0
    requires !Contains(s, p)
    ensures ReplaceAll(s, p, q) == s
    decreases |s|
  {
    if |s| >= |p| {
      assert !OccursAt(s, p, 0);
      ContainsInTail(s, p);
      ReplaceWithoutOccurrence(s[1..], p, q);
    }
  }

  /** The scan replaces the first occurrence and carries on after it: if the first
      occurrence of `p` in `s` starts at `k`, the result is the untouched prefix, then
      `q`, then the replacement of what follows the occurrence. */
  lemma {:induction false} ReplaceAtFirstOccurrence(s: string, p: string, q: string, k: nat)
    requires |p| > 0
    requires OccursAt(s, p, k)
    requires forall j :: 0 <= j < k ==> !OccursAt(s, p, j)
    ensures ReplaceAll(s, p, q) == s[..k] + q + ReplaceAll(s[k + |p|..], p, q)
    decreases k
  {
    if k == 0 {
      ReplaceAtStart(s, p, q);
    } else {
      var t := s[1..];
      var rest := ReplaceAll(s[k + |p|..], p, q);
      assert ReplaceAll(t, p, q) == t[..k - 1] + q + rest by {
        assert OccursAt(t, p, k - 1) by {
          assert t[k - 1..k - 1 + |p|] == s[k..k + |p|];
        }
        NoEarlierOccurrenceInTail(s, p, k);
        ReplaceAtFirstOccurrence(t, p, q, k - 1);
        assert t[k - 1 + |p|..] == s[k + |p|..];
      }
      assert ReplaceAll(s, p, q) == [s[0]] + ReplaceAll(t, p, q) by {
        ReplaceSkipsFirst(s, p, q);
      }
      PrefixOfTail(s, k, q, rest);
    }
  }

  /** Where `p` does not occur at the start, the first character is kept as it is. */
  lemma ReplaceSkipsFirst(s: string, p: string, q: string)
    requires |p| > 0 && |s| >= |p|
    requires !OccursAt(s, p, 0)
    ensures ReplaceAll(s, p, q) == [s[0]] + ReplaceAll(s[1..], p, q)
  {
  }

  lemma PrefixOfTail(s: string, k: nat, u: string, v: string)
    requires 0 < k <= |s|
    ensures [s[0]] + (s[1..][..k - 1] + u + v) == s[..k] + u + v
  {
    assert s[..k] == [s[0]] + s[1..][..k - 1];
  }

  /** `q` cannot begin at position `j` of `w`: its first character differs there, or
      its second does at the next position. */
  predicate NoStartAt(w: string, q: string, j: int)
    requires |q| >= 2 && 0 <= j < |w|
  {
    w[j] != q[0] || (j + 1 < |w| && w[j + 1] != q[1])
  }

  /** `q` begins nowhere inside `w`, not even as a prefix overhanging its end. */
  predicate NoStartIn(w: string, q: string)
  {
    |q| >= 2 && forall j :: 0 <= j < |w| ==> NoStartAt(w, q, j)
  }

  /** A text that `q` cannot begin inside is not how `q` followed by anything begins. */
  lemma NoStartBeforeReplacement(w: string, q: string, rest: string)
    requires |w| > 0 && NoStartIn(w, q)
    ensures !(|q + rest| >= |w| && (q + rest)[..|w|] == w)
  {
    assert NoStartAt(w, q, 0);
  }

  /** What a replacement begins with was already there, as long as `q` cannot begin
      anywhere inside it. */
  lemma {:induction false} ReplaceKeepsPrefix(t: string, p: string, q: string, w: string)
    requires |p| > 0 && NoStartIn(w, q)
    requires |ReplaceAll(t, p, q)| >= |w| && ReplaceAll(t, p, q)[..|w|] == w
    ensures |t| >= |w| && t[..|w|] == w
    decreases |t|
  {
    var r := ReplaceAll(t, p, q);
    if |w| > 0 && |t| >= |p| {
      if t[..|p|] == p {
        ReplaceAtStart(t, p, q);
        NoStartBeforeReplacement(w, q, ReplaceAll(t[|p|..], p, q));
        assert false;
      } else {
        var rest := ReplaceAll(t[1..], p, q);
        assert r == [t[0]] + rest;
        assert rest[..|w| - 1] == r[..|w|][1..] == w[1..];
        forall j | 0 <= j < |w[1..]| ensures NoStartAt(w[1..], q, j) {
          assert NoStartAt(w, q, j + 1);
        }
        ReplaceKeepsPrefix(t[1..], p, q, w[1..]);
        assert t[..|w|] == [t[0]] + t[1..][..|w| - 1];
      }
    }
  }

  /** After every `p` has been replaced by `q`, no `p` is left, as long as `q` does not
      contain `p`'s first character and cannot begin inside the rest of `p`. */
  lemma {:induction false} ReplaceLeavesNoOccurrence(s: string, p: string, q: string)
    requires |p| > 0 && NoStartIn(p[1..], q)
    requires forall i :: 0 <= i < |q| ==> q[i] != p[0]
    ensures !Contains(ReplaceAll(s, p, q), p)
    decreases |s|
  {
    var r := ReplaceAll(s, p, q);
    if |s| >= |p| {
      if s[..|p|] == p {
        var rest := ReplaceAll(s[|p|..], p, q);
        ReplaceLeavesNoOccurrence(s[|p|..], p, q);
        assert r == q + rest;
        forall i | 0 <= i <= |r| ensures !OccursAt(r, p, i) {
          if OccursAt(r, p, i) && i >= |q| {
            assert rest[i - |q|..i - |q| + |p|] == r[i..i + |p|];
            assert OccursAt(rest, p, i - |q|);
          }
        }
      } else {
        var rest := ReplaceAll(s[1..], p, q);
        ReplaceLeavesNoOccurrence(s[1..], p, q);
        assert r == [s[0]] + rest;
        forall i | 0 <= i <= |r| ensures !OccursAt(r, p, i) {
          if OccursAt(r, p, i) {
            if i == 0 {
              assert rest[..|p| - 1] == r[..|p|][1..] == p[1..];
              ReplaceKeepsPrefix(s[1..], p, q, p[1..]);
            } else {
              assert rest[i - 1..i - 1 + |p|] == r[i..i + |p|];
              assert OccursAt(rest, p, i - 1);
            }
          }
        }
      }
    }
  }

  lemma ReplaceAtStart(s: string, p: string, q: string)
    requires |p| > 0
    requires OccursAt(s, p, 0)
    ensures ReplaceAll(s, p, q) == s[..0] + q + ReplaceAll(s[|p|..], p, q)
  {
    assert s[..|p|] == p;
    assert s[..0] + q == q;
  }

  lemma NoEarlierOccurrenceInTail(s: string, p: string, k: nat)
    requires 0 < k <= |s|
    requires forall j :: 0 <= j < k ==> !OccursAt(s, p, j)
    ensures forall j :: 0 <= j < k - 1 ==> !OccursAt(s[1..], p, j)
  {
    forall j | 0 <= j < k - 1
      ensures !OccursAt(s[1..], p, j)
    {
      if OccursAt(s[1..], p, j) {
        OccursInSuffix(s, p, 1, j);
      }
    }
  }

  /** `s` with every `a` turned into `b`, character by character. */
  function SwapChar(s: string, a: char, b: char): (r: string)
  {
    seq(|s|, i requires 0 <= i < |s| => if s[i] == a then b else s[i])
  }

  /** `s` with every `a` removed. */
  function DropChar(s: string, a: char): (r: string)
  {
    if |s| == 0 then s
    else (if s[0] == a then [] else [s[0]]) + DropChar(s[1..], a)
  }

  /** Replacing a one-character string by another one-character string is a
      character-wise substitution, so `Replace("+", "-")` and `Replace('+', '-')` agree. */
  lemma {:induction false} ReplaceOneCharIsSwap(s: string, a: char, b: char)
    ensures ReplaceAll(s, [a], [b]) == SwapChar(s, a, b)
    decreases |s|
  {
    if |s| >= 1 {
      ReplaceOneCharIsSwap(s[1..], a, b);
      assert s[..1] == [s[0]];
      assert SwapChar(s, a, b) == [if s[0] == a then b else s[0]] + SwapChar(s[1..], a, b);
    }
  }

  /** Replacing a one-character string by "" deletes that character everywhere. */
  lemma {:induction false} ReplaceOneCharByEmptyIsDrop(s: string, a: char)
    ensures ReplaceAll(s, [a], "") == DropChar(s, a)
    decreases |s|
  {
    if |s| >= 1 {
      ReplaceOneCharByEmptyIsDrop(s[1..], a);
      assert s[..1] == [s[0]];
    }
  }

  /** `s.TrimEnd(c)`: removes every trailing `c`. */
  function TrimEnd(s: string, c: char): (r: string)
    ensures |r| <= |s| && r == s[..|r|]
    ensures |r| == 0 || r[|r| - 1] != c
    ensures forall i :: |r| <= i < |s| ==> s[i] == c
  {
    if |s| > 0 && s[|s| - 1] == c then TrimEnd(s[..|s| - 1], c) else s
  }

  /** `s.EndsWith(t)` with ordinal comparison. */
  predicate EndsWith(s: string, t: string) {
    |s| >= |t| && s[|s| - |t|..] == t
  }

  /** `string.IsNullOrEmpty(s)`, for a string read as scalar values or as code units. */
  predicate IsNullOrEmpty<T>(s: Option<seq<T>>) {
    s.None? || |s.value| == 0
  }

  // ------------------------------------------------------------------ UTF-16

  /** A UTF-16 code unit: what a .NET string's `Length`, indexer and `Substring` count. */
  newtype CodeUnit = x: int | 0 <= x < 0x1_0000

  predicate IsBmp(c: char) {
    (c as int) < 0x1_0000
  }

  predicate IsHighSurrogate(u: CodeUnit) {
    0xD800 <= u < 0xDC00
  }

  predicate IsLowSurrogate(u: CodeUnit) {
    0xDC00 <= u < 0xE000
  }

  /** The code units of one scalar value: itself inside the basic multilingual plane,
      a high and a low surrogate outside it. */
  function ScalarUnits(c: char): (r: seq<CodeUnit>)
    ensures IsBmp(c) ==> r == [c as int as CodeUnit]
    ensures !IsBmp(c) ==> |r| == 2 && IsHighSurrogate(r[0]) && IsLowSurrogate(r[1])
  {
    var v := c as int;
    if v < 0x1_0000 then [v as CodeUnit]
    else [(0xD800 + (v - 0x1_0000) / 0x400) as CodeUnit, (0xDC00 + (v - 0x1_0000) % 0x400) as CodeUnit]
  }

  /** The .NET string holding `s`: its UTF-16 code units. */
  function Utf16(s: string): (r: seq<CodeUnit>)
    ensures |s| <= |r| <= 2 * |s|
  {
    if |s| == 0 then [] else ScalarUnits(s[0]) + Utf16(s[1..])
  }

  lemma {:induction false} Utf16Append(a: string, b: string)
    ensures Utf16(a + b) == Utf16(a) + Utf16(b)
  {
    if |a| > 0 {
      assert (a + b)[1..] == a[1..] + b;
      Utf16Append(a[1..], b);
    } else {
      assert a + b == b;
    }
  }

  /** `n` copies of `c`. */
  function Repeat(c: char, n: nat): (r: string)
    ensures |r| == n && forall i :: 0 <= i < n ==> r[i] == c
  {
    if n == 0 then [] else [c] + Repeat(c, n - 1)
  }

  /** Each copy of a character outside the basic multilingual plane takes two code
      units, so the first `2 * k` units of `n` copies are exactly `k` copies. */
  lemma {:induction false} Utf16OfRepeat(c: char, n: nat, k: nat)
    requires !IsBmp(c) && k <= n
    ensures |Utf16(Repeat(c, n))| == 2 * n
    ensures Utf16(Repeat(c, n))[..2 * k] == Utf16(Repeat(c, k))
  {
    if n > 0 {
      Utf16OfRepeat(c, n - 1, if k == 0 then 0 else k - 1);
      assert Repeat(c, n)[1..] == Repeat(c, n - 1);
      if k > 0 {
        assert Repeat(c, k)[1..] == Repeat(c, k - 1);
      }
    }
  }

  /** `char.IsWhiteSpace(c)`: the Unicode space, line and paragraph separators plus
      the control characters U+0009 to U+000D and U+0085. */
  predicate IsWhiteSpace(c: char) {
    || '\U{0009}' <= c <= '\U{000D}'
    || c == ' ' || c == '\U{0085}' || c == '\U{00A0}' || c == '\U{1680}'
    || '\U{2000}' <= c <= '\U{200A}'
    || c == '\U{2028}' || c == '\U{2029}' || c == '\U{202F}' || c == '\U{205F}' || c == '\U{3000}'
  }

  /** `string.IsNullOrWhiteSpace(s)` */
  predicate IsNullOrWhiteSpace(s: Option<string>) {
    s.None? || forall i :: 0 <= i < |s.value| ==> IsWhiteSpace(s.value[i])
  }

  /** The decimal digits of `n`, as string interpolation renders a non-negative int. */
  function NatToString(n: nat): (r: string)
    ensures |r| > 0
    ensures forall i :: 0 <= i < |r| ==> '0' <= r[i] <= '9'
    ensures n < 10 <==> |r| == 1
  {
    if n < 10 then [(48 + n) as char]
    else NatToString(n / 10) + [(48 + n % 10) as char]
  }

  /** The decimal value of a string of digits: the partner of NatToString. */
  function DigitsValue(s: string): nat
    requires forall i :: 0 <= i < |s| ==> '0' <= s[i] <= '9'
  {
    if |s| == 0 then 0 else 10 * DigitsValue(s[..|s| - 1]) + (s[|s| - 1] as int - 48)
  }

  /** Reading back the rendered digits gives the number: the rendering loses nothing. */
  lemma {:induction false} NatToStringRoundTrip(n: nat)
    ensures DigitsValue(NatToString(n)) == n
  {
    if n >= 10 {
      NatToStringRoundTrip(n / 10);
      var r := NatToString(n);
      assert r[..|r| - 1] == NatToString(n / 10);
    }
  }
}
