/** Text primitives the extractor relies on: Python's `str.strip()`,
    `str.lower()`, the `in` substring test and decimal rendering of numbers. */
module Strings {

  /** The characters Python's `str.isspace()` accepts, which `strip()` removes. */
  predicate IsSpace(c: char) {
    || c == ' '
    || '\t' <= c <= '\r'
    || '\U{1C}' <= c <= '\U{1F}'
    || c == '\U{85}' || c == '\U{A0}' || c == '\U{1680}'
    || '\U{2000}' <= c <= '\U{200A}'
    || c == '\U{2028}' || c == '\U{2029}' || c == '\U{202F}'
    || c == '\U{205F}' || c == '\U{3000}'
  }

  /** Neither the first nor the last character is whitespace. */
  predicate NoEdgeSpace(s: string) {
    s == [] || (!IsSpace(s[0]) && !IsSpace(s[|s| - 1]))
  }

  /** `r` is `s` with whitespace, and only whitespace, cut off at both ends. */
  ghost predicate StripsTo(s: string, r: string) {
    exists lo, hi :: 0 <= lo <= hi <= |s| && s[lo..hi] == r && forall k :: 0 <= k < lo || hi <= k < |s| ==> IsSpace(s[k])
  }

  /** Python's `s.strip()`: leading whitespace first, then trailing whitespace. */
  function Trim(s: string): (r: string)
    ensures NoEdgeSpace(r)
  {
    if |s| > 0 && IsSpace(s[0]) then Trim(s[1..])
    else if |s| > 0 && IsSpace(s[|s| - 1]) then Trim(s[..|s| - 1])
    else s
  }

  lemma {:induction false} TrimBounds(s: string) returns (lo: nat, hi: nat)
    ensures lo <= hi <= |s| && s[lo..hi] == Trim(s)
    ensures forall k :: 0 <= k < lo || hi <= k < |s| ==> IsSpace(s[k])
  {
    if |s| > 0 && IsSpace(s[0]) {
      var tail := s[1..];
      var l, h := TrimBounds(tail);
      lo, hi := l + 1, h + 1;
      assert |s[lo..hi]| == |tail[l..h]|;
      assert forall i :: 0 <= i < hi - lo ==> s[lo..hi][i] == s[lo + i] == tail[l + i] == tail[l..h][i];
      forall k | 0 < k < lo || hi <= k < |s| ensures IsSpace(s[k]) {
        assert s[k] == tail[k - 1];
      }
    } else if |s| > 0 && IsSpace(s[|s| - 1]) {
      var init := s[..|s| - 1];
      lo, hi := TrimBounds(init);
      assert s[lo..hi] == init[lo..hi];
      forall k | 0 <= k < lo || hi <= k < |s| - 1 ensures IsSpace(s[k]) {
        assert s[k] == init[k];
      }
    } else {
      lo, hi := 0, |s|;
    }
  }

  /** `Trim` removes whitespace, and only whitespace, from the two ends. */
  lemma TrimStrips(s: string)
    ensures StripsTo(s, Trim(s))
  {
    var lo, hi := TrimBounds(s);
  }

  /** A string without edge whitespace is its own strip. */
  lemma TrimFixed(s: string)
    requires NoEdgeSpace(s)
    ensures Trim(s) == s
  {
  }

  lemma TrimIdempotent(s: string)
    ensures Trim(Trim(s)) == Trim(s)
  {
    TrimFixed(Trim(s));
  }

  /** ASCII part of Python's `str.lower()`. */
  function LowerChar(c: char): char {
    if 'A' <= c <= 'Z' then (c as int - 'A' as int + 'a' as int) as char else c
  }

  function Lower(s: string): string {
    seq(|s|, i requires 0 <= i < |s| => LowerChar(s[i]))
  }

  /** Every ASCII capital is replaced by its small letter; nothing else changes. */
  lemma LowerMeaning(s: string)
    ensures |Lower(s)| == |s|
    ensures forall i :: 0 <= i < |s| ==> !('A' <= Lower(s)[i] <= 'Z')
    ensures forall i :: 0 <= i < |s| ==>
      if 'A' <= s[i] <= 'Z' then Lower(s)[i] as int == s[i] as int + 32 else Lower(s)[i] == s[i]
  {
  }

  /** `w` occurs in `s` starting at position `p`. */
  ghost predicate OccursAt(s: string, w: string, p: int) {
    0 <= p && p + |w| <= |s| && s[p..p + |w|] == w
  }

  /** Reference meaning of Python's `w in s`: `w` occurs at some position of `s`. */
  ghost predicate Occurs(s: string, w: string) {
    exists p :: OccursAt(s, w, p)
  }

  /** Python's `w in s`, scanning `s` from the left. */
  function Contains(s: string, w: string): (r: bool)
    ensures r <==> Occurs(s, w)
  {
    if |w| <= |s| && s[..|w|] == w then
      assert OccursAt(s, w, 0);
      true
    else if |s| == 0 then
      false
    else
      var r := Contains(s[1..], w);
      assert !OccursAt(s, w, 0);
      assert forall p :: OccursAt(s, w, p) ==> OccursAt(s[1..], w, p - 1);
      assert forall p :: OccursAt(s[1..], w, p) ==> OccursAt(s, w, p + 1);
      r
  }

  predicate IsDigit(c: char) {
    '0' <= c <= '9'
  }

  predicate AllDigits(s: string) {
    forall k :: 0 <= k < |s| ==> IsDigit(s[k])
  }

  function DigitChar(d: nat): (c: char)
    requires d < 10
    ensures IsDigit(c) && c as int - '0' as int == d
  {
    ('0' as int + d) as char
  }

  /** The number a string of decimal digits denotes (most significant digit first). */
  function DecimalValue(s: string): nat
    requires AllDigits(s)
  {
    if s == [] then 0 else DecimalValue(s[..|s| - 1]) * 10 + (s[|s| - 1] as int - '0' as int)
  }

  function Pow10(n: nat): (p: nat)
    ensures p >= 1
  {
    if n == 0 then 1 else 10 * Pow10(n - 1)
  }

  /** `n` written with exactly `width` digits, zero-padded on the left (`%02d`, `%04d`). */
  function Padded(n: nat, width: nat): (r: string)
    requires n < Pow10(width)
    ensures |r| == width && AllDigits(r) && DecimalValue(r) == n
  {
    if width == 0 then
      ""
    else
      var r := Padded(n / 10, width - 1) + [DigitChar(n % 10)];
      assert r[..|r| - 1] == Padded(n / 10, width - 1);
      r
  }

  /** Python's `str(n)` for a non-negative integer. */
  function NatToDecimal(n: nat): (r: string)
    ensures |r| >= 1 && AllDigits(r) && DecimalValue(r) == n
    ensures r[0] == '0' ==> r == "0"
  {
    if n < 10 then
      [DigitChar(n)]
    else
      var r := NatToDecimal(n / 10) + [DigitChar(n % 10)];
      assert r[..|r| - 1] == NatToDecimal(n / 10);
      r
  }
}
