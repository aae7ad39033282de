/**
 * The few operations of Go's `strings` and `unicode` packages that the command
 * helpers use, over strings taken as sequences of runes. Case mapping and
 * letter classification are restricted to ASCII.
 */
module GoStrings {

  /** U+0336 COMBINING LONG STROKE OVERLAY, the rune that strikes through the rune after it. */
  const LongStroke: char := '\U{0336}'

  /** A rune of the ASCII range, where the case mapping below agrees with Go's. */
  predicate IsAscii(c: char) { c < '\U{80}' }

  predicate IsUpperAscii(c: char) { 'A' <= c <= 'Z' }

  predicate IsLowerAscii(c: char) { 'a' <= c <= 'z' }

  /** `unicode.IsLetter(r) && !unicode.IsLower(r)`, for ASCII runes. */
  predicate IsNonLowerLetter(c: char) { (IsUpperAscii(c) || IsLowerAscii(c)) && !IsLowerAscii(c) }

  /** `unicode.ToUpper`, for ASCII runes; every other rune maps to itself. */
  function ToUpperRune(c: char): (u: char)
    ensures IsLowerAscii(c) ==> IsUpperAscii(u) && u as int - 'A' as int == c as int - 'a' as int
    ensures !IsLowerAscii(c) ==> u == c
  {
    if IsLowerAscii(c) then (c as int - 'a' as int + 'A' as int) as char else c
  }

  /** `strings.ToUpper`: upper-cases every rune. */
  function ToUpper(s: string): (r: string)
    ensures |r| == |s|
    ensures forall i :: 0 <= i < |s| ==> r[i] == ToUpperRune(s[i])
  {
    seq(|s|, i requires 0 <= i < |s| => ToUpperRune(s[i]))
  }

  /** `strings.Replace(s, old, new, -1)` for a one-rune `from`: every occurrence is replaced. */
  function ReplaceAll(s: string, from: char, to: char): (r: string)
    ensures |r| == |s|
    ensures forall i :: 0 <= i < |s| ==> r[i] == (if s[i] == from then to else s[i])
  {
    seq(|s|, i requires 0 <= i < |s| => if s[i] == from then to else s[i])
  }

  /** `strings.HasPrefix`. */
  predicate HasPrefix(s: string, prefix: string)
  {
    |prefix| <= |s| && s[..|prefix|] == prefix
  }

  /**
   * `strings.Index` for a one-rune needle: the first position of `c`, or -1.
   * The position counts runes where Go counts bytes; the two agree on -1, on
   * 0 and on being positive, which is all the callers test.
   */
  function Index(s: string, c: char): (k: int)
    ensures -1 <= k < |s|
    ensures k == -1 <==> c !in s
    ensures 0 <= k ==> s[k] == c && c !in s[..k]
  {
    if s == [] then -1
    else if s[0] == c then 0
    else
      var k := Index(s[1..], c);
      if k == -1 then -1 else k + 1
  }
}
