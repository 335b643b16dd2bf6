/** Character classes of the .NET base library, as the model uses them.

    Digits, letters and case mapping are those of ASCII; `IsWhiteSpace` is the
    full set of characters for which .NET's `char.IsWhiteSpace` holds. */
module Ascii {

  predicate IsDigit(c: char) { '0' <= c <= '9' }

  predicate IsUpper(c: char) { 'A' <= c <= 'Z' }

  predicate IsLower(c: char) { 'a' <= c <= 'z' }

  predicate IsLetter(c: char) { IsUpper(c) || IsLower(c) }

  /** `[0-9a-zA-Z]` */
  predicate IsAlphanumeric(c: char) { IsDigit(c) || IsLetter(c) }

  /** `char.IsWhiteSpace`: the separators U+0009 to U+000D, U+0085 and the
      Unicode space, line and paragraph separators. */
  predicate IsWhiteSpace(c: char) {
    var n := c as int;
    (0x09 <= n <= 0x0D) || n == 0x20 || n == 0x85 || n == 0xA0 || n == 0x1680
    || (0x2000 <= n <= 0x200A) || n == 0x2028 || n == 0x2029 || n == 0x202F
    || n == 0x205F || n == 0x3000
  }

  /** `string.IsNullOrWhiteSpace` */
  predicate IsNullOrWhiteSpace(s: seq<char>) {
    forall i :: 0 <= i < |s| ==> IsWhiteSpace(s[i])
  }

  /** `char.ToLowerInvariant` on ASCII. */
  function ToLower(c: char): (r: char)
    ensures IsUpper(c) ==> IsLower(r) && r as int == c as int + 32
    ensures !IsUpper(c) ==> r == c
  {
    if IsUpper(c) then (c as int + 32) as char else c
  }

  /** `string.ToLowerInvariant` on ASCII. */
  function ToLowerString(s: seq<char>): (r: seq<char>)
    ensures |r| == |s|
    ensures forall i :: 0 <= i < |s| ==> r[i] == ToLower(s[i])
  {
    seq(|s|, i requires 0 <= i < |s| => ToLower(s[i]))
  }

  /** Lowering a string a second time changes nothing. */
  lemma ToLowerStringIdempotent(s: seq<char>)
    ensures ToLowerString(ToLowerString(s)) == ToLowerString(s)
    ensures forall i :: 0 <= i < |s| ==> !IsUpper(ToLowerString(s)[i])
  {
  }
}
