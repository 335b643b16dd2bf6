/** Base64 as .NET's `Convert.ToBase64String` and `Convert.FromBase64String`
    implement it: the alphabet and padding of section 4 of RFC 4648.

    Encoding works on groups of three bytes, each written as four 6-bit
    values ("sextets"); a final group of one or two bytes gives two or three
    sextets and is padded with "==" or "=". */
module Base64 {
  import opened Common

  type Byte = x: int | 0 <= x < 256

  type Sextet = x: int | 0 <= x < 64

  /** The error `Convert.FromBase64String` signals with FormatException. */
  datatype FormatError = FormatError

  // ---------------------------------------------------------------- alphabet

  /** The character of section 4 of RFC 4648 for a sextet. */
  function Char(v: Sextet): (c: char)
    ensures IsAlphabet(c) && c != '='
  {
    if v < 26 then ('A' as int + v) as char
    else if v < 52 then ('a' as int + v - 26) as char
    else if v < 62 then ('0' as int + v - 52) as char
    else if v == 62 then '+'
    else '/'
  }

  predicate IsAlphabet(c: char) {
    ('A' <= c <= 'Z') || ('a' <= c <= 'z') || ('0' <= c <= '9') || c == '+' || c == '/'
  }

  predicate AllAlphabet(s: string) {
    forall i :: 0 <= i < |s| ==> IsAlphabet(s[i])
  }

  /** The sextet an alphabet character stands for. */
  function Value(c: char): (v: Sextet)
    requires IsAlphabet(c)
    ensures Char(v) == c
  {
    if 'A' <= c <= 'Z' then c as int - 'A' as int
    else if 'a' <= c <= 'z' then c as int - 'a' as int + 26
    else if '0' <= c <= '9' then c as int - '0' as int + 52
    else if c == '+' then 62
    else 63
  }

  lemma ValueChar(v: Sextet)
    ensures Value(Char(v)) == v
  {
  }

  function Chars(vs: seq<Sextet>): (s: string)
    ensures |s| == |vs|
    ensures forall i :: 0 <= i < |vs| ==> s[i] == Char(vs[i])
  {
    seq(|vs|, i requires 0 <= i < |vs| => Char(vs[i]))
  }

  function Values(s: string): (vs: seq<Sextet>)
    requires AllAlphabet(s)
    ensures |vs| == |s|
    ensures Chars(vs) == s
  {
    seq(|s|, i requires 0 <= i < |s| => Value(s[i]))
  }

  lemma ValuesChars(vs: seq<Sextet>)
    ensures Values(Chars(vs)) == vs
  {
    forall i | 0 <= i < |vs| ensures Values(Chars(vs))[i] == vs[i] {
      ValueChar(vs[i]);
    }
  }

  // ---------------------------------------------------------------- sextets

  /** The four sextets of a group of three bytes. */
  function EncodeGroup(b0: Byte, b1: Byte, b2: Byte): (vs: seq<Sextet>)
    ensures |vs| == 4
  {
    [b0 / 4, (b0 % 4) * 16 + b1 / 16, (b1 % 16) * 4 + b2 / 64, b2 % 64]
  }

  /** The three bytes of a group of four sextets. */
  function DecodeGroup(c0: Sextet, c1: Sextet, c2: Sextet, c3: Sextet): (bs: seq<Byte>)
    ensures |bs| == 3
  {
    [c0 * 4 + c1 / 16, (c1 % 16) * 16 + c2 / 4, (c2 % 4) * 64 + c3]
  }

  lemma DecodeEncodeGroup(b0: Byte, b1: Byte, b2: Byte)
    ensures var vs := EncodeGroup(b0, b1, b2);
      DecodeGroup(vs[0], vs[1], vs[2], vs[3]) == [b0, b1, b2]
  {
  }

  lemma EncodeDecodeGroup(c0: Sextet, c1: Sextet, c2: Sextet, c3: Sextet)
    ensures var bs := DecodeGroup(c0, c1, c2, c3);
      EncodeGroup(bs[0], bs[1], bs[2]) == [c0, c1, c2, c3]
  {
    var d0, d1, d2 := c0 * 4 + c1 / 16, (c1 % 16) * 16 + c2 / 4, (c2 % 4) * 64 + c3;
    assert d0 / 4 == c0 && d0 % 4 == c1 / 16;
    assert d1 / 16 == c1 % 16 && d1 % 16 == c2 / 4;
    assert d2 / 64 == c2 % 4 && d2 % 64 == c3;
  }

  /** Number of sextets for `n` bytes, before padding: four per whole group
      of three, and one more than the bytes of a final short group. */
  function SextetCount(n: nat): nat
    decreases n
  {
    if n < 3 then (if n == 0 then 0 else n + 1) else 4 + SextetCount(n - 3)
  }

  lemma {:induction false} SextetCountValue(n: nat)
    ensures SextetCount(n) == 4 * (n / 3) + (if n % 3 == 0 then 0 else n % 3 + 1)
    decreases n
  {
    if n >= 3 {
      SextetCountValue(n - 3);
    }
  }

  /** Number of bytes for `m` sextets: three per whole group of four, and
      one fewer than the sextets of a final short group. */
  function ByteCount(m: nat): nat
    decreases m
  {
    if m < 4 then (if m == 0 then 0 else m - 1) else 3 + ByteCount(m - 4)
  }

  /** A final group of one or two bytes is encoded as if completed with zero
      bytes, keeping the two or three sextets that carry its bits. */
  function EncodeSextets(bs: seq<Byte>): (vs: seq<Sextet>)
    ensures |vs| == SextetCount(|bs|)
    decreases |bs|
  {
    if |bs| == 0 then []
    else if |bs| == 1 then EncodeGroup(bs[0], 0, 0)[..2]
    else if |bs| == 2 then EncodeGroup(bs[0], bs[1], 0)[..3]
    else EncodeGroup(bs[0], bs[1], bs[2]) + EncodeSextets(bs[3..])
  }

  /** A final group of two or three sextets is decoded as if completed with
      zero sextets, keeping the one or two whole bytes. Bits of the final
      group that belong to no byte are ignored, as .NET's decoder does. */
  function DecodeSextets(vs: seq<Sextet>): (bs: seq<Byte>)
    requires |vs| % 4 != 1
    ensures |bs| == ByteCount(|vs|)
    decreases |vs|
  {
    if |vs| == 0 then []
    else if |vs| == 2 then DecodeGroup(vs[0], vs[1], 0, 0)[..1]
    else if |vs| == 3 then DecodeGroup(vs[0], vs[1], vs[2], 0)[..2]
    else DecodeGroup(vs[0], vs[1], vs[2], vs[3]) + DecodeSextets(vs[4..])
  }

  /** Encoding works group by group: splitting the input at a multiple of
      three bytes splits the output at the matching multiple of four. */
  lemma {:induction false} EncodeSextetsAppend(a: seq<Byte>, b: seq<Byte>)
    requires |a| % 3 == 0
    ensures EncodeSextets(a + b) == EncodeSextets(a) + EncodeSextets(b)
    decreases |a|
  {
    if a == [] {
      assert a + b == b;
    } else {
      assert (a + b)[3..] == a[3..] + b;
      EncodeSextetsAppend(a[3..], b);
    }
  }

  predicate AllZero(xs: seq<int>) {
    forall i :: 0 <= i < |xs| ==> xs[i] == 0
  }

  /** Zero bytes encode to zero sextets, that is to 'A's. */
  lemma {:induction false} EncodeZeroBytes(bs: seq<Byte>)
    requires AllZero(bs)
    ensures AllZero(EncodeSextets(bs))
    decreases |bs|
  {
    if |bs| >= 3 {
      AllZeroSuffix(bs, 3);
      EncodeZeroBytes(bs[3..]);
      ZeroGroupStep(bs);
    } else {
      ZeroShort(bs);
    }
  }

  lemma ZeroGroupStep(bs: seq<Byte>)
    requires |bs| >= 3 && AllZero(bs) && AllZero(EncodeSextets(bs[3..]))
    ensures AllZero(EncodeSextets(bs))
  {
    assert bs[0] == 0 && bs[1] == 0 && bs[2] == 0;
    EncodeGroupZero(bs[0], bs[1], bs[2]);
    AllZeroAppend(EncodeGroup(bs[0], bs[1], bs[2]), EncodeSextets(bs[3..]));
  }

  lemma ZeroShort(bs: seq<Byte>)
    requires |bs| < 3 && AllZero(bs)
    ensures AllZero(EncodeSextets(bs))
  {
    if |bs| == 2 {
      assert bs[0] == 0 && bs[1] == 0;
      EncodeGroupZero(bs[0], bs[1], 0);
      AllZeroPrefix(EncodeGroup(bs[0], bs[1], 0), 3);
    } else if |bs| == 1 {
      assert bs[0] == 0;
      EncodeGroupZero(bs[0], 0, 0);
      AllZeroPrefix(EncodeGroup(bs[0], 0, 0), 2);
    }
  }

  lemma EncodeGroupZero(b0: Byte, b1: Byte, b2: Byte)
    requires b0 == 0 && b1 == 0 && b2 == 0
    ensures AllZero(EncodeGroup(b0, b1, b2))
  {
    EncodeGroupZeroes(b0, b1, b2);
    ZeroDisplay(b0, b1, b2);
  }

  lemma EncodeGroupZeroes(b0: Byte, b1: Byte, b2: Byte)
    requires b0 == 0 && b1 == 0 && b2 == 0
    ensures EncodeGroup(b0, b1, b2) == [b0, b1, b2, 0]
  {
  }

  lemma ZeroDisplay(x: int, y: int, z: int)
    requires x == 0 && y == 0 && z == 0
    ensures AllZero([x, y, z, 0])
  {
  }

  lemma AllZeroAppend(a: seq<int>, b: seq<int>)
    requires AllZero(a) && AllZero(b)
    ensures AllZero(a + b)
  {
    forall i | 0 <= i < |a + b| ensures (a + b)[i] == 0 {
      if i >= |a| {
        assert (a + b)[i] == b[i - |a|];
      }
    }
  }

  lemma AllZeroSuffix(a: seq<int>, n: nat)
    requires AllZero(a) && n <= |a|
    ensures AllZero(a[n..])
  {
    forall i | 0 <= i < |a| - n ensures a[n..][i] == 0 {
      assert a[n..][i] == a[i + n];
    }
  }

  lemma AllZeroPrefix(a: seq<int>, n: nat)
    requires AllZero(a) && n <= |a|
    ensures AllZero(a[..n])
  {
    forall i | 0 <= i < n ensures a[..n][i] == 0 {
      assert a[..n][i] == a[i];
    }
  }

  /** Decoding works group by group as well. */
  lemma {:induction false} DecodeSextetsAppend(a: seq<Sextet>, b: seq<Sextet>)
    requires |a| % 4 == 0 && |b| % 4 != 1
    ensures DecodeSextets(a + b) == DecodeSextets(a) + DecodeSextets(b)
    decreases |a|
  {
    if a == [] {
      assert a + b == b;
    } else {
      assert (a + b)[4..] == a[4..] + b;
      DecodeSextetsAppend(a[4..], b);
    }
  }

  /** The low bits of a final group of two sextets are ignored. */
  lemma {:induction false} DecodeIgnoresLowBits(vs: seq<Sextet>, ws: seq<Sextet>)
    requires |vs| == |ws| && |vs| % 4 == 2
    requires vs[..|vs| - 1] == ws[..|ws| - 1] && vs[|vs| - 1] / 16 == ws[|ws| - 1] / 16
    ensures DecodeSextets(vs) == DecodeSextets(ws)
    decreases |vs|
  {
    assert vs[0] == vs[..|vs| - 1][0] == ws[..|ws| - 1][0] == ws[0];
    if |vs| == 2 {
      DecodePairLowBits(vs[0], vs[1], ws[1]);
      assert vs == [vs[0], vs[1]] && ws == [ws[0], ws[1]];
    } else {
      SamePrefixAfterGroup(vs, ws);
      DecodeIgnoresLowBits(vs[4..], ws[4..]);
      assert DecodeSextets(vs) == DecodeGroup(vs[0], vs[1], vs[2], vs[3]) + DecodeSextets(vs[4..]);
      assert DecodeSextets(ws) == DecodeGroup(ws[0], ws[1], ws[2], ws[3]) + DecodeSextets(ws[4..]);
    }
  }

  /** Two sequences that agree up to their last element agree on their first
      group and, past it, still agree up to their last element. */
  lemma SamePrefixAfterGroup(vs: seq<Sextet>, ws: seq<Sextet>)
    requires |vs| == |ws| && |vs| > 5
    requires vs[..|vs| - 1] == ws[..|ws| - 1]
    ensures vs[..4] == ws[..4]
    ensures vs[4..][..|vs| - 5] == ws[4..][..|ws| - 5]
  {
    var p, q := vs[..|vs| - 1], ws[..|ws| - 1];
    assert vs[..4] == p[..4] && ws[..4] == q[..4];
    assert vs[4..][..|vs| - 5] == p[4..] && ws[4..][..|ws| - 5] == q[4..];
  }

  /** A group of two sextets decodes to one byte, which the low four bits
      of the second sextet do not reach. */
  lemma DecodePairLowBits(c0: Sextet, c1: Sextet, d1: Sextet)
    requires c1 / 16 == d1 / 16
    ensures DecodeSextets([c0, c1]) == DecodeSextets([c0, d1])
  {
  }

  /** A sextet sequence whose unused trailing bits are all zero: exactly the
      sequences `EncodeSextets` produces. */
  predicate Canonical(vs: seq<Sextet>) {
    && |vs| % 4 != 1
    && (|vs| % 4 == 2 ==> vs[|vs| - 1] % 16 == 0)
    && (|vs| % 4 == 3 ==> vs[|vs| - 1] % 4 == 0)
  }

  lemma {:induction false} EncodeSextetsCanonical(bs: seq<Byte>)
    ensures Canonical(EncodeSextets(bs))
    decreases |bs|
  {
    if |bs| == 1 {
      CanonicalOne(bs[0]);
    } else if |bs| == 2 {
      CanonicalTwo(bs[0], bs[1]);
    } else if |bs| >= 3 {
      EncodeSextetsCanonical(bs[3..]);
      CanonicalPrepend(EncodeGroup(bs[0], bs[1], bs[2]), EncodeSextets(bs[3..]));
    }
  }

  lemma CanonicalOne(b0: Byte)
    ensures Canonical(EncodeGroup(b0, 0, 0)[..2])
  {
    var x := b0 % 4;
    assert (x * 16) % 16 == 0;
  }

  lemma CanonicalTwo(b0: Byte, b1: Byte)
    ensures Canonical(EncodeGroup(b0, b1, 0)[..3])
  {
    var x := b1 % 16;
    assert (x * 4) % 4 == 0;
  }

  /** A whole group in front keeps a sequence canonical. */
  lemma CanonicalPrepend(g: seq<Sextet>, ws: seq<Sextet>)
    requires |g| == 4 && Canonical(ws)
    ensures Canonical(g + ws)
  {
    var vs := g + ws;
    assert |vs| % 4 == |ws| % 4;
    if |ws| % 4 != 0 {
      assert vs[|vs| - 1] == ws[|ws| - 1];
    }
  }

  lemma {:induction false} DecodeEncodeSextets(bs: seq<Byte>)
    ensures Canonical(EncodeSextets(bs))
    ensures DecodeSextets(EncodeSextets(bs)) == bs
    decreases |bs|
  {
    EncodeSextetsCanonical(bs);
    var vs := EncodeSextets(bs);
    if |bs| == 1 {
      DecodeEncodeGroup(bs[0], 0, 0);
    } else if |bs| == 2 {
      DecodeEncodeGroup(bs[0], bs[1], 0);
    } else if |bs| >= 3 {
      DecodeEncodeSextets(bs[3..]);
      DecodeEncodeStep(bs);
    }
  }

  /** One group of the induction: the first three bytes survive the round
      trip, and the rest is the rest's round trip. */
  lemma DecodeEncodeStep(bs: seq<Byte>)
    requires |bs| >= 3
    requires Canonical(EncodeSextets(bs[3..])) && Canonical(EncodeSextets(bs))
    requires DecodeSextets(EncodeSextets(bs[3..])) == bs[3..]
    ensures DecodeSextets(EncodeSextets(bs)) == bs
  {
    var g := EncodeGroup(bs[0], bs[1], bs[2]);
    var rest := EncodeSextets(bs[3..]);
    assert EncodeSextets(bs) == g + rest;
    DecodePrepend(g, rest);
    DecodeEncodeGroup(bs[0], bs[1], bs[2]);
    GroupSplit(bs);
  }

  lemma GroupSplit(bs: seq<Byte>)
    requires |bs| >= 3
    ensures bs == [bs[0], bs[1], bs[2]] + bs[3..]
  {
    assert bs == bs[..3] + bs[3..];
  }

  /** Decoding a whole group in front of other sextets. */
  lemma DecodePrepend(g: seq<Sextet>, rest: seq<Sextet>)
    requires |g| == 4 && |rest| % 4 != 1
    ensures |g + rest| % 4 != 1
    ensures DecodeSextets(g + rest) == DecodeGroup(g[0], g[1], g[2], g[3]) + DecodeSextets(rest)
  {
    assert (g + rest)[4..] == rest;
  }

  lemma {:induction false} EncodeDecodeSextets(vs: seq<Sextet>)
    requires Canonical(vs)
    ensures EncodeSextets(DecodeSextets(vs)) == vs
    decreases |vs|
  {
    var bs := DecodeSextets(vs);
    if |vs| == 2 {
      EncodeDecodeGroup(vs[0], vs[1], 0, 0);
    } else if |vs| == 3 {
      EncodeDecodeGroup(vs[0], vs[1], vs[2], 0);
    } else if |vs| >= 4 {
      CanonicalRest(vs);
      EncodeDecodeSextets(vs[4..]);
      EncodeDecodeStep(vs);
    }
  }

  /** Past a whole first group, a canonical sequence is still canonical. */
  lemma CanonicalRest(vs: seq<Sextet>)
    requires |vs| >= 4 && Canonical(vs)
    ensures Canonical(vs[4..])
  {
    var ws := vs[4..];
    assert |ws| % 4 == |vs| % 4;
    if |ws| % 4 != 0 {
      assert ws[|ws| - 1] == vs[|vs| - 1];
    }
  }

  /** One group of the induction on sextets. */
  lemma EncodeDecodeStep(vs: seq<Sextet>)
    requires |vs| >= 4 && Canonical(vs) && Canonical(vs[4..])
    requires EncodeSextets(DecodeSextets(vs[4..])) == vs[4..]
    ensures EncodeSextets(DecodeSextets(vs)) == vs
  {
    var rest := vs[4..];
    var g := DecodeGroup(vs[0], vs[1], vs[2], vs[3]);
    assert DecodeSextets(vs) == g + DecodeSextets(rest);
    EncodePrepend(g, DecodeSextets(rest));
    EncodeDecodeGroup(vs[0], vs[1], vs[2], vs[3]);
    assert vs == [vs[0], vs[1], vs[2], vs[3]] + rest;
  }

  /** Encoding a whole group in front of other bytes. */
  lemma EncodePrepend(g: seq<Byte>, rest: seq<Byte>)
    requires |g| == 3
    ensures EncodeSextets(g + rest) == EncodeGroup(g[0], g[1], g[2]) + EncodeSextets(rest)
  {
    assert (g + rest)[3..] == rest;
  }

  // ---------------------------------------------------------------- strings

  function Padding(n: nat): (p: string)
    ensures |p| == (if n % 3 == 0 then 0 else 3 - n % 3)
    ensures forall i :: 0 <= i < |p| ==> p[i] == '='
  {
    if n % 3 == 1 then "==" else if n % 3 == 2 then "=" else ""
  }

  /** `Convert.ToBase64String` */
  function ToBase64String(bs: seq<Byte>): (s: string)
    ensures |s| == 4 * ((|bs| + 2) / 3)
    ensures |s| % 4 == 0
  {
    SextetCountValue(|bs|);
    Chars(EncodeSextets(bs)) + Padding(|bs|)
  }

  /** The four characters `Convert.FromBase64String` skips wherever they occur. */
  predicate IsSkipped(c: char) { c == ' ' || c == '\t' || c == '\r' || c == '\n' }

  function StripSkipped(s: string): (t: string)
    ensures forall i :: 0 <= i < |t| ==> !IsSkipped(t[i])
    ensures (forall i :: 0 <= i < |s| ==> !IsSkipped(s[i])) ==> t == s
    ensures |t| <= |s|
  {
    if s == [] then []
    else if IsSkipped(s[|s| - 1]) then StripSkipped(s[..|s| - 1])
    else StripSkipped(s[..|s| - 1]) + [s[|s| - 1]]
  }

  /** Number of '=' characters at the end of `t`. */
  function TrailingPads(t: string): (n: nat)
    ensures n <= |t|
    ensures forall i :: |t| - n <= i < |t| ==> t[i] == '='
    ensures n < |t| ==> t[|t| - n - 1] != '='
  {
    if t == [] || t[|t| - 1] != '=' then 0 else TrailingPads(t[..|t| - 1]) + 1
  }

  /** `Convert.FromBase64String`: after skipping white space the length must
      be a multiple of four, at most two '=' may end it, and every other
      character must belong to the alphabet. */
  function FromBase64String(s: string): (r: Result<seq<Byte>, FormatError>)
    ensures var t := StripSkipped(s);
      r.Ok? <==> |t| % 4 == 0 && TrailingPads(t) <= 2 && AllAlphabet(t[..|t| - TrailingPads(t)])
  {
    DecodeStripped(StripSkipped(s))
  }

  /** The decoding of a string from which the skipped characters are gone. */
  function DecodeStripped(t: string): (r: Result<seq<Byte>, FormatError>)
    ensures r.Ok? <==> |t| % 4 == 0 && TrailingPads(t) <= 2 && AllAlphabet(t[..|t| - TrailingPads(t)])
  {
    var p := TrailingPads(t);
    if |t| % 4 != 0 || p > 2 then Err(FormatError)
    else
      var body := t[..|t| - p];
      if !AllAlphabet(body) then Err(FormatError)
      else Ok(DecodeSextets(Values(body)))
  }

  /** Alphabet characters followed by at most two '=' decode to the bytes
      of the alphabet characters, when the total length is a multiple of 4. */
  lemma FromBase64StringPadded(s: string, pad: string)
    requires AllAlphabet(s)
    requires |pad| <= 2 && (|s| + |pad|) % 4 == 0
    requires forall i :: 0 <= i < |pad| ==> pad[i] == '='
    requires |pad| > 0 ==> |s| > 0
    ensures |s| % 4 != 1
    ensures FromBase64String(s + pad) == Ok(DecodeSextets(Values(s)))
  {
    PaddedParts(s, pad);
    PaddedLength(|s|, |pad|);
    FromBase64StringClean(s + pad, |pad|);
  }

  /** `FromBase64String` on a string with nothing to skip and `p` pads. */
  lemma FromBase64StringClean(t: string, p: nat)
    requires StripSkipped(t) == t && TrailingPads(t) == p
    requires |t| % 4 == 0 && p <= 2 && AllAlphabet(t[..|t| - p])
    requires |t[..|t| - p]| % 4 != 1
    ensures FromBase64String(t) == Ok(DecodeSextets(Values(t[..|t| - p])))
  {
    assert FromBase64String(t) == DecodeStripped(t);
  }

  /** At most two pads completing a multiple of four leave no single
      sextet in a final group. */
  lemma PaddedLength(n: nat, p: nat)
    requires p <= 2 && (n + p) % 4 == 0
    ensures n % 4 != 1 && (n + p) % 4 == 0
  {
  }

  /** The parts `FromBase64String` finds in alphabet characters followed by
      '=' characters: nothing to skip, the pads, and the characters. */
  lemma PaddedParts(s: string, pad: string)
    requires AllAlphabet(s)
    requires forall i :: 0 <= i < |pad| ==> pad[i] == '='
    requires |pad| > 0 ==> |s| > 0
    ensures StripSkipped(s + pad) == s + pad
    ensures TrailingPads(s + pad) == |pad|
    ensures (s + pad)[..|s + pad| - |pad|] == s
  {
    var t := s + pad;
    AlphabetPaddedNotSkipped(s, pad);
    if |pad| < |t| {
      assert t[|t| - |pad| - 1] == s[|s| - 1];
    }
    TrailingPadsExact(t, |pad|);
    assert t[..|t| - |pad|] == s;
  }

  lemma AlphabetPaddedNotSkipped(s: string, pad: string)
    requires AllAlphabet(s)
    requires forall i :: 0 <= i < |pad| ==> pad[i] == '='
    ensures forall i :: 0 <= i < |s + pad| ==> !IsSkipped((s + pad)[i])
  {
    var t := s + pad;
    forall i | 0 <= i < |t| ensures !IsSkipped(t[i]) {
      if i < |s| { assert t[i] == s[i]; } else { assert t[i] == pad[i - |s|]; }
    }
  }

  /** Skipping white space works piece by piece. */
  lemma {:induction false} StripSkippedAppend(a: string, b: string)
    ensures StripSkipped(a + b) == StripSkipped(a) + StripSkipped(b)
    decreases |b|
  {
    if b == [] {
      assert a + b == a;
    } else {
      var init := b[..|b| - 1];
      assert (a + b)[..|a + b| - 1] == a + init;
      assert (a + b)[|a + b| - 1] == b[|b| - 1];
      StripSkippedAppend(a, init);
    }
  }

  /** A character that is neither white space nor of the alphabet makes
      decoding fail. A '=' fails too unless at most one character other
      than white space follows it, where it can be part of the pad. */
  lemma ForeignRejected(s: string, i: int)
    requires 0 <= i < |s| && !IsSkipped(s[i]) && !IsAlphabet(s[i])
    requires s[i] == '=' ==> |StripSkipped(s[i + 1..])| >= 2
    ensures FromBase64String(s) == Err(FormatError)
  {
    var c := s[i];
    assert s == s[..i] + [c] + s[i + 1..];
    StripSkippedAppend(s[..i] + [c], s[i + 1..]);
    StripSkippedAppend(s[..i], [c]);
    assert StripSkipped([c]) == [c];
    var a := StripSkipped(s[..i]);
    var b := StripSkipped(s[i + 1..]);
    var t := StripSkipped(s);
    assert t == a + [c] + b;
    var j := |a|;
    assert t[j] == c;
    var p := TrailingPads(t);
    if p <= 2 {
      // The character lies before the pad: a '=' has two more characters
      // after it, anything else is not part of the pad at all.
      if c == '=' {
        assert |t| - j >= 3;
      } else {
        assert t[j] != '=';
      }
      assert j < |t| - p;
      assert !IsAlphabet(t[..|t| - p][j]);
    }
  }

  /** Decoding undoes encoding, for every byte sequence. */
  lemma FromToBase64String(bs: seq<Byte>)
    ensures FromBase64String(ToBase64String(bs)) == Ok(bs)
  {
    var vs := EncodeSextets(bs);
    assert ToBase64String(bs) == Chars(vs) + Padding(|bs|);
    FromBase64StringPadded(Chars(vs), Padding(|bs|));
    ValuesChars(vs);
    DecodeEncodeSextets(bs);
  }

  lemma TrailingPadsExact(t: string, p: nat)
    requires p <= |t|
    requires forall i :: |t| - p <= i < |t| ==> t[i] == '='
    requires p < |t| ==> t[|t| - p - 1] != '='
    ensures TrailingPads(t) == p
  {
  }

  /** A string of alphabet characters whose unused trailing bits are zero
      is what encoding its decoded bytes gives, before padding. */
  lemma ToFromBase64String(s: string)
    requires AllAlphabet(s)
    requires Canonical(Values(s))
    ensures ToBase64String(DecodeSextets(Values(s))) == s + Padding(|DecodeSextets(Values(s))|)
  {
    var vs := Values(s);
    EncodeDecodeSextets(vs);
  }
}
