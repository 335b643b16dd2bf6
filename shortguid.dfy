/** `ShortGuid`: a GUID written as 22 characters of the URL- and
    filename-safe alphabet of section 5 of RFC 4648, i.e. standard base64
    with '/' written '_', '+' written '-' and the "==" padding dropped.

    A GUID is modelled as the 16 bytes `Guid.ToByteArray` returns. */
module ShortGuids {
  import opened Common
  import opened Base64

  type Guid = b: seq<Byte> | |b| == 16 witness seq(16, i => 0 as Byte)

  /** `Guid.Empty` */
  const EmptyGuid: Guid := seq(16, i => 0 as Byte)

  /** The GUID written `aaaaaaaa-bbbb-cccc-dddd-dddddddddddd` in text:
      `ToByteArray` stores the first three fields least significant byte
      first and the last eight bytes in order. */
  function GuidOf(a: nat, b: nat, c: nat, d: seq<Byte>): (g: Guid)
    requires a < 0x1_0000_0000 && b < 0x1_0000 && c < 0x1_0000 && |d| == 8
    ensures LittleEndian(g[0..4]) == a
    ensures LittleEndian(g[4..6]) == b && LittleEndian(g[6..8]) == c
    ensures g[8..] == d
  {
    var g := FieldBytes4(a) + FieldBytes2(b) + FieldBytes2(c) + d;
    assert g[0..4] == FieldBytes4(a) && g[4..6] == FieldBytes2(b) && g[6..8] == FieldBytes2(c);
    g
  }

  /** A 32-bit field, least significant byte first. */
  function FieldBytes4(a: nat): (bs: seq<Byte>)
    requires a < 0x1_0000_0000
    ensures |bs| == 4 && LittleEndian(bs) == a
  {
    var a1 := a / 0x100;
    var a2 := a1 / 0x100;
    var bs := [a % 0x100, a1 % 0x100, a2 % 0x100, a2 / 0x100];
    assert LittleEndian(bs) == a by {
      assert bs[1..][1..][1..][1..] == [];
      assert LittleEndian(bs[1..][1..][1..]) == a2 / 0x100;
      assert LittleEndian(bs[1..][1..]) == a2;
      assert LittleEndian(bs[1..]) == a1;
    }
    bs
  }

  /** A 16-bit field, least significant byte first. */
  function FieldBytes2(b: nat): (bs: seq<Byte>)
    requires b < 0x1_0000
    ensures |bs| == 2 && LittleEndian(bs) == b
  {
    var bs := [b % 0x100, b / 0x100];
    assert LittleEndian(bs) == b by {
      assert bs[1..][1..] == [];
      assert LittleEndian(bs[1..]) == b / 0x100;
    }
    bs
  }

  /** The number whose base-256 digits are `bs`, least significant first. */
  function LittleEndian(bs: seq<Byte>): nat {
    if bs == [] then 0 else bs[0] as int + 0x100 * LittleEndian(bs[1..])
  }

  // ------------------------------------------------------------ replacing

  /** `s.Replace(from, to)` for one-character strings. */
  function Replace(s: string, from: char, to: char): (r: string)
    ensures |r| == |s|
    ensures forall i :: 0 <= i < |s| ==> r[i] == if s[i] == from then to else s[i]
  {
    seq(|s|, i requires 0 <= i < |s| => if s[i] == from then to else s[i])
  }

  /** The alphabet of section 5 of RFC 4648. */
  predicate IsUrlSafe(c: char) {
    (IsAlphabet(c) && c != '/' && c != '+') || c == '_' || c == '-'
  }

  function ToUrlSafe(s: string): (r: string)
    ensures |r| == |s|
  {
    Replace(Replace(s, '/', '_'), '+', '-')
  }

  function FromUrlSafe(s: string): (r: string)
    ensures |r| == |s|
    ensures forall i :: 0 <= i < |s| ==>
      r[i] == (if s[i] == '_' then '/' else if s[i] == '-' then '+' else s[i])
  {
    Replace(Replace(s, '_', '/'), '-', '+')
  }

  lemma UrlSafeRoundTrip(s: string)
    requires AllAlphabet(s)
    ensures forall i :: 0 <= i < |s| ==> IsUrlSafe(ToUrlSafe(s)[i])
    ensures FromUrlSafe(ToUrlSafe(s)) == s
  {
  }

  // ------------------------------------------------------------ Encode / Decode

  /** `ShortGuid.Encode`: 22 characters of the URL-safe alphabet. */
  function Encode(g: Guid): (s: string)
    ensures |s| == 22
    ensures forall i :: 0 <= i < 22 ==> IsUrlSafe(s[i])
  {
    GuidBase64(g);
    UrlSafeRoundTrip(Chars(EncodeSextets(g)));
    ToUrlSafe(ToBase64String(g))[..22]
  }

  /** The sextet a URL-safe character stands for. */
  function UrlValue(c: char): (v: Sextet)
    requires IsUrlSafe(c)
    ensures c !in "_-" ==> v == Value(c)
    ensures c == '_' ==> v == 63
    ensures c == '-' ==> v == 62
  {
    Value(if c == '_' then '/' else if c == '-' then '+' else c)
  }

  /** The exceptions `ShortGuid.Decode` lets escape. */
  datatype DecodeError =
    | ArgumentNull  // `encoded` is null
    | Format        // `Convert.FromBase64String` rejects the text
    | Argument      // `new Guid(byte[])` is given other than 16 bytes

  /** `ShortGuid.Decode`: undo the URL-safe replacements, append "==" and
      decode as base64; the result must be exactly 16 bytes. */
  function Decode(encoded: Option<string>): (r: Result<Guid, DecodeError>)
    ensures encoded.None? ==> r == Err(ArgumentNull)
    ensures encoded.Some? ==>
      match FromBase64String(FromUrlSafe(encoded.value) + "==")
      case Err(_) => r == Err(Format)
      case Ok(bytes) => r == (if |bytes| == 16 then Ok(bytes) else Err(Argument))
  {
    match encoded
    case None => Err(ArgumentNull)
    case Some(s) =>
      match FromBase64String(FromUrlSafe(s) + "==")
      case Err(_) => Err(Format)
      case Ok(buffer) => if |buffer| == 16 then Ok(buffer) else Err(Argument)
  }

  /** Text holding a character that is neither white space, nor of the
      base64 alphabet, nor one of the URL-safe replacements '_' and '-'
      fails with Format; '=' is one of them, as `Decode` appends the pad
      itself. */
  lemma DecodeRejectsForeign(s: string, i: int)
    requires 0 <= i < |s| && !IsSkipped(s[i]) && !IsAlphabet(s[i]) && s[i] !in "_-"
    ensures Decode(Some(s)) == Err(Format)
  {
    var u := FromUrlSafe(s) + "==";
    assert u[i] == s[i];
    assert u[i + 1..] == FromUrlSafe(s)[i + 1..] + "==";
    StripSkippedAppend(FromUrlSafe(s)[i + 1..], "==");
    assert StripSkipped("==") == "==";
    ForeignRejected(u, i);
  }

  /** The base64 of a GUID is 22 alphabet characters and "==". */
  lemma GuidBase64(g: Guid)
    ensures var vs := EncodeSextets(g);
      |vs| == 22 && ToBase64String(g) == Chars(vs) + "=="
  {
  }

  /** `Encode` writes the 22 significant characters of the base64 of the
      GUID's bytes, with '/' as '_' and '+' as '-'; the "==" is dropped. */
  lemma EncodeIsUrlSafeBase64(g: Guid)
    ensures ToBase64String(g)[22..] == "=="
    ensures forall i :: 0 <= i < 22 ==>
      Encode(g)[i] == (if ToBase64String(g)[i] == '/' then '_'
                       else if ToBase64String(g)[i] == '+' then '-'
                       else ToBase64String(g)[i])
    ensures forall i :: 0 <= i < 22 ==> UrlValue(Encode(g)[i]) == EncodeSextets(g)[i]
  {
    GuidBase64(g);
    var vs := EncodeSextets(g);
    forall i | 0 <= i < 22 ensures UrlValue(Encode(g)[i]) == vs[i] {
      ValueChar(vs[i]);
    }
  }

  /** Decoding an encoded GUID gives that GUID back. */
  lemma DecodeEncode(g: Guid)
    ensures Decode(Some(Encode(g))) == Ok(g)
  {
    var vs := EncodeSextets(g);
    GuidBase64(g);
    var body := Chars(vs);
    assert ToUrlSafe(ToBase64String(g))[..22] == ToUrlSafe(body);
    UrlSafeRoundTrip(body);
    assert FromUrlSafe(Encode(g)) + "==" == ToBase64String(g);
    FromToBase64String(g);
  }

  /** Every string of 22 URL-safe characters decodes to a GUID: the "=="
      appended by `Decode` completes the final group of two characters. */
  lemma DecodeUrlSafe(s: string)
    requires |s| == 22 && forall i :: 0 <= i < 22 ==> IsUrlSafe(s[i])
    ensures AllAlphabet(FromUrlSafe(s))
    ensures Decode(Some(s)) == Ok(DecodeSextets(Values(FromUrlSafe(s))))
  {
    FromBase64StringPadded(FromUrlSafe(s), "==");
  }

  /** The URL-safe characters whose four low bits are zero. */
  lemma LowBitsZero(c: char)
    requires IsUrlSafe(c)
    ensures UrlValue(c) % 16 == 0 <==> c in "AQgw"
  {
    var v := UrlValue(c);
    if c !in "_-" {
      assert Char(v) == c;
    }
  }

  /** A string of 22 URL-safe characters whose last character has zero low
      bits is the encoding of the GUID it decodes to. */
  lemma DecodeCanonical(s: string)
    requires |s| == 22 && forall i :: 0 <= i < 22 ==> IsUrlSafe(s[i])
    requires s[21] in "AQgw"
    ensures Decode(Some(s)).Ok? && Encode(Decode(Some(s)).value) == s
  {
    LowBitsZero(s[21]);
    DecodeUrlSafe(s);
    var t := FromUrlSafe(s);
    var g := DecodeSextets(Values(t));
    assert Values(t)[21] == UrlValue(s[21]);
    ToFromBase64String(t);
    assert ToUrlSafe(t) == s;
  }

  /** Conversely, an encoding always ends in one of 'A', 'Q', 'g' and 'w',
      so a string ending otherwise is never re-encoded to itself. */
  lemma EncodeLastChar(g: Guid)
    ensures Encode(g)[21] in "AQgw"
  {
    EncodeIsUrlSafeBase64(g);
    EncodeSextetsCanonical(g);
    LowBitsZero(Encode(g)[21]);
  }

  // ------------------------------------------------------------ the ShortGuid class

  /** An instance of the `ShortGuid` class: the decoded GUID and the string
      it was made from (`_value`). Both are read-only, so an instance is a
      value; reference equality implies equality of both fields. */
  datatype ShortGuid = ShortGuid(guid: Guid, value: string) {

    /** `Equals(ShortGuid other)`: false for null, otherwise both the GUID
        and the stored string must agree. */
    function Equals(other: Option<ShortGuid>): (r: bool)
      ensures r <==> other == Some(this)
    {
      other.Some? && guid == other.value.guid && value == other.value.value
    }

    /** `Equals(object obj)` */
    function EqualsObject(obj: Object<ShortGuid>): (r: bool)
      ensures r <==> obj == SameType(this)
    {
      match obj
      case Null => false
      case SameType(other) => Equals(Some(other))
      case OtherType => false
    }

    /** `ToString` */
    function ToString(): (s: string) {
      value
    }

    /** `GetHashCode` is the GUID's hash; .NET's GUID hash is a parameter. */
    function GetHashCode(guidHash: Guid -> int): int {
      guidHash(guid)
    }
  }

  /** `new ShortGuid(Guid guid)` */
  function FromGuid(g: Guid): (r: ShortGuid)
    ensures r.guid == g
    ensures Decode(Some(r.ToString())) == Ok(g)
  {
    DecodeEncode(g);
    ShortGuid(g, Encode(g))
  }

  /** `new ShortGuid(string encoded)`: the exceptions of `Decode` escape. */
  function FromString(encoded: Option<string>): (r: Result<ShortGuid, DecodeError>)
    ensures Decode(encoded).Err? ==> r == Err(Decode(encoded).error)
    ensures Decode(encoded).Ok? ==> r.Ok? && r.value.ToString() == encoded.value
  {
    var g :- Decode(encoded);
    Ok(ShortGuid(g, encoded.value))
  }

  /** `ShortGuid.Empty`: the ShortGuid of the all-zero GUID. */
  const Empty: ShortGuid := FromGuid(EmptyGuid)

  /** `operator ==`: null equals only null. */
  function Eq(left: Option<ShortGuid>, right: Option<ShortGuid>): (r: bool)
    ensures r <==> left == right
  {
    if left.None? then right.None? else right.Some? && left.value.Equals(right)
  }

  /** `operator !=` */
  function NotEq(left: Option<ShortGuid>, right: Option<ShortGuid>): (r: bool)
    ensures r <==> left != right
  {
    !Eq(left, right)
  }

  /** A ShortGuid made from a GUID shows the 22-character encoding, and
      making one from that string gives an equal ShortGuid. */
  lemma FromGuidRoundTrip(g: Guid)
    ensures |FromGuid(g).ToString()| == 22
    ensures FromString(Some(FromGuid(g).ToString())) == Ok(FromGuid(g))
    ensures FromGuid(g).Equals(Some(FromString(Some(FromGuid(g).ToString())).value))
  {
    DecodeEncode(g);
  }

  /** `ToString` shows a string that decodes to the GUID held, whichever
      constructor built the ShortGuid; from a string, it is that string. */
  lemma ToStringDecodes(g: Guid, s: string)
    ensures Decode(Some(FromGuid(g).ToString())) == Ok(FromGuid(g).guid)
    ensures FromString(Some(s)).Ok? ==>
      && FromString(Some(s)).value.ToString() == s
      && Decode(Some(s)) == Ok(FromString(Some(s)).value.guid)
  {
  }

  /** Equal ShortGuids hold the same GUID, so they have the same hash
      code. */
  lemma EqualsSameHash(x: ShortGuid, y: ShortGuid, guidHash: Guid -> int)
    requires x.Equals(Some(y))
    ensures x.guid == y.guid && x.GetHashCode(guidHash) == y.GetHashCode(guidHash)
  {
  }

  /** From a canonical string, both constructors give equal ShortGuids. */
  lemma FromStringCanonical(s: string, g: Guid)
    requires Decode(Some(s)) == Ok(g) && Encode(g) == s
    ensures FromString(Some(s)) == Ok(FromGuid(g))
    ensures Eq(Some(FromString(Some(s)).value), Some(FromGuid(g)))
  {
  }

  /** `Empty` holds the zero GUID and shows 22 'A's, not null. */
  lemma EmptyValue()
    ensures Empty.guid == EmptyGuid
    ensures |Empty.ToString()| == 22 && forall i :: 0 <= i < 22 ==> Empty.ToString()[i] == 'A'
  {
    var g := EmptyGuid;
    EncodeIsUrlSafeBase64(g);
    EncodeZeroBytes(g);
    forall i | 0 <= i < 22 ensures Encode(g)[i] == 'A' {
      UrlValueInjective(Encode(g)[i], 'A');
    }
  }

  lemma UrlValueInjective(c: char, d: char)
    requires IsUrlSafe(c) && IsUrlSafe(d) && UrlValue(c) == UrlValue(d)
    ensures c == d
  {
    if c !in "_-" && d !in "_-" {
      assert Char(Value(c)) == c && Char(Value(d)) == d;
    }
  }

  /** Two strings of 22 URL-safe characters that differ only in the four
      low bits of the last character decode to the same GUID. */
  lemma DecodeIgnoresLowBits(s: string, t: string)
    requires |s| == 22 && forall i :: 0 <= i < 22 ==> IsUrlSafe(s[i])
    requires |t| == 22 && forall i :: 0 <= i < 22 ==> IsUrlSafe(t[i])
    requires s[..21] == t[..21] && UrlValue(s[21]) / 16 == UrlValue(t[21]) / 16
    ensures Decode(Some(s)) == Decode(Some(t))
  {
    DecodeUrlSafe(s);
    DecodeUrlSafe(t);
    var vs, ws := Values(FromUrlSafe(s)), Values(FromUrlSafe(t));
    forall i | 0 <= i < 21 ensures vs[i] == ws[i] {
      assert s[i] == s[..21][i] == t[..21][i] == t[i];
      assert FromUrlSafe(s)[i] == FromUrlSafe(t)[i];
    }
    assert vs[..21] == ws[..21];
    assert vs[21] == UrlValue(s[21]) && ws[21] == UrlValue(t[21]);
    Base64.DecodeIgnoresLowBits(vs, ws);
  }

  /** A string whose last character differs from the encoding only in the
      four bits that belong to no byte decodes to the same GUID, yet the
      ShortGuid made from it is not equal to the one made from the GUID,
      while their hash codes agree. */
  lemma NonCanonicalAlias(g: Guid, c: char, guidHash: Guid -> int)
    requires IsUrlSafe(c) && c != Encode(g)[21]
    requires UrlValue(c) / 16 == UrlValue(Encode(g)[21]) / 16
    ensures var s := Encode(g)[..21] + [c];
      && FromString(Some(s)) == Ok(ShortGuid(g, s))
      && !FromGuid(g).Equals(Some(ShortGuid(g, s)))
      && FromGuid(g).GetHashCode(guidHash) == ShortGuid(g, s).GetHashCode(guidHash)
  {
    var e := Encode(g);
    var s := e[..21] + [c];
    assert s[..21] == e[..21];
    DecodeIgnoresLowBits(s, e);
    DecodeEncode(g);
  }

  // ------------------------------------------------------------ a sample GUID

  /** `Encode` is fixed by the sextets of the GUID's bytes: a string of 22
      URL-safe characters standing for those sextets is the encoding. */
  lemma EncodeBySextets(g: Guid, vs: seq<Sextet>, s: string)
    requires EncodeSextets(g) == vs
    requires |s| == 22 && forall i :: 0 <= i < 22 ==> IsUrlSafe(s[i]) && UrlValue(s[i]) == vs[i]
    ensures Encode(g) == s
  {
    EncodeIsUrlSafeBase64(g);
    forall i | 0 <= i < 22 ensures Encode(g)[i] == s[i] {
      UrlValueInjective(Encode(g)[i], s[i]);
    }
  }

  /** The 22 sextets of a GUID: five full groups and the last byte. */
  lemma GuidSextetGroups(g: Guid)
    ensures EncodeSextets(g) ==
      EncodeGroup(g[0], g[1], g[2]) + EncodeGroup(g[3], g[4], g[5]) + EncodeGroup(g[6], g[7], g[8])
      + EncodeGroup(g[9], g[10], g[11]) + EncodeGroup(g[12], g[13], g[14]) + EncodeGroup(g[15], 0, 0)[..2]
  {
    var t1 := g[3..];
    var t2 := t1[3..];
    var t3 := t2[3..];
    var t4 := t3[3..];
    var t5 := t4[3..];
    assert EncodeSextets(t5) == EncodeGroup(g[15], 0, 0)[..2];
    assert EncodeSextets(t4) == EncodeGroup(g[12], g[13], g[14]) + EncodeSextets(t5);
    assert EncodeSextets(t3) == EncodeGroup(g[9], g[10], g[11]) + EncodeSextets(t4);
    assert EncodeSextets(t2) == EncodeGroup(g[6], g[7], g[8]) + EncodeSextets(t3);
    assert EncodeSextets(t1) == EncodeGroup(g[3], g[4], g[5]) + EncodeSextets(t2);
  }

  lemma EncodeGroupValue(b0: Byte, b1: Byte, b2: Byte, c0: int, c1: int, c2: int, c3: int)
    requires c0 == b0 / 4 && c1 == (b0 % 4) * 16 + b1 / 16 && c2 == (b1 % 16) * 4 + b2 / 64 && c3 == b2 % 64
    ensures EncodeGroup(b0, b1, b2) == [c0, c1, c2, c3]
  {
  }

  /** The bytes of 087cd284-4e96-42bb-870c-8f9177ed8246. */
  predicate IsSampleGuid(g: Guid) {
    && g[0] == 0x84 && g[1] == 0xd2 && g[2] == 0x7c && g[3] == 0x08
    && g[4] == 0x96 && g[5] == 0x4e && g[6] == 0xbb && g[7] == 0x42
    && g[8] == 0x87 && g[9] == 0x0c && g[10] == 0x8f && g[11] == 0x91
    && g[12] == 0x77 && g[13] == 0xed && g[14] == 0x82 && g[15] == 0x46
  }

  /** The sextets of "hNJ8CJZOu0KHDI-Rd-2CRg". */
  const SampleSextets: seq<Sextet> := [33, 13, 9, 60, 2, 9, 25, 14, 46, 52, 10, 7, 3, 8, 62, 17, 29, 62, 54, 2, 17, 32]

  lemma SampleGuidBytes()
    ensures IsSampleGuid(GuidOf(0x087cd284, 0x4e96, 0x42bb, [0x87, 0x0c, 0x8f, 0x91, 0x77, 0xed, 0x82, 0x46]))
  {
    assert FieldBytes4(0x087cd284) == [0x84, 0xd2, 0x7c, 0x08];
    assert FieldBytes2(0x4e96) == [0x96, 0x4e];
    assert FieldBytes2(0x42bb) == [0xbb, 0x42];
  }

  lemma SampleGroups(g: Guid)
    requires IsSampleGuid(g)
    ensures EncodeGroup(g[0], g[1], g[2]) == [33, 13, 9, 60]
    ensures EncodeGroup(g[3], g[4], g[5]) == [2, 9, 25, 14]
    ensures EncodeGroup(g[6], g[7], g[8]) == [46, 52, 10, 7]
    ensures EncodeGroup(g[9], g[10], g[11]) == [3, 8, 62, 17]
    ensures EncodeGroup(g[12], g[13], g[14]) == [29, 62, 54, 2]
    ensures EncodeGroup(g[15], 0, 0) == [17, 32, 0, 0]
  {
    EncodeGroupValue(0x84, 0xd2, 0x7c, 33, 13, 9, 60);
    EncodeGroupValue(0x08, 0x96, 0x4e, 2, 9, 25, 14);
    EncodeGroupValue(0xbb, 0x42, 0x87, 46, 52, 10, 7);
    EncodeGroupValue(0x0c, 0x8f, 0x91, 3, 8, 62, 17);
    EncodeGroupValue(0x77, 0xed, 0x82, 29, 62, 54, 2);
    EncodeGroupValue(0x46, 0, 0, 17, 32, 0, 0);
  }

  lemma SampleSextetsOf(g: Guid)
    requires IsSampleGuid(g)
    ensures EncodeSextets(g) == SampleSextets
  {
    assert [33, 13, 9, 60] + [2, 9, 25, 14] + [46, 52, 10, 7] + [3, 8, 62, 17] + [29, 62, 54, 2] + [17, 32, 0, 0][..2] == SampleSextets;
    GuidSextetGroups(g);
    SampleGroups(g);
  }

  lemma SampleTextLow()
    ensures forall i :: 0 <= i < 11 ==>
      IsUrlSafe("hNJ8CJZOu0KHDI-Rd-2CRg"[i]) && UrlValue("hNJ8CJZOu0KHDI-Rd-2CRg"[i]) == SampleSextets[i]
  {
  }

  lemma SampleTextHigh()
    ensures forall i :: 11 <= i < 22 ==>
      IsUrlSafe("hNJ8CJZOu0KHDI-Rd-2CRg"[i]) && UrlValue("hNJ8CJZOu0KHDI-Rd-2CRg"[i]) == SampleSextets[i]
  {
  }

  /** 087cd284-4e96-42bb-870c-8f9177ed8246 is "hNJ8CJZOu0KHDI-Rd-2CRg" and
      back, and both constructors give the same ShortGuid. */
  lemma SampleVector()
    ensures var g := GuidOf(0x087cd284, 0x4e96, 0x42bb, [0x87, 0x0c, 0x8f, 0x91, 0x77, 0xed, 0x82, 0x46]);
      && Encode(g) == "hNJ8CJZOu0KHDI-Rd-2CRg"
      && Decode(Some("hNJ8CJZOu0KHDI-Rd-2CRg")) == Ok(g)
      && FromString(Some("hNJ8CJZOu0KHDI-Rd-2CRg")) == Ok(FromGuid(g))
  {
    var g := GuidOf(0x087cd284, 0x4e96, 0x42bb, [0x87, 0x0c, 0x8f, 0x91, 0x77, 0xed, 0x82, 0x46]);
    SampleGuidBytes();
    SampleSextetsOf(g);
    SampleTextLow();
    SampleTextHigh();
    EncodeBySextets(g, SampleSextets, "hNJ8CJZOu0KHDI-Rd-2CRg");
    DecodeEncode(g);
    FromStringCanonical("hNJ8CJZOu0KHDI-Rd-2CRg", g);
  }
}
