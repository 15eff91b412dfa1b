/**
  The transport text codec of package tcrypto: base64url without padding
  (sections 5 and 3.2 of RFC 4648), as Go's base64.RawURLEncoding does it.
  Every 3 bytes become 4 characters of the URL-safe alphabet; a final group of
  1 or 2 bytes becomes 2 or 3 characters and no '=' is written.
*/
module Encoding {
  import opened Basics

  /**
    The URL and filename safe alphabet of RFC 4648 (Table 2):
    A-Z, a-z, 0-9, '-' and '_' stand for the values 0 to 63 in that order.
  */
  predicate IsAlphabet(c: char) {
    ('A' <= c <= 'Z') || ('a' <= c <= 'z') || ('0' <= c <= '9') || c == '-' || c == '_'
  }

  /** The character that encodes the 6-bit value v. */
  function Sextet(v: int): (c: char)
    requires 0 <= v < 64
    ensures IsAlphabet(c)
  {
    if v < 26 then ('A' as int + v) as char
    else if v < 52 then ('a' as int + (v - 26)) as char
    else if v < 62 then ('0' as int + (v - 52)) as char
    else if v == 62 then '-'
    else '_'
  }

  /** The 6-bit value of an alphabet character. */
  function SextetValue(c: char): (v: int)
    requires IsAlphabet(c)
    ensures 0 <= v < 64 && Sextet(v) == c
  {
    if 'A' <= c <= 'Z' then c as int - 'A' as int
    else if 'a' <= c <= 'z' then c as int - 'a' as int + 26
    else if '0' <= c <= '9' then c as int - '0' as int + 52
    else if c == '-' then 62
    else 63
  }

  lemma SextetValueOfSextet(v: int)
    requires 0 <= v < 64
    ensures SextetValue(Sextet(v)) == v
  {
  }

  /** Length of the unpadded encoding of n bytes. */
  function EncodedLen(n: nat): nat {
    4 * (n / 3) + (if n % 3 == 0 then 0 else n % 3 + 1)
  }

  lemma EncodedLenStep(n: nat)
    ensures EncodedLen(n) % 4 != 1
    ensures n >= 3 ==> EncodedLen(n) == 4 + EncodedLen(n - 3)
  {
    if n >= 3 {
      assert (n - 3) / 3 == n / 3 - 1;
      assert (n - 3) % 3 == n % 3;
    }
  }

  /** Number of bytes that a well-formed text of n characters decodes to. */
  function DecodedLen(n: nat): nat
    requires n % 4 != 1
  {
    3 * (n / 4) + (if n % 4 == 0 then 0 else n % 4 - 1)
  }

  /** The four characters of one full 3-byte group. */
  function EncodeGroup(b0: byte, b1: byte, b2: byte): (s: string)
    ensures |s| == 4
  {
    [Sextet(b0 / 4), Sextet((b0 % 4) * 16 + b1 / 16), Sextet((b1 % 16) * 4 + b2 / 64), Sextet(b2 % 64)]
  }

  /** A final group of one byte: two characters, the low 4 bits of the second zero. */
  function EncodeTail1(b0: byte): (s: string)
    ensures |s| == 2
  {
    [Sextet(b0 / 4), Sextet((b0 % 4) * 16)]
  }

  /** A final group of two bytes: three characters, the low 2 bits of the third zero. */
  function EncodeTail2(b0: byte, b1: byte): (s: string)
    ensures |s| == 3
  {
    [Sextet(b0 / 4), Sextet((b0 % 4) * 16 + b1 / 16), Sextet((b1 % 16) * 4)]
  }

  /** EncodeBytes (tcrypto/encoding.go): base64url text of b, no padding. */
  function EncodeBytes(b: seq<byte>): (s: string)
    ensures |s| == EncodedLen(|b|) && |s| % 4 != 1
    ensures forall i :: 0 <= i < |s| ==> IsAlphabet(s[i])
    decreases |b|
  {
    if |b| == 0 then ""
    else if |b| == 1 then EncodeTail1(b[0])
    else if |b| == 2 then EncodeTail2(b[0], b[1])
    else EncodeGroup(b[0], b[1], b[2]) + EncodeBytes(b[3..])
  }

  const CorruptPrefix: string := "illegal base64 data at input byte "

  /** The error Go's decoder reports: the offset of the offending input byte. */
  datatype DecodeError = CorruptInput(offset: nat) {
    /** The fixed prefix, then the offset in decimal digits that read back as the offset. */
    function Text(): (text: string)
      ensures |text| > |CorruptPrefix| && text[..|CorruptPrefix|] == CorruptPrefix
      ensures var digits := text[|CorruptPrefix|..];
        (forall i :: 0 <= i < |digits| ==> IsDecimalDigit(digits[i])) && DigitsValue(digits) == offset
    {
      DecimalValue(offset);
      var text := CorruptPrefix + Decimal(offset);
      assert text[|CorruptPrefix|..] == Decimal(offset);
      text
    }
  }

  /** Index of the first character outside the alphabet, or |s| when there is none. */
  function FirstIllegal(s: string): (k: nat)
    ensures k <= |s|
    ensures forall i :: 0 <= i < k ==> IsAlphabet(s[i])
    ensures k < |s| ==> !IsAlphabet(s[k])
  {
    if |s| == 0 then 0
    else if !IsAlphabet(s[0]) then 0
    else 1 + FirstIllegal(s[1..])
  }

  /** The three bytes of a full group of four 6-bit values. */
  function DecodeGroup(v0: int, v1: int, v2: int, v3: int): (b: seq<byte>)
    requires 0 <= v0 < 64 && 0 <= v1 < 64 && 0 <= v2 < 64 && 0 <= v3 < 64
    ensures |b| == 3
  {
    [v0 * 4 + v1 / 16, (v1 % 16) * 16 + v2 / 4, (v2 % 4) * 64 + v3]
  }

  /** The byte of a final group of two values; the low 4 bits of v1 are dropped. */
  function DecodeTail2(v0: int, v1: int): (b: seq<byte>)
    requires 0 <= v0 < 64 && 0 <= v1 < 64
    ensures |b| == 1
  {
    [v0 * 4 + v1 / 16]
  }

  /** The bytes of a final group of three values; the low 2 bits of v2 are dropped. */
  function DecodeTail3(v0: int, v1: int, v2: int): (b: seq<byte>)
    requires 0 <= v0 < 64 && 0 <= v1 < 64 && 0 <= v2 < 64
    ensures |b| == 2
  {
    [v0 * 4 + v1 / 16, (v1 % 16) * 16 + v2 / 4]
  }

  /** Decoding of text that is all alphabet and whose length is not 1 mod 4. */
  function DecodeChars(s: string): (b: seq<byte>)
    requires forall i :: 0 <= i < |s| ==> IsAlphabet(s[i])
    requires |s| % 4 != 1
    ensures |b| == DecodedLen(|s|)
    decreases |s|
  {
    if |s| == 0 then []
    else if |s| == 2 then DecodeTail2(SextetValue(s[0]), SextetValue(s[1]))
    else if |s| == 3 then DecodeTail3(SextetValue(s[0]), SextetValue(s[1]), SextetValue(s[2]))
    else
      DecodeGroup(SextetValue(s[0]), SextetValue(s[1]), SextetValue(s[2]), SextetValue(s[3]))
        + DecodeChars(s[4..])
  }

  /**
    DecodeBytes (tcrypto/encoding.go). Go's decoder scans left to right, so a
    character outside the alphabet is reported at its own offset before a
    dangling single character at the end is reported at offset |s| - 1.
    Unused low bits of a final 2- or 3-character group are ignored, as the
    non-strict Go decoder does.
  */
  function DecodeBytes(s: string): (r: Result<seq<byte>, DecodeError>)
    ensures r.Success? <==> (forall i :: 0 <= i < |s| ==> IsAlphabet(s[i])) && |s| % 4 != 1
    ensures r.Success? ==> |r.value| == DecodedLen(|s|)
    ensures r.Failure? ==>
      var k := r.error.offset;
      k < |s| && forall i :: 0 <= i < k ==> IsAlphabet(s[i])
    ensures r.Failure? ==>
      var k := r.error.offset;
      !IsAlphabet(s[k]) || (k == |s| - 1 && |s| % 4 == 1)
  {
    var bad := FirstIllegal(s);
    if bad < |s| then Failure(CorruptInput(bad))
    else if |s| % 4 == 1 then Failure(CorruptInput(|s| - 1))
    else Success(DecodeChars(s))
  }

  /** Text that is all alphabet and whose length is not 1 mod 4 decodes without error. */
  lemma DecodeWellFormed(s: string)
    requires forall i :: 0 <= i < |s| ==> IsAlphabet(s[i])
    requires |s| % 4 != 1
    ensures DecodeBytes(s) == Success(DecodeChars(s))
  {
  }

  /**
    Text that is all alphabet and whose final group carries no stray low bits,
    as every encoder output is.
  */
  predicate Canonical(s: string) {
    (forall i :: 0 <= i < |s| ==> IsAlphabet(s[i])) && NoStrayBits(s)
  }

  /** A value packed above 2, 4 or 6 low bits unpacks again into the same two parts. */
  lemma Unpack4(hi: int, lo: int)
    requires 0 <= lo < 4
    ensures (hi * 4 + lo) / 4 == hi && (hi * 4 + lo) % 4 == lo
  {
  }

  lemma Unpack16(hi: int, lo: int)
    requires 0 <= lo < 16
    ensures (hi * 16 + lo) / 16 == hi && (hi * 16 + lo) % 16 == lo
  {
  }

  lemma Unpack64(hi: int, lo: int)
    requires 0 <= lo < 64
    ensures (hi * 64 + lo) / 64 == hi && (hi * 64 + lo) % 64 == lo
  {
  }

  /** The arithmetic of a full group: splitting three bytes into sextets and joining them again. */
  lemma GroupSplitJoin(b0: byte, b1: byte, b2: byte)
    ensures DecodeGroup(b0 / 4, (b0 % 4) * 16 + b1 / 16, (b1 % 16) * 4 + b2 / 64, b2 % 64) == [b0, b1, b2]
  {
    var v1, v2 := (b0 % 4) * 16 + b1 / 16, (b1 % 16) * 4 + b2 / 64;
    Unpack16(b0 % 4, b1 / 16);
    Unpack4(b1 % 16, b2 / 64);
    assert (b0 / 4) * 4 + v1 / 16 == b0;
    assert (v1 % 16) * 16 + v2 / 4 == b1;
    assert (v2 % 4) * 64 + b2 % 64 == b2;
  }

  lemma GroupRoundTrip(b0: byte, b1: byte, b2: byte)
    ensures var g := EncodeGroup(b0, b1, b2);
      DecodeGroup(SextetValue(g[0]), SextetValue(g[1]), SextetValue(g[2]), SextetValue(g[3])) == [b0, b1, b2]
  {
    var v0, v1, v2, v3 := b0 / 4, (b0 % 4) * 16 + b1 / 16, (b1 % 16) * 4 + b2 / 64, b2 % 64;
    var g := EncodeGroup(b0, b1, b2);
    assert g[0] == Sextet(v0) && g[1] == Sextet(v1) && g[2] == Sextet(v2) && g[3] == Sextet(v3);
    SextetValueOfSextet(v0);
    SextetValueOfSextet(v1);
    SextetValueOfSextet(v2);
    SextetValueOfSextet(v3);
    GroupSplitJoin(b0, b1, b2);
  }

  lemma Tail1RoundTrip(b0: byte)
    ensures var t := EncodeTail1(b0); DecodeTail2(SextetValue(t[0]), SextetValue(t[1])) == [b0]
  {
    var v0, v1 := b0 / 4, (b0 % 4) * 16;
    var t := EncodeTail1(b0);
    assert t[0] == Sextet(v0) && t[1] == Sextet(v1);
    SextetValueOfSextet(v0);
    SextetValueOfSextet(v1);
    assert v0 * 4 + v1 / 16 == b0;
  }

  /** The arithmetic of a final group of two bytes: split into three sextets and joined again. */
  lemma Tail2SplitJoin(b0: byte, b1: byte)
    ensures DecodeTail3(b0 / 4, (b0 % 4) * 16 + b1 / 16, (b1 % 16) * 4) == [b0, b1]
  {
    var v1 := (b0 % 4) * 16 + b1 / 16;
    Unpack16(b0 % 4, b1 / 16);
    Unpack4(b1 % 16, 0);
    assert v1 / 16 == b0 % 4 && v1 % 16 == b1 / 16;
    assert ((b1 % 16) * 4) / 4 == b1 % 16;
    assert (b0 / 4) * 4 + b0 % 4 == b0;
    assert (b1 / 16) * 16 + b1 % 16 == b1;
  }

  lemma Tail2RoundTrip(b0: byte, b1: byte)
    ensures var t := EncodeTail2(b0, b1);
      DecodeTail3(SextetValue(t[0]), SextetValue(t[1]), SextetValue(t[2])) == [b0, b1]
  {
    var v0, v1, v2 := b0 / 4, (b0 % 4) * 16 + b1 / 16, (b1 % 16) * 4;
    var t := EncodeTail2(b0, b1);
    assert t[0] == Sextet(v0) && t[1] == Sextet(v1) && t[2] == Sextet(v2);
    SextetValueOfSextet(v0);
    SextetValueOfSextet(v1);
    SextetValueOfSextet(v2);
    Tail2SplitJoin(b0, b1);
  }

  /** Decoding an encoding of three or more bytes gives the first group back, then decodes the rest. */
  lemma DecodeCharsOfGroup(b: seq<byte>)
    requires |b| > 2
    ensures EncodeBytes(b) == EncodeGroup(b[0], b[1], b[2]) + EncodeBytes(b[3..])
    ensures DecodeChars(EncodeBytes(b)) == [b[0], b[1], b[2]] + DecodeChars(EncodeBytes(b[3..]))
  {
    var s := EncodeBytes(b);
    var g := EncodeGroup(b[0], b[1], b[2]);
    var rest := EncodeBytes(b[3..]);
    EncodedLenStep(|b|);
    EncodedLenStep(|b| - 3);
    assert s[4..] == rest;
    assert s[0] == g[0] && s[1] == g[1] && s[2] == g[2] && s[3] == g[3];
    GroupRoundTrip(b[0], b[1], b[2]);
  }

  lemma FirstThree(b: seq<byte>)
    requires |b| > 2
    ensures b == [b[0], b[1], b[2]] + b[3..]
  {
  }

  lemma {:induction false} DecodeCharsOfEncode(b: seq<byte>)
    ensures DecodeChars(EncodeBytes(b)) == b
    decreases |b|
  {
    if |b| == 1 {
      var t := EncodeTail1(b[0]);
      assert EncodeBytes(b) == t;
      assert DecodeChars(t) == DecodeTail2(SextetValue(t[0]), SextetValue(t[1]));
      Tail1RoundTrip(b[0]);
      assert b == [b[0]];
    } else if |b| == 2 {
      var t := EncodeTail2(b[0], b[1]);
      assert EncodeBytes(b) == t;
      assert DecodeChars(t) == DecodeTail3(SextetValue(t[0]), SextetValue(t[1]), SextetValue(t[2]));
      Tail2RoundTrip(b[0], b[1]);
      assert b == [b[0], b[1]];
    } else if |b| > 2 {
      DecodeCharsOfGroup(b);
      DecodeCharsOfEncode(b[3..]);
      FirstThree(b);
    }
  }

  /** Round trip: decoding the encoding of any byte string gives it back. */
  lemma {:induction false} DecodeEncode(b: seq<byte>)
    ensures DecodeBytes(EncodeBytes(b)) == Success(b)
  {
    var s := EncodeBytes(b);
    assert FirstIllegal(s) == |s|;
    DecodeCharsOfEncode(b);
  }

  /** The last-group condition of Canonical, for text already known to be all alphabet. */
  predicate NoStrayBits(s: string)
    requires forall i :: 0 <= i < |s| ==> IsAlphabet(s[i])
  {
    (|s| % 4 == 2 ==> SextetValue(s[|s| - 1]) % 16 == 0) &&
    (|s| % 4 == 3 ==> SextetValue(s[|s| - 1]) % 4 == 0)
  }

  /** Prefixing a full group of alphabet characters does not change canonicity. */
  lemma CanonicalAfterGroup(g: string, rest: string)
    requires |g| == 4
    requires forall i :: 0 <= i < |g| ==> IsAlphabet(g[i])
    ensures Canonical(g + rest) <==> Canonical(rest)
  {
    var s := g + rest;
    if |rest| > 0 {
      assert s[|s| - 1] == rest[|rest| - 1];
    }
    assert forall i :: 0 <= i < |rest| ==> rest[i] == s[i + 4];
  }

  /** Encoder output is canonical: its last group has no stray bits. */
  lemma {:induction false} EncodeIsCanonical(b: seq<byte>)
    ensures Canonical(EncodeBytes(b))
    decreases |b|
  {
    var s := EncodeBytes(b);
    EncodedLenStep(|b|);
    if |b| == 1 {
      assert s == EncodeTail1(b[0]);
      SextetValueOfSextet((b[0] % 4) * 16);
    } else if |b| == 2 {
      assert s == EncodeTail2(b[0], b[1]);
      SextetValueOfSextet((b[1] % 16) * 4);
    } else if |b| > 2 {
      var rest := EncodeBytes(b[3..]);
      EncodedLenStep(|b| - 3);
      EncodeIsCanonical(b[3..]);
      assert s == EncodeGroup(b[0], b[1], b[2]) + rest;
      CanonicalAfterGroup(EncodeGroup(b[0], b[1], b[2]), rest);
    }
  }

  lemma GroupFromValues(v0: int, v1: int, v2: int, v3: int)
    requires 0 <= v0 < 64 && 0 <= v1 < 64 && 0 <= v2 < 64 && 0 <= v3 < 64
    ensures var g := DecodeGroup(v0, v1, v2, v3);
      EncodeGroup(g[0], g[1], g[2]) == [Sextet(v0), Sextet(v1), Sextet(v2), Sextet(v3)]
  {
    var g := DecodeGroup(v0, v1, v2, v3);
    var b0, b1, b2 := g[0], g[1], g[2];
    Unpack4(v0, v1 / 16);
    Unpack16(v1 % 16, v2 / 4);
    Unpack64(v2 % 4, v3);
    assert b0 / 4 == v0;
    assert (b0 % 4) * 16 + b1 / 16 == v1;
    assert (b1 % 16) * 4 + b2 / 64 == v2;
    assert b2 % 64 == v3;
  }

  lemma Tail2FromValues(v0: int, v1: int)
    requires 0 <= v0 < 64 && 0 <= v1 < 64 && v1 % 16 == 0
    ensures EncodeTail1(DecodeTail2(v0, v1)[0]) == [Sextet(v0), Sextet(v1)]
  {
    var b0 := DecodeTail2(v0, v1)[0];
    Unpack4(v0, v1 / 16);
    assert b0 / 4 == v0;
    assert (b0 % 4) * 16 == v1;
  }

  lemma Tail3FromValues(v0: int, v1: int, v2: int)
    requires 0 <= v0 < 64 && 0 <= v1 < 64 && 0 <= v2 < 64 && v2 % 4 == 0
    ensures var t := DecodeTail3(v0, v1, v2); EncodeTail2(t[0], t[1]) == [Sextet(v0), Sextet(v1), Sextet(v2)]
  {
    var t := DecodeTail3(v0, v1, v2);
    var b0, b1 := t[0], t[1];
    Unpack4(v0, v1 / 16);
    Unpack16(v1 % 16, v2 / 4);
    assert b0 / 4 == v0;
    assert (b0 % 4) * 16 + b1 / 16 == v1;
    assert (b1 % 16) * 4 == v2;
  }

  /** On canonical text the decoder is a left inverse of the encoder. */
  lemma {:induction false} EncodeDecodeChars(s: string)
    requires Canonical(s) && |s| % 4 != 1
    ensures EncodeBytes(DecodeChars(s)) == s
    decreases |s|
  {
    var b := DecodeChars(s);
    if |s| == 2 {
      Tail2FromValues(SextetValue(s[0]), SextetValue(s[1]));
    } else if |s| == 3 {
      Tail3FromValues(SextetValue(s[0]), SextetValue(s[1]), SextetValue(s[2]));
    } else if |s| >= 4 {
      var tail := s[4..];
      assert s == s[..4] + tail;
      CanonicalAfterGroup(s[..4], tail);
      EncodeDecodeChars(tail);
      var v0, v1, v2, v3 := SextetValue(s[0]), SextetValue(s[1]), SextetValue(s[2]), SextetValue(s[3]);
      var g := DecodeGroup(v0, v1, v2, v3);
      assert b == g + DecodeChars(tail);
      assert b[..3] == g && b[3..] == DecodeChars(tail);
      GroupFromValues(v0, v1, v2, v3);
      assert s == s[..4] + tail;
    }
  }

  /**
    Decoding is a partial inverse of encoding: text decodes successfully and is
    canonical exactly when it is the encoding of the bytes it decodes to.
  */
  lemma {:induction false} DecodeSuccessIsEncoding(s: string, b: seq<byte>)
    ensures (DecodeBytes(s) == Success(b) && Canonical(s)) <==> s == EncodeBytes(b)
  {
    if DecodeBytes(s) == Success(b) && Canonical(s) {
      EncodeDecodeChars(s);
    }
    if s == EncodeBytes(b) {
      DecodeEncode(b);
      EncodeIsCanonical(b);
    }
  }

  /** Two different canonical texts never decode to the same bytes. */
  lemma DecodeInjectiveOnCanonical(s1: string, s2: string)
    requires Canonical(s1) && Canonical(s2)
    requires DecodeBytes(s1).Success? && DecodeBytes(s2).Success?
    requires s1 != s2
    ensures DecodeBytes(s1).value != DecodeBytes(s2).value
  {
    DecodeSuccessIsEncoding(s1, DecodeBytes(s1).value);
    DecodeSuccessIsEncoding(s2, DecodeBytes(s2).value);
  }

  /** Go's non-strict decoder ignores stray bits: "AB" and "AA" both decode to one zero byte. */
  lemma NonCanonicalTextsCollide()
    ensures DecodeBytes("AB") == DecodeBytes("AA") == Success([0])
    ensures !Canonical("AB")
  {
    var ab, aa := "AB", "AA";
    assert ab[0] == 'A' && ab[1] == 'B' && aa[0] == 'A' && aa[1] == 'A';
    forall i | 0 <= i < 2
      ensures IsAlphabet(ab[i]) && IsAlphabet(aa[i])
    {
    }
    var a, b := SextetValue('A'), SextetValue('B');
    assert a == 0 && b == 1;
    assert DecodeChars(ab) == DecodeTail2(a, b) == [0];
    assert DecodeChars(aa) == DecodeTail2(a, a) == [0];
    DecodeWellFormed(ab);
    DecodeWellFormed(aa);
    assert !NoStrayBits(ab);
  }

  /** "AAAA" decodes to three zero bytes, which is not a 32-byte key. */
  lemma FourCharactersGiveThreeBytes()
    ensures DecodeBytes("AAAA") == Success([0, 0, 0])
  {
    var zeros: seq<byte> := [0, 0, 0];
    assert Sextet(0) == 'A';
    assert zeros[3..] == [];
    assert EncodeBytes(zeros) == EncodeGroup(0, 0, 0) + EncodeBytes([]) == "AAAA";
    DecodeEncode(zeros);
  }

  /** A 32-byte key encodes to 43 characters, and any 43 alphabet characters decode to 32 bytes. */
  lemma KeyTextLength(b: seq<byte>, s: string)
    requires |b| == 32
    requires |s| == 43 && forall i :: 0 <= i < |s| ==> IsAlphabet(s[i])
    ensures |EncodeBytes(b)| == 43
    ensures DecodeBytes(s).Success? && |DecodeBytes(s).value| == 32
  {
  }

  /**
    Overwriting the first two characters of an encoded 32-byte key with "AA"
    still decodes without error to 32 bytes: the codec has no tag to check.
  */
  lemma OverwrittenPrefixStillDecodes(key: seq<byte>)
    requires |key| == 32
    ensures var t := EncodeBytes(key); DecodeBytes("AA" + t[2..]).Success?
    ensures var t := EncodeBytes(key); |DecodeBytes("AA" + t[2..]).value| == 32
  {
    var t := EncodeBytes(key);
    var u := "AA" + t[2..];
    assert forall i :: 2 <= i < |u| ==> u[i] == t[i];
  }
}
