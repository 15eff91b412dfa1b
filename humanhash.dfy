/**
  HumanHash of package tcrypto: a short DDD-DDDD fingerprint drawn from a
  SHA-256 digest by rejection sampling. SHA-256 (FIPS 180-4) itself is not
  modelled: the 32-byte digest is the input.
*/
module Humanhash {
  import opened Basics

  type Digit = x: int | 0 <= x < 10

  /** Digest bytes at or above this bound are skipped, so that v % 10 is unbiased. */
  const RejectFrom: int := 250

  /** The decimal digits drawn from a digest: each accepted byte (below 250) taken mod 10, in order. */
  function AcceptedDigits(digest: seq<byte>): (d: seq<Digit>)
    ensures |d| <= |digest|
  {
    if digest == [] then []
    else (if digest[0] < RejectFrom then [digest[0] % 10] else []) + AcceptedDigits(digest[1..])
  }

  lemma {:induction false} AcceptedDigitsAppend(a: seq<byte>, b: seq<byte>)
    ensures AcceptedDigits(a + b) == AcceptedDigits(a) + AcceptedDigits(b)
  {
    if a != [] {
      var head := if a[0] < RejectFrom then [a[0] % 10] else [];
      assert (a + b)[0] == a[0];
      assert (a + b)[1..] == a[1..] + b;
      AcceptedDigitsAppend(a[1..], b);
      assert AcceptedDigits(a + b) == head + AcceptedDigits(a[1..] + b);
    } else {
      assert a + b == b;
    }
  }

  /** The digits of one byte: its value mod 10, or nothing when it is rejected. */
  lemma AcceptedOne(b: byte)
    ensures AcceptedDigits([b]) == if b < RejectFrom then [b % 10] else []
  {
    assert [b][1..] == [];
  }

  lemma SliceAround(digest: seq<byte>, j: nat)
    requires j < |digest|
    ensures digest[..j + 1] == digest[..j] + [digest[j]]
    ensures digest == digest[..j + 1] + digest[j + 1..]
  {
  }

  /** The digits of a digest are those before byte j, those of byte j, and those after it. */
  lemma SplitAround(digest: seq<byte>, j: nat)
    requires j < |digest|
    ensures AcceptedDigits(digest) ==
      AcceptedDigits(digest[..j]) + AcceptedDigits([digest[j]]) + AcceptedDigits(digest[j + 1..])
    ensures AcceptedDigits(digest[..j + 1]) == AcceptedDigits(digest[..j]) + AcceptedDigits([digest[j]])
  {
    SliceAround(digest, j);
    AcceptedDigitsAppend(digest[..j], [digest[j]]);
    AcceptedDigitsAppend(digest[..j + 1], digest[j + 1..]);
  }

  /**
    Reading an accepted byte: when the first j bytes gave the first i digits,
    byte j is digit i, the first j + 1 bytes give the first i + 1 digits, and
    the unread bytes still hold the missing ones.
  */
  lemma ReadAccepted(digest: seq<byte>, j: nat, i: nat)
    requires j < |digest| && digest[j] < RejectFrom
    requires i <= |AcceptedDigits(digest)|
    requires AcceptedDigits(digest[..j]) == AcceptedDigits(digest)[..i]
    ensures i < |AcceptedDigits(digest)| && AcceptedDigits(digest)[i] == digest[j] % 10
    ensures AcceptedDigits(digest[..j + 1]) == AcceptedDigits(digest)[..i + 1]
    ensures |AcceptedDigits(digest)| - (i + 1) <= |digest| - (j + 1)
  {
    var d := AcceptedDigits(digest);
    var done, one, rest := AcceptedDigits(digest[..j]), AcceptedDigits([digest[j]]), AcceptedDigits(digest[j + 1..]);
    SplitAround(digest, j);
    AcceptedOne(digest[j]);
    assert |done| == i;
    assert d == done + [digest[j] % 10] + rest;
    assert d[..i + 1] == done + one;
  }

  /** Reading a rejected byte: the first j + 1 bytes still give the first i digits. */
  lemma ReadRejected(digest: seq<byte>, j: nat, i: nat)
    requires j < |digest| && digest[j] >= RejectFrom
    requires i <= |AcceptedDigits(digest)|
    requires AcceptedDigits(digest[..j]) == AcceptedDigits(digest)[..i]
    ensures AcceptedDigits(digest[..j + 1]) == AcceptedDigits(digest)[..i]
    ensures |AcceptedDigits(digest)| - i <= |digest| - (j + 1)
  {
    var d := AcceptedDigits(digest);
    var done, one, rest := AcceptedDigits(digest[..j]), AcceptedDigits([digest[j]]), AcceptedDigits(digest[j + 1..]);
    SplitAround(digest, j);
    AcceptedOne(digest[j]);
    assert |done| == i;
    assert d == done + rest;
    assert done + one == done;
  }

  /** The fingerprint text: d0 d1 d2 '-' d4 d5 d6 d3, the fourth digit moved to the end. */
  function Layout(d: seq<Digit>): (s: string)
    requires |d| >= 7
    ensures |s| == 8 && s[3] == '-'
    ensures forall k :: 0 <= k < 8 && k != 3 ==> IsDecimalDigit(s[k])
  {
    [DigitChar(d[0]), DigitChar(d[1]), DigitChar(d[2]), '-',
     DigitChar(d[4]), DigitChar(d[5]), DigitChar(d[6]), DigitChar(d[3])]
  }

  /** The fingerprint of a digest that holds at least seven accepted bytes. */
  function Fingerprint(digest: seq<byte>): (s: string)
    requires |AcceptedDigits(digest)| >= 7
    ensures |s| == 8 && s[3] == '-'
    ensures forall k :: 0 <= k < 8 && k != 3 ==> IsDecimalDigit(s[k])
  {
    Layout(AcceptedDigits(digest))
  }

  /**
    HumanHash (tcrypto/humanhash.go) on an already computed digest. The loop
    walks the digest with j and fills result[i] with the next accepted digit;
    the source panics when the 32 bytes hold fewer than seven accepted ones.
  */
  method HumanHash(hashed: seq<byte>) returns (s: string)
    requires |hashed| == 32
    requires |AcceptedDigits(hashed)| >= 7
    ensures s == Fingerprint(hashed)
  {
    ghost var digits := AcceptedDigits(hashed);
    var result := new char[8](_ => 0 as char);
    var i, j := 0, 0;
    assert hashed[..0] == [];
    while i < 7
      invariant 0 <= i <= 7 && 0 <= j <= |hashed|
      invariant AcceptedDigits(hashed[..j]) == digits[..i]
      invariant |digits| - i <= |hashed| - j
      invariant forall k :: 0 <= k < i ==> result[k] == DigitChar(digits[k])
      decreases |hashed| - j
    {
      var v := hashed[j];
      j := j + 1;
      if v >= RejectFrom {
        ReadRejected(hashed, j - 1, i);
        continue;
      }
      ReadAccepted(hashed, j - 1, i);
      result[i] := DigitChar(v % 10);
      i := i + 1;
    }
    result[7] := result[3];
    result[3] := '-';
    s := result[..];
    assert s == Layout(digits) by {
      forall k | 0 <= k < 8
        ensures s[k] == Layout(digits)[k]
      {
      }
    }
  }

  /** When no byte is rejected, the digits are simply the bytes mod 10. */
  lemma {:induction false} NothingRejected(s: seq<byte>)
    requires forall k :: 0 <= k < |s| ==> s[k] < RejectFrom
    ensures |AcceptedDigits(s)| == |s|
    ensures forall k :: 0 <= k < |s| ==> AcceptedDigits(s)[k] == s[k] % 10
  {
    if s != [] {
      NothingRejected(s[1..]);
    }
  }

  /** The common case: when the first seven digest bytes are all below 250, they alone give the fingerprint. */
  lemma FingerprintOfFirstSeven(digest: seq<byte>)
    requires |digest| >= 7
    requires forall k :: 0 <= k < 7 ==> digest[k] < RejectFrom
    ensures |AcceptedDigits(digest)| >= 7
    ensures Fingerprint(digest) ==
      [DigitChar(digest[0] % 10), DigitChar(digest[1] % 10), DigitChar(digest[2] % 10), '-',
       DigitChar(digest[4] % 10), DigitChar(digest[5] % 10), DigitChar(digest[6] % 10), DigitChar(digest[3] % 10)]
  {
    assert digest == digest[..7] + digest[7..];
    AcceptedDigitsAppend(digest[..7], digest[7..]);
    NothingRejected(digest[..7]);
  }

  /** Number of byte values b < n with b % 10 == d. */
  function Preimages(d: int, n: nat): nat {
    if n == 0 then 0 else Preimages(d, n - 1) + (if (n - 1) % 10 == d then 1 else 0)
  }

  lemma {:induction false} PreimagesClosedForm(d: int, n: nat)
    requires 0 <= d < 10
    ensures Preimages(d, n) == n / 10 + (if n % 10 > d then 1 else 0)
  {
    if n > 0 {
      PreimagesClosedForm(d, n - 1);
    }
  }

  /** No bias: among the accepted byte values 0..249 every digit has exactly 25 preimages. */
  lemma DigitsUnbiased(d: int)
    requires 0 <= d < 10
    ensures Preimages(d, RejectFrom) == 25
  {
    PreimagesClosedForm(d, RejectFrom);
  }

  /** Keeping byte 250 would make 0 more likely than 9: 26 preimages against 25. */
  lemma BiasWithoutRejection()
    ensures Preimages(0, 256) == 26 && Preimages(9, 256) == 25
  {
    PreimagesClosedForm(0, 256);
    PreimagesClosedForm(9, 256);
  }
}
