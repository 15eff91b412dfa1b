/**
  Identities and signed messages of package tcrypto (tcrypto/identity.go,
  tcrypto/errors.go). Ed25519 (RFC 8032) and SHA-256 (FIPS 180-4) are not
  modelled: their functions are parameters, and the one fact assumed of them
  is stated as a predicate that the lemmas needing it require.
*/
module Identity {
  import opened Basics
  import Encoding
  import Humanhash

  /**
    The Ed25519 operations the package calls: sign(privateKey, message) and
    verify(publicKey, message, signature).
  */
  datatype Ed25519 = Ed25519(
    sign: (seq<byte>, seq<byte>) -> seq<byte>,
    verify: (seq<byte>, seq<byte>, seq<byte>) -> bool)

  /** A key pair; the package never changes one after it is made. */
  datatype Identity = Identity(privateKey: seq<byte>, publicKey: seq<byte>)

  /** What Ed25519 guarantees of a key pair: its own signatures verify under its public key. */
  ghost predicate GenuineSignaturesVerify(ed: Ed25519, id: Identity) {
    forall message: seq<byte> :: ed.verify(id.publicKey, message, ed.sign(id.privateKey, message))
  }

  /** The one error VerifySignedMessage returns (tcrypto/errors.go). */
  datatype SignatureInvalidError = SignatureInvalid(msg: string) {
    function Error(): (text: string)
      ensures |text| == |"signature invalid: "| + |msg|
      ensures text[..|"signature invalid: "|] == "signature invalid: "
      ensures text[|"signature invalid: "|..] == msg
    {
      "signature invalid: " + msg
    }
  }

  const Separator: char := '/'

  const MissingSeparator: string := "invalid signed message format, missing '/' separator"
  const BadMessage: string := "failed to decode message: "
  const BadSignature: string := "failed to decode signature: "
  const VerificationFailed: string := "signature verification failed"

  /** Index of the first c in s, or |s| when there is none. */
  function IndexOf(s: string, c: char): (k: nat)
    ensures k <= |s|
    ensures forall i :: 0 <= i < k ==> s[i] != c
    ensures k < |s| ==> s[k] == c
  {
    if s == [] then 0
    else if s[0] == c then 0
    else 1 + IndexOf(s[1..], c)
  }

  /**
    Go's strings.SplitN(s, sep, 2) for a one-character separator: [s] when
    sep does not occur, else the text before its first occurrence and the
    text after it.
  */
  function SplitFirst(s: string, sep: char): (parts: seq<string>)
    ensures |parts| == 1 <==> sep !in s
    ensures |parts| == 1 ==> parts[0] == s
    ensures |parts| != 1 ==> |parts| == 2 && sep !in parts[0] && s == parts[0] + [sep] + parts[1]
  {
    var k := IndexOf(s, sep);
    if k == |s| then [s] else [s[..k], s[k + 1..]]
  }

  /** Joining two texts at a separator the first one lacks, then splitting, gives the two back. */
  lemma SplitOfJoin(a: string, b: string, sep: char)
    requires sep !in a
    ensures SplitFirst(a + [sep] + b, sep) == [a, b]
  {
    var s := a + [sep] + b;
    assert s[|a|] == sep;
    var parts := SplitFirst(s, sep);
    assert IndexOf(s, sep) == |a|;
    assert parts[0] == a;
    assert s[|a| + 1..] == b;
  }

  /** The encoder's alphabet has no '/', so encoded text never contains the separator. */
  lemma EncodedHasNoSeparator(b: seq<byte>)
    ensures Separator !in Encoding.EncodeBytes(b)
  {
    var s := Encoding.EncodeBytes(b);
    assert !Encoding.IsAlphabet(Separator);
  }

  /** SignMessage: the encoded message, '/', then the encoded signature of the message. */
  function SignMessage(ed: Ed25519, id: Identity, message: seq<byte>): (signed: string)
    ensures |signed| == Encoding.EncodedLen(|message|) + 1 + Encoding.EncodedLen(|ed.sign(id.privateKey, message)|)
  {
    Encoding.EncodeBytes(message) + [Separator] + Encoding.EncodeBytes(ed.sign(id.privateKey, message))
  }

  /** Splitting a signed message at its first '/' gives back the two encoded parts. */
  lemma SignedMessageSplits(ed: Ed25519, id: Identity, message: seq<byte>)
    ensures SplitFirst(SignMessage(ed, id, message), Separator) ==
      [Encoding.EncodeBytes(message), Encoding.EncodeBytes(ed.sign(id.privateKey, message))]
  {
    EncodedHasNoSeparator(message);
    SplitOfJoin(Encoding.EncodeBytes(message), Encoding.EncodeBytes(ed.sign(id.privateKey, message)), Separator);
  }

  /**
    VerifySignedMessage: split at the first '/', decode the message and the
    signature, and return the message only when the signature verifies under
    publicKey; every failure is a SignatureInvalidError naming the step.
  */
  function VerifySignedMessage(ed: Ed25519, signedMessage: string, publicKey: seq<byte>): (r: Result<seq<byte>, SignatureInvalidError>)
    ensures Separator !in signedMessage ==> r == Failure(SignatureInvalid(MissingSeparator))
    ensures r.Success? ==>
      exists encodedMessage: string, encodedSignature: string ::
        signedMessage == encodedMessage + [Separator] + encodedSignature &&
        Encoding.DecodeBytes(encodedMessage) == Success(r.value) &&
        Encoding.DecodeBytes(encodedSignature).Success? &&
        ed.verify(publicKey, r.value, Encoding.DecodeBytes(encodedSignature).value)
  {
    var parts := SplitFirst(signedMessage, Separator);
    if |parts| != 2 then Failure(SignatureInvalid(MissingSeparator))
    else match Encoding.DecodeBytes(parts[0])
      case Failure(e) => Failure(SignatureInvalid(BadMessage + e.Text()))
      case Success(message) =>
        match Encoding.DecodeBytes(parts[1])
        case Failure(e) => Failure(SignatureInvalid(BadSignature + e.Text()))
        case Success(signature) =>
          if !ed.verify(publicKey, message, signature) then Failure(SignatureInvalid(VerificationFailed))
          else Success(message)
  }

  /** A message signed by a key pair verifies under its public key and comes back unchanged. */
  lemma SignThenVerify(ed: Ed25519, id: Identity, message: seq<byte>)
    requires GenuineSignaturesVerify(ed, id)
    ensures VerifySignedMessage(ed, SignMessage(ed, id, message), id.publicKey) == Success(message)
  {
    var signature := ed.sign(id.privateKey, message);
    SignedMessageSplits(ed, id, message);
    Encoding.DecodeEncode(message);
    Encoding.DecodeEncode(signature);
    assert ed.verify(id.publicKey, message, signature);
  }

  /**
    Under a 32-byte public key that does not accept the signature the message
    is refused (Go's ed25519.Verify panics on a key of any other length).
  */
  lemma WrongKeyRefused(ed: Ed25519, id: Identity, message: seq<byte>, publicKey: seq<byte>)
    requires |publicKey| == 32
    requires !ed.verify(publicKey, message, ed.sign(id.privateKey, message))
    ensures VerifySignedMessage(ed, SignMessage(ed, id, message), publicKey) == Failure(SignatureInvalid(VerificationFailed))
  {
    SignedMessageSplits(ed, id, message);
    Encoding.DecodeEncode(message);
    Encoding.DecodeEncode(ed.sign(id.privateKey, message));
  }

  /**
    Text with two or more '/' is refused while decoding: the part after the
    first '/' still holds a '/', which no encoding contains.
  */
  lemma TwoSeparatorsRefused(ed: Ed25519, signedMessage: string, publicKey: seq<byte>, i: nat, j: nat)
    requires i < j < |signedMessage| && signedMessage[i] == Separator && signedMessage[j] == Separator
    ensures var r := VerifySignedMessage(ed, signedMessage, publicKey);
      r.Failure? && (exists e: Encoding.DecodeError :: r.error.msg == BadMessage + e.Text() || r.error.msg == BadSignature + e.Text())
  {
    var parts := SplitFirst(signedMessage, Separator);
    var k := |parts[0]|;
    assert signedMessage[k] == Separator;
    assert k <= i;
    assert parts[1][j - k - 1] == signedMessage[j];
    assert !Encoding.DecodeBytes(parts[1]).Success? by {
      assert !Encoding.IsAlphabet(parts[1][j - k - 1]);
    }
    var r := VerifySignedMessage(ed, signedMessage, publicKey);
    match Encoding.DecodeBytes(parts[0])
    case Failure(e) =>
      assert r.error.msg == BadMessage + e.Text();
    case Success(_) =>
      var e := Encoding.DecodeBytes(parts[1]).error;
      assert r.error.msg == BadSignature + e.Text();
  }

  /** PublicKeyToString: the encoded public key. */
  function PublicKeyToString(id: Identity): (s: string)
    ensures |s| == Encoding.EncodedLen(|id.publicKey|)
    ensures Encoding.Canonical(s)
  {
    Encoding.EncodeIsCanonical(id.publicKey);
    Encoding.EncodeBytes(id.publicKey)
  }

  /** IdentityPublicKeyString: the public key decoded from its text, or the decoder's error. */
  function IdentityPublicKeyString(s: string): (r: Result<seq<byte>, Encoding.DecodeError>)
    ensures r.Success? <==> (forall i :: 0 <= i < |s| ==> Encoding.IsAlphabet(s[i])) && |s| % 4 != 1
  {
    Encoding.DecodeBytes(s)
  }

  /** A public key survives its text form. */
  lemma PublicKeyRoundTrip(id: Identity)
    ensures IdentityPublicKeyString(PublicKeyToString(id)) == Success(id.publicKey)
  {
    Encoding.DecodeEncode(id.publicKey);
  }

  /**
    A 32-byte key's text with its first two characters replaced by "AA"
    still reads as a key, and a different one unless they were "AA" already.
  */
  lemma TamperedKeyDiffers(id: Identity)
    requires |id.publicKey| == 32
    ensures var t := PublicKeyToString(id); IdentityPublicKeyString("AA" + t[2..]).Success?
    ensures var t := PublicKeyToString(id);
      t[..2] != "AA" ==> IdentityPublicKeyString("AA" + t[2..]).value != id.publicKey
  {
    var t := PublicKeyToString(id);
    var u := "AA" + t[2..];
    Encoding.OverwrittenPrefixStillDecodes(id.publicKey);
    if t[..2] != "AA" {
      assert forall i :: 2 <= i < |u| ==> u[i] == t[i];
      assert u[..2] == "AA";
      assert u != t;
      assert Encoding.Canonical(u) by {
        assert u[|u| - 1] == t[|t| - 1];
      }
      PublicKeyRoundTrip(id);
      Encoding.DecodeInjectiveOnCanonical(u, t);
    }
  }

  /**
    HumanID: the HumanHash fingerprint of the public key's SHA-256 digest,
    given here as sha256. None stands for the source's panic when the 32
    digest bytes hold fewer than seven accepted ones.
  */
  function HumanID(id: Identity, sha256: seq<byte> -> seq<byte>): (r: Option<string>)
    requires |sha256(id.publicKey)| == 32
    ensures r.None? <==> |Humanhash.AcceptedDigits(sha256(id.publicKey))| < 7
    ensures r.Some? ==> |r.value| == 8 && r.value[3] == '-'
    ensures r.Some? ==> forall k :: 0 <= k < 8 && k != 3 ==> IsDecimalDigit(r.value[k])
  {
    var digest := sha256(id.publicKey);
    if |Humanhash.AcceptedDigits(digest)| >= 7 then Some(Humanhash.Fingerprint(digest)) else None
  }
}
