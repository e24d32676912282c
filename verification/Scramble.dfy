/** The CHAP-SHA1 answer to a server greeting: SHA1(password) XOR SHA1(salt, SHA1(SHA1(password))). */
module Scramble {
  import opened Wrappers
  import opened Msgpack
  import opened Sha1
  import Base64
  import Sha1Code

  const DIGEST: nat := 20
  const RAW_SALT: nat := 64

  function XorOctet(a: octet, b: octet): octet { a ^ b }

  function XorAll(a: octets, b: octets): (r: octets)
    requires |a| == |b|
    ensures |r| == |a| && forall i :: 0 <= i < |a| ==> r[i] == XorOctet(a[i], b[i])
  {
    if a == [] then [] else [XorOctet(a[0], b[0])] + XorAll(a[1..], b[1..])
  }

  function Octets(s: bytes): (r: octets)
    ensures |r| == |s| && forall i :: 0 <= i < |s| ==> r[i] == Narrow(s[i])
  {
    if s == [] then [] else [Narrow(s[0])] + Octets(s[1..])
  }

  /** What the client sends for a password and a 20-byte salt. */
  function Answer(password: octets, salt: octets): (r: octets)
    ensures |r| == DIGEST
  {
    var h1 := Sha1.Sha1(password);
    var h2 := Sha1.Sha1(h1);
    XorAll(h1, Sha1.Sha1(salt + h2))
  }

  /** What a server that stores only SHA1(SHA1(password)) checks. */
  predicate Accepts(stored: octets, salt: octets, answer: octets)
    requires |answer| == DIGEST
  {
    Sha1.Sha1(XorAll(answer, Sha1.Sha1(salt + stored))) == stored
  }

  lemma XorBack(a: octet, b: octet)
    ensures XorOctet(XorOctet(a, b), b) == a
  {
  }

  lemma XorAllBack(a: octets, b: octets)
    requires |a| == |b|
    ensures XorAll(XorAll(a, b), b) == a
  {
    hide XorOctet, XorAll;
    var r := XorAll(XorAll(a, b), b);
    forall i | 0 <= i < |a|
      ensures r[i] == a[i]
    {
      XorBack(a[i], b[i]);
    }
  }

  /** For every password and salt the answer gives SHA1(password) back, and so the stored hash. */
  lemma {:induction false} AnswerAccepted(password: octets, salt: octets)
    ensures XorAll(Answer(password, salt), Sha1.Sha1(salt + Sha1.Sha1(Sha1.Sha1(password)))) == Sha1.Sha1(password)
    ensures Accepts(Sha1.Sha1(Sha1.Sha1(password)), salt, Answer(password, salt))
  {
    hide XorAll, Pad, Blocks, Digest;
    XorAllBack(Sha1.Sha1(password), Sha1.Sha1(salt + Sha1.Sha1(Sha1.Sha1(password))));
  }

  /** The salt in the greeting, decoded into 64 bytes. */
  function RawSalt(text: bytes): bytes {
    Base64.Take(Base64.Decode(text, 0, 0), RAW_SALT)
  }

  /** Through the greeting: for a salt of at least 20 bytes, sent in base64 with whatever other characters, the
      answer to the decoded salt is accepted for the salt the server drew. */
  lemma GreetingAccepted(password: octets, salt: bytes, text: bytes)
    requires |salt| >= DIGEST && Base64.Letters(text) == Base64.Letters(Base64.Encode(salt))
    ensures var raw := RawSalt(text);
            && |raw| >= DIGEST
            && Accepts(Sha1.Sha1(Sha1.Sha1(password)), Octets(salt[..DIGEST]), Answer(password, Octets(raw[..DIGEST])))
  {
    hide Answer, Accepts, Base64.Decode, Octets;
    Base64.DecodesEncoded(salt, text);
    assert RawSalt(text)[..DIGEST] == salt[..DIGEST];
    AnswerAccepted(password, Octets(salt[..DIGEST]));
  }

  /** A greeting whose salt decodes to fewer than 20 bytes is refused. */
  method Prepare(password: octets, saltText: bytes) returns (answer: Option<octets>)
    requires |password| < Sha1.T32
    ensures var salt := RawSalt(saltText);
            answer == if |salt| < DIGEST then None else Some(Answer(password, Octets(salt[..DIGEST])))
  {
    hide XorAll, XorOctet, Pad, Blocks, Digest, Base64.Decode, Base64.Take, Octets;
    var rawSalt := new byte[RAW_SALT];
    var len := Base64.DecodeInto(saltText, rawSalt);
    if len < DIGEST {
      return None;
    }
    assert rawSalt[..DIGEST] == rawSalt[..len][..DIGEST];
    var h1 := Sha1Code.HashOnce(password);
    var h2 := Sha1Code.HashOnce(h1);
    var h3 := Sha1Code.HashOnce(Octets(rawSalt[..DIGEST]) + h2);
    var scramble: octets := [];
    for j := 0 to DIGEST
      invariant |scramble| == j && forall i :: 0 <= i < j ==> scramble[i] == XorOctet(h1[i], h3[i])
    {
      scramble := scramble + [XorOctet(h1[j], h3[j])];
    }
    assert scramble == XorAll(h1, h3);
    return Some(scramble);
  }
}
