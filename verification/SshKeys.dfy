/** Reading OpenSSH public key blobs: length-prefixed strings and multiple precision integers of
    section 5 of RFC 4251, in the layout of section 6.6 of RFC 4253. */
module SshKeys {
  import opened Wrappers

  type byte = x: int | 0 <= x < 256

  type bytes = seq<byte>

  const UINT32_LIMIT: int := 0x1_0000_0000

  const SSH_RSA: string := "ssh-rsa"

  const VALID_SSH_KEY_TYPES: set<string> :=
    {"ssh-ed25519", "ecdsa-sha2-nistp256", "ecdsa-sha2-nistp384", "ecdsa-sha2-nistp521",
     "sk-ssh-ed25519@openssh.com", "sk-ecdsa-sha2-nistp256@openssh.com"}

  // ----- Python's bytes and integers -----

  /** `int.from_bytes(b, "big")` */
  function FromBytes(b: bytes): nat {
    if b == [] then 0 else FromBytes(b[..|b| - 1]) * 256 + b[|b| - 1]
  }

  /** `n.bit_length()` */
  function BitLength(n: nat): nat {
    if n == 0 then 0 else 1 + BitLength(n / 2)
  }

  /** `b[lo:hi]`, with bounds past the end cut off. */
  function Slice(b: bytes, lo: nat, hi: nat): bytes {
    var from := if lo > |b| then |b| else lo;
    var upto := if hi > |b| then |b| else hi;
    if from > upto then [] else b[from..upto]
  }

  predicate IsAscii(b: bytes) { forall i :: 0 <= i < |b| ==> b[i] < 128 }

  function AsText(b: bytes): (s: string)
    requires IsAscii(b)
    ensures |s| == |b| && forall i :: 0 <= i < |b| ==> s[i] == b[i] as char
  {
    seq(|b|, i requires 0 <= i < |b| => b[i] as char)
  }

  // ----- The reader -----

  /** Absent, raising on a byte that is no ASCII, or found with the offset after it. */
  datatype BlobType = NoType | NotAscii | Found(keyType: string, offset: nat)

  function GetBlobKeytype(b: bytes): BlobType {
    if |b| <= 4 then NoType
    else
      var size := FromBytes(Slice(b, 0, 4));
      if 4 + size > |b| then NoType
      else
        var text := Slice(b, 4, 4 + size);
        if IsAscii(text) then Found(AsText(text), 4 + size) else NotAscii
  }

  function RsaModulusFromBlob(b: bytes): Option<nat> {
    var eLen := FromBytes(Slice(b, 0, 4));
    var nStart := 4 + eLen + 4;
    var nLen := FromBytes(Slice(b, 4 + eLen, nStart));
    if nStart + nLen > |b| then None
    else
      var nBytes := Slice(b, nStart, nStart + nLen);
      if |nBytes| == 0 then None else Some(BitLength(FromBytes(nBytes)))
  }

  /** The checks after the key line is split: `blob` is absent if that or base64 decoding raised. */
  predicate ValidateSshPublicKey(keyType: string, blob: Option<bytes>) {
    match blob
    case None => false
    case Some(data) =>
      match GetBlobKeytype(data)
      case NoType => false
      case NotAscii => false
      case Found(found, offset) =>
        if found != keyType then false
        else if keyType == SSH_RSA then
          match RsaModulusFromBlob(Slice(data, offset, |data|))
          case None => false
          case Some(bits) => !(bits < 2048 || bits > 16384)
        else keyType in VALID_SSH_KEY_TYPES
  }

  // ----- The encoding -----

  function Uint32(n: nat): bytes
    requires n < UINT32_LIMIT
  {
    [n / 0x100_0000, n / 0x1_0000 % 256, n / 0x100 % 256, n % 256]
  }

  predicate Encodable(s: bytes) { |s| < UINT32_LIMIT }

  /** A `string`: its length, then its bytes. */
  function SshString(s: bytes): bytes
    requires Encodable(s)
  {
    Uint32(|s|) + s
  }

  /** The shortest big-endian form. */
  function Magnitude(n: nat): bytes {
    if n == 0 then [] else Magnitude(n / 256) + [n % 256]
  }

  /** An `mpint`: two's complement, without unnecessary leading bytes, zero being empty. */
  function Mpint(n: nat): bytes {
    var m := Magnitude(n);
    if m != [] && m[0] >= 128 then [0] + m else m
  }

  const RSA_NAME: bytes := [115, 115, 104, 45, 114, 115, 97]

  /** The layout of an RSA public key, with whatever may follow it. */
  function RsaBlob(e: bytes, n: bytes, rest: bytes): bytes
    requires Encodable(e) && Encodable(n)
  {
    SshString(RSA_NAME) + (SshString(e) + (SshString(n) + rest))
  }

  // ----- Arithmetic -----

  function Pow2(k: nat): nat { if k == 0 then 1 else 2 * Pow2(k - 1) }

  /** The bit length exceeds `k` exactly from 2 to the `k` on. */
  lemma {:induction false} BitLengthAbove(n: nat, k: nat)
    ensures BitLength(n) > k <==> n >= Pow2(k)
    decreases k
  {
    if k > 0 && n > 0 {
      BitLengthAbove(n / 2, k - 1);
    }
    if n == 0 {
      Pow2Positive(k);
    }
  }

  lemma {:induction false} Pow2Positive(k: nat)
    ensures Pow2(k) > 0
  {
    if k > 0 {
      Pow2Positive(k - 1);
    }
  }

  lemma {:induction false} FromMagnitude(n: nat)
    ensures FromBytes(Magnitude(n)) == n
  {
    if n > 0 {
      FromMagnitude(n / 256);
      assert Magnitude(n)[..|Magnitude(n)| - 1] == Magnitude(n / 256);
    }
  }

  lemma {:induction false} LeadingZero(b: bytes)
    ensures FromBytes([0] + b) == FromBytes(b)
  {
    if b == [] {
      var zero: bytes := [0];
      assert zero + b == zero && zero[..0] == [];
    } else {
      LeadingZero(b[..|b| - 1]);
      assert ([0] + b)[..|b|] == [0] + b[..|b| - 1];
    }
  }

  lemma {:induction false} MagnitudeIsShortest(n: nat)
    requires n > 0
    ensures Magnitude(n) != [] && Magnitude(n)[0] != 0
  {
    if n >= 256 {
      MagnitudeIsShortest(n / 256);
    } else {
      assert Magnitude(n / 256) == [];
    }
  }

  /** The encoding is the one the RFC prescribes: the sign bit is clear, and a leading zero byte
      occurs only where the next byte's high bit makes it necessary. */
  lemma MpintIsCanonical(n: nat)
    ensures n > 0 ==> Mpint(n) != [] && Mpint(n)[0] < 128
    ensures n > 0 && Mpint(n)[0] == 0 ==> |Mpint(n)| > 1 && Mpint(n)[1] >= 128
    ensures n == 0 ==> Mpint(n) == []
  {
    if n > 0 {
      MagnitudeIsShortest(n);
    }
  }

  lemma FromMpint(n: nat)
    ensures FromBytes(Mpint(n)) == n
    ensures Mpint(n) == [] <==> n == 0
  {
    FromMagnitude(n);
    LeadingZero(Magnitude(n));
  }

  lemma FromFourBytes(b: bytes)
    requires |b| == 4
    ensures FromBytes(b) == b[0] * 0x100_0000 + b[1] * 0x1_0000 + b[2] * 0x100 + b[3] < UINT32_LIMIT
  {
    assert b[..3][..2] == b[..2] && b[..2][..1] == b[..1] && b[..1][..0] == [];
    assert FromBytes(b[..1]) == b[0];
    assert FromBytes(b[..2]) == FromBytes(b[..1]) * 256 + b[1];
    assert FromBytes(b[..3]) == FromBytes(b[..2]) * 256 + b[2];
  }

  lemma Uint32RoundTrip(n: nat)
    requires n < UINT32_LIMIT
    ensures |Uint32(n)| == 4 && FromBytes(Uint32(n)) == n
  {
    FromFourBytes(Uint32(n));
    SumOfDigits(n);
  }

  lemma SumOfDigits(n: nat)
    ensures n == n / 0x100_0000 * 0x100_0000 + n / 0x1_0000 % 256 * 0x1_0000 + n / 0x100 % 256 * 0x100 + n % 256
  {
    var a := n / 0x100;
    var b := a / 0x100;
    assert b == n / 0x1_0000 && b / 0x100 == n / 0x100_0000;
  }

  lemma Uint32OfBytes(b: bytes)
    requires |b| == 4
    ensures FromBytes(b) < UINT32_LIMIT && Uint32(FromBytes(b)) == b
  {
    FromFourBytes(b);
    DigitsOfSum(b[0], b[1], b[2], b[3]);
  }

  lemma DigitsOfSum(a: byte, b: byte, c: byte, d: byte)
    ensures var n := a * 0x100_0000 + b * 0x1_0000 + c * 0x100 + d;
            n / 0x100_0000 == a && n / 0x1_0000 % 256 == b && n / 0x100 % 256 == c && n % 256 == d
  {
    var n := a * 0x100_0000 + b * 0x1_0000 + c * 0x100 + d;
    assert n / 0x100 == a * 0x1_0000 + b * 0x100 + c;
    assert n / 0x1_0000 == a * 0x100 + b;
  }

  // ----- Strings inside a blob -----

  /** The string a blob starts with ends inside it. */
  predicate StartsWithString(b: bytes) {
    |b| >= 4 && 4 + FromBytes(b[..4]) <= |b|
  }

  /** Reading a length and then that many bytes undoes writing a string, whatever follows. */
  lemma ReadString(s: bytes, rest: bytes)
    requires Encodable(s)
    ensures var b := SshString(s) + rest;
            StartsWithString(b) && FromBytes(b[..4]) == |s| && b[4..4 + |s|] == s && b[4 + |s|..] == rest
  {
    Uint32RoundTrip(|s|);
    assert (SshString(s) + rest)[..4] == Uint32(|s|);
  }

  /** And every blob that starts with a string is a written string and the rest. */
  lemma WriteString(b: bytes)
    requires StartsWithString(b)
    ensures var size := FromBytes(b[..4]);
            Encodable(b[4..4 + size]) && b == SshString(b[4..4 + size]) + b[4 + size..]
  {
    Uint32OfBytes(b[..4]);
    var size := FromBytes(b[..4]);
    assert b == b[..4] + b[4..4 + size] + b[4 + size..];
  }

  // ----- What the reader computes -----

  /** The modulus is found exactly when the blob holds two strings, of which the second is not
      empty; what it spells is measured. */
  lemma ModulusOfBlob(b: bytes)
    ensures RsaModulusFromBlob(b) ==
            if StartsWithString(b) && StartsWithString(b[4 + FromBytes(b[..4])..]) then
              var second := b[4 + FromBytes(b[..4])..];
              var n := second[4..4 + FromBytes(second[..4])];
              if n == [] then None else Some(BitLength(FromBytes(n)))
            else None
  {
    if |b| >= 4 {
      var eLen := FromBytes(b[..4]);
      assert Slice(b, 0, 4) == b[..4];
      if 4 + eLen + 4 <= |b| {
        var second := b[4 + eLen..];
        var nLen := FromBytes(second[..4]);
        assert Slice(b, 4 + eLen, 8 + eLen) == second[..4];
        if 8 + eLen + nLen <= |b| {
          assert Slice(b, 8 + eLen, 8 + eLen + nLen) == second[4..4 + nLen];
        }
      }
    }
  }

  /** Writing exponent and modulus and reading them back gives the modulus's bit length. */
  lemma ModulusRoundTrip(e: bytes, n: bytes, rest: bytes)
    requires Encodable(e) && Encodable(n)
    ensures RsaModulusFromBlob(SshString(e) + (SshString(n) + rest)) ==
            if n == [] then None else Some(BitLength(FromBytes(n)))
  {
    var tail := SshString(n) + rest;
    var b := SshString(e) + tail;
    ReadString(e, tail);
    assert b[4 + FromBytes(b[..4])..] == tail;
    ReadString(n, rest);
    assert tail[4..4 + FromBytes(tail[..4])] == n;
    ModulusOfBlob(b);
  }

  lemma RsaNameText()
    ensures IsAscii(RSA_NAME) && AsText(RSA_NAME) == SSH_RSA
  {
    assert AsText(RSA_NAME) == SSH_RSA;
  }

  lemma TypeOfRsaBlob(tail: bytes)
    ensures var b := SshString(RSA_NAME) + tail;
            GetBlobKeytype(b) == Found(SSH_RSA, 11) && Slice(b, 11, |b|) == tail
  {
    var b := SshString(RSA_NAME) + tail;
    ReadString(RSA_NAME, tail);
    assert Slice(b, 0, 4) == b[..4];
    assert Slice(b, 4, 11) == b[4..11];
    assert Slice(b, 11, |b|) == b[11..];
    RsaNameText();
  }

  predicate InRange(n: nat) { Pow2(2047) <= n < Pow2(16384) }

  /** A key whose blob is laid out as the RFC has it is accepted exactly when its modulus has
      2048 to 16384 bits. */
  lemma RsaLayoutAccepted(e: bytes, n: bytes, rest: bytes)
    requires Encodable(e) && Encodable(n)
    ensures ValidateSshPublicKey("ssh-rsa", Some(RsaBlob(e, n, rest))) <==> InRange(FromBytes(n))
  {
    TypeOfRsaBlob(SshString(e) + (SshString(n) + rest));
    ModulusRoundTrip(e, n, rest);
    var value := FromBytes(n);
    BitLengthAbove(value, 2047);
    BitLengthAbove(value, 16384);
    Pow2Positive(2047);
  }

  /** The same for integers: for every exponent and modulus short enough to encode, the key is
      accepted exactly when 2^2047 <= n < 2^16384. */
  lemma RsaKeyAccepted(e: nat, n: nat)
    requires Encodable(Mpint(e)) && Encodable(Mpint(n))
    ensures ValidateSshPublicKey("ssh-rsa", Some(RsaBlob(Mpint(e), Mpint(n), []))) <==> InRange(n)
  {
    RsaLayoutAccepted(Mpint(e), Mpint(n), []);
    FromMpint(n);
  }

  /** A blob is accepted as a key of another type exactly when it starts with a string that is the
      line's type in ASCII, and that type is one of six; whatever else is in it. */
  lemma OtherTypesAccepted(keyType: string, b: bytes)
    requires keyType != "ssh-rsa"
    ensures ValidateSshPublicKey(keyType, Some(b)) <==>
              && StartsWithString(b)
              && var name := b[4..4 + FromBytes(b[..4])];
                 && (forall i :: 0 <= i < |name| ==> name[i] < 128) && AsText(name) == keyType
                 && keyType in {"ssh-ed25519", "ecdsa-sha2-nistp256", "ecdsa-sha2-nistp384", "ecdsa-sha2-nistp521",
                                "sk-ssh-ed25519@openssh.com", "sk-ecdsa-sha2-nistp256@openssh.com"}
  {
    if |b| > 4 {
      assert Slice(b, 0, 4) == b[..4];
      if StartsWithString(b) {
        assert Slice(b, 4, 4 + FromBytes(b[..4])) == b[4..4 + FromBytes(b[..4])];
      }
    } else if StartsWithString(b) {
      assert |b[4..4 + FromBytes(b[..4])]| == 0;
    }
  }

  /** Nothing else is accepted as an RSA key: every accepted blob has the RFC's layout, possibly
      with trailing bytes, around a modulus in range. */
  lemma OnlyRsaLayoutAccepted(b: bytes) returns (e: bytes, n: bytes, rest: bytes)
    requires ValidateSshPublicKey("ssh-rsa", Some(b))
    ensures Encodable(e) && Encodable(n) && b == RsaBlob(e, n, rest)
    ensures InRange(FromBytes(n))
  {
    assert Slice(b, 0, 4) == b[..4];
    var size := FromBytes(b[..4]);
    assert StartsWithString(b);
    var name, tail := b[4..4 + size], b[4 + size..];
    assert Slice(b, 4, 4 + size) == name && Slice(b, 4 + size, |b|) == tail;
    NameIsRsa(name);
    WriteString(b);
    ModulusOfBlob(tail);
    WriteString(tail);
    var second := tail[4 + FromBytes(tail[..4])..];
    WriteString(second);
    e, n := tail[4..4 + FromBytes(tail[..4])], second[4..4 + FromBytes(second[..4])];
    rest := second[4 + FromBytes(second[..4])..];
    RsaLayoutAccepted(e, n, rest);
  }

  lemma NameIsRsa(name: bytes)
    requires IsAscii(name) && AsText(name) == SSH_RSA
    ensures name == RSA_NAME
  {
    RsaNameText();
    forall i | 0 <= i < |name| ensures name[i] == RSA_NAME[i] {
      assert name[i] as char == RSA_NAME[i] as char;
    }
  }
}
