/**
 * Checksummed key strings (packages/coin-eos/src/numeric.ts). RIPEMD-160 is a parameter:
 * any function to 20-byte digests will do.
 */
module EosKeys {
  import opened Wrappers
  import opened EosBignum
  import opened EosBase58

  type Digest = d: seq<byte> | |d| == 20 witness seq(20, _ => 0)
  type Hash = seq<byte> -> Digest

  datatype KeyType = K1 | R1 | WA
  datatype Key = Key(kind: KeyType, data: seq<byte>)

  const PUBLIC_KEY_SIZE: nat := 33
  const PRIVATE_KEY_SIZE: nat := 32
  const SIGNATURE_SIZE: nat := 65

  /** The two-letter suffix hashed after the data, and its character codes. */
  function Suffix(kind: KeyType): string {
    match kind
    case K1 => "K1"
    case R1 => "R1"
    case WA => "WA"
  }

  function Codes(s: string): (b: seq<byte>)
    ensures |b| == |s|
  {
    seq(|s|, i requires 0 <= i < |s| => (s[i] as int) % 256)
  }

  /** Data followed by the first four bytes of its checksum. */
  function Whole(hash: Hash, data: seq<byte>, suffix: string): seq<byte> {
    data + hash(data + Codes(suffix))[..4]
  }

  /** `keyToString`, without its prefix. */
  function KeyBody(hash: Hash, data: seq<byte>, suffix: string): string {
    Encode58(Whole(hash, data, suffix))
  }

  /** `stringToKey`, also the shared part of the legacy form. Size zero reads any length. */
  function ReadKey(hash: Hash, s: string, size: nat, suffix: string): Result<seq<byte>, Base58Error> {
    var whole := if size == 0 then DecodeVar(s) else DecodeFixed(size + 4, s);
    if whole.Failure? then Failure(whole.error)
    else if |whole.value| < 4 then Failure(TooShort)
    else
      var n := |whole.value| - 4;
      if hash(whole.value[..n] + Codes(suffix))[..4] != whole.value[n..] then Failure(BadChecksum)
      else Success(whole.value[..n])
  }

  /** Fixed data sizes; WebAuthn keys carry their own length. */
  function SizeOf(kind: KeyType, size: nat): nat {
    if kind == WA then 0 else size
  }

  function PublicKeyToString(hash: Hash, key: Key): Result<string, Base58Error> {
    if key.kind != WA && |key.data| != PUBLIC_KEY_SIZE then Failure(UnknownFormat)
    else Success("PUB_" + Suffix(key.kind) + "_" + KeyBody(hash, key.data, Suffix(key.kind)))
  }

  function PublicKeyToLegacyString(hash: Hash, key: Key): Result<string, Base58Error> {
    if key.kind == K1 && |key.data| == PUBLIC_KEY_SIZE then Success("EOS" + KeyBody(hash, key.data, ""))
    else Failure(UnknownFormat)
  }

  function SignatureToString(hash: Hash, key: Key): string {
    "SIG_" + Suffix(key.kind) + "_" + KeyBody(hash, key.data, Suffix(key.kind))
  }

  /** The string after a prefix, if it has that prefix. */
  function After(s: string, prefix: string): Option<string> {
    if prefix <= s then Some(s[|prefix|..]) else None
  }

  function ReadTagged(hash: Hash, s: string, prefix: string, size: nat, kind: KeyType): Option<Result<Key, Base58Error>> {
    match After(s, prefix + Suffix(kind) + "_")
    case None => None
    case Some(body) =>
      var data := ReadKey(hash, body, SizeOf(kind, size), Suffix(kind));
      Some(if data.Failure? then Failure(data.error) else Success(Key(kind, data.value)))
  }

  /** The first of the three tagged forms that applies. */
  function ReadAnyTagged(hash: Hash, s: string, prefix: string, size: nat): Result<Key, Base58Error> {
    var k1 := ReadTagged(hash, s, prefix, size, K1);
    var r1 := ReadTagged(hash, s, prefix, size, R1);
    var wa := ReadTagged(hash, s, prefix, size, WA);
    if k1.Some? then k1.value else if r1.Some? then r1.value else if wa.Some? then wa.value else Failure(UnknownFormat)
  }

  function StringToPublicKey(hash: Hash, s: string): Result<Key, Base58Error> {
    match After(s, "EOS")
    case Some(body) =>
      var data := ReadKey(hash, body, PUBLIC_KEY_SIZE, "");
      if data.Failure? then Failure(data.error) else Success(Key(K1, data.value))
    case None => ReadAnyTagged(hash, s, "PUB_", PUBLIC_KEY_SIZE)
  }

  function StringToSignature(hash: Hash, s: string): Result<Key, Base58Error> {
    ReadAnyTagged(hash, s, "SIG_", SIGNATURE_SIZE)
  }

  // ---- the printed forms

  /** The data and the first four bytes of the hash of data and `suffix`, in base 58. */
  function Printed(hash: Hash, data: seq<byte>, suffix: seq<byte>): string {
    Encode58(data + hash(data + suffix)[..4])
  }

  /** Every kind prints under its own prefix and hashes its own two letters; the legacy form hashes none. */
  lemma {:induction false} PrintedForms(hash: Hash, data: seq<byte>)
    ensures |data| == 33 ==> PublicKeyToString(hash, Key(K1, data)) == Success("PUB_K1_" + Printed(hash, data, [75, 49]))
    ensures |data| == 33 ==> PublicKeyToString(hash, Key(R1, data)) == Success("PUB_R1_" + Printed(hash, data, [82, 49]))
    ensures PublicKeyToString(hash, Key(WA, data)) == Success("PUB_WA_" + Printed(hash, data, [87, 65]))
    ensures |data| == 33 ==> PublicKeyToLegacyString(hash, Key(K1, data)) == Success("EOS" + Printed(hash, data, []))
    ensures SignatureToString(hash, Key(K1, data)) == "SIG_K1_" + Printed(hash, data, [75, 49])
    ensures SignatureToString(hash, Key(R1, data)) == "SIG_R1_" + Printed(hash, data, [82, 49])
    ensures SignatureToString(hash, Key(WA, data)) == "SIG_WA_" + Printed(hash, data, [87, 65])
  {
    hide Encode58;
    assert Codes("K1") == [75, 49] && Codes("R1") == [82, 49] && Codes("WA") == [87, 65] && Codes("") == [];
    assert forall b: string :: "PUB_" + "K1" + "_" + b == "PUB_K1_" + b;
    assert forall b: string :: "PUB_" + "R1" + "_" + b == "PUB_R1_" + b;
    assert forall b: string :: "PUB_" + "WA" + "_" + b == "PUB_WA_" + b;
    assert forall b: string :: "SIG_" + "K1" + "_" + b == "SIG_K1_" + b;
    assert forall b: string :: "SIG_" + "R1" + "_" + b == "SIG_R1_" + b;
    assert forall b: string :: "SIG_" + "WA" + "_" + b == "SIG_WA_" + b;
  }

  // ---- round trips

  lemma {:induction false} ReadKeyBody(hash: Hash, data: seq<byte>, size: nat, suffix: string)
    requires size == 0 || |data| == size
    ensures ReadKey(hash, KeyBody(hash, data, suffix), size, suffix) == Success(data)
  {
    hide Encode58, DecodeVar, DecodeFixed, Codes;
    var whole := Whole(hash, data, suffix);
    DecodeVarEncode(whole);
    DecodeFixedEncode(whole);
    assert whole[..|whole| - 4] == data;
    assert whole[|whole| - 4..] == hash(data + Codes(suffix))[..4];
  }

  lemma {:induction false} ReadTaggedBody(hash: Hash, prefix: string, size: nat, key: Key)
    requires |prefix| == 4 && (key.kind == WA || |key.data| == size)
    ensures var s := prefix + Suffix(key.kind) + "_" + KeyBody(hash, key.data, Suffix(key.kind));
            ReadAnyTagged(hash, s, prefix, size) == Success(key)
  {
    hide ReadKey, KeyBody;
    var kind := key.kind;
    var body := KeyBody(hash, key.data, Suffix(kind));
    var head := prefix + Suffix(kind) + "_";
    var s := head + body;
    assert s[|head|..] == body;
    ReadKeyBody(hash, key.data, SizeOf(kind, size), Suffix(kind));
    assert ReadTagged(hash, s, prefix, size, kind) == Some(Success(key));
    assert s[4..6] == Suffix(kind);
    forall other: KeyType | other != kind
      ensures ReadTagged(hash, s, prefix, size, other) == None
    {
      assert (prefix + Suffix(other) + "_")[4] != s[4];
    }
  }

  /** Whatever the hash, reading a printed public key gives the key back: both forms. */
  lemma {:induction false} PublicKeyRoundTrip(hash: Hash, key: Key)
    ensures PublicKeyToString(hash, key).Success? ==>
            StringToPublicKey(hash, PublicKeyToString(hash, key).value) == Success(key)
    ensures PublicKeyToLegacyString(hash, key).Success? ==>
            StringToPublicKey(hash, PublicKeyToLegacyString(hash, key).value) == Success(key)
    ensures PublicKeyToString(hash, key).Success? <==> key.kind == WA || |key.data| == PUBLIC_KEY_SIZE
  {
    if PublicKeyToString(hash, key).Success? {
      var s := PublicKeyToString(hash, key).value;
      ReadTaggedBody(hash, "PUB_", PUBLIC_KEY_SIZE, key);
      assert s[0] == 'P';
      assert After(s, "EOS") == None;
    }
    if PublicKeyToLegacyString(hash, key).Success? {
      var body := KeyBody(hash, key.data, "");
      assert ("EOS" + body)[3..] == body;
      ReadKeyBody(hash, key.data, PUBLIC_KEY_SIZE, "");
    }
  }

  /** The printers accept signatures of any size; the reader restores those of the proper one. */
  lemma {:induction false} SignatureRoundTrip(hash: Hash, key: Key)
    requires key.kind == WA || |key.data| == SIGNATURE_SIZE
    ensures StringToSignature(hash, SignatureToString(hash, key)) == Success(key)
  {
    ReadTaggedBody(hash, "SIG_", SIGNATURE_SIZE, key);
  }

  /** A key that reads back carries the checksum of its own data. */
  lemma {:induction false} ReadKeySound(hash: Hash, s: string, size: nat, suffix: string)
    requires IsBase58(s) && ReadKey(hash, s, size, suffix).Success?
    ensures var data := ReadKey(hash, s, size, suffix).value;
            && (size > 0 ==> |data| == size)
            && Acc58(0, s) == BigEndian(Whole(hash, data, suffix))
            && (size == 0 ==> KeyBody(hash, data, suffix) == s)
  {
    var whole := if size == 0 then DecodeVar(s) else DecodeFixed(size + 4, s);
    var n := |whole.value| - 4;
    assert whole.value == whole.value[..n] + whole.value[n..];
    if size == 0 {
      EncodeDecodeVar(s);
      EncodedValue(whole.value);
    } else {
      DecodeFixedExact(size + 4, s);
    }
  }
}
