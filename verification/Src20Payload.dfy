/**
 * The payload of an SRC-20 transaction (packages/coin-bitcoin/src/src20.ts): length, prefix and body padded to
 * a multiple of 62 bytes, encrypted, and cut into the keys of multisig outputs.
 */
module Src20Payload {
  import opened Wrappers
  import opened Src20

  /** The body without the zero bytes at its end. */
  function Stripped(body: seq<byte>): (r: seq<byte>)
    ensures r <= body
    ensures r != [] ==> r[|r| - 1] != 0
    ensures forall i :: |r| <= i < |body| ==> body[i] == 0
    decreases |body|
  {
    if body != [] && body[|body| - 1] == 0 then Stripped(body[..|body| - 1]) else body
  }

  /** The next multiple of 62. */
  function Rounded(l: nat): (t: nat)
    ensures t % 62 == 0 && l <= t < l + 62
  {
    if l % 62 == 0 then l else l + 62 - l % 62
  }

  /** What is encrypted: a two-byte length, prefix, body, zeros. */
  function Message(prefix: seq<byte>, body: seq<byte>): (m: seq<byte>)
    ensures |m| == Rounded(2 + |prefix| + |body|)
  {
    var n := |prefix| + |body|;
    [n / 256 % 256, n % 256] + prefix + body + Repeat<byte>(0, Rounded(2 + n) - (2 + n))
  }

  /** The packing at the start of `buildCommitTx`. */
  method Pack(prefix: seq<byte>, body0: seq<byte>) returns (data: seq<byte>)
    ensures data == Message(prefix, Stripped(body0))
  {
    var body := body0;
    while |body| > 0 && body[|body| - 1] == 0
      invariant Stripped(body) == Stripped(body0)
      decreases |body|
    {
      body := body[..|body| - 1];
    }
    var l := 2 + |prefix| + |body|;
    var total := if l % 62 == 0 then l else l + 62 - l % 62;
    data := [(|prefix| + |body|) / 256 % 256, (|prefix| + |body|) % 256];
    data := data + prefix;
    data := data + body;
    if total > l {
      data := data + Repeat<byte>(0, total - l);
    }
  }

  // ---- multisig outputs

  /** The two keys that carry data; the third is constant. */
  datatype MultiSig = MultiSig(first: seq<byte>, second: seq<byte>)

  /** Up to 31 bytes, with zeros after them. */
  function Half(b: seq<byte>): (h: seq<byte>)
    requires |b| <= 31
    ensures |h| == 31
  {
    b + Repeat<byte>(0, 31 - |b|)
  }

  /** Byte strings as halves of outputs. */
  function Outputs(buf: seq<byte>): seq<MultiSig>
    requires |buf| % 62 == 0
    decreases |buf|
  {
    if buf == [] then []
    else [MultiSig([3] + buf[..31] + [0], [2] + buf[31..62] + [0])] + Outputs(buf[62..])
  }

  /** The loop over the encrypted bytes. */
  method CutOutputs(buf0: seq<byte>) returns (outs: seq<MultiSig>)
    requires |buf0| % 62 == 0
    ensures outs == Outputs(buf0)
  {
    var buf := buf0;
    outs := [];
    while |buf| > 0
      invariant |buf| % 62 == 0 && outs + Outputs(buf) == Outputs(buf0)
      decreases |buf|
    {
      ghost var was := buf;
      var buf1 := buf[..if |buf| < 31 then |buf| else 31];
      buf := buf[|buf1|..];
      var buf2 := buf[..if |buf| < 31 then |buf| else 31];
      buf := buf[|buf1|..];
      assert buf1 == was[..31] && buf2 == was[31..62] && buf == was[62..];
      assert Half(buf1) == buf1 && Half(buf2) == buf2;
      ConcatAssoc(outs, [MultiSig([3] + buf1 + [0], [2] + buf2 + [0])], Outputs(buf));
      outs := outs + [MultiSig([3] + Half(buf1) + [0], [2] + Half(buf2) + [0])];
    }
    assert outs + [] == outs;
  }

  /** A key that carries 31 bytes: a sign byte in front and a zero behind. */
  predicate IsCarrier(key: seq<byte>, sign: byte) {
    |key| == 33 && key[0] == sign && key[32] == 0
  }

  /** The bytes that the outputs carry. */
  function Carried(outs: seq<MultiSig>): seq<byte>
    requires forall k :: 0 <= k < |outs| ==> IsCarrier(outs[k].first, 3) && IsCarrier(outs[k].second, 2)
    decreases |outs|
  {
    if outs == [] then []
    else
      assert IsCarrier(outs[0].first, 3) && IsCarrier(outs[0].second, 2);
      outs[0].first[1..32] + outs[0].second[1..32] + Carried(outs[1..])
  }

  lemma CarrierOf(b: seq<byte>, sign: byte)
    requires |b| == 31
    ensures IsCarrier([sign] + b + [0], sign) && ([sign] + b + [0])[1..32] == b
  {
  }

  /** Every output holds two carriers, and their bytes make up what was cut. */
  lemma {:induction false} CarriedOutputs(buf: seq<byte>)
    requires |buf| % 62 == 0
    ensures |Outputs(buf)| == |buf| / 62
    ensures forall k :: 0 <= k < |Outputs(buf)| ==> IsCarrier(Outputs(buf)[k].first, 3) && IsCarrier(Outputs(buf)[k].second, 2)
    ensures Carried(Outputs(buf)) == buf
    decreases |buf|
  {
    if buf != [] {
      hide IsCarrier;
      CarriedOutputs(buf[62..]);
      var o := Outputs(buf);
      assert o[1..] == Outputs(buf[62..]);
      CarrierOf(buf[..31], 3);
      CarrierOf(buf[31..62], 2);
      assert buf == buf[..31] + buf[31..62] + buf[62..];
    }
  }

  // ---- recovery

  /** What a reader recovers from the decrypted bytes. */
  function Read(m: seq<byte>): Option<seq<byte>> {
    if |m| < 2 then None
    else
      var n: nat := LengthField(m[0], m[1]);
      if 2 + n > |m| then None else Some(m[2..2 + n])
  }

  function LengthField(high: nat, low: nat): nat {
    256 * high + low
  }

  lemma {:induction false} LengthBack(n: nat)
    ensures LengthField(n / 256 % 256, n % 256) == n % 0x1_0000
  {
  }

  lemma {:induction false} ReadMessage(prefix: seq<byte>, body: seq<byte>)
    ensures Read(Message(prefix, body)) == Some(prefix + body) <==> |prefix| + |body| < 0x1_0000
  {
    var m, n := Message(prefix, body), |prefix| + |body|;
    LengthBack(n);
    assert m[2..2 + n] == prefix + body;
  }

  /** The whole way: pack, encrypt with the first input's transaction id, cut into outputs. */
  method Build(txId: seq<byte>, prefix: seq<byte>, body: seq<byte>) returns (outs: seq<MultiSig>)
    requires txId != []
    ensures forall k :: 0 <= k < |outs| ==> IsCarrier(outs[k].first, 3) && IsCarrier(outs[k].second, 2)
    ensures Encrypted(txId, Carried(outs)) == Message(prefix, Stripped(body))
    ensures Read(Encrypted(txId, Carried(outs))) == Some(prefix + Stripped(body))
            <==> |prefix| + |Stripped(body)| < 0x1_0000
  {
    var data := Pack(prefix, body);
    var buf := Rc4(txId, data);
    outs := CutOutputs(buf);
    CarriedOutputs(buf);
    Involution(txId, data);
    ReadMessage(prefix, Stripped(body));
  }
}
