/** The chunk codec and splitter of the browser check app's BLE client.

    The client keeps header fields as plain numbers; writing them into a
    `Uint8Array` keeps the low eight bits of each byte-sized value.  The
    sequence number goes out little-endian, as the firmware expects. */
module CheckAppChunker {
  import opened Bytes
  import opened Payloads
  import BleChunker

  const HEAD_SIZE: nat := 4
  const FINAL_CHUNK_FLAG: nat := 0x01

  /** A chunk header as the client holds it. */
  datatype ClientHead = ClientHead(messageId: nat, sequenceNumber: nat, flags: nat)

  predicate InRange(h: ClientHead) {
    h.messageId < 0x100 && h.sequenceNumber < 0x1_0000 && h.flags < 0x100
  }

  /** `fromBuffer`: byte 0 the id, bytes 1-2 the sequence number low byte
      first (the two bytes occupy disjoint bits, so `|` is `+`), byte 3 the flags. */
  function FromBuffer(buffer: seq<byte>): (h: ClientHead)
    requires |buffer| >= HEAD_SIZE
    ensures InRange(h)
  {
    ClientHead(buffer[0], buffer[1] as nat + 0x100 * buffer[2] as nat, buffer[3])
  }

  /** The four bytes `toBuffer` stores for a header. */
  function Encode(h: ClientHead): (r: seq<byte>)
    ensures |r| == HEAD_SIZE
  {
    [h.messageId % 0x100, h.sequenceNumber % 0x100, (h.sequenceNumber / 0x100) % 0x100, h.flags % 0x100]
  }

  /** `toBuffer`: a fresh 4-byte buffer filled field by field. */
  method ToBuffer(h: ClientHead) returns (bytes: seq<byte>)
    ensures bytes == Encode(h)
    ensures InRange(h) ==> FromBuffer(bytes) == h
  {
    var buffer := new byte[HEAD_SIZE];
    buffer[0] := h.messageId % 0x100;
    buffer[1] := h.sequenceNumber % 0x100;
    buffer[2] := (h.sequenceNumber / 0x100) % 0x100;
    buffer[3] := h.flags % 0x100;
    bytes := buffer[..];
    if InRange(h) {
      FromEncode(h);
    }
  }

  /** Decoding what `toBuffer` wrote gives the header back when its fields fit. */
  lemma FromEncode(h: ClientHead)
    requires InRange(h)
    ensures FromBuffer(Encode(h)) == h
  {
  }

  /** Encoding the decoded header of a chunk gives back its first four bytes. */
  lemma EncodeFrom(chunk: seq<byte>)
    requires |chunk| >= HEAD_SIZE
    ensures Encode(FromBuffer(chunk)) == chunk[..HEAD_SIZE]
  {
  }

  /** The client's header bytes are the firmware's `fillTo` bytes, with the
      sequence number taken modulo 2^16. */
  lemma EncodeMatchesFirmware(messageId: byte, sequenceNumber: nat, flags: byte)
    ensures Encode(ClientHead(messageId, sequenceNumber, flags))
         == BleChunker.HeadBytes(BleChunker.ChunkHead(messageId, sequenceNumber % 0x1_0000, flags))
  {
    ByteSplit(sequenceNumber);
  }

  lemma ByteSplit(j: nat)
    ensures (j % 0x1_0000) % 0x100 == j % 0x100
    ensures (j % 0x1_0000) / 0x100 == (j / 0x100) % 0x100
  {
  }

  /** `isNodata`: a chunk too short to hold a header. */
  predicate IsNodata(chunk: seq<byte>) {
    |chunk| < HEAD_SIZE
  }

  /** A chunk that is not "no data" is its decoded header's bytes followed by the payload. */
  lemma DataChunkSplits(chunk: seq<byte>)
    requires !IsNodata(chunk)
    ensures chunk == Encode(FromBuffer(chunk)) + chunk[HEAD_SIZE..]
  {
    EncodeFrom(chunk);
  }

  /** `isLastChunk`: bit 0 of the flags.  On a chunk shorter than a header
      the flags read as `undefined`, and `undefined & 1` is 0. */
  predicate IsLastChunk(chunk: seq<byte>) {
    |chunk| >= HEAD_SIZE && FromBuffer(chunk).flags % 2 == 1
  }

  /** `IsLastChunk` is the firmware's FINAL test on the same bytes. */
  lemma IsLastChunkIsFinal(chunk: seq<byte>)
    requires |chunk| >= HEAD_SIZE
    ensures IsLastChunk(chunk)
        <==> BitAnd(BleChunker.DecodeHead(chunk).flags, BleChunker.FINAL_CHUNK_FLAG) != 0
  {
    var f := chunk[3] as bv8;
    assert (f & 1 != 0) <==> f % 2 == 1;
  }

  /** `mergeUint8Arrays`: sizes the result by the summed lengths, then copies
      each array in at the running offset. */
  method MergeUint8Arrays(arrays: seq<seq<byte>>) returns (merged: seq<byte>)
    ensures merged == Flatten(arrays)
    ensures |merged| == TotalLength(arrays)
  {
    var total := 0;
    var k := 0;
    while k < |arrays|
      invariant 0 <= k <= |arrays|
      invariant total == |Flatten(arrays[..k])|
    {
      FlattenSnoc(arrays[..k], arrays[k]);
      assert arrays[..k + 1] == arrays[..k] + [arrays[k]];
      total := total + |arrays[k]|;
      k := k + 1;
    }
    assert arrays[..k] == arrays;
    var result := new byte[total];
    var offset := 0;
    k := 0;
    while k < |arrays|
      invariant 0 <= k <= |arrays|
      invariant offset == |Flatten(arrays[..k])| <= total
      invariant result[..offset] == Flatten(arrays[..k])
    {
      var arr := arrays[k];
      FlattenSnoc(arrays[..k], arr);
      assert arrays[..k + 1] == arrays[..k] + [arr];
      FlattenPrefixLength(arrays, k + 1);
      forall j | 0 <= j < |arr| {
        result[offset + j] := arr[j];
      }
      assert result[..offset + |arr|] == result[..offset] + arr;
      offset := offset + |arr|;
      k := k + 1;
    }
    assert result[..] == result[..offset];
    merged := result[..];
    FlattenLength(arrays);
  }

  /** The flags `splitIntoChunks` gives piece `j` of `count`. */
  function SplitFlags(j: nat, count: nat): nat {
    if j == count - 1 then FINAL_CHUNK_FLAG else 0
  }

  /** The chunks `splitIntoChunks` produces: piece `j` of at most `chunkSize`
      bytes behind the header (id, j, FINAL on the last).  An empty message
      has no pieces and so no chunks. */
  function ClientSplit(msg: seq<byte>, messageId: byte, chunkSize: nat): (r: seq<seq<byte>>)
    requires chunkSize > 0
  {
    var ps := Pieces(msg, chunkSize);
    seq(|ps|, j requires 0 <= j < |ps| => Encode(ClientHead(messageId, j, SplitFlags(j, |ps|))) + ps[j])
  }

  /** The client frames every message exactly as the firmware frames its
      replies; the firmware's split of a nonempty message is the same list. */
  lemma ClientSplitIsFirmwareFraming(msg: seq<byte>, messageId: byte, chunkSize: nat)
    requires chunkSize > 0
    ensures ClientSplit(msg, messageId, chunkSize) == BleChunker.FrameChunks(Pieces(msg, chunkSize), messageId)
    ensures msg != [] ==> ClientSplit(msg, messageId, chunkSize) == BleChunker.SplitMessage(msg, messageId, chunkSize)
  {
    var ps := Pieces(msg, chunkSize);
    var r := ClientSplit(msg, messageId, chunkSize);
    var f := BleChunker.FrameChunks(ps, messageId);
    forall j | 0 <= j < |ps|
      ensures r[j] == f[j]
    {
      EncodeMatchesFirmware(messageId, j, SplitFlags(j, |ps|));
    }
  }

  /** What `splitIntoChunks` promises: no chunks for an empty message;
      otherwise ceil(n / chunkSize) chunks, chunk j headed by (id, j mod 2^16),
      the last one alone marked last, and the payloads merging back to the message. */
  lemma ClientSplitShape(msg: seq<byte>, messageId: byte, chunkSize: nat)
    requires chunkSize > 0
    ensures var r := ClientSplit(msg, messageId, chunkSize);
      && (msg == [] <==> r == [])
      && (msg != [] ==> |r| == ChunkCount(|msg|, chunkSize))
      && (forall j :: 0 <= j < |r| ==>
            && HEAD_SIZE < |r[j]| <= HEAD_SIZE + chunkSize
            && FromBuffer(r[j]) == ClientHead(messageId, j % 0x1_0000, SplitFlags(j, |r|))
            && (IsLastChunk(r[j]) <==> j == |r| - 1))
      && Flatten(BleChunker.Bodies(r)) == msg
  {
    var r := ClientSplit(msg, messageId, chunkSize);
    ClientSplitIsFirmwareFraming(msg, messageId, chunkSize);
    if msg == [] {
      assert Pieces(msg, chunkSize) == [];
      assert BleChunker.Bodies(r) == [];
    } else {
      BleChunkerShape(msg, messageId, chunkSize);
      forall j | 0 <= j < |r|
        ensures FromBuffer(r[j]) == ClientHead(messageId, j % 0x1_0000, SplitFlags(j, |r|))
        ensures IsLastChunk(r[j]) <==> j == |r| - 1
      {
        assert FromBuffer(r[j]) == FromBuffer(r[j][..HEAD_SIZE]);
        IsLastChunkIsFinal(r[j]);
      }
    }
  }

  /** The firmware's split shape, restated for the nonempty messages the client sends. */
  lemma BleChunkerShape(msg: seq<byte>, messageId: byte, chunkSize: nat)
    requires chunkSize > 0 && msg != []
    ensures var r := BleChunker.SplitMessage(msg, messageId, chunkSize);
      && |r| == ChunkCount(|msg|, chunkSize)
      && (forall j :: 0 <= j < |r| ==>
            && HEAD_SIZE < |r[j]| <= HEAD_SIZE + chunkSize
            && BleChunker.DecodeHead(r[j]) == BleChunker.ChunkHead(messageId, j % 0x1_0000, BleChunker.SplitFlags(j, |r|)))
      && Flatten(BleChunker.Bodies(r)) == msg
  {
    var r := BleChunker.SplitMessage(msg, messageId, chunkSize);
    var ps := Pieces(msg, chunkSize);
    PiecesCount(msg, chunkSize);
    PiecesShape(msg, chunkSize);
    PiecesFlatten(msg, chunkSize);
    forall j | 0 <= j < |r|
      ensures |r[j]| == HEAD_SIZE + |ps[j]|
      ensures BleChunker.DecodeHead(r[j]) == BleChunker.ChunkHead(messageId, j % 0x1_0000, BleChunker.SplitFlags(j, |r|))
      ensures r[j][HEAD_SIZE..] == ps[j]
    {
      BleChunker.DecodeFramed(BleChunker.ChunkHead(messageId, j % 0x1_0000, BleChunker.SplitFlags(j, |ps|)), ps[j]);
    }
    assert BleChunker.Bodies(r) == ps;
  }

  /** One round of the split loop: at offset `i = k * chunkSize` the loop
      builds chunk `k` of the split and moves on to the next piece. */
  lemma SplitStep(msg: seq<byte>, messageId: byte, chunkSize: nat, i: nat, k: nat)
    requires chunkSize > 0 && i == k * chunkSize && i < |msg|
    requires k <= |Pieces(msg, chunkSize)|
    requires Pieces(msg[i..], chunkSize) == Pieces(msg, chunkSize)[k..]
    ensures var ps := Pieces(msg, chunkSize);
      var end := Min(i + chunkSize, |msg|);
      && k < |ps|
      && i / chunkSize == k
      && ClientSplit(msg, messageId, chunkSize)[k]
         == Encode(ClientHead(messageId, i / chunkSize, if end == |msg| then FINAL_CHUNK_FLAG else 0)) + msg[i..end]
      && (i + chunkSize < |msg| ==> Pieces(msg[i + chunkSize..], chunkSize) == ps[k + 1..])
      && (i + chunkSize >= |msg| ==> k + 1 == |ps|)
  {
    var ps := Pieces(msg, chunkSize);
    var end := Min(i + chunkSize, |msg|);
    PiecesAt(msg, i, chunkSize);
    IndexOfOffset(k, chunkSize);
    assert ps[k] == msg[i..end];
    if i + chunkSize < |msg| {
      assert Pieces(msg[i + chunkSize..], chunkSize) != [];
      assert k + 1 < |ps| && end != |msg|;
    } else {
      assert k + 1 == |ps| && end == |msg|;
    }
  }

  /** A chunk as `splitIntoChunks` builds it: the header, with the final
      flag on the last chunk, followed by the payload. */
  function ChunkBytes(messageId: byte, sequenceNumber: nat, last: bool, payload: seq<byte>): seq<byte> {
    Encode(ClientHead(messageId, sequenceNumber, if last then FINAL_CHUNK_FLAG else 0)) + payload
  }

  /** One round of `splitIntoChunks`: the header `toBuffer` writes, then
      the payload, merged into one buffer. */
  method FrameChunk(messageId: byte, sequenceNumber: nat, last: bool, payload: seq<byte>) returns (framed: seq<byte>)
    ensures framed == ChunkBytes(messageId, sequenceNumber, last, payload)
  {
    var head := ToBuffer(ClientHead(messageId, sequenceNumber, if last then FINAL_CHUNK_FLAG else 0));
    framed := MergeUint8Arrays([head, payload]);
    assert Flatten([head, payload]) == head + Flatten([payload]);
  }

  /** What holds at the top of the loop of `splitIntoChunks`: the offset
      `i` is the start of piece `k`, and the chunks so far are the first `k`
      of the split. */
  ghost predicate SplitInv(message: seq<byte>, messageId: byte, chunkSize: nat, i: nat, k: nat, chunks: seq<seq<byte>>)
    requires chunkSize > 0
  {
    var ps := Pieces(message, chunkSize);
    && i == k * chunkSize && k <= |ps|
    && (i < |message| ==> Pieces(message[i..], chunkSize) == ps[k..])
    && (i >= |message| ==> k == |ps|)
    && chunks == ClientSplit(message, messageId, chunkSize)[..k]
  }

  /** The sequence number `splitIntoChunks` gives the chunk at offset `i`. */
  function ChunkIndex(i: nat, chunkSize: nat): nat
    requires chunkSize > 0
  {
    i / chunkSize
  }

  /** The invariant of `splitIntoChunks` carries over one round: chunk `k`
      frames piece `k`, numbered `i / chunkSize`, and is the last one
      exactly when the piece reaches the end of the message. */
  lemma SplitAdvance(message: seq<byte>, messageId: byte, chunkSize: nat, i: nat, k: nat, chunks: seq<seq<byte>>)
    requires chunkSize > 0 && i < |message| && SplitInv(message, messageId, chunkSize, i, k, chunks)
    ensures var all := ClientSplit(message, messageId, chunkSize);
      var end := Min(i + chunkSize, |message|);
      && k < |all|
      && ChunkIndex(i, chunkSize) == k
      && all[k] == ChunkBytes(messageId, k, end == |message|, message[i..end])
      && SplitInv(message, messageId, chunkSize, i + chunkSize, k + 1, chunks + [all[k]])
  {
    SplitStep(message, messageId, chunkSize, i, k);
    SplitInvNext(message, messageId, chunkSize, i, k, chunks);
  }

  /** The step of the invariant once piece `k` is known to exist. */
  lemma SplitInvNext(message: seq<byte>, messageId: byte, chunkSize: nat, i: nat, k: nat, chunks: seq<seq<byte>>)
    requires chunkSize > 0 && i == k * chunkSize && k < |Pieces(message, chunkSize)|
    requires i + chunkSize < |message| ==> Pieces(message[i + chunkSize..], chunkSize) == Pieces(message, chunkSize)[k + 1..]
    requires i + chunkSize >= |message| ==> k + 1 == |Pieces(message, chunkSize)|
    requires chunks == ClientSplit(message, messageId, chunkSize)[..k]
    ensures SplitInv(message, messageId, chunkSize, i + chunkSize, k + 1, chunks + [ClientSplit(message, messageId, chunkSize)[k]])
  {
    var all := ClientSplit(message, messageId, chunkSize);
    assert all[..k + 1] == all[..k] + [all[k]];
    assert (k + 1) * chunkSize == k * chunkSize + chunkSize;
  }

  /** One round of the loop of `splitIntoChunks`. */
  method SplitRound(message: seq<byte>, messageId: byte, chunkSize: nat, i: nat, ghost k: nat, chunks: seq<seq<byte>>)
    returns (next: seq<seq<byte>>)
    requires chunkSize > 0 && i < |message| && SplitInv(message, messageId, chunkSize, i, k, chunks)
    ensures SplitInv(message, messageId, chunkSize, i + chunkSize, k + 1, next)
  {
    var totalSize := |message|;
    var end := Min(i + chunkSize, totalSize);
    SplitAdvance(message, messageId, chunkSize, i, k, chunks);
    var framed := FrameChunk(messageId, ChunkIndex(i, chunkSize), end == totalSize, message[i..end]);
    next := chunks + [framed];
  }

  /** The loop of `splitIntoChunks`, over offsets `i` stepping by `chunkSize`. */
  method SplitLoop(message: seq<byte>, messageId: byte, chunkSize: nat) returns (chunks: seq<seq<byte>>)
    requires chunkSize > 0
    ensures chunks == ClientSplit(message, messageId, chunkSize)
  {
    chunks := [];
    ghost var k: nat := 0;
    var i: nat := 0;
    assert message[0..] == message;
    while i < |message|
      invariant SplitInv(message, messageId, chunkSize, i, k, chunks)
    {
      chunks := SplitRound(message, messageId, chunkSize, i, k, chunks);
      i := i + chunkSize;
      k := k + 1;
    }
    assert |ClientSplit(message, messageId, chunkSize)| == |Pieces(message, chunkSize)|;
  }

  /** The client object: its blob size and the id counter of its last message. */
  class ClientChunker {
    const maxBlobSize: nat
    var messageIdCounter: byte

    constructor (maxBlobSize: nat)
      requires maxBlobSize > HEAD_SIZE
      ensures this.maxBlobSize == maxBlobSize && messageIdCounter == 0
    {
      this.maxBlobSize := maxBlobSize;
      messageIdCounter := 0;
    }

    /** `splitIntoChunks`: bumps the id counter (wrapping at 256) and frames
        the message under the new id. */
    method SplitIntoChunks(message: seq<byte>) returns (chunks: seq<seq<byte>>)
      requires maxBlobSize > HEAD_SIZE
      modifies this
      ensures messageIdCounter == (old(messageIdCounter) + 1) % 0x100
      ensures chunks == ClientSplit(message, messageIdCounter, maxBlobSize - HEAD_SIZE)
    {
      // `(counter + 1) & 0xff` on a counter below 256
      messageIdCounter := (messageIdCounter + 1) % 0x100;
      chunks := SplitLoop(message, messageIdCounter, maxBlobSize - HEAD_SIZE);
    }
  }
}
