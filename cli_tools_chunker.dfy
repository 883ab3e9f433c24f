/** The chunk codec and splitter of the command-line BLE client.

    It is the check app's client except for the header layout: this one
    writes the sequence number HIGH byte first (bytes 1-2 big-endian),
    while the firmware reads it low byte first. */
module CliToolsChunker {
  import opened Bytes
  import opened Payloads
  import BleChunker
  import CheckApp = CheckAppChunker

  const HEAD_SIZE: nat := 4

  /** `fromBuffer`: byte 0 the id, `(byte1 << 8) | byte2` the sequence number, byte 3 the flags. */
  function FromBuffer(buffer: seq<byte>): (h: CheckApp.ClientHead)
    requires |buffer| >= HEAD_SIZE
    ensures CheckApp.InRange(h)
  {
    CheckApp.ClientHead(buffer[0], 0x100 * buffer[1] as nat + buffer[2] as nat, buffer[3])
  }

  /** The four bytes `toBuffer` stores: id, sequence high byte, sequence low byte, flags. */
  function Encode(h: CheckApp.ClientHead): (r: seq<byte>)
    ensures |r| == HEAD_SIZE
  {
    [h.messageId % 0x100, (h.sequenceNumber / 0x100) % 0x100, h.sequenceNumber % 0x100, h.flags % 0x100]
  }

  /** `toBuffer`: a fresh 4-byte buffer filled field by field. */
  method ToBuffer(h: CheckApp.ClientHead) returns (bytes: seq<byte>)
    ensures bytes == Encode(h)
    ensures CheckApp.InRange(h) ==> FromBuffer(bytes) == h
  {
    var buffer := new byte[HEAD_SIZE];
    buffer[0] := h.messageId % 0x100;
    buffer[1] := (h.sequenceNumber / 0x100) % 0x100;
    buffer[2] := h.sequenceNumber % 0x100;
    buffer[3] := h.flags % 0x100;
    bytes := buffer[..];
    if CheckApp.InRange(h) {
      FromEncode(h);
    }
  }

  /** This client decodes its own headers correctly. */
  lemma FromEncode(h: CheckApp.ClientHead)
    requires CheckApp.InRange(h)
    ensures FromBuffer(Encode(h)) == h
  {
  }

  /** Byte 1 holds the high byte of the sequence number, byte 2 the low byte. */
  lemma EncodeIsBigEndian(h: CheckApp.ClientHead)
    requires CheckApp.InRange(h)
    ensures Encode(h)[1] == h.sequenceNumber / 0x100 && Encode(h)[2] == h.sequenceNumber % 0x100
  {
  }

  /** The two bytes of a 16-bit number exchanged. */
  function Swap16(s: uint16): (r: uint16)
    ensures r % 0x100 == s / 0x100 && r / 0x100 == s % 0x100
  {
    (s % 0x100) * 0x100 + s / 0x100
  }

  /** The firmware reads this client's sequence number with its bytes exchanged. */
  lemma FirmwareReadsSwapped(messageId: byte, sequenceNumber: nat, flags: byte)
    ensures BleChunker.DecodeHead(Encode(CheckApp.ClientHead(messageId, sequenceNumber, flags)))
         == BleChunker.ChunkHead(messageId, Swap16(sequenceNumber % 0x1_0000), flags)
  {
    CheckApp.ByteSplit(sequenceNumber);
  }

  /** The firmware and this client agree on a sequence number exactly when its
      two bytes are equal; among the numbers below 256 that is 0 alone. */
  lemma SwapAgreesIffBytesEqual(s: uint16)
    ensures Swap16(s) == s <==> s % 0x100 == s / 0x100
    ensures s < 0x100 ==> (Swap16(s) == s <==> s == 0)
  {
    if Swap16(s) == s {
      assert s % 0x100 == Swap16(s) / 0x100;
    }
  }

  /** `isLastChunk`: bit 0 of the flags byte, which sits at the same place as
      in the check app's layout, so the two tests agree. */
  predicate IsLastChunk(chunk: seq<byte>) {
    |chunk| >= HEAD_SIZE && FromBuffer(chunk).flags % 2 == 1
  }

  lemma IsLastChunkAgrees(chunk: seq<byte>)
    ensures IsLastChunk(chunk) <==> CheckApp.IsLastChunk(chunk)
  {
  }

  /** The chunks `splitIntoChunks` produces: the check app's framing, with
      this client's header layout. */
  function CliSplit(msg: seq<byte>, messageId: byte, chunkSize: nat): (r: seq<seq<byte>>)
    requires chunkSize > 0
  {
    var ps := Pieces(msg, chunkSize);
    seq(|ps|, j requires 0 <= j < |ps| =>
      Encode(CheckApp.ClientHead(messageId, j, CheckApp.SplitFlags(j, |ps|))) + ps[j])
  }

  /** What `splitIntoChunks` promises: no chunks for an empty message;
      otherwise ceil(n / chunkSize) chunks, chunk j headed (as this client
      reads it) by (id, j mod 2^16), the last one alone marked last, and the
      payloads merging back to the message. */
  lemma CliSplitShape(msg: seq<byte>, messageId: byte, chunkSize: nat)
    requires chunkSize > 0
    ensures var r := CliSplit(msg, messageId, chunkSize);
      && (msg == [] <==> r == [])
      && (msg != [] ==> |r| == ChunkCount(|msg|, chunkSize))
      && (forall j :: 0 <= j < |r| ==>
            && HEAD_SIZE < |r[j]| <= HEAD_SIZE + chunkSize
            && FromBuffer(r[j]) == CheckApp.ClientHead(messageId, j % 0x1_0000, CheckApp.SplitFlags(j, |r|))
            && (IsLastChunk(r[j]) <==> j == |r| - 1))
      && Flatten(BleChunker.Bodies(r)) == msg
  {
    var r := CliSplit(msg, messageId, chunkSize);
    var ps := Pieces(msg, chunkSize);
    PiecesCount(msg, chunkSize);
    PiecesShape(msg, chunkSize);
    PiecesFlatten(msg, chunkSize);
    CliChunks(msg, messageId, chunkSize);
    forall j | 0 <= j < |r|
      ensures HEAD_SIZE < |r[j]| <= HEAD_SIZE + chunkSize
      ensures IsLastChunk(r[j]) <==> j == |r| - 1
    {
      assert 0 < |ps[j]| <= chunkSize;
      assert FromBuffer(r[j]).flags == CheckApp.SplitFlags(j, |r|);
    }
    assert BleChunker.Bodies(r) == ps;
  }

  /** Chunk j of the split is piece j behind a header that reads back as (id, j mod 2^16, flags). */
  lemma CliChunks(msg: seq<byte>, messageId: byte, chunkSize: nat)
    requires chunkSize > 0
    ensures var r := CliSplit(msg, messageId, chunkSize);
      var ps := Pieces(msg, chunkSize);
      forall j :: 0 <= j < |r| ==>
        && |r[j]| == HEAD_SIZE + |ps[j]|
        && r[j][HEAD_SIZE..] == ps[j]
        && FromBuffer(r[j]) == CheckApp.ClientHead(messageId, j % 0x1_0000, CheckApp.SplitFlags(j, |r|))
  {
    var r := CliSplit(msg, messageId, chunkSize);
    var ps := Pieces(msg, chunkSize);
    forall j | 0 <= j < |r|
      ensures |r[j]| == HEAD_SIZE + |ps[j]|
      ensures r[j][HEAD_SIZE..] == ps[j]
      ensures FromBuffer(r[j]) == CheckApp.ClientHead(messageId, j % 0x1_0000, CheckApp.SplitFlags(j, |r|))
    {
      Framed(messageId, j, CheckApp.SplitFlags(j, |ps|), ps[j]);
    }
  }

  /** A header written by this client, followed by a payload, reads back as
      that header with the sequence number taken modulo 2^16. */
  lemma Framed(messageId: byte, sequenceNumber: nat, flags: nat, payload: seq<byte>)
    requires flags < 0x100
    ensures var c := Encode(CheckApp.ClientHead(messageId, sequenceNumber, flags)) + payload;
      && |c| == HEAD_SIZE + |payload|
      && c[HEAD_SIZE..] == payload
      && FromBuffer(c) == CheckApp.ClientHead(messageId, sequenceNumber % 0x1_0000, flags)
  {
    var head := Encode(CheckApp.ClientHead(messageId, sequenceNumber, flags));
    var c := head + payload;
    assert c[..HEAD_SIZE] == head;
    CheckApp.ByteSplit(sequenceNumber);
  }

  /** One round of the split loop, as for the check app. */
  lemma SplitStep(msg: seq<byte>, messageId: byte, chunkSize: nat, i: nat, k: nat)
    requires chunkSize > 0 && i == k * chunkSize && i < |msg|
    requires k <= |Pieces(msg, chunkSize)|
    requires Pieces(msg[i..], chunkSize) == Pieces(msg, chunkSize)[k..]
    ensures var ps := Pieces(msg, chunkSize);
      var end := Min(i + chunkSize, |msg|);
      && k < |ps|
      && i / chunkSize == k
      && CliSplit(msg, messageId, chunkSize)[k]
         == Encode(CheckApp.ClientHead(messageId, i / chunkSize,
                                       if end == |msg| then CheckApp.FINAL_CHUNK_FLAG else 0)) + msg[i..end]
      && (i + chunkSize < |msg| ==> Pieces(msg[i + chunkSize..], chunkSize) == ps[k + 1..])
      && (i + chunkSize >= |msg| ==> k + 1 == |ps|)
  {
    var ps := Pieces(msg, chunkSize);
    var end := Min(i + chunkSize, |msg|);
    PiecesAt(msg, i, chunkSize);
    IndexOfOffset(k, chunkSize);
    assert ps[k] == msg[i..end];
    if i + chunkSize < |msg| {
      assert Pieces(msg[i + chunkSize..], chunkSize) != [];
      assert k + 1 < |ps| && end != |msg|;
    } else {
      assert k + 1 == |ps| && end == |msg|;
    }
  }

  /** A chunk as `splitIntoChunks` builds it: the header, with the final
      flag on the last chunk, followed by the payload. */
  function ChunkBytes(messageId: byte, sequenceNumber: nat, last: bool, payload: seq<byte>): seq<byte> {
    Encode(CheckApp.ClientHead(messageId, sequenceNumber, if last then CheckApp.FINAL_CHUNK_FLAG else 0)) + payload
  }

  /** One round of `splitIntoChunks`: the header `toBuffer` writes, then
      the payload, merged into one buffer. */
  method FrameChunk(messageId: byte, sequenceNumber: nat, last: bool, payload: seq<byte>) returns (framed: seq<byte>)
    ensures framed == ChunkBytes(messageId, sequenceNumber, last, payload)
  {
    var head := ToBuffer(CheckApp.ClientHead(messageId, sequenceNumber, if last then CheckApp.FINAL_CHUNK_FLAG else 0));
    framed := CheckApp.MergeUint8Arrays([head, payload]);
    assert Flatten([head, payload]) == head + Flatten([payload]);
  }

  /** What holds at the top of the loop of `splitIntoChunks`: the offset
      `i` is the start of piece `k`, and the chunks so far are the first `k`
      of the split. */
  ghost predicate SplitInv(message: seq<byte>, messageId: byte, chunkSize: nat, i: nat, k: nat, chunks: seq<seq<byte>>)
    requires chunkSize > 0
  {
    var ps := Pieces(message, chunkSize);
    && i == k * chunkSize && k <= |ps|
    && (i < |message| ==> Pieces(message[i..], chunkSize) == ps[k..])
    && (i >= |message| ==> k == |ps|)
    && chunks == CliSplit(message, messageId, chunkSize)[..k]
  }

  /** The sequence number `splitIntoChunks` gives the chunk at offset `i`. */
  function ChunkIndex(i: nat, chunkSize: nat): nat
    requires chunkSize > 0
  {
    i / chunkSize
  }

  /** The invariant of `splitIntoChunks` carries over one round: chunk `k`
      frames piece `k`, numbered `i / chunkSize`, and is the last one
      exactly when the piece reaches the end of the message. */
  lemma SplitAdvance(message: seq<byte>, messageId: byte, chunkSize: nat, i: nat, k: nat, chunks: seq<seq<byte>>)
    requires chunkSize > 0 && i < |message| && SplitInv(message, messageId, chunkSize, i, k, chunks)
    ensures var all := CliSplit(message, messageId, chunkSize);
      var end := Min(i + chunkSize, |message|);
      && k < |all|
      && ChunkIndex(i, chunkSize) == k
      && all[k] == ChunkBytes(messageId, k, end == |message|, message[i..end])
      && SplitInv(message, messageId, chunkSize, i + chunkSize, k + 1, chunks + [all[k]])
  {
    SplitStep(message, messageId, chunkSize, i, k);
    SplitInvNext(message, messageId, chunkSize, i, k, chunks);
  }

  /** The step of the invariant once piece `k` is known to exist. */
  lemma SplitInvNext(message: seq<byte>, messageId: byte, chunkSize: nat, i: nat, k: nat, chunks: seq<seq<byte>>)
    requires chunkSize > 0 && i == k * chunkSize && k < |Pieces(message, chunkSize)|
    requires i + chunkSize < |message| ==> Pieces(message[i + chunkSize..], chunkSize) == Pieces(message, chunkSize)[k + 1..]
    requires i + chunkSize >= |message| ==> k + 1 == |Pieces(message, chunkSize)|
    requires chunks == CliSplit(message, messageId, chunkSize)[..k]
    ensures SplitInv(message, messageId, chunkSize, i + chunkSize, k + 1, chunks + [CliSplit(message, messageId, chunkSize)[k]])
  {
    var all := CliSplit(message, messageId, chunkSize);
    assert all[..k + 1] == all[..k] + [all[k]];
    assert (k + 1) * chunkSize == k * chunkSize + chunkSize;
  }

  /** One round of the loop of `splitIntoChunks`. */
  method SplitRound(message: seq<byte>, messageId: byte, chunkSize: nat, i: nat, ghost k: nat, chunks: seq<seq<byte>>)
    returns (next: seq<seq<byte>>)
    requires chunkSize > 0 && i < |message| && SplitInv(message, messageId, chunkSize, i, k, chunks)
    ensures SplitInv(message, messageId, chunkSize, i + chunkSize, k + 1, next)
  {
    var totalSize := |message|;
    var end := Min(i + chunkSize, totalSize);
    SplitAdvance(message, messageId, chunkSize, i, k, chunks);
    var framed := FrameChunk(messageId, ChunkIndex(i, chunkSize), end == totalSize, message[i..end]);
    next := chunks + [framed];
  }

  /** The loop of `splitIntoChunks`, over offsets `i` stepping by `chunkSize`. */
  method SplitLoop(message: seq<byte>, messageId: byte, chunkSize: nat) returns (chunks: seq<seq<byte>>)
    requires chunkSize > 0
    ensures chunks == CliSplit(message, messageId, chunkSize)
  {
    chunks := [];
    ghost var k: nat := 0;
    var i: nat := 0;
    assert message[0..] == message;
    while i < |message|
      invariant SplitInv(message, messageId, chunkSize, i, k, chunks)
    {
      chunks := SplitRound(message, messageId, chunkSize, i, k, chunks);
      i := i + chunkSize;
      k := k + 1;
    }
    assert |CliSplit(message, messageId, chunkSize)| == |Pieces(message, chunkSize)|;
  }

  /** The command-line client object. */
  class ClientChunker {
    const maxBlobSize: nat
    var messageIdCounter: byte

    constructor (maxBlobSize: nat)
      requires maxBlobSize > HEAD_SIZE
      ensures this.maxBlobSize == maxBlobSize && messageIdCounter == 0
    {
      this.maxBlobSize := maxBlobSize;
      messageIdCounter := 0;
    }

    /** `splitIntoChunks`: bumps the id counter (wrapping at 256) and frames
        the message under the new id. */
    method SplitIntoChunks(message: seq<byte>) returns (chunks: seq<seq<byte>>)
      requires maxBlobSize > HEAD_SIZE
      modifies this
      ensures messageIdCounter == (old(messageIdCounter) + 1) % 0x100
      ensures chunks == CliSplit(message, messageIdCounter, maxBlobSize - HEAD_SIZE)
    {
      // `(counter + 1) & 0xff` on a counter below 256
      messageIdCounter := (messageIdCounter + 1) % 0x100;
      chunks := SplitLoop(message, messageIdCounter, maxBlobSize - HEAD_SIZE);
    }
  }
}
