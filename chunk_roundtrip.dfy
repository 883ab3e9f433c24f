/** End to end: the chunks a client writes, handed one by one to the
    firmware's `consumeChunk`, and what the firmware makes of them. */
module ChunkRoundTrip {
  import opened Bytes
  import opened Wrappers
  import opened Payloads
  import opened BleChunker
  import CheckAppChunker
  import CliToolsChunker

  /** The state after a run of chunks and the messages delivered on the way, in order. */
  datatype FeedResult = FeedResult(state: ChunkerState, delivered: seq<seq<byte>>)

  /** `consumeChunk` called on each chunk in turn. */
  function Feed(cfg: Config, onMessage: Option<Handler>, s: ChunkerState, chunks: seq<seq<byte>>): FeedResult
    requires ValidConfig(cfg)
    decreases |chunks|
  {
    if chunks == [] then FeedResult(s, [])
    else
      var out := Step(cfg, onMessage, s, chunks[0]);
      var rest := Feed(cfg, onMessage, out.state, chunks[1..]);
      FeedResult(rest.state, (if out.delivered.Some? then [out.delivered.value] else []) + rest.delivered)
  }

  /** The reassembler partway through message `messageId`: `a` accepted so
      far, the next chunk expected to carry sequence `k` (modulo 2^16), nothing queued. */
  function Receiving(messageId: byte, a: seq<byte>, k: nat): ChunkerState {
    ChunkerState(messageId, |a|, k % 0x1_0000, false, false, a, [])
  }

  /** The reassembler after the FINAL chunk, the `n`-th, completed message `m`. */
  function Done(cfg: Config, handle: Handler, messageId: byte, m: seq<byte>, n: nat): ChunkerState
    requires ValidConfig(cfg)
  {
    ChunkerState(messageId, |m|, n % 0x1_0000, false, true, m,
                 SplitMessage(handle(m), messageId, cfg.maxChunkSize - HEAD_SIZE))
  }

  /** A non-final chunk carrying the expected sequence number and a payload
      that fits is appended, and the next sequence number is expected. */
  lemma StepReceivingMore(cfg: Config, onMessage: Option<Handler>, messageId: byte, a: seq<byte>, k: nat, p: seq<byte>)
    requires ValidConfig(cfg) && |a| + |p| <= cfg.maxMessageSize
    ensures Step(cfg, onMessage, Receiving(messageId, a, k), HeadBytes(ChunkHead(messageId, k % 0x1_0000, 0)) + p)
         == Outcome(Receiving(messageId, a + p, k + 1), None)
  {
    DecodeFramed(ChunkHead(messageId, k % 0x1_0000, 0), p);
    ModSucc(k, 0x1_0000);
    assert BitAnd(0, FINAL_CHUNK_FLAG) == 0;
  }

  /** The FINAL chunk, under the same conditions, completes the message and hands it over. */
  lemma StepReceivingLast(cfg: Config, handle: Handler, messageId: byte, a: seq<byte>, k: nat, p: seq<byte>)
    requires ValidConfig(cfg) && |a| + |p| <= cfg.maxMessageSize
    ensures Step(cfg, Some(handle), Receiving(messageId, a, k),
                 HeadBytes(ChunkHead(messageId, k % 0x1_0000, FINAL_CHUNK_FLAG)) + p)
         == Outcome(Done(cfg, handle, messageId, a + p, k + 1), Some(a + p))
  {
    var head := ChunkHead(messageId, k % 0x1_0000, FINAL_CHUNK_FLAG);
    DecodeFramed(head, p);
    ModSucc(k, 0x1_0000);
    assert BitAnd(FINAL_CHUNK_FLAG, FINAL_CHUNK_FLAG) != 0;
    AcceptFinal(cfg, handle, Receiving(messageId, a, k), head, HeadBytes(head) + p);
  }

  /** Feeding the rest of a framed message, from the point where its first
      `k` pieces have been accepted, delivers it once and completes it. */
  lemma {:induction false} FeedRest(cfg: Config, handle: Handler, messageId: byte, ps: seq<seq<byte>>, k: nat)
    requires ValidConfig(cfg) && k < |ps| && |Flatten(ps)| <= cfg.maxMessageSize
    ensures Feed(cfg, Some(handle), Receiving(messageId, Flatten(ps[..k]), k), FrameChunks(ps, messageId)[k..])
         == FeedResult(Done(cfg, handle, messageId, Flatten(ps), |ps|), [Flatten(ps)])
    decreases |ps| - k
  {
    var chunks := FrameChunks(ps, messageId)[k..];
    assert chunks[1..] == FrameChunks(ps, messageId)[k + 1..];
    var a := Flatten(ps[..k]);
    FlattenSnoc(ps[..k], ps[k]);
    assert ps[..k + 1] == ps[..k] + [ps[k]];
    FlattenPrefixLength(ps, k + 1);
    if k < |ps| - 1 {
      StepReceivingMore(cfg, Some(handle), messageId, a, k, ps[k]);
      FeedRest(cfg, handle, messageId, ps, k + 1);
    } else {
      assert ps[..k + 1] == ps;
      StepReceivingLast(cfg, handle, messageId, a, k, ps[k]);
      assert chunks[1..] == [];
    }
  }

  /** The firmware side of the round trip: a framed nonempty message that
      fits `maxMessageSize`, fed to a reassembler that is fresh or last saw
      another id, is delivered exactly once and in full, and the handler's
      reply is queued split under the same id. */
  lemma FeedFrames(cfg: Config, handle: Handler, s: ChunkerState, messageId: byte, ps: seq<seq<byte>>)
    requires ValidConfig(cfg) && Inv(cfg, s)
    requires ps != [] && |Flatten(ps)| <= cfg.maxMessageSize
    requires s.firstMessage || s.currentMessageId != messageId
    ensures Feed(cfg, Some(handle), s, FrameChunks(ps, messageId))
         == FeedResult(Done(cfg, handle, messageId, Flatten(ps), |ps|), [Flatten(ps)])
  {
    var chunks := FrameChunks(ps, messageId);
    var start := Receiving(messageId, Flatten(ps[..0]), 0);
    DecodeFramed(ChunkHead(messageId, 0, SplitFlags(0, |ps|)), ps[0]);
    assert start == Reset(s, messageId);
    assert Step(cfg, Some(handle), s, chunks[0]) == Step(cfg, Some(handle), start, chunks[0]);
    assert chunks[0..] == chunks;
    FeedRest(cfg, handle, messageId, ps, 0);
  }

  /** Check app to firmware: the chunks `splitIntoChunks` writes for a
      nonempty message reach `onMessage` as exactly that message, once, and
      leave the reassembler `Done`: the message assembled, its tail
      suppressed and the reply queued as the firmware's split of the
      handler's answer (which the client merges back by `ReplyReassembles`). */
  lemma CheckAppRoundTrip(cfg: Config, handle: Handler, s: ChunkerState, msg: seq<byte>, messageId: byte, maxBlobSize: nat)
    requires ValidConfig(cfg) && Inv(cfg, s)
    requires maxBlobSize > HEAD_SIZE
    requires msg != [] && |msg| <= cfg.maxMessageSize
    requires s.firstMessage || s.currentMessageId != messageId
    ensures Feed(cfg, Some(handle), s, CheckAppChunker.ClientSplit(msg, messageId, maxBlobSize - HEAD_SIZE))
         == FeedResult(Done(cfg, handle, messageId, msg, |Pieces(msg, maxBlobSize - HEAD_SIZE)|), [msg])
  {
    var cs := maxBlobSize - HEAD_SIZE;
    var ps := Pieces(msg, cs);
    CheckAppChunker.ClientSplitIsFirmwareFraming(msg, messageId, cs);
    PiecesFlatten(msg, cs);
    FeedFrames(cfg, handle, s, messageId, ps);
  }

  /** Firmware to client: every reply chunk holds a header, and the client's
      `mergeUint8Arrays` of the chunks with their headers sliced off gives the reply back. */
  lemma ReplyReassembles(reply: seq<byte>, messageId: byte, chunkSize: nat)
    requires chunkSize > 0
    ensures var r := SplitMessage(reply, messageId, chunkSize);
      && (forall j :: 0 <= j < |r| ==> |r[j]| >= HEAD_SIZE)
      && Flatten(Bodies(r)) == reply
  {
    var r := SplitMessage(reply, messageId, chunkSize);
    if reply == [] {
      DecodeFramed(ChunkHead(messageId, 0, FINAL_CHUNK_FLAG), []);
      assert Bodies(r) == [[]];
    } else {
      CheckAppChunker.BleChunkerShape(reply, messageId, chunkSize);
    }
  }

  /** Once a message's tail is suppressed, further chunks with its id change
      nothing and deliver nothing. */
  lemma {:induction false} FeedSuppressed(cfg: Config, onMessage: Option<Handler>, s: ChunkerState, chunks: seq<seq<byte>>)
    requires ValidConfig(cfg) && s.skipTail
    requires forall j :: 0 <= j < |chunks| ==> |chunks[j]| >= HEAD_SIZE && chunks[j][0] == s.currentMessageId
    ensures Feed(cfg, onMessage, s, chunks) == FeedResult(s, [])
    decreases |chunks|
  {
    if chunks != [] {
      FeedSuppressed(cfg, onMessage, s, chunks[1..]);
    }
  }

  /** A chunk of the command-line client, as the firmware decodes it: its
      payload behind a header whose sequence number has its bytes exchanged. */
  lemma CliChunkDecodes(messageId: byte, j: nat, flags: nat, p: seq<byte>)
    requires flags < 0x100
    ensures var c := CliToolsChunker.Encode(CheckAppChunker.ClientHead(messageId, j, flags)) + p;
      && |c| == HEAD_SIZE + |p|
      && c[HEAD_SIZE..] == p
      && DecodeHead(c) == ChunkHead(messageId, CliToolsChunker.Swap16(j % 0x1_0000), flags)
  {
    var head := CliToolsChunker.Encode(CheckAppChunker.ClientHead(messageId, j, flags));
    var c := head + p;
    CliToolsChunker.Framed(messageId, j, flags, p);
    CliToolsChunker.FirmwareReadsSwapped(messageId, j, flags);
    assert c[..HEAD_SIZE] == head;
    assert DecodeHead(c) == DecodeHead(head);
  }

  /** The first chunk of a new message, sequence 0 and not FINAL, is taken in. */
  lemma StepOpening(cfg: Config, onMessage: Option<Handler>, s: ChunkerState, messageId: byte, c: seq<byte>, p: seq<byte>)
    requires ValidConfig(cfg) && Inv(cfg, s) && |p| <= cfg.maxMessageSize
    requires s.firstMessage || s.currentMessageId != messageId
    requires |c| == HEAD_SIZE + |p| && c[HEAD_SIZE..] == p && DecodeHead(c) == ChunkHead(messageId, 0, 0)
    ensures Step(cfg, onMessage, s, c) == Outcome(Receiving(messageId, p, 1), None)
  {
    assert BitAnd(0, FINAL_CHUNK_FLAG) == 0;
  }

  /** A chunk of the current message with a sequence number other than the
      expected one, and room for its payload, is answered with MISSED and
      suppresses the rest of the message. */
  lemma StepOutOfSequence(cfg: Config, onMessage: Option<Handler>, t: ChunkerState, c: seq<byte>)
    requires ValidConfig(cfg) && |c| >= HEAD_SIZE
    requires !t.firstMessage && !t.skipTail && DecodeHead(c).messageId == t.currentMessageId
    requires t.messageSize + (|c| - HEAD_SIZE) <= cfg.maxMessageSize
    requires DecodeHead(c).sequenceNumber != t.expectedSequenceNumber
    ensures Step(cfg, onMessage, t, c)
         == Outcome(t.(skipTail := true, response := [ErrorChunk(t.currentMessageId, MISSED_CHUNKS_FLAG)]), None)
  {
  }

  /** The command-line client's multi-chunk messages never arrive: its
      second chunk carries sequence 1 high byte first, which the firmware
      reads as 256, so the firmware answers MISSED and drops the rest. */
  lemma CliMultiChunkRejected(cfg: Config, handle: Handler, s: ChunkerState, msg: seq<byte>, messageId: byte, chunkSize: nat)
    requires ValidConfig(cfg) && Inv(cfg, s) && chunkSize > 0
    requires |msg| > chunkSize && |msg| <= cfg.maxMessageSize
    requires s.firstMessage || s.currentMessageId != messageId
    ensures var r := Feed(cfg, Some(handle), s, CliToolsChunker.CliSplit(msg, messageId, chunkSize));
      && r.delivered == []
      && r.state.skipTail
      && r.state.response == [ErrorChunk(messageId, MISSED_CHUNKS_FLAG)]
  {
    var chunks := CliToolsChunker.CliSplit(msg, messageId, chunkSize);
    var ps := Pieces(msg, chunkSize);
    PiecesAt(msg, 0, chunkSize);
    assert msg[0..] == msg;
    assert |ps| >= 2;
    PiecesFlatten(msg, chunkSize);
    FlattenPrefixLength(ps, 2);
    assert ps[..2] == [ps[0], ps[1]];
    assert Flatten(ps[..2]) == ps[0] + ps[1];
    // first chunk: sequence 0 reads the same either way and is accepted
    assert chunks[0] == CliToolsChunker.Encode(CheckAppChunker.ClientHead(messageId, 0, 0)) + ps[0];
    CliChunkDecodes(messageId, 0, 0, ps[0]);
    StepOpening(cfg, Some(handle), s, messageId, chunks[0], ps[0]);
    var s1 := Receiving(messageId, ps[0], 1);
    // second chunk: sequence 1 reads as 256
    var flags := CheckAppChunker.SplitFlags(1, |ps|);
    assert chunks[1] == CliToolsChunker.Encode(CheckAppChunker.ClientHead(messageId, 1, flags)) + ps[1];
    CliChunkDecodes(messageId, 1, flags, ps[1]);
    assert CliToolsChunker.Swap16(1) == 0x100;
    StepOutOfSequence(cfg, Some(handle), s1, chunks[1]);
    // the rest carry the same id and are dropped
    forall j | 2 <= j < |chunks|
      ensures |chunks[j]| >= HEAD_SIZE && chunks[j][0] == messageId
    {
    }
    FeedRejected(cfg, Some(handle), s, s1, chunks);
  }

  /** A run whose first chunk is taken in and whose second is out of
      sequence ends suppressed with MISSED queued, when the rest all carry
      the message's id: nothing is delivered. */
  lemma FeedRejected(cfg: Config, onMessage: Option<Handler>, s: ChunkerState, s1: ChunkerState, chunks: seq<seq<byte>>)
    requires ValidConfig(cfg) && |chunks| >= 2
    requires Step(cfg, onMessage, s, chunks[0]) == Outcome(s1, None)
    requires Step(cfg, onMessage, s1, chunks[1])
          == Outcome(s1.(skipTail := true, response := [ErrorChunk(s1.currentMessageId, MISSED_CHUNKS_FLAG)]), None)
    requires forall j :: 2 <= j < |chunks| ==> |chunks[j]| >= HEAD_SIZE && chunks[j][0] == s1.currentMessageId
    ensures Feed(cfg, onMessage, s, chunks)
         == FeedResult(s1.(skipTail := true, response := [ErrorChunk(s1.currentMessageId, MISSED_CHUNKS_FLAG)]), [])
  {
    var s2 := s1.(skipTail := true, response := [ErrorChunk(s1.currentMessageId, MISSED_CHUNKS_FLAG)]);
    var rest := chunks[2..];
    assert chunks[1..][1..] == rest;
    forall j | 0 <= j < |rest|
      ensures |rest[j]| >= HEAD_SIZE && rest[j][0] == s2.currentMessageId
    {
      assert rest[j] == chunks[j + 2];
    }
    FeedSuppressed(cfg, onMessage, s2, rest);
  }

  /** The message [7, 8] split one payload byte per chunk (blob size 5) into two pieces. */
  lemma TwoPieces()
    ensures Pieces([7, 8], 1) == [[7], [8]]
  {
    var msg: seq<byte> := [7, 8];
    assert msg[..1] == [7] && msg[1..] == [8];
    assert Pieces(msg[1..], 1) == [[8]];
  }

  /** A concrete instance: blob size 5, message [7, 8] under id 1.  The two
      clients write the same first chunk; in the second, sequence 1 goes out
      as bytes (1, 0) from the check app and (0, 1) from the command line. */
  lemma TwoByteChunksExample()
    ensures CheckAppChunker.ClientSplit([7, 8], 1, 1) == [[1, 0, 0, 0, 7], [1, 1, 0, 1, 8]]
    ensures CliToolsChunker.CliSplit([7, 8], 1, 1) == [[1, 0, 0, 0, 7], [1, 0, 1, 1, 8]]
  {
    TwoPieces();
    var app := CheckAppChunker.ClientSplit([7, 8], 1, 1);
    assert |app| == 2;
    assert app[0] == CheckAppChunker.Encode(CheckAppChunker.ClientHead(1, 0, 0)) + [7] == [1, 0, 0, 0, 7];
    assert app[1] == CheckAppChunker.Encode(CheckAppChunker.ClientHead(1, 1, 1)) + [8] == [1, 1, 0, 1, 8];
    assert app == [app[0], app[1]];
    var cli := CliToolsChunker.CliSplit([7, 8], 1, 1);
    assert |cli| == 2;
    assert cli[0] == CliToolsChunker.Encode(CheckAppChunker.ClientHead(1, 0, 0)) + [7] == [1, 0, 0, 0, 7];
    assert cli[1] == CliToolsChunker.Encode(CheckAppChunker.ClientHead(1, 1, 1)) + [8] == [1, 0, 1, 1, 8];
    assert cli == [cli[0], cli[1]];
  }

  /** The same instance fed to a fresh reassembler: the check app's chunks
      deliver [7, 8]; the command-line client's draw the single MISSED|FINAL
      chunk [1, 0, 0, 3] and deliver nothing. */
  lemma TwoByteFeedExample(handle: Handler)
    ensures Feed(Config(500, 65536), Some(handle), InitialState(), [[1, 0, 0, 0, 7], [1, 1, 0, 1, 8]]).delivered == [[7, 8]]
    ensures var r := Feed(Config(500, 65536), Some(handle), InitialState(), [[1, 0, 0, 0, 7], [1, 0, 1, 1, 8]]);
      r.delivered == [] && r.state.response == [[1, 0, 0, 3]]
  {
    var cfg := Config(500, 65536);
    TwoByteChunksExample();
    CheckAppRoundTrip(cfg, handle, InitialState(), [7, 8], 1, 5);
    CliMultiChunkRejected(cfg, handle, InitialState(), [7, 8], 1, 1);
    assert BitOr(MISSED_CHUNKS_FLAG, FINAL_CHUNK_FLAG) == 3;
  }
}
