/** Properties of the firmware reassembler step and of the reply splitter. */
module BleChunkerProofs {
  import opened Bytes
  import opened Wrappers
  import opened Payloads
  import opened BleChunker

  /** A chunk shorter than its header changes nothing and delivers nothing. */
  lemma ShortChunkIgnored(cfg: Config, onMessage: Option<Handler>, s: ChunkerState, chunk: seq<byte>)
    requires ValidConfig(cfg) && |chunk| < HEAD_SIZE
    ensures Step(cfg, onMessage, s, chunk) == Outcome(s, None)
  {
  }

  /** After an error or a FINAL chunk, further chunks of the same message are dropped. */
  lemma TailSuppressed(cfg: Config, onMessage: Option<Handler>, s: ChunkerState, chunk: seq<byte>)
    requires ValidConfig(cfg) && |chunk| >= HEAD_SIZE
    requires s.skipTail && chunk[0] == s.currentMessageId
    ensures Step(cfg, onMessage, s, chunk) == Outcome(s, None)
  {
  }

  /** The first chunk ever, or a chunk with a new id, is judged against a
      fresh state: empty message and response, size and sequence zero, tail
      suppression off, the new id adopted. */
  lemma NewMessageResets(cfg: Config, onMessage: Option<Handler>, s: ChunkerState, chunk: seq<byte>)
    requires ValidConfig(cfg) && |chunk| >= HEAD_SIZE
    requires !(s.skipTail && chunk[0] == s.currentMessageId)
    requires s.firstMessage || chunk[0] != s.currentMessageId
    ensures Step(cfg, onMessage, s, chunk)
         == Accept(cfg, onMessage,
                   ChunkerState(chunk[0], 0, 0, false, false, [], []),
                   DecodeHead(chunk), chunk)
  {
  }

  /** The first rejection: a payload that would push the message past
      `maxMessageSize` queues one header-only OVERFLOW|FINAL chunk, sets
      `skipTail`, keeps the message so far and delivers nothing; this is
      decided before the sequence number is looked at. */
  lemma OverflowRejected(cfg: Config, onMessage: Option<Handler>, s: ChunkerState, chunk: seq<byte>)
    requires ValidConfig(cfg) && |chunk| >= HEAD_SIZE
    requires !(s.skipTail && chunk[0] == s.currentMessageId)
    requires Adopt(s, chunk[0]).messageSize + (|chunk| - HEAD_SIZE) > cfg.maxMessageSize
    ensures var out := Step(cfg, onMessage, s, chunk);
      var t := Adopt(s, chunk[0]);
      && out.delivered == None
      && out.state == t.(skipTail := true, response := out.state.response)
      && |out.state.response| == 1
      && out.state.response[0] == [chunk[0], 0, 0, SIZE_OVERFLOW_FLAG + FINAL_CHUNK_FLAG]
      && DecodeHead(out.state.response[0]) == ChunkHead(chunk[0], 0, 5)
  {
    assert BitOr(SIZE_OVERFLOW_FLAG, FINAL_CHUNK_FLAG) == 5;
  }

  /** The second rejection: an in-size chunk whose sequence number is not the
      expected one queues one header-only MISSED|FINAL chunk, sets `skipTail`
      and does not call `onMessage`. */
  lemma MissedRejected(cfg: Config, onMessage: Option<Handler>, s: ChunkerState, chunk: seq<byte>)
    requires ValidConfig(cfg) && |chunk| >= HEAD_SIZE
    requires !(s.skipTail && chunk[0] == s.currentMessageId)
    requires Adopt(s, chunk[0]).messageSize + (|chunk| - HEAD_SIZE) <= cfg.maxMessageSize
    requires DecodeHead(chunk).sequenceNumber != Adopt(s, chunk[0]).expectedSequenceNumber
    ensures var out := Step(cfg, onMessage, s, chunk);
      var t := Adopt(s, chunk[0]);
      && out.delivered == None
      && out.state == t.(skipTail := true, response := out.state.response)
      && |out.state.response| == 1
      && out.state.response[0] == [chunk[0], 0, 0, MISSED_CHUNKS_FLAG + FINAL_CHUNK_FLAG]
      && DecodeHead(out.state.response[0]) == ChunkHead(chunk[0], 0, 3)
  {
    assert BitOr(MISSED_CHUNKS_FLAG, FINAL_CHUNK_FLAG) == 3;
  }

  /** An accepted chunk appends exactly its payload and advances the expected
      sequence number (16-bit); only a FINAL one sets `skipTail`, and a FINAL
      one with a handler delivers the whole message and queues its reply. */
  lemma Accepted(cfg: Config, onMessage: Option<Handler>, s: ChunkerState, chunk: seq<byte>)
    requires ValidConfig(cfg) && |chunk| >= HEAD_SIZE
    requires !(s.skipTail && chunk[0] == s.currentMessageId)
    requires Adopt(s, chunk[0]).messageSize + (|chunk| - HEAD_SIZE) <= cfg.maxMessageSize
    requires DecodeHead(chunk).sequenceNumber == Adopt(s, chunk[0]).expectedSequenceNumber
    ensures var out := Step(cfg, onMessage, s, chunk);
      var t := Adopt(s, chunk[0]);
      var final := BitAnd(chunk[3], FINAL_CHUNK_FLAG) != 0;
      && out.state.assembledMessage == t.assembledMessage + chunk[HEAD_SIZE..]
      && out.state.messageSize == t.messageSize + (|chunk| - HEAD_SIZE)
      && out.state.expectedSequenceNumber == (t.expectedSequenceNumber + 1) % 0x1_0000
      && out.state.currentMessageId == chunk[0]
      && !out.state.firstMessage
      && out.state.skipTail == final
      && (final && onMessage.Some? ==>
            && out.delivered == Some(out.state.assembledMessage)
            && out.state.response == SplitMessage(onMessage.value(out.state.assembledMessage), chunk[0],
                                                  cfg.maxChunkSize - HEAD_SIZE))
      && (!(final && onMessage.Some?) ==> out.delivered == None && out.state.response == t.response)
  {
  }

  /** `messageSize` tracks the length of the message so far, which never
      exceeds `maxMessageSize`; every step keeps this. */
  lemma StepPreservesInv(cfg: Config, onMessage: Option<Handler>, s: ChunkerState, chunk: seq<byte>)
    requires ValidConfig(cfg) && Inv(cfg, s)
    ensures Inv(cfg, Step(cfg, onMessage, s, chunk).state)
  {
  }

  /** Only an accepted FINAL chunk delivers, and what it delivers is the state's message. */
  lemma DeliveryOnlyOnFinal(cfg: Config, onMessage: Option<Handler>, s: ChunkerState, chunk: seq<byte>)
    requires ValidConfig(cfg)
    ensures var out := Step(cfg, onMessage, s, chunk);
      out.delivered.Some? ==>
        && |chunk| >= HEAD_SIZE
        && BitAnd(chunk[3], FINAL_CHUNK_FLAG) != 0
        && onMessage.Some?
        && out.delivered.value == out.state.assembledMessage
        && out.state.skipTail
  {
  }

  /** The outbound split: an empty reply is one header-only FINAL chunk with
      sequence 0; otherwise ceil(n / chunkSize) chunks, chunk j carrying the
      message id, sequence j (16-bit) and FINAL on the last one only, each
      at most `chunkSize` payload bytes behind its header, all but the last
      full, and the payloads concatenate back to the message. */
  lemma {:induction false} SplitMessageShape(msg: seq<byte>, messageId: byte, chunkSize: nat)
    requires chunkSize > 0
    ensures var r := SplitMessage(msg, messageId, chunkSize);
      && |r| == (if msg == [] then 1 else ChunkCount(|msg|, chunkSize))
      && (forall j :: 0 <= j < |r| ==>
            && HEAD_SIZE <= |r[j]| <= HEAD_SIZE + chunkSize
            && DecodeHead(r[j]) == ChunkHead(messageId, j % 0x1_0000, SplitFlags(j, |r|)))
      && (msg != [] ==> forall j :: 0 <= j < |r| ==> |r[j]| > HEAD_SIZE)
      && (forall j :: 0 <= j < |r| - 1 ==> |r[j]| == HEAD_SIZE + chunkSize)
      && Flatten(Bodies(r)) == msg
  {
    var r := SplitMessage(msg, messageId, chunkSize);
    if msg == [] {
      DecodeFramed(ChunkHead(messageId, 0, FINAL_CHUNK_FLAG), []);
      assert r[0] == HeadBytes(ChunkHead(messageId, 0, FINAL_CHUNK_FLAG)) + [];
      assert Bodies(r) == [[]];
    } else {
      var ps := Pieces(msg, chunkSize);
      PiecesCount(msg, chunkSize);
      PiecesShape(msg, chunkSize);
      PiecesFlatten(msg, chunkSize);
      forall j | 0 <= j < |r|
        ensures |r[j]| == HEAD_SIZE + |ps[j]|
        ensures DecodeHead(r[j]) == ChunkHead(messageId, j % 0x1_0000, SplitFlags(j, |r|))
        ensures r[j][HEAD_SIZE..] == ps[j]
      {
        DecodeFramed(ChunkHead(messageId, j % 0x1_0000, SplitFlags(j, |ps|)), ps[j]);
      }
      assert Bodies(r) == ps;
    }
  }

  /** The error chunk is the four header bytes: id, sequence 0, the flag with FINAL. */
  lemma ErrorChunkBytes(messageId: byte, errorFlag: byte)
    ensures ErrorChunk(messageId, errorFlag) == [messageId, 0, 0, BitOr(errorFlag, FINAL_CHUNK_FLAG)]
    ensures BitAnd(ErrorChunk(messageId, errorFlag)[3], FINAL_CHUNK_FLAG) != 0
  {
    var f := errorFlag as bv8;
    assert (f | 1) & 1 == 1;
  }
}
