/** The firmware side of the chunk transport: the 4-byte chunk header, the
    reassembler state machine that turns inbound chunks into one message, and
    the splitter that turns the handler's reply into outbound chunks.

    Wire format of a chunk: byte 0 message id, bytes 1-2 sequence number
    (little-endian), byte 3 flags (FINAL, MISSED, OVERFLOW), then payload. */
module BleChunker {
  import opened Bytes
  import opened Wrappers
  import opened Payloads

  const HEAD_SIZE: nat := 4
  const FINAL_CHUNK_FLAG: byte := 0x01
  const MISSED_CHUNKS_FLAG: byte := 0x02
  const SIZE_OVERFLOW_FLAG: byte := 0x04

  /** The decoded header of a chunk. */
  datatype ChunkHead = ChunkHead(messageId: byte, sequenceNumber: uint16, flags: byte)

  /** Reads the header from the first four bytes of a chunk. */
  function DecodeHead(chunk: seq<byte>): ChunkHead
    requires |chunk| >= HEAD_SIZE
  {
    ChunkHead(chunk[0], (chunk[1] as int) + 0x100 * (chunk[2] as int), chunk[3])
  }

  /** The four bytes `fillTo` writes for a header. */
  function HeadBytes(h: ChunkHead): (r: seq<byte>)
    ensures |r| == HEAD_SIZE
    ensures DecodeHead(r) == h
    ensures r[0] == h.messageId && r[3] == h.flags
    ensures r[1] == h.sequenceNumber % 0x100 && r[2] == h.sequenceNumber / 0x100
  {
    [h.messageId, h.sequenceNumber % 0x100, (h.sequenceNumber / 0x100) % 0x100, h.flags]
  }

  /** Encoding the decoded header of a chunk gives back its first four bytes. */
  lemma HeadBytesOfDecode(chunk: seq<byte>)
    requires |chunk| >= HEAD_SIZE
    ensures HeadBytes(DecodeHead(chunk)) == chunk[..HEAD_SIZE]
  {
    var h := DecodeHead(chunk);
    assert h.sequenceNumber % 0x100 == chunk[1];
    assert h.sequenceNumber / 0x100 == chunk[2];
  }

  /** A chunk is decoded from its header alone, whatever payload follows. */
  lemma DecodeFramed(h: ChunkHead, payload: seq<byte>)
    ensures |HeadBytes(h) + payload| >= HEAD_SIZE
    ensures DecodeHead(HeadBytes(h) + payload) == h
    ensures (HeadBytes(h) + payload)[HEAD_SIZE..] == payload
  {
    var c := HeadBytes(h) + payload;
    assert c[..HEAD_SIZE] == HeadBytes(h);
    assert DecodeHead(c) == DecodeHead(c[..HEAD_SIZE]);
  }

  /** Writes a header into the first four bytes of a buffer, leaving the rest. */
  method FillTo(h: ChunkHead, chunk: array<byte>)
    requires chunk.Length >= HEAD_SIZE
    modifies chunk
    ensures chunk[..HEAD_SIZE] == HeadBytes(h)
    ensures forall j :: HEAD_SIZE <= j < chunk.Length ==> chunk[j] == old(chunk[j])
  {
    chunk[0] := h.messageId;
    chunk[1] := h.sequenceNumber % 0x100;
    chunk[2] := (h.sequenceNumber / 0x100) % 0x100;
    chunk[3] := h.flags;
  }

  /** The flags of chunk `j` of `count`: FINAL on the last one only. */
  function SplitFlags(j: nat, count: nat): byte {
    if j == count - 1 then FINAL_CHUNK_FLAG else 0
  }

  /** The pieces of a message, each behind a header carrying the message id,
      the piece index truncated to 16 bits, and FINAL on the last piece. */
  function FrameChunks(ps: seq<seq<byte>>, messageId: byte): (r: seq<seq<byte>>)
    ensures |r| == |ps|
  {
    seq(|ps|, j requires 0 <= j < |ps| =>
      HeadBytes(ChunkHead(messageId, j % 0x1_0000, SplitFlags(j, |ps|))) + ps[j])
  }

  /** The outbound chunks of a reply: one header-only FINAL chunk for an empty
      reply, otherwise the framed pieces of at most `chunkSize` bytes. */
  function SplitMessage(msg: seq<byte>, messageId: byte, chunkSize: nat): seq<seq<byte>>
    requires chunkSize > 0
  {
    if msg == [] then [HeadBytes(ChunkHead(messageId, 0, FINAL_CHUNK_FLAG))]
    else FrameChunks(Pieces(msg, chunkSize), messageId)
  }

  /** Each chunk of a list with its header stripped. */
  function Bodies(chunks: seq<seq<byte>>): (r: seq<seq<byte>>)
    requires forall j :: 0 <= j < |chunks| ==> |chunks[j]| >= HEAD_SIZE
    ensures |r| == |chunks|
    ensures forall j :: 0 <= j < |r| ==> chunks[j] == chunks[j][..HEAD_SIZE] + r[j]
  {
    seq(|chunks|, j requires 0 <= j < |chunks| => chunks[j][HEAD_SIZE..])
  }

  /** The single header-only chunk `sendErrorResponse` queues. */
  function ErrorChunk(messageId: byte, errorFlag: byte): seq<byte> {
    HeadBytes(ChunkHead(messageId, 0, BitOr(errorFlag, FINAL_CHUNK_FLAG)))
  }

  /** The reassembler's fields, as one value. */
  datatype ChunkerState = ChunkerState(
    currentMessageId: byte,
    messageSize: nat,
    expectedSequenceNumber: uint16,
    firstMessage: bool,
    skipTail: bool,
    assembledMessage: seq<byte>,
    response: seq<seq<byte>>)

  /** The constructor's two size limits. */
  datatype Config = Config(maxChunkSize: nat, maxMessageSize: nat)

  predicate ValidConfig(cfg: Config) {
    cfg.maxChunkSize > HEAD_SIZE
  }

  /** The message callback `onMessage`: full request in, reply out. */
  type Handler = seq<byte> -> seq<byte>

  /** The new state after one chunk, and the message handed to `onMessage`, if any. */
  datatype Outcome = Outcome(state: ChunkerState, delivered: Option<seq<byte>>)

  /** The state right after construction.  `currentMessageId` is left
      uninitialised by the source; `firstMessage` makes its value irrelevant. */
  function InitialState(): ChunkerState {
    ChunkerState(0, 0, 0, true, false, [], [])
  }

  /** What holds of the reassembler between calls. */
  predicate Inv(cfg: Config, s: ChunkerState) {
    && s.messageSize == |s.assembledMessage| <= cfg.maxMessageSize
    && (s.firstMessage ==> !s.skipTail && s.assembledMessage == [] && s.expectedSequenceNumber == 0)
  }

  /** `resetState` after adopting a new message id. */
  function Reset(s: ChunkerState, messageId: byte): ChunkerState {
    s.(currentMessageId := messageId, assembledMessage := [], response := [], messageSize := 0,
       expectedSequenceNumber := 0, firstMessage := false, skipTail := false)
  }

  /** A chunk of a new message (or the first chunk ever) resets the state and adopts its id. */
  function Adopt(s: ChunkerState, messageId: byte): ChunkerState {
    if s.firstMessage || messageId != s.currentMessageId then Reset(s, messageId) else s
  }

  /** The size check, the sequence check, and the append of an accepted chunk,
      on the state after `Adopt`. */
  function Accept(cfg: Config, onMessage: Option<Handler>, t: ChunkerState, head: ChunkHead, chunk: seq<byte>): Outcome
    requires ValidConfig(cfg) && |chunk| >= HEAD_SIZE
  {
    var newMessageSize := t.messageSize + (|chunk| - HEAD_SIZE);
    if newMessageSize > cfg.maxMessageSize then
      Outcome(t.(skipTail := true, response := [ErrorChunk(t.currentMessageId, SIZE_OVERFLOW_FLAG)]), None)
    else if head.sequenceNumber != t.expectedSequenceNumber then
      Outcome(t.(skipTail := true, response := [ErrorChunk(t.currentMessageId, MISSED_CHUNKS_FLAG)]), None)
    else
      var u := t.(assembledMessage := t.assembledMessage + chunk[HEAD_SIZE..],
                  messageSize := newMessageSize,
                  expectedSequenceNumber := (t.expectedSequenceNumber + 1) % 0x1_0000);
      if BitAnd(head.flags, FINAL_CHUNK_FLAG) == 0 then Outcome(u, None)
      else
        match onMessage
        case None => Outcome(u.(skipTail := true), None)
        case Some(handle) =>
          Outcome(u.(skipTail := true,
                     response := SplitMessage(handle(u.assembledMessage), u.currentMessageId,
                                              cfg.maxChunkSize - HEAD_SIZE)),
                  Some(u.assembledMessage))
  }

  /** An accepted FINAL chunk hands the whole message to the handler and queues the split reply. */
  lemma AcceptFinal(cfg: Config, handle: Handler, t: ChunkerState, head: ChunkHead, chunk: seq<byte>)
    requires ValidConfig(cfg) && |chunk| >= HEAD_SIZE
    requires t.messageSize + (|chunk| - HEAD_SIZE) <= cfg.maxMessageSize
    requires head.sequenceNumber == t.expectedSequenceNumber
    requires BitAnd(head.flags, FINAL_CHUNK_FLAG) != 0
    ensures
      var msg := t.assembledMessage + chunk[HEAD_SIZE..];
      Accept(cfg, Some(handle), t, head, chunk)
      == Outcome(t.(assembledMessage := msg,
                    messageSize := t.messageSize + (|chunk| - HEAD_SIZE),
                    expectedSequenceNumber := (t.expectedSequenceNumber + 1) % 0x1_0000,
                    skipTail := true,
                    response := SplitMessage(handle(msg), t.currentMessageId, cfg.maxChunkSize - HEAD_SIZE)),
                 Some(msg))
  {
  }

  /** One call of `consumeChunk`: short chunks and the tail of a finished or
      failed message are dropped; everything else goes through `Adopt` and `Accept`. */
  function Step(cfg: Config, onMessage: Option<Handler>, s: ChunkerState, chunk: seq<byte>): Outcome
    requires ValidConfig(cfg)
  {
    if |chunk| < HEAD_SIZE then Outcome(s, None)
    else
      var head := DecodeHead(chunk);
      if s.skipTail && head.messageId == s.currentMessageId then Outcome(s, None)
      else Accept(cfg, onMessage, Adopt(s, head.messageId), head, chunk)
  }

  /** The reassembler object of one session. */
  class Chunker {
    const maxChunkSize: nat
    const maxMessageSize: nat
    var onMessage: Option<Handler>
    var response: seq<seq<byte>>
    var currentMessageId: byte
    var messageSize: nat
    var expectedSequenceNumber: uint16
    var firstMessage: bool
    var skipTail: bool
    var assembledMessage: seq<byte>

    function Cfg(): Config
      reads this
    {
      Config(maxChunkSize, maxMessageSize)
    }

    function State(): ChunkerState
      reads this
    {
      ChunkerState(currentMessageId, messageSize, expectedSequenceNumber, firstMessage, skipTail,
                   assembledMessage, response)
    }

    ghost predicate Valid()
      reads this
    {
      ValidConfig(Cfg()) && Inv(Cfg(), State())
    }

    constructor (maxChunkSize: nat, maxMessageSize: nat)
      requires maxChunkSize > HEAD_SIZE
      ensures Valid()
      ensures this.maxChunkSize == maxChunkSize && this.maxMessageSize == maxMessageSize
      ensures State() == InitialState() && onMessage == None
    {
      this.maxChunkSize := maxChunkSize;
      this.maxMessageSize := maxMessageSize;
      onMessage := None;
      response := [];
      currentMessageId := 0;
      messageSize := 0;
      expectedSequenceNumber := 0;
      firstMessage := true;
      skipTail := false;
      assembledMessage := [];
    }

    method ConsumeChunk(chunk: seq<byte>)
      requires Valid()
      modifies this
      ensures Valid() && onMessage == old(onMessage)
      ensures State() == Step(Cfg(), onMessage, old(State()), chunk).state
    {
      if |chunk| < HEAD_SIZE {
        return;
      }
      var head := DecodeHead(chunk);
      if skipTail && head.messageId == currentMessageId {
        return;
      }
      if firstMessage || head.messageId != currentMessageId {
        currentMessageId := head.messageId;
        ResetState();
      }
      AcceptChunk(head, chunk);
    }

    /** The part of `consumeChunk` after the message id has been adopted. */
    method AcceptChunk(head: ChunkHead, chunk: seq<byte>)
      requires Valid() && !firstMessage && |chunk| >= HEAD_SIZE
      modifies this
      ensures Valid() && onMessage == old(onMessage)
      ensures State() == Accept(Cfg(), onMessage, old(State()), head, chunk).state
    {
      ghost var t := State();
      ghost var out := Accept(Cfg(), onMessage, t, head, chunk);
      var newMessageSize := messageSize + (|chunk| - HEAD_SIZE);
      if newMessageSize > maxMessageSize {
        Reject(SIZE_OVERFLOW_FLAG);
        return;
      }
      if head.sequenceNumber != expectedSequenceNumber {
        Reject(MISSED_CHUNKS_FLAG);
        return;
      }
      assembledMessage := assembledMessage + chunk[HEAD_SIZE..];
      messageSize := newMessageSize;
      expectedSequenceNumber := (expectedSequenceNumber + 1) % 0x1_0000;
      if BitAnd(head.flags, FINAL_CHUNK_FLAG) != 0 {
        skipTail := true;
        if onMessage.Some? {
          AcceptFinal(Cfg(), onMessage.value, t, head, chunk);
          response := SplitMessageToChunks(onMessage.value(assembledMessage));
        }
      }
    }

    /** The error path of `consumeChunk`: the rest of the message is
        suppressed and the error chunk queued. */
    method Reject(errorFlag: byte)
      requires Valid() && !firstMessage
      modifies this
      ensures Valid() && onMessage == old(onMessage)
      ensures State() == old(State()).(skipTail := true, response := [ErrorChunk(old(currentMessageId), errorFlag)])
    {
      skipTail := true;
      SendErrorResponse(errorFlag);
    }

    method ResetState()
      modifies this
      ensures State() == Reset(old(State()), old(currentMessageId))
      ensures onMessage == old(onMessage)
    {
      assembledMessage := [];
      response := [];
      messageSize := 0;
      expectedSequenceNumber := 0;
      firstMessage := false;
      skipTail := false;
    }

    method SendErrorResponse(errorFlag: byte)
      modifies this`response
      ensures response == [ErrorChunk(currentMessageId, errorFlag)]
    {
      var errorChunk := new byte[HEAD_SIZE];
      FillTo(ChunkHead(currentMessageId, 0, BitOr(errorFlag, FINAL_CHUNK_FLAG)), errorChunk);
      assert errorChunk[..] == errorChunk[..HEAD_SIZE];
      response := [errorChunk[..]];
    }

    /** One outbound chunk: a buffer sized for header and data, the header
        filled in, then the data inserted behind it. */
    static method BuildChunk(head: ChunkHead, data: seq<byte>) returns (chunk: seq<byte>)
      ensures chunk == HeadBytes(head) + data
    {
      var buffer := new byte[HEAD_SIZE + |data|];
      FillTo(head, buffer);
      forall j | 0 <= j < |data| {
        buffer[HEAD_SIZE + j] := data[j];
      }
      assert buffer[..] == buffer[..HEAD_SIZE] + data;
      chunk := buffer[..];
    }

    method SplitMessageToChunks(message: seq<byte>) returns (chunks: seq<seq<byte>>)
      requires maxChunkSize > HEAD_SIZE
      ensures chunks == SplitMessage(message, currentMessageId, maxChunkSize - HEAD_SIZE)
    {
      chunks := [];
      var totalSize := |message|;
      var chunkSize := maxChunkSize - HEAD_SIZE;
      if totalSize == 0 {
        var emptyChunk := new byte[HEAD_SIZE];
        FillTo(ChunkHead(currentMessageId, 0, FINAL_CHUNK_FLAG), emptyChunk);
        assert emptyChunk[..] == emptyChunk[..HEAD_SIZE];
        chunks := chunks + [emptyChunk[..]];
        return;
      }
      ghost var ps := Pieces(message, chunkSize);
      ghost var k: nat := 0;
      var i: nat := 0;
      while i < totalSize
        invariant i == k * chunkSize && k <= |ps|
        invariant i < totalSize ==> Pieces(message[i..], chunkSize) == ps[k..]
        invariant i >= totalSize ==> k == |ps|
        invariant chunks == FrameChunks(ps, currentMessageId)[..k]
      {
        var end := if i + chunkSize > totalSize then totalSize else i + chunkSize;
        PiecesAt(message, i, chunkSize);
        assert ps[k] == message[i..end];
        assert end == totalSize <==> k == |ps| - 1;
        IndexOfOffset(k, chunkSize);
        var head := ChunkHead(currentMessageId, (i / chunkSize) % 0x1_0000,
                              if end == totalSize then FINAL_CHUNK_FLAG else 0);
        var chunk := BuildChunk(head, message[i..end]);
        assert chunk == FrameChunks(ps, currentMessageId)[k];
        assert FrameChunks(ps, currentMessageId)[..k + 1] == FrameChunks(ps, currentMessageId)[..k] + [chunk];
        chunks := chunks + [chunk];
        assert (k + 1) * chunkSize == k * chunkSize + chunkSize;
        i := i + chunkSize;
        k := k + 1;
      }
    }
  }
}
