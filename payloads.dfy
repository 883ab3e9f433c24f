/** The partition of a message into transport-sized pieces that every split
    loop of the system performs: `for (i = 0; i < n; i += cs)` cutting
    `message[i .. min(i + cs, n)]`.  The firmware reply splitter and both
    client splitters frame these pieces with their own headers. */
module Payloads {
  import opened Bytes

  /** The pieces of `msg` of at most `cs` bytes each, in order. */
  function Pieces(msg: seq<byte>, cs: nat): seq<seq<byte>>
    requires cs > 0
    decreases |msg|
  {
    if msg == [] then []
    else if |msg| <= cs then [msg]
    else [msg[..cs]] + Pieces(msg[cs..], cs)
  }

  /** ceil(n / cs), written as the source's integer arithmetic would. */
  function ChunkCount(n: nat, cs: nat): nat
    requires cs > 0
  {
    (n + cs - 1) / cs
  }

  /** Concatenating the pieces gives back the message. */
  lemma {:induction false} PiecesFlatten(msg: seq<byte>, cs: nat)
    requires cs > 0
    ensures Flatten(Pieces(msg, cs)) == msg
    decreases |msg|
  {
    if |msg| > cs {
      PiecesFlatten(msg[cs..], cs);
      assert msg == msg[..cs] + msg[cs..];
    }
  }

  lemma DivStep(x: nat, cs: nat)
    requires cs > 0
    ensures (x + cs) / cs == x / cs + 1
  {
    var q, r := x / cs, x % cs;
    assert x + cs == (q + 1) * cs + r;
    DivUnique(x + cs, cs, q + 1, r);
  }

  /** There are ceil(|msg| / cs) pieces. */
  lemma {:induction false} PiecesCount(msg: seq<byte>, cs: nat)
    requires cs > 0
    ensures |Pieces(msg, cs)| == ChunkCount(|msg|, cs)
    decreases |msg|
  {
    var n := |msg|;
    if msg == [] {
      DivUnique(cs - 1, cs, 0, cs - 1);
    } else if n <= cs {
      DivUnique(n + cs - 1, cs, 1, n - 1);
    } else {
      PiecesCount(msg[cs..], cs);
      assert |msg[cs..]| + cs - 1 == n - 1;
      DivStep(n - 1, cs);
    }
  }

  /** Every piece is non-empty and at most `cs` long; all but the last are exactly `cs` long. */
  lemma {:induction false} PiecesShape(msg: seq<byte>, cs: nat)
    requires cs > 0
    ensures forall j :: 0 <= j < |Pieces(msg, cs)| ==> 0 < |Pieces(msg, cs)[j]| <= cs
    ensures forall j :: 0 <= j < |Pieces(msg, cs)| - 1 ==> |Pieces(msg, cs)[j]| == cs
    decreases |msg|
  {
    if |msg| > cs {
      PiecesShape(msg[cs..], cs);
    }
  }

  /** Unfolding the pieces of the suffix at offset `i` by one step. */
  lemma PiecesAt(msg: seq<byte>, i: nat, cs: nat)
    requires cs > 0 && i < |msg|
    ensures Pieces(msg[i..], cs) != []
    ensures Pieces(msg[i..], cs)[0] == msg[i..Min(i + cs, |msg|)]
    ensures i + cs < |msg| ==> Pieces(msg[i..], cs)[1..] == Pieces(msg[i + cs..], cs)
    ensures i + cs >= |msg| ==> |Pieces(msg[i..], cs)| == 1
  {
    if i + cs < |msg| {
      assert msg[i..][..cs] == msg[i..i + cs];
      assert msg[i..][cs..] == msg[i + cs..];
    }
  }

  /** The source computes a chunk's index as `i / chunkSize` with `i == k * chunkSize`. */
  lemma IndexOfOffset(k: nat, cs: nat)
    requires cs > 0
    ensures (k * cs) / cs == k
  {
    DivUnique(k * cs, cs, k, 0);
  }
}
