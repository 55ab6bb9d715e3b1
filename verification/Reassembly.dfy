/**
 The inverse of fragmentation. The repository names reassembly but has no reassembler; this one
 writes each body at its offset and stops where the LAST fragment ends.
 */
module Reassembly {
  import opened Words
  import opened Wire
  import opened Fragment

  predicate IsLast(p: Piece) {
    p.flags >= LAST
  }

  /** Where the frame ends, once a piece flagged LAST has been received. */
  function End(received: seq<Piece>, fid: u16): Option<nat> {
    if received == [] then None
    else
      var p := received[|received| - 1];
      if p.frameId == fid && IsLast(p) then Some(p.offset + |p.body|)
      else End(received[..|received| - 1], fid)
  }

  function ByteAt(p: Piece, i: nat): u8
    requires p.offset <= i < p.offset + |p.body|
  {
    p.body[i - p.offset]
  }

  /** The bytes written so far, by position. */
  function Written(received: seq<Piece>, fid: u16): map<nat, u8> {
    if received == [] then map[]
    else
      var m, p := Written(received[..|received| - 1], fid), received[|received| - 1];
      if p.frameId == fid then
        m + map i: nat | p.offset <= i < p.offset + |p.body| :: ByteAt(p, i)
      else m
  }

  predicate NoGaps(m: map<nat, u8>, n: nat) {
    forall i: nat {:trigger i in m} :: i < n ==> i in m
  }

  /** The frame, when its end is known and no byte before it is missing. */
  function Reassemble(received: seq<Piece>, fid: u16): Option<seq<u8>> {
    match End(received, fid)
    case None => None
    case Some(n) =>
      var m := Written(received, fid);
      if NoGaps(m, n) then Some(seq(n, i requires 0 <= i < n => m[i])) else None
  }

  // ---------------------------------------------------------------- what is written

  predicate Covers(p: Piece, fid: u16, i: nat) {
    p.frameId == fid && p.offset <= i < p.offset + |p.body|
  }

  ghost predicate Covered(received: seq<Piece>, fid: u16, i: nat) {
    exists p :: p in received && Covers(p, fid, i)
  }

  ghost predicate LastSeen(received: seq<Piece>, fid: u16) {
    exists p :: p in received && p.frameId == fid && IsLast(p)
  }

  /** Every received piece of frame `fid` carries the bytes of `frame` at its offset. */
  ghost predicate Faithful(received: seq<Piece>, fid: u16, frame: seq<u8>) {
    forall p | p in received && p.frameId == fid ::
      p.offset + |p.body| <= |frame| && frame[p.offset..p.offset + |p.body|] == p.body
  }

  /** A byte has been written exactly when a received piece covers it, and then it is the frame's. */
  lemma {:induction false} WrittenMeaning(received: seq<Piece>, fid: u16, frame: seq<u8>, i: nat)
    requires Faithful(received, fid, frame)
    ensures i in Written(received, fid) <==> Covered(received, fid, i)
    ensures i in Written(received, fid) ==> i < |frame| && Written(received, fid)[i] == frame[i]
  {
    if received != [] {
      var init, p := received[..|received| - 1], received[|received| - 1];
      assert received == init + [p];
      WrittenMeaning(init, fid, frame, i);
      if Covers(p, fid, i) {
        assert frame[p.offset..p.offset + |p.body|][i - p.offset] == frame[i];
      }
    }
  }

  /** Every received LAST piece ends where the frame ends. */
  ghost predicate EndsRight(received: seq<Piece>, fid: u16, frame: seq<u8>) {
    forall p | p in received && p.frameId == fid && IsLast(p) :: p.offset + |p.body| == |frame|
  }

  lemma {:induction false} EndMeaning(received: seq<Piece>, fid: u16, length: nat)
    requires forall p | p in received && p.frameId == fid && IsLast(p) :: p.offset + |p.body| == length
    ensures End(received, fid) == if LastSeen(received, fid) then Some(length) else None
  {
    if received != [] {
      var init, p := received[..|received| - 1], received[|received| - 1];
      assert received == init + [p];
      EndMeaning(init, fid, length);
    }
  }

  /** Faithful pieces reassemble to the frame exactly when they cover it up to a known end. */
  lemma ReassembleFaithful(received: seq<Piece>, fid: u16, frame: seq<u8>)
    requires Faithful(received, fid, frame) && EndsRight(received, fid, frame)
    ensures var whole := LastSeen(received, fid) && forall i: nat :: i < |frame| ==> Covered(received, fid, i);
            Reassemble(received, fid) == if whole then Some(frame) else None
  {
    EndMeaning(received, fid, |frame|);
    var m := Written(received, fid);
    forall i: nat | i < |frame|
      ensures i in m <==> Covered(received, fid, i)
      ensures i in m ==> m[i] == frame[i]
    {
      WrittenMeaning(received, fid, frame, i);
    }
    if LastSeen(received, fid) && NoGaps(m, |frame|) {
      assert seq(|frame|, i requires 0 <= i < |frame| => m[i]) == frame;
      assert forall i: nat :: i < |frame| ==> i in m;
    } else if LastSeen(received, fid) {
      var i: nat :| i < |frame| && i !in m;
      assert !Covered(received, fid, i);
    }
  }

  // ---------------------------------------------------------------- pieces laid end to end

  /** The pieces carry consecutive stretches of the frame, and only the last is flagged LAST. */
  ghost predicate Layout(ps: seq<Piece>, frame: seq<u8>, fid: u16) {
    && ps != []
    && ps[0].offset == 0
    && (forall k | 0 <= k < |ps| :: Placed(ps[k], frame, fid) && (IsLast(ps[k]) <==> k == |ps| - 1))
    && (forall k | 0 <= k < |ps| - 1 :: Adjacent(ps[k], ps[k + 1]))
    && ps[|ps| - 1].offset + |ps[|ps| - 1].body| == |frame|
  }

  predicate Placed(p: Piece, frame: seq<u8>, fid: u16) {
    p.frameId == fid && p.offset + |p.body| <= |frame| && frame[p.offset..p.offset + |p.body|] == p.body
  }

  predicate Adjacent(p: Piece, q: Piece) {
    p.body != [] && q.offset == p.offset + |p.body|
  }

  /** Only pieces of this frame, in any order, any number of times, some perhaps not at all. */
  ghost predicate OnlyFrom(received: seq<Piece>, ps: seq<Piece>, fid: u16) {
    forall p | p in received && p.frameId == fid :: p in ps
  }

  ghost predicate AllIn(received: seq<Piece>, ps: seq<Piece>) {
    forall p | p in ps :: p in received
  }

  lemma {:induction false} LaidInOrder(ps: seq<Piece>, frame: seq<u8>, fid: u16, j: nat, k: nat)
    requires Layout(ps, frame, fid) && j < k < |ps|
    ensures ps[j].body != [] && ps[j].offset + |ps[j].body| <= ps[k].offset
  {
    assert Adjacent(ps[k - 1], ps[k]);
    if j < k - 1 {
      LaidInOrder(ps, frame, fid, j, k - 1);
    }
  }

  /** Some piece up to `k` carries byte `i`, when the pieces up to `k` reach that far. */
  lemma {:induction false} PieceCovering(ps: seq<Piece>, frame: seq<u8>, fid: u16, k: nat, i: nat) returns (p: Piece)
    requires Layout(ps, frame, fid) && k < |ps| && i < ps[k].offset + |ps[k].body|
    ensures p in ps && Covers(p, fid, i)
  {
    assert Placed(ps[k], frame, fid);
    if i >= ps[k].offset {
      p := ps[k];
    } else {
      assert Adjacent(ps[k - 1], ps[k]);
      p := PieceCovering(ps, frame, fid, k - 1, i);
    }
  }

  /** A missing piece leaves its first byte uncovered, or the end of the frame unknown. */
  lemma MissingPiece(received: seq<Piece>, ps: seq<Piece>, frame: seq<u8>, fid: u16, k: nat)
    requires Layout(ps, frame, fid) && OnlyFrom(received, ps, fid)
    requires k < |ps| && ps[k] !in received
    ensures !LastSeen(received, fid) || (ps[k].offset < |frame| && !Covered(received, fid, ps[k].offset))
  {
    if LastSeen(received, fid) {
      var last :| last in received && last.frameId == fid && IsLast(last);
      assert last == ps[|ps| - 1];
      assert Placed(ps[k], frame, fid) && Adjacent(ps[k], ps[k + 1]);
      if Covered(received, fid, ps[k].offset) {
        var p :| p in received && Covers(p, fid, ps[k].offset);
        var j :| 0 <= j < |ps| && ps[j] == p;
        if j < k {
          LaidInOrder(ps, frame, fid, j, k);
        } else if k < j {
          LaidInOrder(ps, frame, fid, k, j);
        }
      }
    }
  }

  /** A frame laid out in pieces comes back exactly when all of them have arrived. */
  lemma ReassembleLayout(received: seq<Piece>, ps: seq<Piece>, frame: seq<u8>, fid: u16)
    requires Layout(ps, frame, fid) && OnlyFrom(received, ps, fid)
    ensures Reassemble(received, fid) == if AllIn(received, ps) then Some(frame) else None
  {
    forall p | p in received && p.frameId == fid
      ensures Placed(p, frame, fid) && (IsLast(p) ==> p.offset + |p.body| == |frame|)
    {
      var k :| 0 <= k < |ps| && ps[k] == p;
    }
    ReassembleFaithful(received, fid, frame);
    if AllIn(received, ps) {
      assert ps[|ps| - 1] in received;
      forall i: nat | i < |frame| ensures Covered(received, fid, i) {
        var p := PieceCovering(ps, frame, fid, |ps| - 1, i);
      }
    } else {
      var p :| p in ps && p !in received;
      var k :| 0 <= k < |ps| && ps[k] == p;
      MissingPiece(received, ps, frame, fid, k);
    }
  }

  // ---------------------------------------------------------------- the pieces of one frame

  /** The offset of the last piece, before it is cut to sixteen bits. */
  function LastOffset(length: nat, usable: nat): nat
    requires Cuttable(length, usable)
  {
    if length <= usable then 0 else (ChunkCount(length, usable) - 1) * usable
  }

  lemma PieceAt(frame: seq<u8>, usable: nat, fid: u16, k: nat)
    requires Cuttable(|frame|, usable) && k < |Pieces(frame, usable, fid)|
    ensures var ps := Pieces(frame, usable, fid);
            var p := ps[k];
            && p.frameId == fid
            && p.offset == (k * usable) % 0x1_0000
            && k * usable + |p.body| <= |frame| && |p.body| <= usable
            && p.body == frame[k * usable..k * usable + |p.body|]
            && (IsLast(p) <==> k + 1 == |ps|)
            && p.flags == (if k == 0 then 1 else 0) + (if k + 1 == |ps| then 2 else 0)
            && p.index == k % 0x100 && p.count == |ps| % 0x100
            && k * usable <= LastOffset(|frame|, usable)
            && (k + 1 < |ps| ==> |p.body| == usable && (k + 1) * usable == k * usable + |p.body|)
            && (k + 1 == |ps| ==> k * usable + |p.body| == |frame| && k * usable == LastOffset(|frame|, usable))
  {
    if |frame| > usable {
      TwoChunks(|frame|, usable);
      ChunkPlace(|frame|, usable, k, k * usable);
      assert Pieces(frame, usable, fid)[k] == NthPiece(frame, usable, fid, k);
    } else {
      assert k == 0 && 0 * usable == 0;
    }
  }

  /** Where chunk k, which starts at `at`, lies in a frame of the given length. */
  lemma ChunkPlace(length: nat, usable: nat, k: nat, at: nat)
    requires 0 < usable < length && k < ChunkCount(length, usable) && at == k * usable
    ensures at < length && at <= LastOffset(length, usable)
    ensures (k + 1) * usable == at + usable
    ensures k + 1 < ChunkCount(length, usable) ==> at + usable < length
    ensures k + 1 == ChunkCount(length, usable) ==> length <= at + usable && at == LastOffset(length, usable)
  {
    var n := ChunkCount(length, usable);
    ChunkStart(length, usable, k);
    ChunkBounds(length, usable);
    MulSign(usable, n - 1 - k);
    assert (n - 1 - k) * usable == (n - 1) * usable - at;
    assert (n - 1) * usable == n * usable - usable;
    assert (k + 1) * usable == at + usable;
  }

  lemma PiecePlaced(frame: seq<u8>, usable: nat, fid: u16, k: nat, ps: seq<Piece>, at: nat)
    requires usable > 0 && LastOffset(|frame|, usable) < 0x1_0000
    requires ps == Pieces(frame, usable, fid) && k < |ps| && at == k * usable
    ensures Placed(ps[k], frame, fid) && ps[k].offset == at
    ensures IsLast(ps[k]) <==> k + 1 == |ps|
    ensures k + 1 == |ps| ==> at + |ps[k].body| == |frame|
    ensures k + 1 < |ps| ==> |ps[k].body| == usable
  {
    PieceAt(frame, usable, fid, k);
    SmallRest(at);
  }

  lemma SmallRest(x: nat)
    requires x < 0x1_0000
    ensures x % 0x1_0000 == x
  {
  }

  lemma PiecesLayout(frame: seq<u8>, usable: nat, fid: u16)
    requires usable > 0 && LastOffset(|frame|, usable) < 0x1_0000
    ensures Layout(Pieces(frame, usable, fid), frame, fid)
  {
    LayoutFrom(Pieces(frame, usable, fid), frame, usable, fid);
  }

  lemma AllPlaced(ps: seq<Piece>, frame: seq<u8>, usable: nat, fid: u16)
    requires usable > 0 && LastOffset(|frame|, usable) < 0x1_0000 && ps == Pieces(frame, usable, fid)
    ensures forall k | 0 <= k < |ps| :: Placed(ps[k], frame, fid) && (IsLast(ps[k]) <==> k == |ps| - 1)
  {
    forall k | 0 <= k < |ps|
      ensures Placed(ps[k], frame, fid) && (IsLast(ps[k]) <==> k == |ps| - 1)
    {
      PiecePlaced(frame, usable, fid, k, ps, k * usable);
    }
  }

  lemma LayoutFrom(ps: seq<Piece>, frame: seq<u8>, usable: nat, fid: u16)
    requires usable > 0 && LastOffset(|frame|, usable) < 0x1_0000 && ps == Pieces(frame, usable, fid)
    ensures Layout(ps, frame, fid)
  {
    AllPlaced(ps, frame, usable, fid);
    forall k | 0 <= k < |ps| - 1 ensures Adjacent(ps[k], ps[k + 1]) {
      PiecesAdjoin(frame, usable, fid, k, ps);
    }
    var end := (|ps| - 1) * usable;
    PiecePlaced(frame, usable, fid, 0, ps, 0);
    PiecePlaced(frame, usable, fid, |ps| - 1, ps, end);
  }

  lemma PiecesAdjoin(frame: seq<u8>, usable: nat, fid: u16, k: nat, ps: seq<Piece>)
    requires usable > 0 && LastOffset(|frame|, usable) < 0x1_0000
    requires ps == Pieces(frame, usable, fid) && k + 1 < |ps|
    ensures Adjacent(ps[k], ps[k + 1])
  {
    var at, next := k * usable, (k + 1) * usable;
    assert next == at + usable;
    PiecePlaced(frame, usable, fid, k, ps, at);
    PiecePlaced(frame, usable, fid, k + 1, ps, next);
  }

  /**
   The offset field is sixteen bits wide: with every piece of a frame at hand, it comes back exactly
   when the offset of its last piece fits.
   */
  lemma RecoveredIff(received: seq<Piece>, frame: seq<u8>, usable: nat, fid: u16)
    requires usable > 0
    requires OnlyFrom(received, Pieces(frame, usable, fid), fid) && AllIn(received, Pieces(frame, usable, fid))
    ensures Reassemble(received, fid) == Some(frame) <==> LastOffset(|frame|, usable) < 0x1_0000
  {
    var ps := Pieces(frame, usable, fid);
    if LastOffset(|frame|, usable) < 0x1_0000 {
      PiecesLayout(frame, usable, fid);
      ReassembleLayout(received, ps, frame, fid);
    } else {
      var last := ps[|ps| - 1];
      PieceAt(frame, usable, fid, |ps| - 1);
      assert last in received;
      forall p | p in received && p.frameId == fid && IsLast(p) ensures p == last {
        var k :| 0 <= k < |ps| && ps[k] == p;
        PieceAt(frame, usable, fid, k);
      }
      EndMeaning(received, fid, last.offset + |last.body|);
    }
  }

  // ---------------------------------------------------------------- many frames at once

  function FrameId(first: u16, k: nat): u16 {
    WrapAdd16(first, k)
  }

  /** Two calls use one frame id exactly when a multiple of 65536 calls lies between them. */
  lemma FrameIdsCollideIff(first: u16, j: nat, k: nat)
    ensures FrameId(first, j) == FrameId(first, k) <==> (j - k) % 0x1_0000 == 0
  {
  }

  /** `p` was made by one of the calls. */
  ghost predicate SentPiece(p: Piece, frames: seq<seq<u8>>, usable: nat, first: u16)
    requires usable > 0
  {
    exists k :: 0 <= k < |frames| && p in Pieces(frames[k], usable, FrameId(first, k))
  }

  /** Every received piece under frame id `fid` was made by one of the calls. */
  ghost predicate AllSent(received: seq<Piece>, fid: u16, frames: seq<seq<u8>>, usable: nat, first: u16)
    requires usable > 0
  {
    forall p | p in received && p.frameId == fid :: SentPiece(p, frames, usable, first)
  }

  lemma OnlyOwnPieces(received: seq<Piece>, frames: seq<seq<u8>>, usable: nat, first: u16, k: nat)
    requires usable > 0 && |frames| <= 0x1_0000 && k < |frames|
    requires AllSent(received, FrameId(first, k), frames, usable, first)
    ensures OnlyFrom(received, Pieces(frames[k], usable, FrameId(first, k)), FrameId(first, k))
  {
    forall p | p in received && p.frameId == FrameId(first, k)
      ensures p in Pieces(frames[k], usable, FrameId(first, k))
    {
      var j := SenderOf(p, frames, usable, first);
      SameCall(first, j, k);
    }
  }

  lemma SameCall(first: u16, j: nat, k: nat)
    requires j < 0x1_0000 && k < 0x1_0000 && FrameId(first, j) == FrameId(first, k)
    ensures j == k
  {
    FrameIdsCollideIff(first, j, k);
  }

  /**
   Of the pieces of up to 65536 consecutive calls, mixed, reordered, duplicated or lost, grouping by
   frame id and writing bodies at their offsets gives back each frame whose pieces all arrived, and
   nothing for a frame that lost any.
   */
  lemma ReassembleReceived(received: seq<Piece>, frames: seq<seq<u8>>, usable: nat, first: u16, k: nat)
    requires usable > 0 && |frames| <= 0x1_0000 && k < |frames|
    requires AllSent(received, FrameId(first, k), frames, usable, first)
    requires LastOffset(|frames[k]|, usable) < 0x1_0000
    ensures Reassemble(received, FrameId(first, k))
         == if AllIn(received, Pieces(frames[k], usable, FrameId(first, k))) then Some(frames[k]) else None
  {
    var fid := FrameId(first, k);
    OnlyOwnPieces(received, frames, usable, first, k);
    PiecesLayout(frames[k], usable, fid);
    ReassembleLayout(received, Pieces(frames[k], usable, fid), frames[k], fid);
  }

  lemma SenderOf(p: Piece, frames: seq<seq<u8>>, usable: nat, first: u16) returns (j: nat)
    requires usable > 0 && SentPiece(p, frames, usable, first)
    ensures j < |frames| && p in Pieces(frames[j], usable, FrameId(first, j)) && p.frameId == FrameId(first, j)
  {
    j :| j < |frames| && p in Pieces(frames[j], usable, FrameId(first, j));
    var ps := Pieces(frames[j], usable, FrameId(first, j));
    var i :| 0 <= i < |ps| && ps[i] == p;
    PieceAt(frames[j], usable, FrameId(first, j), i);
  }

  // ---------------------------------------------------------------- what the format allows beyond offsets

  /**
   Two fragments of one frame carry the same index and offset exactly when a multiple of 256 fragments
   and of 65536 bytes lies between them.
   */
  lemma SamePlaceIff(frame: seq<u8>, usable: nat, fid: u16, i: nat, j: nat)
    requires 0 < usable < |frame| && i < j < ChunkCount(|frame|, usable)
    ensures var p, q := NthPiece(frame, usable, fid, i), NthPiece(frame, usable, fid, j);
            var apart := (j - i) % 0x100 == 0 && ((j - i) * usable) % 0x1_0000 == 0;
            (p.index == q.index && p.offset == q.offset) <==> apart
  {
    var a, b, c := i * usable, j * usable, (j - i) * usable;
    var p, q := NthPiece(frame, usable, fid, i), NthPiece(frame, usable, fid, j);
    assert p.index == i % 0x100 && q.index == j % 0x100;
    assert p.offset == a % 0x1_0000 && q.offset == b % 0x1_0000;
    SameRests(i, j, a, b, c);
  }

  lemma SameRests(i: int, j: int, a: int, b: int, c: int)
    requires c == b - a
    ensures i % 0x100 == j % 0x100 <==> (j - i) % 0x100 == 0
    ensures a % 0x1_0000 == b % 0x1_0000 <==> c % 0x1_0000 == 0
  {
  }

  /** The body of the piece with index `i`, the latest one received. */
  function BodyAt(received: seq<Piece>, fid: u16, i: nat): Option<seq<u8>> {
    if received == [] then None
    else
      var p := received[|received| - 1];
      if p.frameId == fid && p.index == i then Some(p.body) else BodyAt(received[..|received| - 1], fid, i)
  }

  /** The bodies of the first `n` indices, end to end. */
  function Bodies(received: seq<Piece>, fid: u16, n: nat): Option<seq<u8>> {
    if n == 0 then Some([])
    else
      match (Bodies(received, fid, n - 1), BodyAt(received, fid, n - 1))
      case (Some(before), Some(body)) => Some(before + body)
      case _ => None
  }

  /** How many pieces the frame has, from the count of a received one; the count of 256 is written as 0. */
  function CountOf(received: seq<Piece>, fid: u16): nat {
    if received == [] then 0
    else
      var p := received[|received| - 1];
      if p.frameId != fid then CountOf(received[..|received| - 1], fid)
      else if p.count == 0 then 0x100
      else p.count
  }

  /** A reassembler that goes by index and count, and never looks at the offset. */
  function ReassembleByIndex(received: seq<Piece>, fid: u16): Option<seq<u8>> {
    var n := CountOf(received, fid);
    if n == 0 then None else Bodies(received, fid, n)
  }

  lemma {:induction false} CountMeaning(received: seq<Piece>, ps: seq<Piece>, fid: u16)
    requires |ps| <= 0x100 && OnlyFrom(received, ps, fid)
    requires forall p | p in ps :: p.count == |ps| % 0x100
    ensures CountOf(received, fid) == if exists p :: p in received && p.frameId == fid then |ps| else 0
  {
    if received != [] {
      var init, last := received[..|received| - 1], received[|received| - 1];
      CountMeaning(init, ps, fid);
      assert received == init + [last];
      if last.frameId == fid {
        assert last in received && last in ps;
      }
    }
  }

  lemma {:induction false} BodyMeaning(received: seq<Piece>, ps: seq<Piece>, fid: u16, i: nat)
    requires i < |ps| && OnlyFrom(received, ps, fid) && Indexed(ps, fid)
    ensures BodyAt(received, fid, i) == if ps[i] in received then Some(ps[i].body) else None
  {
    assert ps[i].frameId == fid && ps[i].index == i;
    if received != [] {
      var init, last := received[..|received| - 1], received[|received| - 1];
      BodyMeaning(init, ps, fid, i);
      assert received == init + [last];
      if last.frameId == fid && last.index == i {
        var k :| 0 <= k < |ps| && ps[k] == last;
        assert ps[k].index == k;
      }
    }
  }

  /** The pieces carry their places in the list as indices. */
  ghost predicate Indexed(ps: seq<Piece>, fid: u16) {
    forall k | 0 <= k < |ps| :: ps[k].frameId == fid && ps[k].index == k
  }

  function Joined(ps: seq<Piece>): seq<u8> {
    if ps == [] then [] else Joined(ps[..|ps| - 1]) + ps[|ps| - 1].body
  }

  lemma {:induction false} BodiesMeaning(received: seq<Piece>, ps: seq<Piece>, fid: u16, n: nat)
    requires n <= |ps| && OnlyFrom(received, ps, fid) && Indexed(ps, fid)
    ensures Bodies(received, fid, n) == if AllIn(received, ps[..n]) then Some(Joined(ps[..n])) else None
  {
    if n > 0 {
      BodiesMeaning(received, ps, fid, n - 1);
      BodyMeaning(received, ps, fid, n - 1);
      assert ps[..n] == ps[..n - 1] + [ps[n - 1]];
      assert forall p :: p in ps[..n] <==> p in ps[..n - 1] || p == ps[n - 1];
    }
  }

  lemma PieceNumbers(frame: seq<u8>, usable: nat, fid: u16, k: nat)
    requires Cuttable(|frame|, usable) && k < |Pieces(frame, usable, fid)| <= 0x100
    ensures var ps := Pieces(frame, usable, fid);
            ps[k].frameId == fid && ps[k].index == k && ps[k].count == |ps| % 0x100
  {
    PieceAt(frame, usable, fid, k);
  }

  lemma {:induction false} JoinedIsFrame(frame: seq<u8>, usable: nat, fid: u16, n: nat) returns (end: nat)
    requires Cuttable(|frame|, usable) && n <= |Pieces(frame, usable, fid)|
    ensures end <= |frame| && Joined(Pieces(frame, usable, fid)[..n]) == frame[..end]
    ensures end == if n == |Pieces(frame, usable, fid)| then |frame| else n * usable
  {
    var ps := Pieces(frame, usable, fid);
    if n == 0 {
      end := 0;
    } else {
      var at := JoinedIsFrame(frame, usable, fid, n - 1);
      PieceAt(frame, usable, fid, n - 1);
      end := at + |ps[n - 1].body|;
      JoinedOneMore(ps, frame, n, at, end);
    }
  }

  lemma JoinedOneMore(ps: seq<Piece>, frame: seq<u8>, n: nat, at: nat, end: nat)
    requires 0 < n <= |ps| && at <= end <= |frame|
    requires Joined(ps[..n - 1]) == frame[..at] && ps[n - 1].body == frame[at..end]
    ensures Joined(ps[..n]) == frame[..end]
  {
    assert ps[..n][..n - 1] == ps[..n - 1];
    assert frame[..at] + frame[at..end] == frame[..end];
  }

  /**
   Going by index, a frame of up to 256 fragments comes back exactly when all of them have arrived,
   however long it is.
   */
  lemma IndexRecovers(received: seq<Piece>, frame: seq<u8>, usable: nat, fid: u16)
    requires Cuttable(|frame|, usable) && |Pieces(frame, usable, fid)| <= 0x100
    requires OnlyFrom(received, Pieces(frame, usable, fid), fid)
    ensures ReassembleByIndex(received, fid)
         == if AllIn(received, Pieces(frame, usable, fid)) then Some(frame) else None
  {
    var ps := Pieces(frame, usable, fid);
    forall k | 0 <= k < |ps| ensures ps[k].frameId == fid && ps[k].index == k && ps[k].count == |ps| % 0x100 {
      PieceNumbers(frame, usable, fid, k);
    }
    CountMeaning(received, ps, fid);
    BodiesMeaning(received, ps, fid, |ps|);
    var end := JoinedIsFrame(frame, usable, fid, |ps|);
    assert ps[..|ps|] == ps && frame[..end] == frame;
    assert ps[0] in ps;
  }

  /** The same among the pieces of up to 65536 consecutive calls. */
  lemma IndexRecoversReceived(received: seq<Piece>, frames: seq<seq<u8>>, usable: nat, first: u16, k: nat)
    requires usable > 0 && |frames| <= 0x1_0000 && k < |frames|
    requires AllSent(received, FrameId(first, k), frames, usable, first)
    requires ChunkCount(|frames[k]|, usable) <= 0x100
    ensures ReassembleByIndex(received, FrameId(first, k))
         == if AllIn(received, Pieces(frames[k], usable, FrameId(first, k))) then Some(frames[k]) else None
  {
    OnlyOwnPieces(received, frames, usable, first, k);
    IndexRecovers(received, frames[k], usable, FrameId(first, k));
  }

  // ---------------------------------------------------------------- from calls to frames, over the wire

  predicate AudioType(t: u8) {
    t == ToU8(AudioFrame) || t == ToU8(AudioFragment)
  }

  /** The pieces in the audio frames of a list of frames. */
  function PiecesOf(fs: seq<Frame>): seq<Piece> {
    if fs == [] then []
    else PiecesOf(fs[..|fs| - 1]) + PieceOf(fs[|fs| - 1])
  }

  function PieceOf(f: Frame): seq<Piece> {
    if !AudioType(f.header.msgType) then []
    else
      match ParsePiece(f.payload)
      case Some(p) => [p]
      case None => []
  }

  /** The codec frames packetized by a list of calls. */
  function FramesOf(calls: seq<Call>): seq<seq<u8>> {
    if calls == [] then []
    else
      var last := calls[|calls| - 1];
      FramesOf(calls[..|calls| - 1]) + if last.Packetize? then [last.codecFrame] else []
  }

  /** The payload of a frame of type `t` passes for a piece with frame id `fid`. */
  predicate PassesFor(t: u8, payload: seq<u8>, fid: u16) {
    AudioType(t) && ParsePiece(payload).Some? && ParsePiece(payload).value.frameId == fid
  }

  /** No control message passes for a piece of frame `fid`, and their lengths fit the length field. */
  predicate ControlsApart(calls: seq<Call>, fid: u16) {
    forall c | c in calls && c.Control? :: !PassesFor(ToU8(c.kind), c.payload, fid) && |c.payload| < 0x1_0000_0000
  }

  /** A frame on the wire is consistent, and if it passes for a piece of frame `fid`, that piece was sent. */
  ghost predicate GoodPacket(f: Frame, frames: seq<seq<u8>>, usable: nat, first: u16, fid: u16)
    requires usable > 0
  {
    && Consistent(f)
    && (PassesFor(f.header.msgType, f.payload, fid) ==>
          SentPiece(ParsePiece(f.payload).value, frames, usable, first))
  }

  lemma PacketPayload(frame: seq<u8>, usable: nat, fid: u16, sequence: u32, clock: nat -> u64, i: nat)
    requires Cuttable(|frame|, usable) && i < |Pieces(frame, usable, fid)|
    ensures var p := Pieces(frame, usable, fid)[i];
            && Packets(frame, usable, fid, sequence, clock)[i].payload == PieceBytes(p)
            && (|p.body| < 0xffff_fff9 ==> Consistent(Packets(frame, usable, fid, sequence, clock)[i]))
  {
    var ps := Pieces(frame, usable, fid);
    assert |PieceBytes(ps[i])| == FRAGMENT_HEADER_SIZE + |ps[i].body|;
    assert Packets(frame, usable, fid, sequence, clock)[i]
        == NewFrame(PieceType(frame, usable), WrapAdd32(sequence, i), clock(i), PieceBytes(ps[i]));
  }

  lemma PacketsGood(frames: seq<seq<u8>>, usable: nat, first: u16, k: nat, sequence: u32, clock: nat -> u64,
                    f: Frame, fid: u16)
    requires 0 < usable < DCF_MAX_PAYLOAD && k < |frames|
    requires f in Packets(frames[k], usable, FrameId(first, k), sequence, clock)
    ensures GoodPacket(f, frames, usable, first, fid)
  {
    var own := FrameId(first, k);
    var ps := Pieces(frames[k], usable, own);
    var fs := Packets(frames[k], usable, own, sequence, clock);
    var i :| 0 <= i < |fs| && fs[i] == f;
    PacketPayload(frames[k], usable, own, sequence, clock, i);
    PieceRoundTrip(ps[i]);
    PieceAt(frames[k], usable, own, i);
    assert ps[i] in ps;
  }

  lemma FrameIdMoves(first: u16, j: nat, t: Transport, call: Call, clock: nat -> u64)
    requires Allowed(t, call) && t.frameId == FrameId(first, j)
    ensures After(t, call, clock).frameId == FrameId(first, if call.Packetize? then j + 1 else j)
  {
  }

  lemma {:induction false} FrameIdAfter(t: Transport, calls: seq<Call>, clock: (nat, nat) -> u64)
    requires AllAllowed(t, calls)
    ensures StateAfter(t, calls, clock).frameId == FrameId(t.frameId, |FramesOf(calls)|)
  {
    if calls != [] {
      var j := |calls| - 1;
      var init := calls[..j];
      FrameIdAfter(t, init, clock);
      FrameIdMoves(t.frameId, |FramesOf(init)|, StateAfter(t, init, clock), calls[j], Reading(clock, j));
    }
  }

  lemma {:induction false} FramesPrefix(calls: seq<Call>, n: nat)
    requires n <= |calls|
    ensures FramesOf(calls[..n]) <= FramesOf(calls)
  {
    if n < |calls| {
      FramesPrefix(calls[..|calls| - 1], n);
      assert calls[..|calls| - 1][..n] == calls[..n];
    } else {
      assert calls[..n] == calls;
    }
  }

  lemma FrameOfCall(calls: seq<Call>, n: nat) returns (k: nat)
    requires n < |calls| && calls[n].Packetize?
    ensures k == |FramesOf(calls[..n])| < |FramesOf(calls)| && FramesOf(calls)[k] == calls[n].codecFrame
  {
    k := |FramesOf(calls[..n])|;
    FramesPrefix(calls, n + 1);
    assert calls[..n + 1][..n] == calls[..n];
    assert FramesOf(calls[..n + 1]) == FramesOf(calls[..n]) + [calls[n].codecFrame];
  }

  /** What one call makes is good, whatever was called before and after it. */
  lemma MadeGood(u: Transport, usable: nat, calls: seq<Call>, first: u16, now: nat -> u64, n: nat, f: Frame, fid: u16)
    requires FRAGMENT_HEADER_SIZE < u.maxPayload <= DCF_MAX_PAYLOAD && n < |calls| && ControlsApart(calls, fid)
    requires usable == Usable(u) && u.frameId == FrameId(first, |FramesOf(calls[..n])|) && f in Made(u, calls[n], now)
    ensures GoodPacket(f, FramesOf(calls), usable, first, fid)
  {
    if calls[n].Packetize? {
      var k := FrameOfCall(calls, n);
      PacketsGood(FramesOf(calls), usable, first, k, u.sequence, now, f, fid);
    } else {
      assert calls[n] in calls;
    }
  }

  lemma EmittedGood(t: Transport, usable: nat, calls: seq<Call>, clock: (nat, nat) -> u64, f: Frame, fid: u16)
    requires FRAGMENT_HEADER_SIZE < t.maxPayload <= DCF_MAX_PAYLOAD && ControlsApart(calls, fid)
    requires usable == Usable(t) && f in Emitted(t, calls, clock)
    ensures GoodPacket(f, FramesOf(calls), usable, t.frameId, fid)
  {
    var n := EmittedBy(t, calls, clock, f);
    FrameIdAfter(t, calls[..n], clock);
    MadeGood(StateAfter(t, calls[..n], clock), usable, calls, t.frameId, Reading(clock, n), n, f, fid);
  }

  lemma {:induction false} PiecesOfGood(arrived: seq<Frame>, frames: seq<seq<u8>>, usable: nat, first: u16, fid: u16)
    requires usable > 0 && forall f | f in arrived :: GoodPacket(f, frames, usable, first, fid)
    ensures AllSent(PiecesOf(arrived), fid, frames, usable, first)
  {
    if arrived != [] {
      var init, last := arrived[..|arrived| - 1], arrived[|arrived| - 1];
      PiecesOfGood(init, frames, usable, first, fid);
      assert GoodPacket(last, frames, usable, first, fid);
    }
  }

  lemma {:induction false} PiecesOfMember(fs: seq<Frame>, p: Piece)
    ensures p in PiecesOf(fs) <==> exists f :: f in fs && PieceOf(f) == [p]
  {
    if fs != [] {
      var init, last := fs[..|fs| - 1], fs[|fs| - 1];
      PiecesOfMember(init, p);
      assert fs == init + [last];
      assert p in PieceOf(last) <==> PieceOf(last) == [p];
    }
  }

  /** A receiver finds in the i-th packet of a frame its i-th piece. */
  lemma PacketPiece(frame: seq<u8>, usable: nat, fid: u16, sequence: u32, now: nat -> u64, i: nat)
    requires Cuttable(|frame|, usable) && i < |Pieces(frame, usable, fid)|
    ensures PieceOf(Packets(frame, usable, fid, sequence, now)[i]) == [Pieces(frame, usable, fid)[i]]
    ensures Pieces(frame, usable, fid)[i].frameId == fid
  {
    PacketPayload(frame, usable, fid, sequence, now, i);
    PacketTypes(frame, usable, fid, sequence, now, i);
    PieceRoundTrip(Pieces(frame, usable, fid)[i]);
    PieceAt(frame, usable, fid, i);
  }

  lemma DistinctPieces(ps: seq<Piece>, frame: seq<u8>, fid: u16, i: nat, j: nat)
    requires Layout(ps, frame, fid) && i < |ps| && j < |ps| && ps[i] == ps[j]
    ensures i == j
  {
    if i < j {
      LaidInOrder(ps, frame, fid, i, j);
    } else if j < i {
      LaidInOrder(ps, frame, fid, j, i);
    }
  }

  /** The frames that pass for pieces of frame `fid` are all in `made`. */
  predicate PassingIn(arrived: seq<Frame>, made: seq<Frame>, fid: u16) {
    forall f | f in arrived && PassesFor(f.header.msgType, f.payload, fid) :: f in made
  }

  /** Among frames of which only the frame's own packets pass for its pieces, a piece arrives with its packet. */
  lemma PieceArrives(arrived: seq<Frame>, frame: seq<u8>, usable: nat, fid: u16, sequence: u32, now: nat -> u64,
                     made: seq<Frame>, ps: seq<Piece>, i: nat)
    requires usable > 0 && LastOffset(|frame|, usable) < 0x1_0000
    requires made == Packets(frame, usable, fid, sequence, now) && ps == Pieces(frame, usable, fid)
    requires PassingIn(arrived, made, fid) && i < |ps| == |made|
    ensures ps[i] in PiecesOf(arrived) <==> made[i] in arrived
  {
    PacketPiece(frame, usable, fid, sequence, now, i);
    PiecesOfMember(arrived, ps[i]);
    if ps[i] in PiecesOf(arrived) {
      var g :| g in arrived && PieceOf(g) == [ps[i]];
      PiecePasses(g, ps[i]);
      PacketOfPiece(frame, usable, fid, sequence, now, made, ps, i, g);
    }
  }

  lemma PiecePasses(f: Frame, p: Piece)
    requires PieceOf(f) == [p]
    ensures PassesFor(f.header.msgType, f.payload, p.frameId)
  {
    assert [p][0] == p;
  }

  lemma PacketOfPiece(frame: seq<u8>, usable: nat, fid: u16, sequence: u32, now: nat -> u64,
                      made: seq<Frame>, ps: seq<Piece>, i: nat, g: Frame)
    requires usable > 0 && LastOffset(|frame|, usable) < 0x1_0000
    requires made == Packets(frame, usable, fid, sequence, now) && ps == Pieces(frame, usable, fid)
    requires i < |ps| == |made| && g in made && PieceOf(g) == [ps[i]]
    ensures g == made[i]
  {
    var j :| 0 <= j < |made| && made[j] == g;
    PacketPiece(frame, usable, fid, sequence, now, j);
    assert [ps[i]][0] == [ps[j]][0];
    PiecesLayout(frame, usable, fid);
    DistinctPieces(ps, frame, fid, i, j);
  }

  lemma PiecesArriveWithPackets(arrived: seq<Frame>, frame: seq<u8>, usable: nat, fid: u16, sequence: u32,
                                now: nat -> u64, made: seq<Frame>, ps: seq<Piece>)
    requires usable > 0 && LastOffset(|frame|, usable) < 0x1_0000
    requires made == Packets(frame, usable, fid, sequence, now) && ps == Pieces(frame, usable, fid)
    requires PassingIn(arrived, made, fid)
    ensures AllIn(PiecesOf(arrived), ps) <==> forall f | f in made :: f in arrived
  {
    var pieces := PiecesOf(arrived);
    forall i: nat | i < |ps| ensures ps[i] in pieces <==> made[i] in arrived {
      PieceArrives(arrived, frame, usable, fid, sequence, now, made, ps, i);
    }
    AllAlike(pieces, ps, arrived, made);
  }

  lemma AllAlike(pieces: seq<Piece>, ps: seq<Piece>, arrived: seq<Frame>, made: seq<Frame>)
    requires |made| == |ps| && forall i: nat | i < |ps| :: ps[i] in pieces <==> made[i] in arrived
    ensures AllIn(pieces, ps) <==> forall f | f in made :: f in arrived
  {
    assert forall i: nat | i < |ps| :: ps[i] in ps && made[i] in made;
  }

  /**
   No packet is larger than the payload limit; of several, all but the last fill it, and the last one is
   not without a byte of the frame. So there are as few as can be.
   */
  lemma PacketsFit(frame: seq<u8>, maxPayload: nat, fid: u16, sequence: u32, now: nat -> u64, i: nat)
    requires maxPayload > 7 && i < |Packets(frame, Room(maxPayload), fid, sequence, now)|
    ensures var fs := Packets(frame, Room(maxPayload), fid, sequence, now);
            && |fs[i].payload| <= maxPayload
            && (i + 1 < |fs| ==> |fs[i].payload| == maxPayload)
            && (|fs| > 1 ==> |fs[i].payload| > 7)
  {
    var usable := maxPayload - 7;
    PieceAt(frame, usable, fid, i);
    PacketPayload(frame, usable, fid, sequence, now, i);
    PieceLayout(Pieces(frame, usable, fid)[i]);
    if |frame| > usable {
      ChunkStart(|frame|, usable, i);
    }
  }

  /** Of two packetizing calls, the earlier one makes the earlier frame. */
  lemma FrameOrder(calls: seq<Call>, m: nat, n: nat)
    requires m < n < |calls| && calls[m].Packetize?
    ensures |FramesOf(calls[..m])| < |FramesOf(calls[..n])|
  {
    FramesPrefix(calls[..n], m + 1);
    assert calls[..n][..m + 1] == calls[..m + 1] && calls[..m + 1][..m] == calls[..m];
  }

  /** Under fewer than 65536 other frames, what passes for a piece of call n's frame was made by call n. */
  lemma OwnCall(t: Transport, calls: seq<Call>, clock: (nat, nat) -> u64, n: nat, f: Frame, fid: u16)
    requires FRAGMENT_HEADER_SIZE < t.maxPayload && |FramesOf(calls)| <= 0x1_0000
    requires n < |calls| && calls[n].Packetize? && fid == StateAfter(t, calls[..n], clock).frameId
    requires ControlsApart(calls, fid) && f in Emitted(t, calls, clock)
    requires PassesFor(f.header.msgType, f.payload, fid)
    ensures f in MadeBy(t, calls, clock, n)
  {
    var m := EmittedBy(t, calls, clock, f);
    var u := StateAfter(t, calls[..m], clock);
    if calls[m].Control? {
      assert false;
    } else {
      var made := Packets(calls[m].codecFrame, Usable(u), u.frameId, u.sequence, Reading(clock, m));
      var i :| 0 <= i < |made| && made[i] == f;
      PacketPiece(calls[m].codecFrame, Usable(u), u.frameId, u.sequence, Reading(clock, m), i);
      SameSender(t, calls, clock, m, n);
    }
  }

  lemma SameSender(t: Transport, calls: seq<Call>, clock: (nat, nat) -> u64, m: nat, n: nat)
    requires AllAllowed(t, calls) && |FramesOf(calls)| <= 0x1_0000
    requires m < |calls| && n < |calls| && calls[m].Packetize? && calls[n].Packetize?
    requires StateAfter(t, calls[..m], clock).frameId == StateAfter(t, calls[..n], clock).frameId
    ensures m == n
  {
    var j := FrameOfCall(calls, m);
    var k := FrameOfCall(calls, n);
    FrameIdAfter(t, calls[..m], clock);
    FrameIdAfter(t, calls[..n], clock);
    SameCall(t.frameId, j, k);
    if m < n {
      FrameOrder(calls, m, n);
    } else if n < m {
      FrameOrder(calls, n, m);
    }
  }

  /**
   The whole path: codec frames packetized by a transport, among control messages none of which passes
   for a piece of the frame in question; the frames written to a stream in any order, repeated or lost;
   read back by lengths alone and reassembled. The codec frame of call n comes back exactly if every
   frame made for it has arrived.
   */
  lemma WireToFrame(t: Transport, calls: seq<Call>, clock: (nat, nat) -> u64, arrived: seq<Frame>, n: nat, fid: u16)
    requires FRAGMENT_HEADER_SIZE < t.maxPayload <= DCF_MAX_PAYLOAD && |FramesOf(calls)| <= 0x1_0000
    requires n < |calls| && calls[n].Packetize? && LastOffset(|calls[n].codecFrame|, Usable(t)) < 0x1_0000
    requires fid == StateAfter(t, calls[..n], clock).frameId && ControlsApart(calls, fid)
    requires forall f | f in arrived :: f in Emitted(t, calls, clock)
    ensures var whole := (forall f | f in MadeBy(t, calls, clock, n) :: f in arrived);
            Reassemble(PiecesOf(ParseStream(StreamBytes(arrived)).frames), fid)
            == if whole then Some(calls[n].codecFrame) else None
  {
    var u, frame := StateAfter(t, calls[..n], clock), calls[n].codecFrame;
    PiecesToFrame(t, calls, clock, arrived, n, fid);
    var made := MadeBy(t, calls, clock, n);
    forall f | f in arrived && PassesFor(f.header.msgType, f.payload, fid) ensures f in made {
      OwnCall(t, calls, clock, n, f, fid);
    }
    var ps := Pieces(frame, Usable(t), fid);
    PiecesArriveWithPackets(arrived, frame, Usable(t), fid, u.sequence, Reading(clock, n), made, ps);
  }

  /** The same by the pieces found in the frames that arrived. */
  lemma PiecesToFrame(t: Transport, calls: seq<Call>, clock: (nat, nat) -> u64, arrived: seq<Frame>, n: nat, fid: u16)
    requires FRAGMENT_HEADER_SIZE < t.maxPayload <= DCF_MAX_PAYLOAD && |FramesOf(calls)| <= 0x1_0000
    requires n < |calls| && calls[n].Packetize? && LastOffset(|calls[n].codecFrame|, Usable(t)) < 0x1_0000
    requires fid == StateAfter(t, calls[..n], clock).frameId && ControlsApart(calls, fid)
    requires forall f | f in arrived :: f in Emitted(t, calls, clock)
    ensures ParseStream(StreamBytes(arrived)).frames == arrived
    ensures Reassemble(PiecesOf(arrived), fid)
         == if AllIn(PiecesOf(arrived), Pieces(calls[n].codecFrame, Usable(t), fid)) then Some(calls[n].codecFrame)
            else None
  {
    var frames, usable := FramesOf(calls), Usable(t);
    forall f | f in arrived ensures GoodPacket(f, frames, usable, t.frameId, fid) {
      EmittedGood(t, usable, calls, clock, f, fid);
    }
    StreamRoundTrip(arrived, []);
    assert StreamBytes(arrived) + [] == StreamBytes(arrived);
    PiecesOfGood(arrived, frames, usable, t.frameId, fid);
    var k := FrameOfCall(calls, n);
    FrameIdAfter(t, calls[..n], clock);
    ReassembleReceived(PiecesOf(arrived), frames, usable, t.frameId, k);
  }

  /**
   A control message that does pass for a piece of a frame replaces it: for a frame sent whole, followed
   by one with its frame id, the frame comes back exactly if the message carries the same bytes.
   */
  lemma PassingReplaces(frame: seq<u8>, usable: nat, fid: u16, body: seq<u8>)
    requires |frame| <= usable
    ensures var received := Pieces(frame, usable, fid) + [Piece(fid, 0, 1, 0, COMPLETE, body)];
            && Reassemble(received, fid) == Some(body)
            && (Reassemble(received, fid) == Some(frame) <==> body == frame)
  {
    var p, q := Piece(fid, 0, 1, 0, COMPLETE, frame), Piece(fid, 0, 1, 0, COMPLETE, body);
    var received := Pieces(frame, usable, fid) + [q];
    assert received == [p, q] && received[..1] == [p];
    var m := Written(received, fid);
    assert forall i: nat | i < |body| :: i in m && m[i] == body[i];
    assert seq(|body|, i requires 0 <= i < |body| => m[i]) == body;
  }
}
