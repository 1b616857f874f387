/*
 * The fifo input worker's loop as a function of what its reads return:
 * each read either brings bytes (none at end of file) or fails, and after a
 * failure the fifo is reopened or the worker gives up. Replay gives the
 * frames published and the bytes left in the buffer after any sequence of
 * reads; the class in module FifoInput is proved against it.
 */
module ReadLoop {
  import opened FrameScan

  /** Capacity of the worker's buffer in bytes. */
  const FifoBufferSize: nat := 64000

  /** The delimiter used when none is configured. */
  const FrameDelimDefault: seq<byte> := Ascii("c3f97bee765fd86b209951ead9f8a583")

  /** What one read of the fifo comes to: the bytes read (none at end of
      file), or a failed read after which the fifo was closed and opened
      again (`reopened`) or could not be, and the worker returned. */
  datatype ReadResult = Chunk(bytes: seq<byte>) | Failed(reopened: bool)

  /** The frames published, the bytes left in the buffer, and whether the
      worker is still running. */
  datatype Session = Session(frames: seq<seq<byte>>, contents: seq<byte>, running: bool)

  /** One pass of the worker's loop over buffer `contents`. */
  function StepSpec(contents: seq<byte>, r: ReadResult, d: seq<byte>): (after: Session)
    requires |d| > 0
    ensures after.running <==> !(r.Failed? && !r.reopened)
    ensures forall k :: 0 <= k < |after.frames| ==> |after.frames[k]| > 0
    ensures r.Failed? ==> after.frames == []
    ensures r.Chunk? && NoMatch(contents, d) ==> NoMatch(after.contents, d)
  {
    match r
    case Chunk(b) =>
      if b == [] then Session([], contents, true)
      else
        var sp := Scan(contents + b, d);
        Session(NonEmpty(sp.pieces), sp.tail, true)
    case Failed(reopened) =>
      if reopened then Session([], [], true) else Session([], contents, false)
  }

  /** The worker's loop over a sequence of read results, until they run out
      or the worker gives up. */
  function Replay(contents: seq<byte>, rs: seq<ReadResult>, d: seq<byte>): (after: Session)
    requires |d| > 0
    decreases |rs|
    ensures forall k :: 0 <= k < |after.frames| ==> |after.frames[k]| > 0
    ensures NoFailures(rs) ==> after.running
  {
    if rs == [] then Session([], contents, true)
    else
      var first := StepSpec(contents, rs[0], d);
      if !first.running then first
      else
        var rest := Replay(first.contents, rs[1..], d);
        Session(first.frames + rest.frames, rest.contents, rest.running)
  }

  /** No read asks for more than the buffer's free space, so no chunk is
      longer than that space. */
  ghost predicate Fits(contents: seq<byte>, rs: seq<ReadResult>, d: seq<byte>)
    requires |d| > 0
    decreases |rs|
  {
    rs == [] ||
    ((rs[0].Chunk? ==> |contents| + |rs[0].bytes| <= FifoBufferSize) &&
     (StepSpec(contents, rs[0], d).running ==> Fits(StepSpec(contents, rs[0], d).contents, rs[1..], d)))
  }

  /** None of the reads failed. */
  ghost predicate NoFailures(rs: seq<ReadResult>)
  {
    forall k :: 0 <= k < |rs| ==> rs[k].Chunk?
  }

  /** The bytes of all the chunks, in order. */
  function Received(rs: seq<ReadResult>): seq<byte>
  {
    if rs == [] then []
    else (if rs[0].Chunk? then rs[0].bytes else []) + Received(rs[1..])
  }

  /** The default delimiter is the 32 characters of its literal. */
  lemma DefaultDelimiterNonEmpty()
    ensures |FrameDelimDefault| == 32 && |FrameDelimDefault| > 0
  {
  }

  /** A pass that reads bytes leaves no more than fit in the buffer, and one
      that reads nothing leaves the buffer as it was. */
  lemma StepSpecBounded(contents: seq<byte>, r: ReadResult, d: seq<byte>)
    requires |d| > 0
    requires r.Chunk? ==> |contents| + |r.bytes| <= FifoBufferSize
    requires |contents| <= FifoBufferSize
    ensures |StepSpec(contents, r, d).contents| <= FifoBufferSize
  {
    if r.Chunk? && r.bytes != [] {
      ScanTailIsSuffix(contents + r.bytes, d);
    }
  }

  /** A buffer without a delimiter that receives `b` ends as the scan of
      its bytes followed by `b` leaves it. */
  lemma StepSpecSettled(c: seq<byte>, b: seq<byte>, d: seq<byte>)
    requires |d| > 0 && NoMatch(c, d)
    ensures var sp := Scan(c + b, d);
            StepSpec(c, Chunk(b), d) == Session(NonEmpty(sp.pieces), sp.tail, true)
  {
    if b == [] {
      assert c + b == c;
      ScanNoMatch(c, d);
    }
  }

  /** The buffer never holds a whole delimiter between passes: every pass
      scans it, and a reopen empties it. */
  lemma {:induction false} ReplaySettled(c: seq<byte>, rs: seq<ReadResult>, d: seq<byte>)
    requires |d| > 0 && NoMatch(c, d)
    ensures NoMatch(Replay(c, rs, d).contents, d)
    decreases |rs|
  {
    if rs != [] {
      var first := StepSpec(c, rs[0], d);
      if first.running {
        if rs[0].Failed? {
          assert first.contents == [];
        }
        ReplaySettled(first.contents, rs[1..], d);
      }
    }
  }

  /** Splitting the reads in two: the second part starts from the buffer the
      first leaves, unless the worker gave up during the first. */
  lemma {:induction false} ReplayAppend(c: seq<byte>, rs1: seq<ReadResult>, rs2: seq<ReadResult>, d: seq<byte>)
    requires |d| > 0
    ensures var a := Replay(c, rs1, d);
            var b := Replay(a.contents, rs2, d);
            Replay(c, rs1 + rs2, d) == if a.running then Session(a.frames + b.frames, b.contents, b.running) else a
    decreases |rs1|
  {
    if rs1 == [] {
      assert rs1 + rs2 == rs2;
    } else {
      assert (rs1 + rs2)[0] == rs1[0];
      assert (rs1 + rs2)[1..] == rs1[1..] + rs2;
      var first := StepSpec(c, rs1[0], d);
      if first.running {
        ReplayAppend(first.contents, rs1[1..], rs2, d);
        var a := Replay(first.contents, rs1[1..], d);
        var b := Replay(a.contents, rs2, d);
        assert first.frames + (a.frames + b.frames) == (first.frames + a.frames) + b.frames;
      }
    }
  }

  /** One more read, after a prefix of the reads that left the worker
      running with buffer `c` and frames `acc`. */
  lemma ReplayStep(start: seq<byte>, rs: seq<ReadResult>, i: nat, acc: seq<seq<byte>>, c: seq<byte>, d: seq<byte>)
    requires |d| > 0 && i < |rs| && Replay(start, rs[..i], d) == Session(acc, c, true)
    ensures var s := StepSpec(c, rs[i], d);
            Replay(start, rs[..i + 1], d) == Session(acc + s.frames, s.contents, s.running)
  {
    ReplayAppend(start, rs[..i], [rs[i]], d);
    assert rs[..i + 1] == rs[..i] + [rs[i]];
    assert [rs[i]][1..] == [];
    var s := StepSpec(c, rs[i], d);
    if s.running {
      assert Replay(c, [rs[i]], d) == Session(s.frames + [], s.contents, true);
      assert s.frames + [] == s.frames;
    }
  }

  /** Once every read has been replayed, or the worker gave up after the
      first `i` of them, the replay of the first `i` is the whole replay. */
  lemma ReplayPrefixDone(c: seq<byte>, rs: seq<ReadResult>, i: nat, sess: Session, d: seq<byte>)
    requires |d| > 0 && i <= |rs| && Replay(c, rs[..i], d) == sess
    requires i == |rs| || !sess.running
    ensures Replay(c, rs, d) == sess
  {
    if i < |rs| {
      ReplayAppend(c, rs[..i], rs[i..], d);
      assert rs[..i] + rs[i..] == rs;
    } else {
      assert rs[..i] == rs;
    }
  }

  /** The reads from `i` on fit the buffer `c`: the next one fits its free
      space, and the ones after it fit what that pass leaves. */
  lemma FitsStep(c: seq<byte>, rs: seq<ReadResult>, i: nat, d: seq<byte>)
    requires |d| > 0 && i < |rs| && Fits(c, rs[i..], d)
    ensures rs[i].Chunk? ==> |c| + |rs[i].bytes| <= FifoBufferSize
    ensures StepSpec(c, rs[i], d).running ==> Fits(StepSpec(c, rs[i], d).contents, rs[i + 1..], d)
  {
    assert rs[i..][0] == rs[i] && rs[i..][1..] == rs[i + 1..];
  }

  /** A failed read, then more reads: after a reopen the rest is replayed
      from an empty buffer; otherwise the worker stops where it was. */
  lemma ReplayAfterFailure(c: seq<byte>, reopened: bool, rs: seq<ReadResult>, d: seq<byte>)
    requires |d| > 0
    ensures var later := Replay([], rs, d);
            Replay(c, [Failed(reopened)] + rs, d)
              == if reopened then Session(later.frames, later.contents, later.running) else Session([], c, false)
  {
    assert ([Failed(reopened)] + rs)[0] == Failed(reopened);
    assert ([Failed(reopened)] + rs)[1..] == rs;
    assert [] + Replay([], rs, d).frames == Replay([], rs, d).frames;
  }

  /** A failed read followed by a successful reopen drops the bytes in the
      buffer: what follows is framed as if the worker had just started. */
  lemma ReopenDropsBuffer(c: seq<byte>, rs1: seq<ReadResult>, rs2: seq<ReadResult>, d: seq<byte>)
    requires |d| > 0 && Replay(c, rs1, d).running
    ensures var later := Replay([], rs2, d);
            Replay(c, rs1 + [Failed(true)] + rs2, d)
              == Session(Replay(c, rs1, d).frames + later.frames, later.contents, later.running)
  {
    var a := Replay(c, rs1, d);
    var tail := [Failed(true)] + rs2;
    assert rs1 + [Failed(true)] + rs2 == rs1 + tail;
    ReplayAppend(c, rs1, tail, d);
    ReplayAfterFailure(a.contents, true, rs2, d);
  }

  /** A failed read that cannot be recovered from ends the worker: nothing
      after it is read, and the buffer is left as it was. */
  lemma GiveUpStops(c: seq<byte>, rs1: seq<ReadResult>, rs2: seq<ReadResult>, d: seq<byte>)
    requires |d| > 0 && Replay(c, rs1, d).running
    ensures var a := Replay(c, rs1, d);
            Replay(c, rs1 + [Failed(false)] + rs2, d) == Session(a.frames, a.contents, false)
  {
    var a := Replay(c, rs1, d);
    var tail := [Failed(false)] + rs2;
    assert rs1 + [Failed(false)] + rs2 == rs1 + tail;
    ReplayAppend(c, rs1, tail, d);
    ReplayAfterFailure(a.contents, false, rs2, d);
    assert a.frames + [] == a.frames;
  }

  /** A first read that brings `b` into a buffer `c` without a delimiter
      publishes the non-empty pieces of `c + b`; the other reads go on from
      their tail. */
  lemma ReplayFirstChunk(c: seq<byte>, rs: seq<ReadResult>, d: seq<byte>)
    requires |d| > 0 && NoMatch(c, d) && rs != [] && rs[0].Chunk?
    ensures var sp := Scan(c + rs[0].bytes, d);
            var later := Replay(sp.tail, rs[1..], d);
            Replay(c, rs, d) == Session(NonEmpty(sp.pieces) + later.frames, later.contents, later.running)
  {
    StepSpecSettled(c, rs[0].bytes, d);
  }

  /** Chunk boundaries do not matter: as long as no read fails, the frames
      published are the non-empty pieces of everything received, and the
      buffer holds the tail of it, however the bytes were split into reads. */
  lemma {:induction false} ReplayStreams(c: seq<byte>, rs: seq<ReadResult>, d: seq<byte>)
    requires |d| > 0 && NoMatch(c, d) && NoFailures(rs)
    ensures var sp := Scan(c + Received(rs), d);
            Replay(c, rs, d) == Session(NonEmpty(sp.pieces), sp.tail, true)
    decreases |rs|
  {
    if rs == [] {
      assert c + Received(rs) == c;
      ScanNoMatch(c, d);
    } else {
      var b := rs[0].bytes;
      var rest := rs[1..];
      assert NoFailures(rest) by {
        forall k | 0 <= k < |rest| ensures rest[k].Chunk? {
          assert rest[k] == rs[k + 1];
        }
      }
      ReplayFirstChunk(c, rs, d);
      var sp := Scan(c + b, d);
      ReplayStreams(sp.tail, rest, d);
      var later := Scan(sp.tail + Received(rest), d);
      ScanAppend(c + b, Received(rest), d);
      NonEmptyAppend(sp.pieces, later.pieces);
      assert Received(rs) == b + Received(rest);
      ConcatAssoc(c, b, Received(rest));
    }
  }

  /** A full buffer with no delimiter in it stays that way: every read asks
      for zero bytes and comes back as end of file, so nothing is published
      until a read fails. */
  lemma {:induction false} FullBufferStalls(c: seq<byte>, rs: seq<ReadResult>, d: seq<byte>)
    requires |d| > 0 && |c| == FifoBufferSize
    requires Fits(c, rs, d) && NoFailures(rs)
    ensures Replay(c, rs, d) == Session([], c, true)
    decreases |rs|
  {
    if rs != [] {
      assert rs[0].Chunk?;
      assert rs[0].bytes == [];
      assert NoFailures(rs[1..]) by {
        forall k | 0 <= k < |rs[1..]| ensures rs[1..][k].Chunk? {
          assert rs[1..][k] == rs[k + 1];
        }
      }
      FullBufferStalls(c, rs[1..], d);
    }
  }

  /** Delimiter "|D|" with "AB|D||D|CD|D|" arriving in two reads split
      inside a delimiter: "AB" and "CD" are published, the buffer ends empty. */
  lemma ReplayExample()
    ensures Replay([], [Chunk(Ascii("AB|D")), Chunk(Ascii("||D|CD|D|"))], Ascii("|D|"))
         == Session([Ascii("AB"), Ascii("CD")], [], true)
  {
    var rs := [Chunk(Ascii("AB|D")), Chunk(Ascii("||D|CD|D|"))];
    var d := Ascii("|D|");
    assert Received(rs) == Ascii("AB|D") + Ascii("||D|CD|D|") by {
      assert rs[1..] == [Chunk(Ascii("||D|CD|D|"))];
      assert rs[1..][1..] == [];
    }
    assert [] + Received(rs) == Ascii("AB|D||D|CD|D|");
    ReplayStreams([], rs, d);
    ScanExample();
  }
}
