/*
 * The fifo input plugin's worker: a fixed buffer filled by reads from the
 * fifo, scanned for the frame delimiter, each non-empty frame published to
 * the consumers, and the unscanned rest moved to the front of the buffer.
 */
module FifoInput {
  import opened FrameScan
  import opened ReadLoop

  /** The first occurrence of `d` in `s` at or after `lo`, as an index into
      `s`, as the byte-string search of the scan loop finds it. */
  method FindDelimiter(s: seq<byte>, lo: nat, d: seq<byte>) returns (r: Option<nat>)
    requires lo <= |s|
    ensures r.Some? ==> lo <= r.value && r.value + |d| <= |s| && s[r.value..r.value + |d|] == d
    ensures r.Some? ==> FirstMatch(s[lo..], d) == Some(r.value - lo)
    ensures r.None? ==> NoMatch(s[lo..], d)
  {
    ghost var hay := s[lo..];
    var i := lo;
    while i + |d| <= |s|
      invariant lo <= i <= |s| + 1
      invariant NoMatchBefore(hay, d, i - lo)
      decreases |s| + 1 - i
    {
      assert hay[i - lo..i - lo + |d|] == s[i..i + |d|];
      if s[i..i + |d|] == d {
        FirstMatchIs(hay, d, i - lo);
        return Some(i);
      }
      i := i + 1;
    }
    return None;
  }

  /** The bytes of `all` before `head` are the cut `pieces`, each followed by
      its delimiter, and each piece ends at the first occurrence after it. */
  ghost predicate CutUpTo(all: seq<byte>, d: seq<byte>, head: nat, pieces: seq<seq<byte>>)
  {
    && head <= |all|
    && all[..head] == Joined(pieces, d)
    && (forall k :: 0 <= k < |pieces| ==> EndsAtFirstDelimiter(pieces[k], d))
  }

  /** Nothing is cut before the scan starts. */
  lemma CutStart(all: seq<byte>, d: seq<byte>)
    ensures CutUpTo(all, d, 0, [])
  {
  }

  /** Moving the cursor past the first occurrence after it cuts one more piece. */
  lemma CutAdvance(all: seq<byte>, d: seq<byte>, head: nat, at: nat, next: nat, pieces: seq<seq<byte>>)
    requires CutUpTo(all, d, head, pieces) && head <= at && next == at + |d|
    requires FirstMatch(all[head..], d) == Some(at - head)
    ensures next <= |all| && CutUpTo(all, d, next, pieces + [all[head..at]])
  {
    var s, p := all[head..], all[head..at];
    SplitAtMatch(s, d, at - head);
    assert s[..at - head] == p;
    assert all[..next] == all[..head] + p + d by {
      assert all[..next] == all[..head] + s[..next - head];
      assert s[..next - head] == s[..at - head] + s[at - head..next - head];
    }
    JoinedSnoc(pieces, p, d);
    forall j | 0 <= j < |p|
      ensures !MatchesAt(p + d, d, j)
    {
      assert p + d == s[..next - head];
      MatchesAtPrefix(p + d, s[next - head..], d, j);
      assert (p + d) + s[next - head..] == s;
    }
    var pieces' := pieces + [p];
    forall k | 0 <= k < |pieces'|
      ensures EndsAtFirstDelimiter(pieces'[k], d)
    {
      if k < |pieces| {
        assert pieces'[k] == pieces[k];
      }
    }
  }

  /** Once no occurrence is left after the cursor, the cut pieces and the
      rest are exactly what Scan yields. */
  lemma CutDone(all: seq<byte>, d: seq<byte>, head: nat, pieces: seq<seq<byte>>)
    requires |d| > 0 && CutUpTo(all, d, head, pieces) && NoMatch(all[head..], d)
    ensures Scan(all, d) == Split(pieces, all[head..])
  {
    assert all == all[..head] + all[head..];
    ScanUnique(all, d, pieces, all[head..]);
  }

  /** One pass of the scan loop, on the ghost state: the cursor moves past
      the next delimiter, the `piece` before it is cut, and the published
      frames grow by that piece exactly when it is not empty. */
  lemma ScanLoopStep(all: seq<byte>, d: seq<byte>, head: nat, at: nat, next: nat, pieces: seq<seq<byte>>)
    returns (piece: seq<byte>)
    requires |d| > 0 && head <= at && next == at + |d| && CutUpTo(all, d, head, pieces)
    requires FirstMatch(all[head..], d) == Some(at - head)
    ensures next <= |all| && piece == all[head..at]
    ensures CutUpTo(all, d, next, pieces + [piece])
    ensures head < at ==> NonEmpty(pieces + [piece]) == NonEmpty(pieces) + [piece]
    ensures head == at ==> NonEmpty(pieces + [piece]) == NonEmpty(pieces)
  {
    piece := all[head..at];
    CutAdvance(all, d, head, at, next, pieces);
    NonEmptySnoc(pieces, piece);
  }

  /** With an empty delimiter the search succeeds at once wherever the
      cursor stands: the piece is empty, nothing is published, and the
      cursor moves by `frame_size + frame_delim_size == 0`, so the scan loop
      never ends. */
  lemma EmptyDelimiterStalls(all: seq<byte>, head: nat, d: seq<byte>)
    requires head <= |all| && d == []
    ensures FirstMatch(all[head..], d) == Some(0)
    ensures var at := head + FirstMatch(all[head..], d).value;
            all[head..at] == [] && at + |d| == head
  {
    FirstMatchIs(all[head..], d, 0);
  }

  /** Publishing one more frame extends the published history. */
  lemma PublishOne(published: seq<seq<byte>>, base: seq<seq<byte>>, frames: seq<seq<byte>>, f: seq<byte>)
    requires published == base + frames
    ensures published + [f] == base + (frames + [f])
  {
  }

  /** Publishing more frames extends the published history. */
  lemma PublishMore(published: seq<seq<byte>>, base: seq<seq<byte>>, frames: seq<seq<byte>>, more: seq<seq<byte>>)
    requires published == base + frames
    ensures published + more == base + (frames + more)
  {
  }

  /** The fifo buffer after `memmove` has moved the unconsumed bytes
      `[consumed, used)` to the front: the bytes behind them are untouched. */
  function Compacted(buf: seq<byte>, consumed: nat, used: nat): (r: seq<byte>)
    requires consumed <= used <= |buf|
    ensures |r| == |buf|
    ensures r[..used - consumed] == buf[consumed..used] && r[used - consumed..] == buf[used - consumed..]
  {
    buf[consumed..used] + buf[used - consumed..]
  }

  /** The source publishes a frame as a pointer into the fifo buffer and a
      size. With delimiter "|D|" (bytes 124, 68, 124) and "AB|D|XY" filled,
      frame "AB" is published at offset 0 with size 2; compaction then
      moves "XY" over it, so a consumer reading through that pointer gets
      "XY". */
  lemma AliasedFrameOverwritten()
    ensures var buf: seq<byte> := [65, 66, 124, 68, 124, 88, 89];
            Scan(buf, [124, 68, 124]) == Split([[65, 66]], [88, 89]) &&
            Compacted(buf, 5, 7)[0..2] == [88, 89] != [65, 66]
  {
    var d: seq<byte> := [124, 68, 124];
    var ab: seq<byte> := [65, 66];
    var xy: seq<byte> := [88, 89];
    var ps: seq<seq<byte>> := [ab];
    assert Joined(ps, d) == ab + d by {
      assert ps[1..] == [];
    }
    assert [65, 66, 124, 68, 124, 88, 89] == Joined(ps, d) + xy;
    forall j | 0 <= j < 2
      ensures !MatchesAt(ab + d, d, j)
    {
      assert (ab + d)[j] != d[0];
    }
    assert EndsAtFirstDelimiter(ps[0], d);
    ScanUnique([65, 66, 124, 68, 124, 88, 89], d, ps, xy);
  }

  /** The current frame a consumer sees, given the frames published so far:
      the last of them, or the frame there was before if there is none. */
  ghost predicate CurrentFrame(frame: seq<byte>, size: nat, frames: seq<seq<byte>>, frame0: seq<byte>, size0: nat)
  {
    if |frames| > 0 then size == |frame| && frame == frames[|frames| - 1]
    else frame == frame0 && size == size0
  }

  /** A pass that publishes `more` leaves the last of them current, or keeps
      the current frame when it publishes nothing. */
  lemma CurrentFrameStep(frame: seq<byte>, size: nat, frames: seq<seq<byte>>, more: seq<seq<byte>>,
                         frame0: seq<byte>, size0: nat, frame': seq<byte>, size': nat)
    requires CurrentFrame(frame, size, frames, frame0, size0)
    requires CurrentFrame(frame', size', more, frame, size)
    ensures CurrentFrame(frame', size', frames + more, frame0, size0)
  {
    if |more| == 0 {
      assert frames + more == frames;
    }
  }

  /** The plugin's entry in the globals shared with the output plugins: the
      frame the consumers read. */
  class Slot {
    /** The size of the current frame. */
    var size: nat
    /** The bytes of the current frame. */
    var frame: seq<byte>
    /** Every frame handed to the consumers so far, in order. */
    ghost var published: seq<seq<byte>>

    ghost predicate Valid()
      reads this
    {
      size == |frame|
    }

    /** No frame yet. */
    constructor ()
      ensures Valid() && frame == [] && published == []
    {
      size := 0;
      frame := [];
      published := [];
    }

    /** Hands a frame to the consumers: its size and its bytes become the
        current frame, and it joins the published ones. */
    method Publish(bytes: seq<byte>)
      requires |bytes| > 0
      modifies this
      ensures Valid()
      ensures size == |bytes| && frame == bytes && published == old(published) + [bytes]
    {
      size := |bytes|;
      frame := bytes;
      published := published + [bytes];
    }
  }

  /** The worker thread's state: the fifo buffer and how much of it is filled. */
  class Worker {
    /** The fifo buffer, of FifoBufferSize bytes. */
    const buffer: array<byte>
    /** How many bytes at the front of the buffer are filled. */
    var used: nat
    /** The frame delimiter. */
    const delim: seq<byte>
    /** Where frames are published. */
    const slot: Slot

    ghost predicate Valid()
      reads this
    {
      buffer.Length == FifoBufferSize && used <= buffer.Length && |delim| > 0
    }

    /** The filled part of the buffer. */
    ghost function Contents(): seq<byte>
      reads this, buffer
      requires Valid()
    {
      buffer[..used]
    }

    /** Free space at the end of the buffer: what one read may fill. */
    function Available(): (free: nat)
      reads this
      requires Valid()
      ensures used + free == buffer.Length
    {
      FifoBufferSize - used
    }

    /** A worker that has opened the fifo: an empty buffer. */
    constructor (delim: seq<byte>, slot: Slot)
      requires |delim| > 0
      ensures Valid() && fresh(buffer)
      ensures this.delim == delim && this.slot == slot && Contents() == []
    {
      buffer := new byte[FifoBufferSize];
      used := 0;
      this.delim := delim;
      this.slot := slot;
    }

    /** A successful read: the bytes go to the free space after the filled
        part, which grows by their number and never past the capacity. */
    method Append(chunk: seq<byte>)
      requires Valid() && |chunk| <= Available()
      modifies this`used, buffer
      ensures Valid() && used == old(used) + |chunk| <= FifoBufferSize
      ensures Contents() == old(Contents()) + chunk
      ensures buffer[used..] == old(buffer[..])[used..]
    {
      var k := 0;
      while k < |chunk|
        invariant 0 <= k <= |chunk| && used == old(used)
        invariant forall j :: 0 <= j < used ==> buffer[j] == old(buffer[j])
        invariant forall j :: 0 <= j < k ==> buffer[used + j] == chunk[j]
        invariant forall j :: used + k <= j < buffer.Length ==> buffer[j] == old(buffer[j])
      {
        buffer[used + k] := chunk[k];
        k := k + 1;
      }
      used := used + |chunk|;
      assert Contents() == old(Contents()) + chunk;
    }

    /** The scan loop: cuts the filled part at each delimiter occurrence,
        publishes every non-empty piece, skips empty ones, and returns how
        many bytes it consumed. The buffer is only read. */
    method ScanFrames() returns (consumed: nat)
      requires Valid()
      modifies slot
      ensures consumed <= used
      ensures Contents()[consumed..] == Scan(Contents(), delim).tail
      ensures slot.published == old(slot.published) + NonEmpty(Scan(Contents(), delim).pieces)
      ensures CurrentFrame(slot.frame, slot.size, NonEmpty(Scan(Contents(), delim).pieces), old(slot.frame), old(slot.size))
    {
      var all := buffer[..used];
      ghost var pieces: seq<seq<byte>> := [];
      ghost var frames: seq<seq<byte>> := [];
      ghost var base := slot.published;
      var head: nat := 0;
      var found := FindDelimiter(all, head, delim);
      CutStart(all, delim);
      while found.Some?
        invariant head <= |all|
        invariant CutUpTo(all, delim, head, pieces)
        invariant found.Some? ==> head <= found.value && FirstMatch(all[head..], delim) == Some(found.value - head)
        invariant found.None? ==> NoMatch(all[head..], delim)
        invariant frames == NonEmpty(pieces) && slot.published == base + frames
        invariant CurrentFrame(slot.frame, slot.size, frames, old(slot.frame), old(slot.size))
        decreases |all| - head
      {
        var at := found.value;
        var start := head;
        head := at + |delim|;
        ghost var piece := ScanLoopStep(all, delim, start, at, head, pieces);
        if start != at {
          PublishOne(slot.published, base, frames, piece);
          slot.Publish(all[start..at]);
          frames := frames + [piece];
        }
        pieces := pieces + [piece];
        found := FindDelimiter(all, head, delim);
      }
      CutDone(all, delim, head, pieces);
      consumed := head;
    }

    /** Moves the unconsumed bytes `[consumed, used)` to the front of the
        buffer and shrinks the filled part by `consumed`; the rest of the
        buffer is untouched, so consuming nothing changes nothing. */
    method Compact(consumed: nat)
      requires Valid() && consumed <= used
      modifies this`used, buffer
      ensures Valid() && used == old(used) - consumed
      ensures Contents() == old(buffer[consumed..used])
      ensures buffer[..] == Compacted(old(buffer[..]), consumed, old(used))
      ensures consumed == 0 ==> buffer[..] == old(buffer[..])
    {
      ghost var rest := buffer[consumed..used];
      used := used - consumed;
      var k := 0;
      while k < used
        invariant 0 <= k <= used && used == old(used) - consumed
        invariant forall j :: 0 <= j < k ==> buffer[j] == old(buffer[consumed + j])
        invariant forall j :: k <= j < buffer.Length ==> buffer[j] == old(buffer[j])
      {
        buffer[k] := buffer[consumed + k];
        k := k + 1;
      }
      assert Contents() == rest;
    }

    /** One pass of the worker's loop: a read that brings bytes is appended,
        scanned and compacted; end of file changes nothing; a failed read
        empties the buffer once the fifo is reopened, or ends the worker. */
    method Step(r: ReadResult) returns (running: bool)
      requires Valid()
      requires r.Chunk? ==> |r.bytes| <= Available()
      modifies this`used, buffer, slot
      ensures Valid()
      ensures var s := StepSpec(old(Contents()), r, delim);
              && Contents() == s.contents && slot.published == old(slot.published) + s.frames && running == s.running
              && CurrentFrame(slot.frame, slot.size, s.frames, old(slot.frame), old(slot.size))
    {
      match r
      case Failed(reopened) =>
        if reopened {
          used := 0;
        }
        running := reopened;
      case Chunk(bytes) =>
        running := true;
        if |bytes| != 0 {
          ghost var before := Contents();
          Append(bytes);
          ghost var filled := Contents();
          assert filled == before + bytes;
          ghost var frames := NonEmpty(Scan(filled, delim).pieces);
          var consumed := ScanFrames();
          Compact(consumed);
          assert Contents() == Scan(filled, delim).tail;
          assert StepSpec(before, r, delim) == Session(frames, Contents(), true);
        }
    }

    /** One iteration of Run's loop: the pass over read `rs[i]`, after the
        first `i` reads left the worker running with frames `acc`. */
    method Pass(rs: seq<ReadResult>, i: nat, ghost start: seq<byte>, ghost base: seq<seq<byte>>,
                ghost acc: seq<seq<byte>>, ghost f0: seq<byte>, ghost sz0: nat)
      returns (running: bool, ghost acc': seq<seq<byte>>)
      requires Valid() && i < |rs|
      requires slot.published == base + acc && CurrentFrame(slot.frame, slot.size, acc, f0, sz0)
      requires Replay(start, rs[..i], delim) == Session(acc, Contents(), true)
      requires Fits(Contents(), rs[i..], delim)
      modifies this`used, buffer, slot
      ensures Valid()
      ensures slot.published == base + acc' && CurrentFrame(slot.frame, slot.size, acc', f0, sz0)
      ensures Replay(start, rs[..i + 1], delim) == Session(acc', Contents(), running)
      ensures running ==> Fits(Contents(), rs[i + 1..], delim)
    {
      ghost var before := Contents();
      ghost var s := StepSpec(before, rs[i], delim);
      FitsStep(before, rs, i, delim);
      StepSpecBounded(before, rs[i], delim);
      ReplayStep(start, rs, i, acc, before, delim);
      PublishMore(slot.published, base, acc, s.frames);
      ghost var frame, size := slot.frame, slot.size;
      running := Step(rs[i]);
      CurrentFrameStep(frame, size, acc, s.frames, f0, sz0, slot.frame, slot.size);
      acc' := acc + s.frames;
    }

    /** The worker's loop over a sequence of read results: it runs until they
        are exhausted (the stop request) or a failed read cannot be recovered.
        The current frame is then the last one published, or the one there
        was before if none was. */
    method Run(rs: seq<ReadResult>) returns (running: bool)
      requires Valid() && Fits(Contents(), rs, delim)
      modifies this`used, buffer, slot
      ensures Valid()
      ensures var s := Replay(old(Contents()), rs, delim);
              && Contents() == s.contents && slot.published == old(slot.published) + s.frames && running == s.running
              && CurrentFrame(slot.frame, slot.size, s.frames, old(slot.frame), old(slot.size))
    {
      ghost var start := Contents();
      ghost var base := slot.published;
      ghost var f0, sz0 := slot.frame, slot.size;
      ghost var acc: seq<seq<byte>> := [];
      var i := 0;
      running := true;
      assert rs[..0] == [];
      while i < |rs| && running
        decreases |rs| - i
        invariant 0 <= i <= |rs| && Valid()
        invariant slot.published == base + acc && CurrentFrame(slot.frame, slot.size, acc, f0, sz0)
        invariant Replay(start, rs[..i], delim) == Session(acc, Contents(), running)
        invariant running ==> Fits(Contents(), rs[i..], delim)
      {
        running, acc := Pass(rs, i, start, base, acc, f0, sz0);
        i := i + 1;
      }
      ReplayPrefixDone(start, rs, i, Session(acc, Contents(), running), delim);
    }
  }
}
