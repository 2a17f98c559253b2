/**
 * The client state machine of stitch.c: decode_write_frame and the loops
 * of video_stitch, given the decoder as an oracle. Pure functions state
 * what the loops compute; the methods are proved to compute it.
 */
module Stitch {
  import opened Wrappers
  import opened Bytes
  import opened Decoder
  import Pgm

  /** Bytes fread asks for per round. */
  const INBUF_SIZE: nat := 4096
  /** FF_INPUT_BUFFER_PADDING_SIZE: zeroed bytes after the data so that a decoder over-reading stays in bounds. */
  const PADDING_SIZE: nat := 16

  function Min(a: int, b: int): int {
    if a < b then a else b
  }

  /** A PGM file written for a frame; its name is the output template formatted with count. */
  datatype Saved = Saved(count: int, image: seq<byte>)

  function Saves(s: Option<Saved>): seq<Saved> {
    if s.Some? then [s.value] else []
  }

  /** decode_write_frame's return value, and the packet, frame counter and file it leaves. */
  datatype StepResult = StepResult(ret: int, cursor: Cursor, count: int, saved: Option<Saved>)

  /** decode_write_frame once the decoder has answered o, for packet cur and frame counter count. */
  function Step(o: Outcome, cur: Cursor, count: int): (r: StepResult)
    requires o.picture.Some? ==> Fits(o.picture.value)
    ensures r.ret < 0 <==> o.len < 0
    ensures o.len < 0 ==> r.ret == o.len && r.cursor == cur && r.count == count && r.saved == None
    ensures o.len >= 0 ==> r.ret == 0
    ensures r.saved.Some? <==> o.len >= 0 && o.picture.Some?
    ensures r.saved.Some? ==> r.saved.value == Saved(count, PgmOf(o.picture.value))
    ensures r.count == count + |Saves(r.saved)|
    ensures cur.data.None? ==> r.cursor == cur
    ensures cur.data.Some? ==> r.cursor.data.Some? && r.cursor.data.value + r.cursor.size == cur.data.value + cur.size
    ensures cur.data.Some? && o.len >= 0 ==> r.cursor.size == cur.size - o.len
  {
    if o.len < 0 then StepResult(o.len, cur, count, None)
    else
      var saved := if o.picture.Some? then Some(Saved(count, PgmOf(o.picture.value))) else None;
      var cursor := if cur.data.Some? then Cursor(Some(cur.data.value + o.len), cur.size - o.len) else cur;
      StepResult(0, cursor, count + |Saves(saved)|, saved)
  }

  /**
   * decode_write_frame: one decode call on the packet; a picture is saved
   * under the current count, which then goes up by one; on success a
   * packet with data moves past the bytes consumed.
   */
  method DecodeWriteFrame(c: Codec, buf: array<byte>, frameCount: int, pkt: Packet)
    returns (ret: int, newCount: int, saved: Option<Saved>)
    requires Honest(c.decode)
    requires Inside(pkt.Value(), buf.Length)
    modifies c, pkt
    ensures c.fed == old(c.fed) + [InputOf(buf[..], old(pkt.Value()))]
    ensures StepResult(ret, pkt.Value(), newCount, saved)
            == Step(c.decode(old(c.fed), InputOf(buf[..], old(pkt.Value()))), old(pkt.Value()), frameCount)
  {
    var o := c.DecodeVideo(buf, pkt);
    if o.len < 0 {
      return o.len, frameCount, None;
    }
    newCount, saved := frameCount, None;
    if o.picture.Some? {
      var p := o.picture.value;
      var image := Pgm.PgmSave(p.luma, p.linesize, p.width, p.height);
      saved := Some(Saved(frameCount, image));
      newCount := frameCount + 1;
    }
    if pkt.data.Some? {
      pkt.size := pkt.size - o.len;
      pkt.data := Some(pkt.data.value + o.len);
    }
    ret := 0;
  }

  /** An input FILE* opened for binary reading: its contents and its read position. */
  class InputFile {
    const content: seq<byte>
    var pos: nat

    ghost predicate Valid()
      reads this
    {
      pos <= |content|
    }

    constructor (content: seq<byte>)
      ensures this.content == content && pos == 0 && Valid()
    {
      this.content := content;
      pos := 0;
    }

    /** fread(buf, 1, count, f): the next count bytes, or fewer at the end; the rest of buf is untouched. */
    method Read(buf: array<byte>, count: nat) returns (n: nat)
      requires Valid() && count <= buf.Length
      modifies this, buf
      ensures Valid()
      ensures n == Min(count, |content| - old(pos)) && pos == old(pos) + n
      ensures buf[..n] == content[old(pos) .. pos]
      ensures forall k :: n <= k < buf.Length ==> buf[k] == old(buf[k])
    {
      n := Min(count, |content| - pos);
      forall k | 0 <= k < n {
        buf[k] := content[pos + k];
      }
      pos := pos + n;
    }
  }

  /** An input buffer of INBUF_SIZE bytes whose padding is zero. */
  ghost predicate Padded(buf: array<byte>)
    reads buf
  {
    buf.Length == INBUF_SIZE + PADDING_SIZE
    && forall k :: INBUF_SIZE <= k < buf.Length ==> buf[k] == 0
  }

  /** What the driver carries across decode calls: the decoder's history, frame_count1, the files written. */
  datatype Session = Session(fed: seq<Input>, count: int, files: seq<Saved>)

  /** How the inner loop ends: the session, the packet's final offset, and whether decoding failed. */
  datatype ChunkEnd = ChunkEnd(session: Session, offset: nat, failed: bool)

  /**
   * while (avpkt1.size > 0) decode_write_frame(...) over a chunk, with the
   * packet at offset off; a failed call ends it (the caller then exits).
   */
  function Exhaust(decode: Oracle, chunk: seq<byte>, off: nat, s: Session): ChunkEnd
    requires Honest(decode) && Progresses(decode)
    requires off <= |chunk|
    decreases |chunk| - off
  {
    if off == |chunk| then ChunkEnd(s, off, false)
    else
      var cur := Cursor(Some(off), |chunk| - off);
      var input := InputOf(chunk, cur);
      var st := Step(decode(s.fed, input), cur, s.count);
      var next := Session(s.fed + [input], st.count, s.files + Saves(st.saved));
      if st.ret < 0 then ChunkEnd(next, off, true)
      else Exhaust(decode, chunk, st.cursor.data.value, next)
  }

  /** How the round loop ends: the session, the bytes the decoder consumed in these rounds, and whether decoding failed. */
  datatype RoundsEnd = RoundsEnd(session: Session, consumed: nat, failed: bool)

  /**
   * The for(;;) loop from position pos of stream 1: read a chunk, stop if
   * it is empty, else decode all of it. Stream 2 is read too, but neither
   * its bytes nor its length take part.
   */
  function Rounds(decode: Oracle, input1: seq<byte>, pos: nat, s: Session): RoundsEnd
    requires Honest(decode) && Progresses(decode)
    requires pos <= |input1|
    decreases |input1| - pos
  {
    var n := Min(INBUF_SIZE, |input1| - pos);
    if n == 0 then RoundsEnd(s, 0, false)
    else
      var e := Exhaust(decode, input1[pos .. pos + n], 0, s);
      if e.failed then RoundsEnd(e.session, e.offset, true)
      else
        var r := Rounds(decode, input1, pos + n, e.session);
        RoundsEnd(r.session, e.offset + r.consumed, r.failed)
  }

  /** The rounds from pos on end as the rounds from pos + n on, when the chunk of n bytes at pos decodes to the end. */
  predicate SameEnd(a: RoundsEnd, b: RoundsEnd) {
    a.session == b.session && a.failed == b.failed
  }

  /** A round whose chunk fails to decode ends the loop. */
  lemma RoundFails(decode: Oracle, input1: seq<byte>, pos: nat, s: Session, n: nat, e: ChunkEnd)
    requires Honest(decode) && Progresses(decode)
    requires pos < |input1| && n == Min(INBUF_SIZE, |input1| - pos)
    requires e == Exhaust(decode, input1[pos .. pos + n], 0, s) && e.failed
    ensures Rounds(decode, input1, pos, s) == RoundsEnd(e.session, e.offset, true)
  {}

  /** A round whose chunk decodes to the end moves on to the next read. */
  lemma RoundSucceeds(decode: Oracle, input1: seq<byte>, pos: nat, s: Session, n: nat, e: ChunkEnd)
    requires Honest(decode) && Progresses(decode)
    requires pos < |input1| && n == Min(INBUF_SIZE, |input1| - pos)
    requires e == Exhaust(decode, input1[pos .. pos + n], 0, s) && !e.failed
    ensures SameEnd(Rounds(decode, input1, pos, s), Rounds(decode, input1, pos + n, e.session))
  {}

  /**
   * The inner loop consumes the chunk from off to its end exactly when no
   * call fails; each call consumes at least one byte, so it makes at most
   * |chunk| - off calls.
   */
  lemma {:induction false} ExhaustConsumes(decode: Oracle, chunk: seq<byte>, off: nat, s: Session)
    requires Honest(decode) && Progresses(decode) && off <= |chunk|
    ensures var r := Exhaust(decode, chunk, off, s);
            off <= r.offset <= |chunk|
            && (!r.failed <==> r.offset == |chunk|)
            && |s.fed| + (if off < |chunk| then 1 else 0) <= |r.session.fed| <= |s.fed| + (|chunk| - off)
    decreases |chunk| - off
  {
    if off < |chunk| {
      var cur := Cursor(Some(off), |chunk| - off);
      var input := InputOf(chunk, cur);
      var st := Step(decode(s.fed, input), cur, s.count);
      var next := Session(s.fed + [input], st.count, s.files + Saves(st.saved));
      if st.ret >= 0 {
        ExhaustConsumes(decode, chunk, st.cursor.data.value, next);
      }
    }
  }

  /**
   * The inner loop only appends files, names each one after the counter
   * it was saved under, and those counters run on from s.count without a
   * gap; the counter ends at s.count plus the number of files saved.
   */
  lemma {:induction false} ExhaustNames(decode: Oracle, chunk: seq<byte>, off: nat, s: Session)
    requires Honest(decode) && Progresses(decode) && off <= |chunk|
    ensures var r := Exhaust(decode, chunk, off, s).session;
            s.files <= r.files
            && r.count == s.count + (|r.files| - |s.files|)
            && forall k :: |s.files| <= k < |r.files| ==> r.files[k].count == s.count + (k - |s.files|)
    decreases |chunk| - off
  {
    if off < |chunk| {
      var cur := Cursor(Some(off), |chunk| - off);
      var input := InputOf(chunk, cur);
      var st := Step(decode(s.fed, input), cur, s.count);
      var next := Session(s.fed + [input], st.count, s.files + Saves(st.saved));
      if st.ret >= 0 {
        ExhaustNames(decode, chunk, st.cursor.data.value, next);
        var r := Exhaust(decode, chunk, off, s).session;
        assert r == Exhaust(decode, chunk, st.cursor.data.value, next).session;
        forall k | |s.files| <= k < |r.files| ensures r.files[k].count == s.count + (k - |s.files|) {
          if k < |next.files| {
            assert r.files[k] == next.files[k];
          }
        }
      }
    }
  }

  /**
   * Every call the inner loop makes is offered a non-empty packet holding
   * the rest of the chunk: decode_write_frame never sees size 0 there.
   */
  lemma {:induction false} ExhaustFeeds(decode: Oracle, chunk: seq<byte>, off: nat, s: Session)
    requires Honest(decode) && Progresses(decode) && off <= |chunk|
    ensures var r := Exhaust(decode, chunk, off, s).session;
            s.fed <= r.fed
            && forall k :: |s.fed| <= k < |r.fed| ==> FedSuffix(r.fed[k], chunk, off)
    decreases |chunk| - off
  {
    if off < |chunk| {
      var cur := Cursor(Some(off), |chunk| - off);
      var input := InputOf(chunk, cur);
      var st := Step(decode(s.fed, input), cur, s.count);
      var next := Session(s.fed + [input], st.count, s.files + Saves(st.saved));
      assert FedSuffix(input, chunk, off);
      if st.ret >= 0 {
        var off' := st.cursor.data.value;
        ExhaustFeeds(decode, chunk, off', next);
        var r := Exhaust(decode, chunk, off, s).session;
        assert r == Exhaust(decode, chunk, off', next).session;
        forall k | |s.fed| <= k < |r.fed| ensures FedSuffix(r.fed[k], chunk, off) {
          if k < |next.fed| {
            assert r.fed[k] == input;
          } else {
            assert FedSuffix(r.fed[k], chunk, off');
          }
        }
      }
    }
  }

  /** A packet holding a non-empty tail of the chunk, starting at or after off. */
  predicate FedSuffix(i: Input, chunk: seq<byte>, off: nat) {
    i.Data? && i.bytes != [] && |i.bytes| <= |chunk| - off && i.bytes == chunk[|chunk| - |i.bytes| ..]
  }

  /**
   * The rounds from pos consume every remaining byte of stream 1 exactly
   * when no decode call fails; a failure leaves bytes unconsumed.
   */
  lemma {:induction false} RoundsConsume(decode: Oracle, input1: seq<byte>, pos: nat, s: Session)
    requires Honest(decode) && Progresses(decode) && pos <= |input1|
    ensures var r := Rounds(decode, input1, pos, s);
            r.consumed <= |input1| - pos && (!r.failed <==> r.consumed == |input1| - pos)
    decreases |input1| - pos
  {
    var n := Min(INBUF_SIZE, |input1| - pos);
    if n > 0 {
      var e := Exhaust(decode, input1[pos .. pos + n], 0, s);
      ExhaustConsumes(decode, input1[pos .. pos + n], 0, s);
      if !e.failed {
        RoundsConsume(decode, input1, pos + n, e.session);
      }
    }
  }

  /** The rounds only append files, and their counters run on from s.count without a gap. */
  lemma {:induction false} RoundsNames(decode: Oracle, input1: seq<byte>, pos: nat, s: Session)
    requires Honest(decode) && Progresses(decode) && pos <= |input1|
    ensures var r := Rounds(decode, input1, pos, s).session;
            s.files <= r.files
            && r.count == s.count + (|r.files| - |s.files|)
            && forall k :: |s.files| <= k < |r.files| ==> r.files[k].count == s.count + (k - |s.files|)
    decreases |input1| - pos
  {
    var n := Min(INBUF_SIZE, |input1| - pos);
    if n > 0 {
      var e := Exhaust(decode, input1[pos .. pos + n], 0, s);
      ExhaustNames(decode, input1[pos .. pos + n], 0, s);
      if !e.failed {
        var mid := e.session;
        RoundsNames(decode, input1, pos + n, mid);
        var r := Rounds(decode, input1, pos, s).session;
        assert r == Rounds(decode, input1, pos + n, mid).session;
        forall k | |s.files| <= k < |r.files| ensures r.files[k].count == s.count + (k - |s.files|) {
          if k < |mid.files| {
            assert r.files[k] == mid.files[k];
          }
        }
      }
    }
  }

  /** During the rounds the decoder is only ever offered non-empty packets, never a NULL one. */
  lemma {:induction false} RoundsFeed(decode: Oracle, input1: seq<byte>, pos: nat, s: Session)
    requires Honest(decode) && Progresses(decode) && pos <= |input1|
    ensures var r := Rounds(decode, input1, pos, s).session;
            s.fed <= r.fed && forall k :: |s.fed| <= k < |r.fed| ==> NonEmptyData(r.fed[k])
    decreases |input1| - pos
  {
    var n := Min(INBUF_SIZE, |input1| - pos);
    if n > 0 {
      var chunk := input1[pos .. pos + n];
      var e := Exhaust(decode, chunk, 0, s);
      ExhaustFeeds(decode, chunk, 0, s);
      if !e.failed {
        var mid := e.session;
        RoundsFeed(decode, input1, pos + n, mid);
        var r := Rounds(decode, input1, pos, s).session;
        assert r == Rounds(decode, input1, pos + n, mid).session;
        forall k | |s.fed| <= k < |r.fed| ensures NonEmptyData(r.fed[k]) {
          if k < |mid.fed| {
            assert r.fed[k] == mid.fed[k] && FedSuffix(mid.fed[k], chunk, 0);
          }
        }
      }
    }
  }

  /** A packet with data in it, as opposed to the NULL packet of the drain. */
  predicate NonEmptyData(i: Input) {
    i.Data? && i.bytes != []
  }

  /** How video_stitch ends: normally, or through exit(code). */
  datatype Status = Finished | Exited(code: int)

  datatype RunEnd = RunEnd(session: Session, consumed: nat, status: Status)

  /** The session before the first round: nothing fed, frame_count1 = 0, no files. */
  const START: Session := Session([], 0, [])

  /** video_stitch: the round loop, then one decode call with a NULL packet whose result is ignored. */
  function Run(decode: Oracle, input1: seq<byte>): RunEnd
    requires Honest(decode) && Progresses(decode)
  {
    var e := Rounds(decode, input1, 0, START);
    if e.failed then RunEnd(e.session, e.consumed, Exited(1))
    else
      var st := Step(decode(e.session.fed, Flush), Cursor(None, 0), e.session.count);
      RunEnd(Session(e.session.fed + [Flush], st.count, e.session.files + Saves(st.saved)), e.consumed, Finished)
  }

  /**
   * Output file k is saved under counter k, so no two frames share a
   * filename, and frame_count1 ends at the number of files written.
   */
  lemma RunNamesFrames(decode: Oracle, input1: seq<byte>)
    requires Honest(decode) && Progresses(decode)
    ensures var r := Run(decode, input1).session;
            r.count == |r.files| && forall k :: 0 <= k < |r.files| ==> r.files[k].count == k
  {
    RoundsNames(decode, input1, 0, START);
  }

  /** video_stitch finishes normally exactly when the decoder consumed every byte of stream 1. */
  lemma RunConsumes(decode: Oracle, input1: seq<byte>)
    requires Honest(decode) && Progresses(decode)
    ensures Run(decode, input1).status == Finished <==> Run(decode, input1).consumed == |input1|
    ensures Run(decode, input1).status != Finished ==> Run(decode, input1).status == Exited(1)
  {
    RoundsConsume(decode, input1, 0, START);
  }

  /**
   * The drain is one call with a NULL packet, made only after a normal end
   * of the rounds and after every other call, and it saves at most one
   * frame; every earlier call was offered a non-empty packet.
   */
  lemma RunDrainsOnce(decode: Oracle, input1: seq<byte>)
    requires Honest(decode) && Progresses(decode)
    ensures var rounds := Rounds(decode, input1, 0, START).session;
            var r := Run(decode, input1);
            var last := if r.status == Finished then |r.session.fed| - 1 else |r.session.fed|;
            (r.status == Finished ==>
               r.session.fed == rounds.fed + [Flush]
               && rounds.count <= r.session.count <= rounds.count + 1)
            && 0 <= last
            && forall k :: 0 <= k < last ==> NonEmptyData(r.session.fed[k])
  {
    RoundsFeed(decode, input1, 0, START);
  }

  /** A 2x2 test picture, stored with a line size of 3 (one padding byte per row). */
  const TEST_PICTURE: Picture := Picture([10, 20, 0, 30, 40], 3, 2, 2)

  /** A stub decoder: consumes each packet whole and returns TEST_PICTURE for it; a flush yields nothing. */
  function StubDecoder(fed: seq<Input>, i: Input): Outcome {
    if i.Data? then Outcome(|i.bytes|, Some(TEST_PICTURE)) else Outcome(0, None)
  }

  lemma StubIsWellBehaved()
    ensures Honest(StubDecoder) && Progresses(StubDecoder)
  {
    assert Pgm.Mul(1, 3) == 3;
    assert Fits(TEST_PICTURE);
  }

  /** The number of reads of stream 1 that return data: |input1| / INBUF_SIZE rounded up. */
  function Chunks(len: nat): nat {
    (len + INBUF_SIZE - 1) / INBUF_SIZE
  }

  lemma {:induction false} StubRounds(input1: seq<byte>, pos: nat, s: Session)
    requires pos <= |input1|
    requires Honest(StubDecoder) && Progresses(StubDecoder)
    ensures var r := Rounds(StubDecoder, input1, pos, s);
            !r.failed && |r.session.files| == |s.files| + Chunks(|input1| - pos)
            && forall k :: |s.files| <= k < |r.session.files| ==> r.session.files[k].image == PgmOf(TEST_PICTURE)
    decreases |input1| - pos
  {
    var n := Min(INBUF_SIZE, |input1| - pos);
    if n > 0 {
      var chunk := input1[pos .. pos + n];
      var e := Exhaust(StubDecoder, chunk, 0, s);
      var cur := Cursor(Some(0), n);
      var st := Step(StubDecoder(s.fed, InputOf(chunk, cur)), cur, s.count);
      var next := Session(s.fed + [InputOf(chunk, cur)], st.count, s.files + Saves(st.saved));
      assert e == Exhaust(StubDecoder, chunk, n, next);
      StubRounds(input1, pos + n, next);
      RoundsNames(StubDecoder, input1, pos + n, next);
      var r := Rounds(StubDecoder, input1, pos + n, next).session;
      assert r.files[|s.files|] == r.files[..|next.files|][|s.files|];
      assert Chunks(|input1| - pos) == 1 + Chunks(|input1| - (pos + n));
    }
  }

  /**
   * End to end with the stub: video_stitch finishes and writes one
   * TEST_PICTURE file per chunk of stream 1, whatever stream 2 holds.
   */
  lemma StubRun(input1: seq<byte>)
    ensures (StubIsWellBehaved(); var r := Run(StubDecoder, input1);
             r.status == Finished && |r.session.files| == Chunks(|input1|)
             && forall k :: 0 <= k < |r.session.files| ==> r.session.files[k] == Saved(k, PgmOf(TEST_PICTURE)))
  {
    StubIsWellBehaved();
    StubRounds(input1, 0, START);
    RunNamesFrames(StubDecoder, input1);
  }

  /**
   * The inner loop of video_stitch: decode_write_frame until the packet,
   * which starts at the beginning of inbuf holding chunk, is used up or a
   * call fails (video_stitch then exits).
   */
  method DecodeChunk(c: Codec, inbuf: array<byte>, pkt: Packet, frameCount: int, files: seq<Saved>, ghost chunk: seq<byte>)
    returns (failed: bool, newCount: int, newFiles: seq<Saved>, ghost e: ChunkEnd)
    requires Honest(c.decode) && Progresses(c.decode)
    requires pkt.data == Some(0) && pkt.size == |chunk| <= inbuf.Length && inbuf[..|chunk|] == chunk
    modifies c, pkt
    ensures e == Exhaust(c.decode, chunk, 0, Session(old(c.fed), frameCount, files))
    ensures e == ChunkEnd(Session(c.fed, newCount, newFiles), e.offset, failed)
    ensures !failed ==> pkt.size == 0
  {
    ghost var start := Session(c.fed, frameCount, files);
    ghost var n := |chunk|;
    newCount, newFiles := frameCount, files;
    while pkt.size > 0
      invariant pkt.data.Some? && 0 <= pkt.size && pkt.data.value + pkt.size == n
      invariant Exhaust(c.decode, chunk, pkt.data.value, Session(c.fed, newCount, newFiles))
                == Exhaust(c.decode, chunk, 0, start)
      decreases pkt.size
    {
      ghost var off := pkt.data.value;
      ghost var before := Session(c.fed, newCount, newFiles);
      assert InputOf(inbuf[..], pkt.Value()) == InputOf(chunk, Cursor(Some(off), |chunk| - off)) by {
        assert inbuf[..][off .. n] == inbuf[..n][off ..];
      }
      var ret, saved;
      ret, newCount, saved := DecodeWriteFrame(c, inbuf, newCount, pkt);
      newFiles := newFiles + Saves(saved);
      if ret < 0 {
        e := ChunkEnd(Session(c.fed, newCount, newFiles), off, true);
        assert Exhaust(c.decode, chunk, off, before) == e;
        return true, newCount, newFiles, e;
      }
    }
    e := ChunkEnd(Session(c.fed, newCount, newFiles), n, false);
    failed := false;
  }

  /**
   * One pass of the for(;;) loop of video_stitch: read a chunk from each
   * file; if the read from file 1 gave nothing, the loop is done, otherwise
   * decode the chunk of file 1 to its end, and the loop is done (failed,
   * video_stitch exits) when a decode call fails. When the pass is not the
   * last, it has read more of file 1 and the rounds still to come end as
   * those from before it.
   */
  method ReadRound(c: Codec, f1: InputFile, f2: InputFile, inbuf1: array<byte>, inbuf2: array<byte>,
                   pkt1: Packet, pkt2: Packet, frameCount1: int, files: seq<Saved>)
    returns (done: bool, failed: bool, newCount: int, newFiles: seq<Saved>)
    requires Honest(c.decode) && Progresses(c.decode)
    requires f1 != f2 && inbuf1 != inbuf2 && pkt1 != pkt2
    requires f1.Valid() && f2.Valid() && Padded(inbuf1) && Padded(inbuf2)
    modifies c, pkt1, pkt2, inbuf1, inbuf2, f1, f2
    ensures f1.Valid() && f2.Valid() && Padded(inbuf1) && Padded(inbuf2)
    ensures var before := Rounds(c.decode, f1.content, old(f1.pos), Session(old(c.fed), frameCount1, files));
            if done then before.failed == failed && before.session == Session(c.fed, newCount, newFiles)
            else old(f1.pos) < f1.pos && SameEnd(before, Rounds(c.decode, f1.content, f1.pos, Session(c.fed, newCount, newFiles)))
  {
    ghost var pos := f1.pos;
    ghost var start := Session(c.fed, frameCount1, files);
    newCount, newFiles := frameCount1, files;
    pkt1.size := f1.Read(inbuf1, INBUF_SIZE);
    pkt2.size := f2.Read(inbuf2, INBUF_SIZE);
    if pkt1.size == 0 || pkt1.size == 0 {
      return true, false, newCount, newFiles;
    }
    pkt1.data := Some(0);
    pkt2.data := Some(0);
    ghost var n := pkt1.size;
    ghost var chunk := f1.content[pos .. pos + n];
    assert Min(INBUF_SIZE, |f1.content| - pos) == n;
    ghost var e;
    failed, newCount, newFiles, e := DecodeChunk(c, inbuf1, pkt1, newCount, newFiles, chunk);
    if failed {
      RoundFails(c.decode, f1.content, pos, start, n, e);
      return true, true, newCount, newFiles;
    }
    RoundSucceeds(c.decode, f1.content, pos, start, n, e);
    done := false;
  }

  /**
   * The for(;;) loop of video_stitch, run until a pass is the last one:
   * its outcome is Rounds from the position file 1 was at.
   */
  method ReadDecodeLoop(c: Codec, f1: InputFile, f2: InputFile, inbuf1: array<byte>, inbuf2: array<byte>,
                        pkt1: Packet, pkt2: Packet, frameCount1: int, files: seq<Saved>)
    returns (failed: bool, newCount: int, newFiles: seq<Saved>)
    requires Honest(c.decode) && Progresses(c.decode)
    requires f1 != f2 && inbuf1 != inbuf2 && pkt1 != pkt2
    requires f1.Valid() && f2.Valid() && Padded(inbuf1) && Padded(inbuf2)
    modifies c, pkt1, pkt2, inbuf1, inbuf2, f1, f2
    ensures Padded(inbuf1) && Padded(inbuf2)
    ensures failed == Rounds(c.decode, f1.content, old(f1.pos), Session(old(c.fed), frameCount1, files)).failed
    ensures Session(c.fed, newCount, newFiles)
            == Rounds(c.decode, f1.content, old(f1.pos), Session(old(c.fed), frameCount1, files)).session
  {
    ghost var whole := Rounds(c.decode, f1.content, f1.pos, Session(c.fed, frameCount1, files));
    newCount, newFiles := frameCount1, files;
    while true
      invariant f1.Valid() && f2.Valid()
      invariant Padded(inbuf1) && Padded(inbuf2)
      invariant SameEnd(Rounds(c.decode, f1.content, f1.pos, Session(c.fed, newCount, newFiles)), whole)
      decreases |f1.content| - f1.pos
    {
      var done;
      done, failed, newCount, newFiles := ReadRound(c, f1, f2, inbuf1, inbuf2, pkt1, pkt2, newCount, newFiles);
      if done {
        return;
      }
    }
  }

  /**
   * video_stitch on the contents of the two input files. Returns how it
   * ended, the files written in order, both frame counters and every
   * packet the decoder was offered.
   */
  method VideoStitch(decode: Oracle, input1: seq<byte>, input2: seq<byte>)
    returns (status: Status, files: seq<Saved>, frameCount1: int, frameCount2: int, fed: seq<Input>)
    requires Honest(decode) && Progresses(decode)
    ensures status == Run(decode, input1).status
    ensures files == Run(decode, input1).session.files
    ensures frameCount1 == Run(decode, input1).session.count
    ensures fed == Run(decode, input1).session.fed
    ensures frameCount2 == 0
  {
    var c := new Codec(decode);
    var pkt1 := new Packet();
    var pkt2 := new Packet();
    var inbuf1 := new byte[INBUF_SIZE + PADDING_SIZE];
    var inbuf2 := new byte[INBUF_SIZE + PADDING_SIZE];
    forall k | INBUF_SIZE <= k < inbuf1.Length {
      inbuf1[k] := 0;
    }
    forall k | INBUF_SIZE <= k < inbuf2.Length {
      inbuf2[k] := 0;
    }
    var f1 := new InputFile(input1);
    var f2 := new InputFile(input2);
    frameCount1, frameCount2 := 0, 0;
    var failed;
    failed, frameCount1, files := ReadDecodeLoop(c, f1, f2, inbuf1, inbuf2, pkt1, pkt2, frameCount1, []);
    if failed {
      status, fed := Exited(1), c.fed;
      return;
    }
    pkt1.data := None;
    pkt1.size := 0;
    var ignored, saved;
    ignored, frameCount1, saved := DecodeWriteFrame(c, inbuf1, frameCount1, pkt1);
    files := files + Saves(saved);
    status, fed := Finished, c.fed;
  }
}
