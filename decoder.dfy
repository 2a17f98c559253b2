/**
 * The client's view of libavcodec: the decoder is an oracle that, given
 * every packet it has been offered so far and the next one, reports how
 * many bytes it consumed (negative on error) and whether it produced a
 * picture. AVPacket and the codec context are objects updated in place.
 */
module Decoder {
  import opened Wrappers
  import opened Bytes
  import Pgm

  /** A decoded frame's luma plane with its line size, and the context's width and height. */
  datatype Picture = Picture(luma: seq<byte>, linesize: nat, width: nat, height: nat)

  /** pgm_save may read every row of the picture. */
  predicate Fits(p: Picture) {
    Pgm.RowsFit(|p.luma|, p.linesize, p.width, p.height)
  }

  /** The PGM file pgm_save writes for a picture. */
  function PgmOf(p: Picture): seq<byte>
    requires Fits(p)
  {
    Pgm.Image(p.luma, p.linesize, p.width, p.height)
  }

  /** What a decode call is offered: the packet's bytes, or a NULL packet that asks for buffered frames. */
  datatype Input = Data(bytes: seq<byte>) | Flush

  /** What avcodec_decode_video2 reports: its return value and, when got_frame is set, the picture. */
  datatype Outcome = Outcome(len: int, picture: Option<Picture>)

  /** A deterministic decoder: its answer depends on the inputs it was offered before and the current one. */
  type Oracle = (seq<Input>, Input) -> Outcome

  /** A well-behaved answer: it never consumes more than it was offered, and its pictures are complete. */
  predicate Sound(i: Input, o: Outcome) {
    (o.len >= 0 && i.Data? ==> o.len <= |i.bytes|)
    && (o.picture.Some? ==> Fits(o.picture.value))
  }

  ghost predicate Honest(decode: Oracle) {
    forall fed: seq<Input>, i: Input :: Sound(i, decode(fed, i))
  }

  /** Offered a non-empty packet, the decoder either fails or consumes at least one byte. */
  ghost predicate Progresses(decode: Oracle) {
    forall fed: seq<Input>, i: Input :: i.Data? && i.bytes != [] && decode(fed, i).len >= 0 ==> decode(fed, i).len > 0
  }

  /** The value of an AVPacket: data is an offset into the input buffer, None for NULL. */
  datatype Cursor = Cursor(data: Option<nat>, size: int)

  /** The packet's bytes lie inside a buffer of len bytes. */
  predicate Inside(c: Cursor, len: nat) {
    c.data.Some? ==> 0 <= c.size && c.data.value + c.size <= len
  }

  /** What the decoder is offered for a packet over buffer buf. */
  function InputOf(buf: seq<byte>, c: Cursor): (i: Input)
    requires Inside(c, |buf|)
    ensures i.Data? <==> c.data.Some?
    ensures i.Data? ==> |i.bytes| == c.size
  {
    match c.data
    case None => Flush
    case Some(off) => Data(buf[off .. off + c.size])
  }

  /** AVPacket: a data pointer into the caller's buffer and a size, both updated by the caller. */
  class Packet {
    var data: Option<nat>
    var size: int

    function Value(): Cursor
      reads this
    {
      Cursor(data, size)
    }

    /**
     * A packet before its first use. av_init_packet leaves data and size
     * unset; the model starts them at NULL and 0, and video_stitch assigns
     * both before it reads either.
     */
    constructor ()
      ensures data == None && size == 0
    {
      data := None;
      size := 0;
    }
  }

  /** The opened codec context, which remembers every packet it was given. */
  class Codec {
    const decode: Oracle
    var fed: seq<Input>

    /** avcodec_open2: a fresh decoder that has seen nothing. */
    constructor (decode: Oracle)
      ensures this.decode == decode && fed == []
    {
      this.decode := decode;
      fed := [];
    }

    /** avcodec_decode_video2 on the packet's current bytes. */
    method DecodeVideo(buf: array<byte>, pkt: Packet) returns (o: Outcome)
      requires Inside(pkt.Value(), buf.Length)
      modifies this
      ensures fed == old(fed) + [InputOf(buf[..], pkt.Value())]
      ensures o == decode(old(fed), InputOf(buf[..], pkt.Value()))
    {
      var input := InputOf(buf[..], pkt.Value());
      o := decode(fed, input);
      fed := fed + [input];
    }
  }
}
