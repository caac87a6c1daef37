/** The compressor as the zip modules use it: input in pieces, output through a buffer of 512 bytes. */
module Deflaters {
  import opened Prelude
  import opened Inflate
  import opened Bits
  import opened BlockLaws
  import opened Production
  import opened SlidingWindows
  import opened Streams
  import D = Deflate

  const BUFSIZE: nat := 512

  // What is left of the work of a stream: the input that is in no block yet.
  ghost function Left(d: D.Deflate): int
    reads d.strm, d.win
  {
    |d.strm.offered| - d.Start()
  }

  ghost function Phase(d: D.Deflate): nat
    reads d`status
  {
    if d.status.Busy? then 1 else 0
  }

  // Asking for the end again and again reaches it, however little room every call makes.
  method Finish(d: D.Deflate, room: nat -> nat) returns (bytes: seq<byte>)
    requires d.Valid() && (d.status.Finish? ==> d.strm.avail_in == 0)
    requires forall i :: room(i) > 0
    modifies d, d.strm, d.Memory()
    ensures d.Valid() && d.strm.offered == old(d.strm.offered) && d.strm.delivered == old(d.strm.delivered) + bytes
    ensures D.Encodes(d.strm.delivered, d.strm.offered, d.end)
    ensures d.extra == old(d.extra) && Obeys(d.Settings(), BytesToBits(d.strm.delivered), d.extra)
  {
    hide D.Deflate.Valid, D.Encodes, Produced, BytesToBits, Obeys, Lawful, D.Deflate.Settings;
    var calls := 0;
    var err, piece := d.Exchange([], room(0), D.Z_FINISH);
    bytes := piece;
    while d.strm.avail_in > 0 || |piece| == room(calls)
      invariant d.Valid() && (d.status.Finish? ==> d.strm.avail_in == 0)
      invariant d.strm.offered == old(d.strm.offered) && d.strm.delivered == old(d.strm.delivered) + bytes
      invariant |piece| <= room(calls) && Left(d) >= 0
      invariant d.extra == old(d.extra)
      invariant if |piece| == room(calls) then err == D.Z_OK
                else d.strm.avail_in == 0 && D.Encodes(d.strm.delivered, d.strm.offered, d.end)
                     && Obeys(d.Settings(), BytesToBits(d.strm.delivered), d.extra)
      decreases |piece| == room(calls), Phase(d), Left(d), d.coder.out.pending
    {
      calls := calls + 1;
      err, piece := d.Exchange([], room(calls), D.Z_FINISH);
      bytes := bytes + piece;
    }
  }

  ghost function Parts(d: D.Deflate): set<object> {
    d.Memory() + {d, d.strm}
  }

  // Without a flush, repeated calls read all input there is and give back what does not wait for more.
  method Absorb(d: D.Deflate, data: seq<byte>) returns (bytes: seq<byte>)
    requires d.Valid() && d.status.Busy? && d.strm.avail_in == 0 && data != []
    modifies d, d.strm, d.Memory()
    ensures d.Valid() && d.status.Busy? && d.strm.avail_in == 0
    ensures d.strm.offered == old(d.strm.offered) + data && d.strm.delivered == old(d.strm.delivered) + bytes
    ensures d.extra == old(d.extra)
  {
    hide D.Deflate.Valid, D.Encodes, Produced, BytesToBits, Obeys, Lawful, D.Deflate.Settings;
    var err, piece := d.Exchange(data, BUFSIZE, D.Z_NO_FLUSH);
    bytes := piece;
    while d.strm.avail_in > 0 || |piece| == BUFSIZE
      invariant d.Valid() && d.status.Busy? && err == D.Z_OK && |piece| <= BUFSIZE && Left(d) >= 0
      invariant d.strm.offered == old(d.strm.offered) + data && d.strm.delivered == old(d.strm.delivered) + bytes
      invariant (if |piece| == BUFSIZE then d.last_flush == -1 else d.strm.avail_in == 0) && d.extra == old(d.extra)
      decreases |piece| == BUFSIZE, Left(d), d.coder.out.pending
    {
      err, piece := d.Exchange([], BUFSIZE, D.Z_NO_FLUSH);
      bytes := bytes + piece;
    }
  }

  // What append and flush give back: nothing, bytes, or an exception.
  datatype Answer = Nothing | Bytes(bytes: seq<byte>) | Thrown

  class Deflater {
    const d: D.Deflate?   // null when deflateInit refused the level: then every use throws
    var ended: bool

    // The objects that belong to it, but for the output buffer.
    ghost function Cells(): set<object> {
      if d == null then {} else Parts(d)
    }

    ghost predicate Valid()
      reads this, Cells(), if d == null then {} else {d.strm.next_out}
    {
      d != null ==> d.Valid() && d.extra == 0 && (!ended ==> d.status.Busy? && d.strm.avail_in == 0)
    }

    // What has been appended, and what has come back.
    ghost function Input(): seq<byte>
      reads Cells()
    {
      if d == null then [] else d.strm.offered
    }

    ghost function Output(): seq<byte>
      reads Cells()
    {
      if d == null then [] else d.strm.delivered
    }

    constructor (level: int)
      ensures Valid() && fresh(Cells()) && !ended && Input() == Output() == []
      ensures d != null <==> -1 <= level <= 9
      ensures d != null ==>
                && d.level == (if level == -1 then 6 else level) && d.strategy == 0 && d.win.z.w == 32768
                && d.coder.lit_bufsize == 16384
    {
      hide D.Deflate.Valid;
      var strm := new ZStream();
      var err, z := D.Deflate.StreamInit(strm, level, 0);
      d := z;
      ended := false;
    }

    // append: all of the data is read, and no output is left behind that fits the buffer.
    method Append(data: seq<byte>) returns (r: Answer)
      requires Valid()
      modifies Cells()
      ensures Valid() && ended == old(ended)
      ensures data == [] ==> r == Nothing
      ensures data != [] && (d == null || ended) ==> r == Thrown
      ensures data != [] && d != null && !ended ==> r.Bytes?
      ensures !r.Bytes? ==> Input() == old(Input()) && Output() == old(Output())
      ensures r.Bytes? ==> Input() == old(Input()) + data && Output() == old(Output()) + r.bytes
    {
      hide D.Deflate.Valid, D.Encodes, Produced, BytesToBits;
      if data == [] {
        return Nothing;
      }
      if d == null || ended {
        return Thrown;
      }
      var bytes := Absorb(d, data);
      r := Bytes(bytes);
    }

    // flush: the end of the stream; all output together inflates to all that was appended.
    method Flush() returns (r: Answer)
      requires Valid()
      modifies this`ended, Cells()
      ensures Valid() && Input() == old(Input())
      ensures if d == null || old(ended) then r == Thrown else r.Bytes?
      ensures !r.Bytes? ==> ended == old(ended) && Output() == old(Output())
      ensures r.Bytes? ==> ended && Output() == old(Output()) + r.bytes && d != null
                           && D.Encodes(Output(), Input(), d.end) && Obeys(d.Settings(), BytesToBits(Output()), 0)
    {
      hide D.Deflate.Valid, D.Encodes, Obeys, BytesToBits;
      if d == null || ended {
        return Thrown;
      }
      var bytes := Finish(d, _ => BUFSIZE);
      ended := true;
      r := Bytes(bytes);
    }
  }

  function Concat(pieces: seq<seq<byte>>): seq<byte> {
    if pieces == [] then [] else Concat(pieces[..|pieces| - 1]) + pieces[|pieces| - 1]
  }

  // The level that the default stands for.
  function Level(level: int): int {
    if level == -1 then 6 else level
  }

  // What the defaults of the zip modules mean for the blocks.
  function Defaults(level: int): Setting
    requires -1 <= level <= 9
  {
    Setting(Level(level), 0, 16384, 32768 - MIN_LOOKAHEAD)
  }

  // The way the zip modules compress a file: whatever pieces it comes in, at every level there is, nothing is thrown
  // and the output inflates to the file. The blocks keep to their laws, there are few of them, and the output is
  // hardly longer than the file.
  method Compress(level: int, pieces: seq<seq<byte>>) returns (r: Answer, ghost end: nat)
    ensures -1 <= level <= 9 <==> r.Bytes?
    ensures r.Bytes? ==> D.Encodes(r.bytes, Concat(pieces), end)
    ensures r.Bytes? ==> Obeys(Defaults(level), BytesToBits(r.bytes), 0)
    ensures r.Bytes? ==> Moderate(level, r.bytes, Concat(pieces)) && Plain(level, r.bytes)
  {
    hide D.Deflate.Valid, D.Encodes, Obeys, BytesToBits, Moderate, Plain;
    var z := new Deflater(level);
    var output: seq<byte> := [];
    end := 0;
    for i := 0 to |pieces|
      invariant z.Valid() && !z.ended && fresh(z) && fresh(z.Cells()) && (z.d != null <==> -1 <= level <= 9)
      invariant z.d != null ==> z.Output() == output && z.Input() == Concat(pieces[..i])
    {
      assert pieces[..i + 1][..i] == pieces[..i];
      r := z.Append(pieces[i]);
      if r.Thrown? {
        return;
      }
      if r.Bytes? {
        output := output + r.bytes;
      }
    }
    assert pieces[..|pieces|] == pieces;
    r := z.Flush();
    if r.Bytes? {
      r := Bytes(output + r.bytes);
      end := z.d.end;
      Limits(level, r.bytes, Concat(pieces), end);
    }
  }

  // A block for every 8192 bytes, or at level 0 for every 32506, and one more; at most 42 bits beyond the bytes for
  // each of them, and up to 16384 more for every 32507 bytes of the file.
  ghost predicate Moderate(level: int, bytes: seq<byte>, data: seq<byte>) {
    var blocks := |BlocksOf(BytesToBits(bytes), 0, [])|;
    && blocks <= 1 + |data| / (if level == 0 then 32506 else 8192)
    && 8 * |bytes| <= 8 * |data| + 42 * blocks + (if level == 0 then 0 else 16384 * (|data| / 32507)) + 7
  }

  // At level 0 everything is copied; no match reaches back further than 32506 bytes, and from level 4 on no match of
  // three bytes further than 4096.
  ghost predicate Plain(level: int, bytes: seq<byte>) {
    var blocks := BlocksOf(BytesToBits(bytes), 0, []);
    && (level == 0 ==> forall i :: 0 <= i < |blocks| ==> blocks[i].content.Copied?)
    && (forall i :: 0 <= i < |blocks| && blocks[i].content.Compressed? ==> Near(level, blocks[i].content.syms))
  }

  predicate Near(level: int, syms: seq<Symbol>) {
    forall j :: 0 <= j < |syms| && syms[j].Match? ==>
      && 3 <= syms[j].length <= 258 && 1 <= syms[j].distance <= 32506
      && (Level(level) > 3 && syms[j].length == 3 ==> syms[j].distance <= 4096)
  }

  lemma Limits(level: int, bytes: seq<byte>, data: seq<byte>, end: nat)
    requires -1 <= level <= 9 && D.Encodes(bytes, data, end) && Obeys(Defaults(level), BytesToBits(bytes), 0)
    ensures Moderate(level, bytes, data) && Plain(level, bytes)
  {
    hide Obeys, BytesToBits, BlocksOf, Within;
    var s, bits := Defaults(level), BytesToBits(bytes);
    StreamBlocks(s, bits, data, end, 0);
    StreamSize(s, bits, data, end, 0);
    StreamContents(s, bits, 0);
    forall i | 0 <= i < |BlocksOf(bits, 0, [])| && BlocksOf(bits, 0, [])[i].content.Compressed?
      ensures Near(level, BlocksOf(bits, 0, [])[i].content.syms)
    {
      AllNear(level, BlocksOf(bits, 0, [])[i].content.syms);
    }
  }

  lemma AllNear(level: int, syms: seq<Symbol>)
    requires -1 <= level <= 9 && Within(Defaults(level), syms)
    ensures Near(level, syms)
  {
    assert forall j :: 0 <= j < |syms| ==> Allowed(Defaults(level), syms[j]);
  }
}
