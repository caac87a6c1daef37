/** The stream of blocks sent so far, as a decoder reads it while more is still to come. */
module Production {
  import opened Prelude
  import opened Bits
  import opened Inflate
  import opened BitWriters
  import opened BlockFormat

  // Whatever follows, the bits from bit from on hold these open blocks, which stand for the bytes out on their own.
  ghost predicate Produced(bits: seq<bool>, from: nat, blocks: seq<Block>, out: seq<byte>) {
    forall ext: seq<bool> :: ReadOpenBlocks(bits + ext, from, |blocks|) == Some((blocks, out, |bits|))
  }

  lemma ProducedNothing(bits: seq<bool>)
    ensures Produced(bits, |bits|, [], [])
  {
  }

  // The block that was appended.
  function NewBlock(was: seq<bool>, out: seq<byte>, out': seq<byte>, content: Content, end: nat): Block {
    Block(content, |was|, end, |out'| - |out|)
  }

  lemma ReadOneMore(s: seq<bool>, from: nat, n: nat, blocks: seq<Block>, out: seq<byte>, pos: nat, e: BlockEnd)
    requires ReadOpenBlocks(s, from, n) == Some((blocks, out, pos)) && ReadBlock(s, pos, out) == Some(e) && !e.final
    ensures ReadOpenBlocks(s, from, n + 1) == Some((blocks + [Found(pos, out, e)], e.out, e.pos))
  {
    hide ReadBlock;
  }

  // An open block joins the ones before it.
  lemma ProducedMore(was: seq<bool>, now: seq<bool>, from: nat, blocks: seq<Block>, out: seq<byte>, out': seq<byte>,
                     content: Content, end: nat)
    requires Produced(was, from, blocks, out) && Appended(was, now, out, out', false, content, end)
    ensures Produced(now, from, blocks + [NewBlock(was, out, out', content, end)], out')
  {
    hide ReadBlock, ReadOpenBlocks;
    var b := NewBlock(was, out, out', content, end);
    forall ext: seq<bool>
      ensures ReadOpenBlocks(now + ext, from, |blocks + [b]|) == Some((blocks + [b], out', |now|))
    {
      assert now + ext == was + (now[|was|..] + ext);
      assert ReadOpenBlocks(was + (now[|was|..] + ext), from, |blocks|) == Some((blocks, out, |was|));
      assert ReadBlock(now + ext, |was|, out) == Some(BlockEnd(false, content, out', end));
      ReadOneMore(now + ext, from, |blocks|, blocks, out, |was|, BlockEnd(false, content, out', end));
    }
  }

  lemma ReadLast(s: seq<bool>, out: seq<byte>, pos: nat, e: BlockEnd)
    requires ReadBlock(s, pos, out) == Some(e) && e.final
    ensures Inflate.Inflate(s, pos, out) == Some((e.out, e.pos)) && BlocksOf(s, pos, out) == [Found(pos, out, e)]
  {
    hide ReadBlock;
  }

  // The final block completes the stream: it inflates to everything the blocks stand for.
  lemma ProducedAll(was: seq<bool>, now: seq<bool>, from: nat, blocks: seq<Block>, out: seq<byte>, out': seq<byte>,
                    content: Content, end: nat)
    requires Produced(was, from, blocks, out) && Appended(was, now, out, out', true, content, end)
    ensures Inflate.Inflate(now, from, []) == Some((out', end)) && end <= |now| < end + 8
    ensures BlocksOf(now, from, []) == blocks + [NewBlock(was, out, out', content, end)]
  {
    hide ReadBlock, ReadOpenBlocks, Inflate.Inflate, BlocksOf;
    var rest := now[|was|..];
    assert was + rest == now;
    assert ReadOpenBlocks(was + rest, from, |blocks|) == Some((blocks, out, |was|));
    InflateAfterOpen(now, from, |blocks|);
    assert now + [] == now;
    assert ReadBlock(now + [], |was|, out) == Some(BlockEnd(true, content, out', end));
    ReadLast(now, out, |was|, BlockEnd(true, content, out', end));
  }

  // ---- points to start again from ----

  // After a full flush: a decoder that starts at this bit gets the input from this position on.
  datatype Point = Point(bit: nat, pos: nat, count: nat)

  // The blocks after the point, count blocks into the stream, stand for the data after it on their own.
  ghost predicate Resumes(p: Point, bits: seq<bool>, blocks: seq<Block>, data: seq<byte>) {
    p.pos <= |data| && p.count <= |blocks| && Produced(bits, p.bit, blocks[p.count..], data[p.pos..])
  }

  ghost predicate AllResume(points: seq<Point>, bits: seq<bool>, blocks: seq<Block>, data: seq<byte>) {
    forall j :: 0 <= j < |points| ==> Resumes(points[j], bits, blocks, data)
  }

  // What is read after the point for the symbols is what is read after everything.
  ghost predicate Reads(content: Content, points: seq<Point>, hist: seq<byte>, data: seq<byte>) {
    content.Compressed? ==>
      forall j :: 0 <= j < |points| && points[j].pos <= |hist| ==>
        Expand(hist[points[j].pos..], content.syms) == Some(hist[points[j].pos..] + data)
  }

  // One more open block, after every point.
  lemma ResumeMore(points: seq<Point>, was: seq<bool>, now: seq<bool>, blocks: seq<Block>, hist: seq<byte>,
                   data: seq<byte>, content: Content, end: nat)
    requires AllResume(points, was, blocks, hist) && Reads(content, points, hist, data)
    requires Appended(was, now, hist, hist + data, false, content, end)
    ensures AllResume(points, now, blocks + [NewBlock(was, hist, hist + data, content, end)], hist + data)
  {
    hide Appended, Produced, Expand;
    var b := NewBlock(was, hist, hist + data, content, end);
    forall j | 0 <= j < |points|
      ensures Resumes(points[j], now, blocks + [b], hist + data)
    {
      var p := points[j];
      assert Resumes(p, was, blocks, hist);
      AppendedElsewhere(was, now, hist, hist[p.pos..], data, false, content, end);
      ProducedMore(was, now, p.bit, blocks[p.count..], hist[p.pos..], hist[p.pos..] + data, content, end);
      assert (blocks + [b])[p.count..] == blocks[p.count..] + [b];
      assert (hist + data)[p.pos..] == hist[p.pos..] + data;
    }
  }

  // The final block: from every point on the stream inflates to the data after it.
  lemma ResumeAll(points: seq<Point>, was: seq<bool>, now: seq<bool>, blocks: seq<Block>, hist: seq<byte>,
                  data: seq<byte>, content: Content, end: nat)
    requires AllResume(points, was, blocks, hist) && Reads(content, points, hist, data)
    requires Appended(was, now, hist, hist + data, true, content, end)
    ensures AllInflate(points, now, hist + data, end)
  {
    hide Appended, Produced, Expand, Inflate.Inflate, BlocksOf;
    forall j | 0 <= j < |points|
      ensures points[j].pos <= |hist + data|
      ensures Inflate.Inflate(now, points[j].bit, []) == Some(((hist + data)[points[j].pos..], end))
    {
      var p := points[j];
      assert Resumes(p, was, blocks, hist);
      AppendedElsewhere(was, now, hist, hist[p.pos..], data, true, content, end);
      ProducedAll(was, now, p.bit, blocks[p.count..], hist[p.pos..], hist[p.pos..] + data, content, end);
      assert (hist + data)[p.pos..] == hist[p.pos..] + data;
    }
  }

  ghost predicate AllInflate(points: seq<Point>, bits: seq<bool>, data: seq<byte>, end: nat) {
    forall j :: 0 <= j < |points| ==>
      points[j].pos <= |data| && Inflate.Inflate(bits, points[j].bit, []) == Some((data[points[j].pos..], end))
  }

  // A new point at the end.
  lemma ResumeHere(points: seq<Point>, bits: seq<bool>, blocks: seq<Block>, data: seq<byte>)
    requires AllResume(points, bits, blocks, data)
    ensures AllResume(points + [Point(|bits|, |data|, |blocks|)], bits, blocks, data)
  {
    hide Produced;
    ProducedNothing(bits);
    assert blocks[|blocks|..] == [] && data[|data|..] == [];
  }
}
