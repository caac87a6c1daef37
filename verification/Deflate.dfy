/** The compressor: greedy, lazy and stored block building over the sliding window, and whole streams. */
module Deflate {
  import opened Prelude
  import opened Bits
  import opened Inflate
  import opened BitWriters
  import opened BlockCoding
  import opened BlockFormat
  import opened Blocks
  import opened Codes
  import opened Hashing
  import opened Dictionary
  import opened Lz77
  import opened Streams
  import opened SlidingWindows
  import opened BlockChoice
  import opened BlockLaws
  import opened BlockSizes
  import opened Frequencies
  import opened Production

  const Z_NO_FLUSH: int := 0
  const Z_PARTIAL_FLUSH: int := 1
  const Z_FULL_FLUSH: int := 3
  const Z_FINISH: int := 4

  const Z_OK: int := 0
  const Z_STREAM_END: int := 1
  const Z_STREAM_ERROR: int := -2
  const Z_BUF_ERROR: int := -5

  const Z_DEFAULT_COMPRESSION: int := -1
  const MAX_MEM_LEVEL: nat := 9
  const DEF_MEM_LEVEL: nat := 8

  datatype Status = Busy | Finish
  datatype BlockState = NeedMore | BlockDone | FinishStarted | FinishDone

  // A part of the input, as the block it is sent in sees it.
  lemma SaysExpands(s: seq<byte>, from: nat, syms: seq<Symbol>, to: nat)
    requires Says(s, from, syms, to)
    ensures Expand(s[..from], syms) == Some(s[..from] + s[from..to])
  {
    assert s[..from] + s[from..to] == s[..to];
  }

  // The bytes are a whole stream that inflates to data; the stream ends in the last byte.
  ghost predicate Encodes(bytes: seq<byte>, data: seq<byte>, end: nat) {
    Inflate.Inflate(BytesToBits(bytes), 0, []) == Some((data, end)) && end <= 8 * |bytes| < end + 8
  }

  function Flat(tallies: seq<seq<Symbol>>): seq<Symbol> {
    if tallies == [] then [] else Flat(tallies[..|tallies| - 1]) + tallies[|tallies| - 1]
  }

  lemma FlatMore(tallies: seq<seq<Symbol>>, told: seq<Symbol>)
    ensures Flat(tallies + [told]) + [] == Flat(tallies) + told
  {
    assert (tallies + [told])[..|tallies|] == tallies;
  }

  // config_table
  function ConfigTable(level: nat): (e: Effort)
    requires level <= 9
    ensures level > 0 ==> e.max_chain_length >= 4
  {
    match level
    case 0 => Effort(0, 0, 0, 0)
    case 1 => Effort(4, 4, 8, 4)
    case 2 => Effort(4, 5, 16, 8)
    case 3 => Effort(4, 6, 32, 32)
    case 4 => Effort(4, 4, 16, 16)
    case 5 => Effort(8, 16, 32, 32)
    case 6 => Effort(8, 16, 128, 128)
    case 7 => Effort(8, 32, 128, 256)
    case 8 => Effort(32, 128, 258, 1024)
    case _ => Effort(32, 258, 258, 4096)
  }

  // Within a strategy a higher level never looks for matches less far, and never gives up on them earlier.
  lemma HigherTriesMore(a: nat, b: nat)
    requires 1 <= a <= b <= 9 && (a <= 3 <==> b <= 3)
    ensures var e, f := ConfigTable(a), ConfigTable(b);
            && e.good_match <= f.good_match && e.max_lazy_match <= f.max_lazy_match <= MAX_MATCH
            && e.nice_match <= f.nice_match <= MAX_MATCH && e.max_chain_length <= f.max_chain_length
            && (a < b ==> e.max_chain_length < f.max_chain_length)
  {
  }

  class Deflate {
    const level: nat
    const strategy: nat
    const effort: Effort
    const coder: BlockCoder
    const win: SlidingWindow
    const strm: ZStream
    var match_length: nat
    var prev_length: nat
    var prev_match: int
    var match_available: nat
    var status: Status
    var last_flush: int
    ghost var blocks: seq<Block>           // the open blocks sent so far
    ghost var tallies: seq<seq<Symbol>>    // the symbols they were chosen for
    ghost var points: seq<Point>           // where full flushes have made it possible to start again
    ghost var extra: nat                   // how many of them flushes have cut short or added
    ghost var end: nat                     // where the final block ends

    // All objects the compressor works on, but for the stream.
    ghost function Memory(): set<object> {
      {win, win.window, coder, coder.l_desc, coder.d_desc, coder.bl_desc, coder.work, coder.out, coder.out.pending_buf}
    }

    // All symbols so far, of the open blocks and of the block under way.
    ghost function Symbols(): seq<Symbol>
      reads this`tallies, coder`syms
    {
      Flat(tallies) + coder.syms
    }

    function Byte(i: int): byte
      reads win.window
    {
      if 0 <= i < win.window.Length then win.window[i] else 0
    }

    static function Copying(length: nat, dist: int): Symbol {
      if dist >= 0 then Match(length, dist) else Literal(0)
    }

    // What every block keeps to.
    ghost function Settings(): Setting {
      Setting(level, strategy, coder.lit_bufsize, win.z.w - MIN_LOOKAHEAD)
    }

    // The parts do not share memory.
    ghost predicate Apart()
      reads strm`next_out
    {
      win.window != coder.out.pending_buf && strm.next_out != win.window && strm.next_out != coder.out.pending_buf
    }

    // Everything but the window is in order.
    ghost predicate Stable()
      reads strm, strm.next_out, coder, coder.l_desc, coder.d_desc, coder.bl_desc, coder.work, coder.out,
            coder.out.pending_buf
    {
      && coder.Valid() && strm.Valid() && Apart() && strm.Conserves(coder.out)
      && coder.level == level <= 9 && effort == ConfigTable(level)
    }

    ghost predicate Parts()
      reads win, win.window, strm, strm.next_out, coder, coder.l_desc, coder.d_desc, coder.bl_desc, coder.work,
            coder.out, coder.out.pending_buf
    {
      Stable() && win.Valid() && win.consumed == strm.accepted
    }

    // Positions in the input: where the current block starts, and what is matched next.
    ghost function Start(): int
      reads win`base, win`block_start
    {
      win.base + win.block_start
    }

    ghost function Position(): nat
      reads win`base, win`strstart
    {
      win.base + win.strstart
    }

    // Where the history starts that has not been forgotten.
    ghost function Origin(): int
      reads win`base, win`floor
    {
      win.base + win.floor
    }

    // No point is later than that.
    ghost predicate Passed()
      reads win`base, win`floor, this`points
    {
      forall j :: 0 <= j < |points| ==> points[j].pos <= Origin()
    }

    // The blocks sent so far stand for the input before the current block.
    ghost predicate Sent()
      reads win`base, win`floor, win`block_start, win`consumed, coder.out`put, coder.out`bi_buf, coder.out`bi_valid,
            this`blocks, this`tallies, this`points, this`extra
    {
      && 0 <= Start() <= |win.consumed| && Produced(coder.out.Written(), 0, blocks, win.consumed[..Start()])
      && Lawful(Settings(), blocks, tallies) && Short(blocks, Quota(Settings())) <= extra
      && AllResume(points, coder.out.Written(), blocks, win.consumed[..Start()]) && Passed()
    }

    // The tallied symbols say the input from the start of the block up to to, without what has been forgotten.
    ghost predicate Told(to: nat)
      reads win`base, win`floor, win`block_start, win`consumed, coder`syms
    {
      && 0 <= Origin() <= Start() <= to <= |win.consumed| && Within(Settings(), coder.syms)
      && Says(win.consumed[Origin()..], Start() - Origin(), coder.syms, to - Origin())
    }

    // So they say it with all of the history, or with that from some point on.
    lemma ToldFrom(to: nat, p: nat)
      requires Told(to) && p <= Origin()
      ensures Says(win.consumed[p..], Start() - p, coder.syms, to - p)
      ensures p == 0 ==> Says(win.consumed, Start(), coder.syms, to)
    {
      hide Says, Within;
      SaysBack(win.consumed, Origin(), p, Start(), coder.syms, to);
      assert win.consumed[0..] == win.consumed;
    }

    // The whole stream has been sent and stands for all the input.
    ghost predicate Done()
      reads win`consumed, coder.out`put, coder.out`bi_buf, coder.out`bi_valid, this`end, this`extra, this`points
    {
      && coder.out.bi_valid == 0
      && Inflate.Inflate(coder.out.Written(), 0, []) == Some((win.consumed, end))
      && end <= |coder.out.Written()| < end + 8
      && Obeys(Settings(), coder.out.Written(), extra) && AllInflate(points, coder.out.Written(), win.consumed, end)
    }

    // The current block may be sent: its symbols say the input up to strstart, or at level 0 it is short enough to be
    // stored.
    ghost predicate BlockReady()
      reads win`strstart, win`block_start, win`base, win`floor, win`consumed, coder`syms, coder.out`bi_valid
    {
      && (level > 0 ==> Told(Position()))
      && (level == 0 ==>
            win.block_start >= 0 && win.strstart - win.block_start + 5 <= 4 * coder.lit_bufsize
            && coder.out.bi_valid <= 5)
    }

    // The block is short enough to be stored while it is still in the window.
    predicate Storable()
      reads win`strstart, win`block_start
    {
      win.block_start >= 0 ==> win.strstart - win.block_start <= 0xffff
    }

    // The block has the full length, or one more block may be short.
    ghost predicate Counted()
      reads win`strstart, win`block_start, this`blocks, this`extra
    {
      win.strstart - win.block_start >= Quota(Settings()) || Short(blocks, Quota(Settings())) < extra
    }

    // The block from block_start to strstart goes out and the next one starts.
    method SendBlock(eof: bool)
      requires coder.Valid() && coder.level == level && win.Valid() && win.window != coder.out.pending_buf
      requires Sent() && coder.out.pending == 0 && Storable() && BlockReady() && (eof || Counted())
      requires eof ==> win.lookahead == 0
      modifies this`blocks, this`tallies, this`end, win`block_start, coder, coder.l_desc, coder.d_desc, coder.bl_desc,
               coder.work, coder.out, coder.out.pending_buf
      ensures coder.Valid() && win.Valid() && coder.syms == [] && win.block_start == win.strstart
      ensures coder.out.handed == old(coder.out.handed)
      ensures if eof then Done() else Sent()
      ensures level == 0 ==> coder.out.bi_valid == 0
      ensures level > 0 && !eof ==> Symbols() == old(Symbols())
    {
      hide BitWriter.Written, SlidingWindow.Valid, BlockCoder.Valid, Produced, Appended, BlockReady,
        BlockCoder.Flushable, Sent, Done, Counted, Lawful, Short, Quota, Proper, Chosen, Within, StoredSize, Law,
        AllResume, Reads, Says;
      BlockBounds();
      BlockFacts();
      SentMeans();
      ghost var hist, data := win.consumed[..Start()], win.consumed[Start()..Position()];
      ghost var was, told := coder.out.Written(), if level > 0 then coder.syms else [];
      var buf := if win.block_start >= 0 then win.block_start else -1;
      TalliedFits();
      CanRead(hist, data);
      ghost var content;
      end, content := coder.TrFlushBlock(win.window, buf, win.strstart - win.block_start, eof, hist, data);
      ghost var b := NewBlock(was, hist, hist + data, content, end);
      ProperNow(b, told, buf);
      ReadsNow(content, b, told, hist, data);
      if eof {
        StartNext();
        NowDone(was, hist, data, content, told);
      } else {
        NextFits(b);
        StartNext();
        ghost var blocks0, tallies0 := blocks, tallies;
        blocks, tallies := blocks + [b], tallies + [told];
        FlatMore(tallies0, told);
        NowSent(was, hist, data, content, told, blocks0, tallies0);
      }
    }

    // The symbols can be read after every point,
    lemma CanRead(hist: seq<byte>, data: seq<byte>)
      requires BlockReady() && Passed() && 0 <= Start() <= Position() <= |win.consumed|
      requires hist == win.consumed[..Start()] && data == win.consumed[Start()..Position()]
      ensures level > 0 ==> Reads(Compressed(coder.syms), points, hist, data)
    {
      hide Says, Within, Expand;
      if level > 0 {
        forall j | 0 <= j < |points| && points[j].pos <= |hist|
          ensures Expand(hist[points[j].pos..], coder.syms) == Some(hist[points[j].pos..] + data)
        {
          var p := points[j].pos;
          ToldFrom(Position(), p);
          SaysExpands(win.consumed[p..], Start() - p, coder.syms, Position() - p);
          assert win.consumed[p..][..Start() - p] == hist[p..];
          assert win.consumed[p..][Start() - p..Position() - p] == data;
        }
      }
    }

    // and so can the block.
    lemma ReadsNow(content: Content, b: Block, told: seq<Symbol>, hist: seq<byte>, data: seq<byte>)
      requires Proper(Settings(), b, told) && b.content == content
      requires level > 0 ==> Reads(Compressed(told), points, hist, data)
      ensures Reads(content, points, hist, data)
    {
      hide Chosen, Within, Expand, StoredSize;
      if level > 0 {
        hide Proper;
        ChosenContent(Settings(), b, told);
      }
    }

    lemma NextFits(b: Block)
      requires Short(blocks, Quota(Settings())) <= extra && Counted() && b.len == win.strstart - win.block_start
      ensures Short(blocks, Quota(Settings())) + (if b.len < Quota(Settings()) then 1 else 0) <= extra
    {
      hide Short, Quota;
    }

    // The tallied symbols are allowed, no more than the bytes of the block, and fit the buffer.
    lemma TalliedFits()
      requires coder.Valid() && BlockReady() && 0 <= Start() <= Position() <= |win.consumed|
      ensures level > 0 ==>
                |coder.syms| < coder.lit_bufsize && |coder.syms| <= Position() - Start()
                  && Within(Settings(), coder.syms)
    {
      hide BlockCoder.ThreeTrees, BlockCoder.Clear, Buffered, Tallied, BitWriter.Valid, Allowed;
      if level > 0 {
        ToldLength();
      }
    }

    lemma ToldLength()
      requires Told(Position())
      ensures |coder.syms| <= Position() - Start()
    {
      hide Within;
      ToldFrom(Position(), 0);
      SaidExpands(win.consumed[..Start()], coder.syms);
      SaidAtLeast(Settings(), coder.syms);
    }

    // A block whose bytes have left the window is longer than a match can reach.
    lemma Gone()
      requires win.Valid() && win.block_start < 0
      ensures win.strstart - win.block_start > win.z.w - MIN_LOOKAHEAD
    {
      hide Chained, Tracks, Pow2;
    }

    // block_start = strstart
    method StartNext()
      requires win.Valid()
      modifies win`block_start
      ensures win.Valid() && win.block_start == win.strstart
    {
      hide Tracks, Chained, Pow2;
      win.block_start := win.strstart;
    }

    lemma SentMeans()
      requires Sent()
      ensures 0 <= Start() <= |win.consumed| && Produced(coder.out.Written(), 0, blocks, win.consumed[..Start()])
      ensures Lawful(Settings(), blocks, tallies) && Short(blocks, Quota(Settings())) <= extra
      ensures AllResume(points, coder.out.Written(), blocks, win.consumed[..Start()]) && Passed()
    {
      hide BitWriter.Written, Produced, Lawful, Short, AllResume, Passed;
    }

    // The block just sent joins the open ones,
    lemma NowSent(was: seq<bool>, hist: seq<byte>, data: seq<byte>, content: Content, told: seq<Symbol>,
                  blocks0: seq<Block>, tallies0: seq<seq<Symbol>>)
      requires var b := NewBlock(was, hist, hist + data, content, end);
               && blocks == blocks0 + [b] && tallies == tallies0 + [told] && Proper(Settings(), b, told)
               && Short(blocks0, Quota(Settings())) + (if b.len < Quota(Settings()) then 1 else 0) <= extra
      requires Produced(was, 0, blocks0, hist) && Lawful(Settings(), blocks0, tallies0)
      requires AllResume(points, was, blocks0, hist) && Reads(content, points, hist, data) && Passed()
      requires Appended(was, coder.out.Written(), hist, hist + data, false, content, end)
      requires 0 <= Start() <= |win.consumed| && hist + data == win.consumed[..Start()]
      ensures Sent()
    {
      hide BitWriter.Written, Produced, Appended, Proper, Lawful, Short, Quota, AllResume, Reads, Passed;
      var b := NewBlock(was, hist, hist + data, content, end);
      ProducedMore(was, coder.out.Written(), 0, blocks0, hist, hist + data, content, end);
      ResumeMore(points, was, coder.out.Written(), blocks0, hist, data, content, end);
      LawfulMore(Settings(), blocks0, tallies0, b, told);
      ShortMore(blocks0, b, Quota(Settings()));
    }

    // or completes the stream.
    lemma NowDone(was: seq<bool>, hist: seq<byte>, data: seq<byte>, content: Content, told: seq<Symbol>)
      requires Produced(was, 0, blocks, hist)
               && Appended(was, coder.out.Written(), hist, hist + data, true, content, end)
      requires AllResume(points, was, blocks, hist) && Reads(content, points, hist, data)
      requires Lawful(Settings(), blocks, tallies) && Short(blocks, Quota(Settings())) <= extra
      requires Proper(Settings(), NewBlock(was, hist, hist + data, content, end), told)
      requires coder.out.bi_valid == 0 && hist + data == win.consumed
      ensures Done()
    {
      hide BitWriter.Written, Produced, Appended, Proper, Lawful, Short, Quota, AllResume, AllInflate, Reads;
      ProducedAll(was, coder.out.Written(), 0, blocks, hist, hist + data, content, end);
      ResumeAll(points, was, coder.out.Written(), blocks, hist, data, content, end);
      ObeysNow(Settings(), coder.out.Written(), blocks, tallies, NewBlock(was, hist, hist + data, content, end), told,
               extra);
    }

    // The block is sent as its law says.
    lemma ProperNow(b: Block, told: seq<Symbol>, buf: int)
      requires win.Valid() && buf == (if win.block_start >= 0 then win.block_start else -1)
      requires b.len == win.strstart - win.block_start >= 0
      requires level == 0 ==> b.content == Copied(b.len) && b.to - b.from == StoredSize(b.len, b.from)
      requires level > 0 ==>
                 && |told| < coder.lit_bufsize && |told| <= b.len && Within(Settings(), told)
                 && Chosen(told, buf != -1, b.len, b.from, b.content, b.to - b.from)
      ensures Proper(Settings(), b, told)
    {
      hide SlidingWindow.Valid, Chosen, StoredSize, Within;
      if win.block_start < 0 {
        Gone();
      }
    }

    lemma BlockBounds()
      requires win.Valid()
      ensures 0 <= Start() <= Position() && Position() + win.lookahead == |win.consumed|
      ensures win.consumed[..Start()] + win.consumed[Start()..Position()] == win.consumed[..Position()]
      ensures win.lookahead == 0 ==> win.consumed[..Position()] == win.consumed
      ensures 0 <= Origin() <= Position()
    {
      hide Chained, Tracks, Pow2, Above;
      TracksEnd(win.window[..], win.consumed, win.base, win.strstart + win.lookahead);
    }

    // The current block is what _tr_flush_block needs it to be.
    lemma BlockFacts()
      requires win.Valid() && Storable() && BlockReady() && coder.level == level
      requires 0 <= Start() <= Position() <= |win.consumed|
      ensures coder.Flushable(win.window, if win.block_start >= 0 then win.block_start else -1,
              win.strstart - win.block_start,
                              win.consumed[..Start()], win.consumed[Start()..Position()])
    {
      hide Chained, Tracks, Pow2, Says;
      if level > 0 {
        ToldFrom(Position(), 0);
        SaysExpands(win.consumed, Start(), coder.syms, Position());
      }
      if win.block_start >= 0 {
        TracksSlice(win.window[..], win.consumed, win.base, win.strstart + win.lookahead, win.block_start,
                    win.strstart);
      }
    }

    // flush_block_only
    method FlushBlockOnly(eof: bool)
      requires Parts() && Sent() && coder.out.pending == 0 && Storable() && BlockReady() && (eof || Counted())
      requires eof ==> win.lookahead == 0
      modifies this`blocks, this`tallies, this`end, win`block_start, strm`next_out_index, strm`total_out,
               strm`avail_out, strm`delivered, strm.next_out, coder, coder.l_desc, coder.d_desc, coder.bl_desc,
               coder.work, coder.out, coder.out.pending_buf
      ensures Parts() && win.block_start == win.strstart && coder.syms == []
      ensures if eof then Done() else Sent()
      ensures coder.out.pending == 0 || strm.avail_out == 0
      ensures level == 0 ==> coder.out.bi_valid == 0
      ensures level > 0 && !eof ==> Symbols() == old(Symbols())
    {
      hide BlockCoder.Valid, SlidingWindow.Valid, Sent, Done, BlockReady, Flat;
      SendBlock(eof);
      HandOver();
    }

    lemma Separate()
      requires Parts()
      ensures Apart()
    {
      hide BlockCoder.Valid, SlidingWindow.Valid;
    }

    // After a block the tally starts afresh.
    lemma Restart()
      requires Parts() && coder.syms == [] && win.block_start == win.strstart
      ensures Told(Position()) && coder.last_lit + 1 < coder.lit_bufsize
    {
      hide BlockCoder.Valid, SlidingWindow.Valid;
      coder.RoomAfterBlock();
      BlockBounds();
      SaysNothing(win.consumed[Origin()..], Position() - Origin());
    }

    // What every block strategy promises about where it stopped.
    ghost predicate Stopped(flush: int, state: BlockState)
      reads win, win.window, strm, strm.next_out, this`end, this`extra, this`points, coder, coder.l_desc, coder.d_desc,
            coder.bl_desc, coder.work, coder.out, coder.out.pending_buf
    {
      && Parts() && (coder.out.pending == 0 || strm.avail_out == 0)
      && (state.NeedMore? && strm.avail_out > 0 ==> flush == Z_NO_FLUSH && strm.avail_in == 0)
      && (!state.NeedMore? ==> strm.avail_in == win.lookahead == 0 && win.block_start == win.strstart)
      && (state.BlockDone? || state.FinishDone? ==> strm.avail_out > 0)
            && (state.FinishStarted? ==> strm.avail_out == 0)
      && (state.BlockDone? ==> flush != Z_FINISH && coder.syms == [] && (level == 0 ==> coder.out.bi_valid == 0))
      && (state.FinishStarted? || state.FinishDone? ==> flush == Z_FINISH && Done())
    }

    // A flush cuts one block short and adds at most two; nothing else does.
    static predicate Spared(flush: int, was: nat, now: nat, most: nat) {
      was <= now <= was + most && (flush == Z_NO_FLUSH || flush == Z_FINISH ==> now == was)
    }

    // A strategy that ran out of room has sent a block of input, or the last one; without a flush it waits for more.
    ghost predicate Advanced(flush: int, state: BlockState, start: int)
      reads win`base, win`block_start, strm`avail_out
    {
      && Start() >= start && (flush == Z_NO_FLUSH ==> state.NeedMore?)
      && (state.NeedMore? && strm.avail_out == 0 && (flush == Z_NO_FLUSH || flush == Z_FINISH) ==> Start() > start)
    }

    // The lines all strategies end with: the last block of the input there is.
    method FlushLast(flush: int) returns (state: BlockState)
      requires Parts() && Sent() && coder.out.pending == 0 && strm.avail_out > 0 && Storable() && BlockReady()
      requires win.lookahead == strm.avail_in == 0
      modifies this`blocks, this`tallies, this`end, win`block_start, strm`next_out_index, strm`total_out,
               strm`avail_out, strm`delivered, strm.next_out, coder, coder.l_desc, coder.d_desc, coder.bl_desc,
               coder.work, coder.out, coder.out.pending_buf, this`extra
      ensures Stopped(flush, state) && coder.syms == [] && win.block_start == win.strstart
      ensures extra == old(extra) + (if flush == Z_FINISH then 0 else 1)
      ensures flush != Z_FINISH ==> Sent() && !state.FinishStarted? && !state.FinishDone?
      ensures flush == Z_FINISH ==> state.FinishStarted? || state.FinishDone?
      ensures level == 0 ==> coder.out.bi_valid == 0
    {
      hide Parts, Sent, Done, BlockReady, Short, Quota, Stable, Lawful, AllResume, Produced, BlockCoder.Valid,
        SlidingWindow.Valid;
      SentMeans();
      if flush != Z_FINISH {
        extra := extra + 1;
        SentStill();
      }
      FlushBlockOnly(flush == Z_FINISH);
      if strm.avail_out == 0 {
        return if flush == Z_FINISH then FinishStarted else NeedMore;
      }
      state := if flush == Z_FINISH then FinishDone else BlockDone;
    }

    lemma SentStill()
      requires 0 <= Start() <= |win.consumed| && Produced(coder.out.Written(), 0, blocks, win.consumed[..Start()])
      requires Lawful(Settings(), blocks, tallies) && Short(blocks, Quota(Settings())) <= extra
      requires AllResume(points, coder.out.Written(), blocks, win.consumed[..Start()]) && Passed()
      ensures Sent()
    {
      hide BitWriter.Written, Produced, Lawful, Short, AllResume, Passed;
    }

    // strm.flush_pending()
    method HandOver()
      requires coder.Valid() && strm.Valid() && strm.Conserves(coder.out) && Apart()
      modifies strm`next_out_index, strm`total_out, strm`avail_out, strm`delivered, strm.next_out, coder.out`pending,
               coder.out`pending_out, coder.out`handed
      ensures coder.Valid() && strm.Valid() && strm.Conserves(coder.out)
      ensures coder.out.pending == 0 || strm.avail_out == 0
      ensures old(coder.out.pending) - coder.out.pending == old(strm.avail_out) - strm.avail_out
    {
      hide BlockCoder.Tally, BlockCoder.ThreeTrees, BlockCoder.Clear;
      strm.FlushPending(coder.out);
    }

    // ---- tallying ----

    method TallyLiteral(at: nat) returns (bflush: bool)
      requires Parts() && coder.last_lit + 1 < coder.lit_bufsize && at < win.strstart + win.lookahead
               && Told(win.base + at)
      modifies coder, coder.l_desc, coder.d_desc
      ensures Parts() && Told(win.base + at + 1) && (level > 0 ==> Ripe(bflush))
      ensures Symbols() == old(Symbols()) + [Literal(win.window[at])]
      ensures FullWhen(bflush, win.strstart - win.block_start)
    {
      hide Chained, Tracks, Pow2, Says, BlockCoder.Valid, WorthFlushing, Within, Flat, Above;
      TracksEnd(win.window[..], win.consumed, win.base, win.strstart + win.lookahead);
      TracksAt(win.window[..], win.consumed, win.base, win.strstart + win.lookahead, at);
      SaysLiteral(win.consumed[Origin()..], Start() - Origin(), coder.syms, win.base + at - Origin());
      WithinMore(Settings(), coder.syms, Literal(win.window[at]));
      bflush := coder.TrTally(0, win.window[at], win.strstart - win.block_start);
      if level > 0 {
        FullRipe(bflush, win.strstart - win.block_start);
      }
    }

    // The block has to be flushed if and only if the buffer is full or, from level 3 on, flushing it early is worth it.
    ghost predicate FullWhen(bflush: bool, inLength: int)
      reads coder`syms, coder`last_lit
    {
      && coder.last_lit == |coder.syms| && AllSendable(coder.syms)
      && (bflush <==> coder.last_lit + 1 == coder.lit_bufsize || (level > 2 && WorthFlushing(coder.syms, inLength)))
    }

    // A block that has to be flushed has many symbols, and one that has not has room for one more.
    ghost predicate Ripe(bflush: bool)
      reads coder`syms, coder`last_lit
    {
      if bflush then |coder.syms| >= Quota(Settings()) else coder.last_lit + 1 < coder.lit_bufsize
    }

    lemma FullRipe(bflush: bool, inLength: int)
      requires coder.Valid() && level > 0 && FullWhen(bflush, inLength)
      ensures Ripe(bflush)
    {
      hide BlockCoder.ThreeTrees, BlockCoder.Clear, Buffered, Tallied, BitWriter.Valid, Estimate;
    }

    method TallyMatch(at: nat, dist: nat, length: nat) returns (bflush: bool)
      requires Parts() && coder.last_lit + 1 < coder.lit_bufsize && Told(win.base + at)
      requires MIN_MATCH <= length <= MAX_MATCH && dist <= 32768 && Repeats(win.consumed, win.base + at, length, dist)
      requires Allowed(Settings(), Match(length, dist)) && win.floor <= at - dist
      modifies coder, coder.l_desc, coder.d_desc
      ensures Parts() && Told(win.base + at + length) && (level > 0 ==> Ripe(bflush))
      ensures Symbols() == old(Symbols()) + [Match(length, dist)]
      ensures FullWhen(bflush, win.strstart - win.block_start)
    {
      hide Chained, Tracks, Pow2, Says, BlockCoder.Valid, SlidingWindow.Valid, WorthFlushing, Within, Allowed, Flat;
      RepeatsFrom(win.consumed, Origin(), win.base + at, length, dist);
      SaysMatch(win.consumed[Origin()..], Start() - Origin(), coder.syms, win.base + at - Origin(), length, dist);
      WithinMore(Settings(), coder.syms, Match(length, dist));
      bflush := coder.TrTally(dist, length - MIN_MATCH, win.strstart - win.block_start);
      if level > 0 {
        FullRipe(bflush, win.strstart - win.block_start);
      }
    }

    // fill_window, with what has been sent and tallied so far. to is the input tallied.
    method Refill(ghost to: nat)
      requires Parts() && Sent() && win.Ready() && win.lookahead < MIN_LOOKAHEAD && (level > 0 ==> Told(to))
      modifies win`head, win`prev, win`ins_h, win`strstart, win`lookahead, win`block_start, win`match_start,
               win`consumed, win`base, win`owner, win`last, win`floor, win.window, strm`avail_in, strm`next_in_index,
               strm`total_in, strm`accepted
      ensures Parts() && Sent() && win.Ready() && (level > 0 ==> Told(to)) && win.last <= old(win.last)
      ensures win.lookahead >= MIN_LOOKAHEAD || strm.avail_in == 0
      ensures win.strstart < 2 * win.z.w - MIN_LOOKAHEAD && win.lookahead >= old(win.lookahead)
      ensures win.lookahead + strm.avail_in == old(win.lookahead + strm.avail_in)
      ensures Position() == old(Position()) && Start() == old(Start())
              && win.base + win.match_start == old(win.base + win.match_start) && Origin() == old(Origin())
      ensures if old(win.strstart) < 2 * win.z.w - MIN_LOOKAHEAD then win.base == old(win.base)
              else win.base == old(win.base) + win.z.w
      ensures old(win.consumed) <= win.consumed
    {
      hide Says, BlockCoder.Valid, SlidingWindow.Valid, SlidingWindow.Ready, Produced, AllResume, Lawful, Short, Quota,
        Within, SlidingWindow.History, BitWriter.Written, Flat;
      ghost var was, from := win.consumed, strm.next_in_index;
      BlockBounds();
      win.FillWindow(strm);
      ghost var more := strm.next_in[from..strm.next_in_index];
      assert win.consumed == was + more;
      if level > 0 {
        assert win.consumed[Origin()..] == was[Origin()..] + more;
        SaysMore(was[Origin()..], more, Start() - Origin(), coder.syms, to - Origin());
      }
      assert win.consumed[..Start()] == was[..Start()];
      win.Behind();
    }

    // ---- deflate_slow ----

    // The match found for the string before strstart.
    ghost predicate Lazy(length: nat, start: int)
      reads this`match_available, win`base, win`floor, win`strstart, win`lookahead, win`consumed
    {
      && 1 <= length <= MAX_MATCH
      && (length >= MIN_MATCH ==>
            && match_available == 1 && win.strstart >= 1 && length <= win.lookahead + 1
            && win.floor <= start && 0 <= win.base + start
                 && start < win.strstart - 1 <= start + win.z.w - MIN_LOOKAHEAD
            && Repeats(win.consumed, Position() - 1, length, win.strstart - 1 - start)
            && Allowed(Settings(), Match(length, win.strstart - 1 - start)))
    }

    // The match found for the string at strstart.
    ghost predicate Current(length: nat, start: int)
      reads win`base, win`floor, win`strstart, win`lookahead, win`consumed
    {
      && length <= win.lookahead && win.floor <= start && 0 <= win.base + start
           && start < win.strstart <= start + win.z.w - MIN_LOOKAHEAD
      && Repeats(win.consumed, Position(), length, win.strstart - start)
      && Allowed(Settings(), Match(length, win.strstart - start))
    }

    // What holds in the middle of a round.
    ghost predicate Tallying()
      reads this`match_available, this`blocks, this`tallies, this`points, this`extra, win, win.window, strm,
            strm.next_out, coder, coder.l_desc, coder.d_desc, coder.bl_desc, coder.work, coder.out,
            coder.out.pending_buf
    {
      && Parts() && Sent() && level > 0 && coder.last_lit + 1 < coder.lit_bufsize
      && match_available <= 1 && match_available <= win.strstart && Told(Position() - match_available)
    }

    // What holds before every round of deflate_slow: the symbols tallied since block_start say the input
    // up to strstart - match_available, and a pending match repeats what is said to repeat.
    ghost predicate SlowHead()
      reads this`match_available, this`match_length, this`blocks, this`tallies, this`points, this`extra, win,
            win.window, strm, strm.next_out, coder, coder.l_desc, coder.d_desc, coder.bl_desc, coder.work, coder.out,
            coder.out.pending_buf
    {
      Tallying() && win.Ready() && win.strstart <= 2 * win.z.w - 4 && Lazy(match_length, win.match_start)
    }

    // The string at strstart is in the dictionary, if it can be; hash_head may be left over when it cannot.
    ghost predicate Inserted(hash_head: nat)
      reads win`strstart, win`lookahead, win`last, win`floor, win`owner, win`ins_h, win.window
    {
      && win.z.w > 0 && hash_head <= win.strstart + win.z.w
      && (if win.lookahead >= MIN_MATCH then
            && win.last == win.strstart && win.strstart + win.lookahead <= win.window.Length
            && PrimedAt(win.window[..], win.strstart + 1, win.strstart + win.lookahead, win.ins_h, win.z)
            && (hash_head != 0 ==>
                  && win.floor <= hash_head < win.strstart
                  && OnChain(win.window[..], win.strstart + win.lookahead, win.owner, win.last, win.z,
                             HashAt(win.window[..], win.strstart, win.z), hash_head))
          else win.last < win.strstart)
    }

    lemma DistanceWraps(hash_head: nat, strstart: nat, w: nat)
      requires 512 <= w <= 32768 && hash_head <= strstart + w && strstart <= 0xffff
      requires (strstart - hash_head) % 0x1_0000 <= w - MIN_LOOKAHEAD
      ensures 0 <= strstart - hash_head <= w - MIN_LOOKAHEAD
    {
    }

    // A short match is not worth it for filtered data, nor a shortest one from far away.
    function Kept(length: nat, dist: int): nat {
      if length <= 5 && (strategy == Z_FILTERED || (length == MIN_MATCH && dist > 4096)) then MIN_MATCH - 1 else length
    }

    // What a round of deflate_slow finds when first heads the chain of the string at strstart and least is the length
    // of the pending match: without a search nothing.
    ghost predicate FoundLazily(prev: seq<nat>, first: nat, least: nat, start0: int, length: nat, start: int)
      reads win`strstart, win`lookahead, win.window
    {
      if first != 0 && least < effort.max_lazy_match && 0 <= win.strstart - first <= win.z.w - MIN_LOOKAHEAD
         && strategy != Z_HUFFMAN_ONLY then
        exists best: nat ::
          && win.Selects(prev, first, least, effort, start0, best, start)
          && length == Kept(Min(best, win.lookahead), win.strstart - start)
      else length == MIN_MATCH - 1 && start == start0
    }

    // The middle of a round of deflate_slow: looks for a match at strstart that beats the pending one.
    method SearchLazily(hash_head: nat)
      requires win.Valid() && win.lookahead >= 1 && win.strstart <= 2 * win.z.w - MIN_LOOKAHEAD && Inserted(hash_head)
      requires Lazy(match_length, win.match_start) && effort.max_chain_length >= 4
      modifies this`prev_length, this`prev_match, this`match_length, win`match_start
      ensures win.Valid() && Inserted(hash_head)
      ensures prev_length == old(match_length) && prev_match == old(win.match_start) && Lazy(prev_length, prev_match)
      ensures 1 <= match_length <= MAX_MATCH
      ensures match_length > prev_length && match_length >= MIN_MATCH ==> Current(match_length, win.match_start)
      ensures if win.lookahead >= MIN_MATCH then
                FoundLazily(win.prev, hash_head, prev_length, prev_match, match_length, win.match_start)
              else match_length < MIN_MATCH
    {
      hide Chained, Tracks, Pow2, OnChain, HashAt, PrimedAt, Repeats, Within, Above, SlidingWindow.Valid,
        SlidingWindow.Selects, Allowed, Current, ConfigTable, Lazy;
      win.Bounds();
      LazyLength(match_length, win.match_start);
      prev_length := match_length;
      prev_match := win.match_start;
      match_length := MIN_MATCH - 1;
      if hash_head != 0 && prev_length < effort.max_lazy_match
         && (win.strstart - hash_head) % 0x1_0000 <= win.z.w - MIN_LOOKAHEAD {
        DistanceWraps(hash_head, win.strstart, win.z.w);
        ghost var best: nat := 0;
        if strategy != Z_HUFFMAN_ONLY {
          match_length, best := win.LongestMatch(hash_head, prev_length, effort);
        }
        if match_length <= 5
           && (strategy == Z_FILTERED || (match_length == MIN_MATCH && win.strstart - win.match_start > 4096)) {
          match_length := MIN_MATCH - 1;
        }
        if match_length > prev_length && match_length >= MIN_MATCH {
          CurrentNow();
        }
      }
    }

    lemma LazyLength(length: nat, start: int)
      requires Lazy(length, start)
      ensures 1 <= length <= MAX_MATCH
    {
      hide Repeats, Allowed;
    }

    lemma CurrentNow()
      requires MIN_MATCH <= match_length <= MAX_MATCH && match_length <= win.lookahead && strategy != Z_HUFFMAN_ONLY
      requires win.floor <= win.match_start && 0 <= win.base + win.match_start
      requires win.match_start < win.strstart <= win.match_start + win.z.w - MIN_LOOKAHEAD
      requires Repeats(win.consumed, Position(), match_length, win.strstart - win.match_start)
      requires Kept(match_length, win.strstart - win.match_start) == match_length
      ensures Current(match_length, win.match_start)
    {
      hide Repeats;
    }

    lemma ToldBounds(to: nat)
      requires Told(to)
      ensures Start() <= to
    {
      hide Says, Within;
    }

    // if (bflush) flush_block_only(false)
    method FlushIfFull(bflush: bool)
      requires Parts() && Sent() && coder.out.pending == 0 && Storable() && level > 0 && Told(Position())
      requires Ripe(bflush)
      modifies this`blocks, this`tallies, this`end, win`block_start, strm`next_out_index, strm`total_out,
               strm`avail_out, strm`delivered, strm.next_out, coder, coder.l_desc, coder.d_desc, coder.bl_desc,
               coder.work, coder.out, coder.out.pending_buf
      ensures Parts() && Sent() && Told(Position()) && coder.last_lit + 1 < coder.lit_bufsize
      ensures coder.out.pending == 0 || strm.avail_out == 0
      ensures Start() == (if bflush then Position() else old(Start()))
      ensures !bflush ==> strm.avail_out == old(strm.avail_out)
      ensures (old(win.Ready()) ==> win.Ready()) && Inserted(0) == old(Inserted(0))
      ensures Symbols() == old(Symbols())
    {
      hide Flat, SlidingWindow.Valid, BlockCoder.Valid, Stable, Sent, Told, Inserted, PrimedAt, Done, Within, Allowed,
        Quota, WorthFlushing, Lawful, Short;
      Separate();
      if bflush {
        CountedNow();
        FlushBlockOnly(false);
        Restart();
      }
    }

    lemma CountedNow()
      requires Parts() && Told(Position()) && |coder.syms| >= Quota(Settings())
      ensures Counted()
    {
      hide SlidingWindow.Valid, BlockCoder.Valid, Quota, Short, Within;
      BlockBounds();
      ToldLength();
    }

    // Emits the pending match: the strings it covers enter the dictionary as far as there is lookahead.
    method EmitMatch(hash_head: nat, ghost first: int) returns (bflush: bool, head': nat)
      requires 0 <= win.strstart <= first && win.HoldsAll(first, win.strstart + 1)
      requires Tallying() && Inserted(0) && win.strstart <= 2 * win.z.w - MIN_LOOKAHEAD
      requires Lazy(prev_length, prev_match) && prev_length >= MIN_MATCH
      modifies this`prev_length, this`match_length, this`match_available, coder, coder.l_desc, coder.d_desc, win`ins_h,
               win`head, win`prev, win`owner, win`last, win`strstart, win`lookahead
      ensures Parts() && Sent() && Told(Position()) && win.Ready() && win.strstart <= 2 * win.z.w - 4
      ensures match_available == 0 && match_length == MIN_MATCH - 1
      ensures Ripe(bflush) && FullWhen(bflush, old(win.strstart) - win.block_start)
      ensures head' == hash_head || head' <= win.strstart
      ensures win.strstart == old(win.strstart + prev_length) - 1
              && win.strstart + win.lookahead == old(win.strstart + win.lookahead)
      ensures Symbols() == old(Symbols()) + [Copying(old(prev_length), old(win.strstart) - 1 - prev_match)]
      ensures win.HoldsAll(first, Min(win.strstart, win.strstart + win.lookahead - MIN_MATCH + 1))
    {
      hide Inserted, SlidingWindow.Ready, Repeats, Says, Stable, SlidingWindow.Valid, Sent, Within, Allowed, Quota,
        WorthFlushing, Lawful, Short, Flat, SlidingWindow.HoldsAll, Done, FullWhen, AllSendable, Passed,
        BlockCoder.Valid, Tallying, Told, Parts;
      TallyingMeans();
      win.Bounds();
      var max_insert := win.strstart + win.lookahead - MIN_MATCH;
      ghost var at, length := Position(), prev_length;
      bflush := TallyMatch(win.strstart - 1, win.strstart - 1 - prev_match, prev_length);
      PartsMeans();
      prev_length := prev_length - 2;
      head' := InsertRest(max_insert, hash_head, first);
      AdvanceInserted(0);
      match_available := 0;
      match_length := MIN_MATCH - 1;
      PartsAgain();
    }

    lemma PartsMeans()
      requires Parts()
      ensures Stable() && win.Valid() && win.consumed == strm.accepted
    {
      hide SlidingWindow.Valid, Stable;
    }

    lemma PartsAgain()
      requires Stable() && win.Valid() && win.consumed == strm.accepted
      ensures Parts()
    {
      hide SlidingWindow.Valid, Stable;
    }

    // do { if (++strstart <= max_insert) insert } while (--prev_length !== 0)
    method InsertRest(max_insert: int, hash_head: nat, ghost first: int) returns (head': nat)
      requires 0 <= win.strstart <= first && win.HoldsAll(first, win.strstart + 1)
      requires win.Valid() && Inserted(0) && 1 <= prev_length < win.lookahead && prev_length <= MAX_MATCH
               && max_insert == win.strstart + win.lookahead - MIN_MATCH
      modifies this`prev_length, win`ins_h, win`head, win`prev, win`owner, win`last, win`strstart, win`lookahead
      ensures win.Valid() && Inserted(0)
      ensures head' == hash_head || head' <= win.strstart
      ensures win.strstart == old(win.strstart + prev_length) && win.lookahead == old(win.lookahead - prev_length)
      ensures win.HoldsAll(first, Min(win.strstart, max_insert) + 1)
    {
      hide Chained, Tracks, Pow2, OnChain, HashAt, PrimedAt, SlidingWindow.Valid, SlidingWindow.HoldsAll,
        SlidingWindow.Holds, Above;
      ghost var from, n := win.strstart + prev_length, win.lookahead - prev_length;
      head' := hash_head;
      win.Bounds();
      win.HoldsLess(first, win.strstart + 1, Min(win.strstart, max_insert) + 1);
      while prev_length != 0
        invariant head' == hash_head || head' <= win.strstart
        invariant win.Valid() && Inserted(0) && 512 <= win.z.w
        invariant win.HoldsAll(first, Min(win.strstart, max_insert) + 1) && old(win.strstart) <= win.strstart
        invariant win.strstart + prev_length == from && win.lookahead == n + prev_length
      {
        win.Advance();
        if win.strstart <= max_insert {
          ghost var owner := win.owner;
          win.HoldsBefore(first, win.strstart);
          head' := win.InsertString();
          win.HoldsMore(first, win.strstart, owner);
        } else {
          win.Behind();
        }
        prev_length := prev_length - 1;
      }
    }

    // Emits the byte before strstart and waits for the next round to decide about the current match.
    method EmitLiteral() returns (bflush: bool)
      requires Tallying() && Inserted(0) && win.lookahead >= 1 && win.strstart <= 2 * win.z.w - MIN_LOOKAHEAD
      requires coder.out.pending == 0 && match_available == 1 && strm.avail_out > 0
      requires 1 <= match_length <= MAX_MATCH && (match_length >= MIN_MATCH ==> Current(match_length, win.match_start))
      modifies this`blocks, this`tallies, this`end, win`block_start, strm`next_out_index, strm`total_out,
               strm`avail_out, strm`delivered, strm.next_out, coder, coder.l_desc, coder.d_desc, coder.bl_desc,
               coder.work, coder.out, coder.out.pending_buf, win`strstart, win`lookahead
      ensures SlowHead() && (coder.out.pending == 0 || strm.avail_out == 0)
      ensures Start() >= old(Start()) && (strm.avail_out == 0 ==> Start() > old(Start()))
      ensures win.strstart == old(win.strstart) + 1 && win.lookahead == old(win.lookahead) - 1
      ensures Symbols() == old(Symbols()) + [Literal(old(Byte(win.strstart - 1)))]
    {
      hide Inserted, Repeats, Told, Stable, SlidingWindow.Valid, SlidingWindow.Ready, Sent, Within, Allowed, Quota,
        WorthFlushing, Lawful, Short, Flat;
      win.Bounds();
      ToldBounds(Position() - 1);
      bflush := TallyLiteral(win.strstart - 1);
      FlushIfFull(bflush);
      AdvanceInserted(0);
    }

    lemma LazyMore(was: seq<byte>, length: nat, start: int)
      requires was <= win.consumed && 1 <= length <= MAX_MATCH
      requires length >= MIN_MATCH ==>
                 && match_available == 1 && win.strstart >= 1 && length <= win.lookahead + 1
                 && win.floor <= start && 0 <= win.base + start
                      && start < win.strstart - 1 <= start + win.z.w - MIN_LOOKAHEAD
                 && Repeats(was, Position() - 1, length, win.strstart - 1 - start)
                 && Allowed(Settings(), Match(length, win.strstart - 1 - start))
      ensures Lazy(length, start)
    {
      hide Repeats;
      if length >= MIN_MATCH {
        RepeatsMore(was, win.consumed[|was|..], Position() - 1, length, win.strstart - 1 - start);
        assert was + win.consumed[|was|..] == win.consumed;
      }
    }

    // The first lines of a round: makes sure that there is enough lookahead, except at the end of the input.
    method RefillSlow()
      requires SlowHead() && win.lookahead < MIN_LOOKAHEAD
      modifies win`head, win`prev, win`ins_h, win`strstart, win`lookahead, win`block_start, win`match_start,
               win`consumed, win`base, win`owner, win`last, win`floor, win.window, strm`avail_in, strm`next_in_index,
               strm`total_in, strm`accepted
      ensures SlowHead() && win.strstart < 2 * win.z.w - MIN_LOOKAHEAD
      ensures Start() == old(Start())
      ensures win.lookahead >= MIN_LOOKAHEAD || strm.avail_in == 0
      ensures win.lookahead + strm.avail_in == old(win.lookahead + strm.avail_in) && Position() == old(Position())
      ensures win.strstart == old(win.strstart) - (if old(win.strstart) < 2 * win.z.w - MIN_LOOKAHEAD then 0
              else win.z.w)
    {
      hide Says, BlockCoder.Valid, SlidingWindow.Valid, SlidingWindow.Ready, Produced, Repeats, Parts, Sent;
      ghost var was := win.consumed;
      Refill(Position() - match_available);
      win.Behind();
      win.Bounds();
      LazyMore(was, match_length, win.match_start);
    }

    // The first branch of a round: the pending match, and its block if it is full.
    method SlowMatch(hash_head: nat, ghost first: int) returns (head': nat)
      requires 0 <= win.strstart <= first && win.HoldsAll(first, win.strstart + 1)
      requires Tallying() && Inserted(0) && win.strstart <= 2 * win.z.w - MIN_LOOKAHEAD
      requires Lazy(prev_length, prev_match) && prev_length >= MIN_MATCH && coder.out.pending == 0
      requires strm.avail_out > 0
      modifies this`prev_length, this`match_length, this`match_available, this`blocks, this`tallies, this`end,
               win`ins_h, win`head, win`prev, win`owner, win`last, win`strstart, win`lookahead, win`block_start,
               strm`next_out_index, strm`total_out, strm`avail_out, strm`delivered, strm.next_out, coder, coder.l_desc,
               coder.d_desc, coder.bl_desc, coder.work, coder.out, coder.out.pending_buf
      ensures SlowHead() && (coder.out.pending == 0 || strm.avail_out == 0)
      ensures Start() >= old(Start()) && (strm.avail_out == 0 ==> Start() > old(Start()))
      ensures head' == hash_head || head' <= win.strstart
      ensures win.strstart == old(win.strstart + prev_length) - 1
              && win.strstart + win.lookahead == old(win.strstart + win.lookahead)
      ensures match_available == 0 && match_length == MIN_MATCH - 1
      ensures Symbols() == old(Symbols()) + [Copying(old(prev_length), old(win.strstart) - 1 - prev_match)]
      ensures win.HoldsAll(first, Min(win.strstart, win.strstart + win.lookahead - MIN_MATCH + 1))
    {
      hide SlidingWindow.Valid, SlidingWindow.Ready, Told, Stable, Sent, Inserted, Repeats, Within, Allowed, Quota,
        WorthFlushing, Lawful, Short, Flat, SlidingWindow.HoldsAll;
      win.Bounds();
      var bflush;
      bflush, head' := EmitMatch(hash_head, first);
      win.Behind();
      win.Bounds();
      FlushIfFull(bflush);
    }

    // The second step of a round: the string at strstart enters the dictionary if it can.
    method InsertNext(hash_head: nat) returns (head': nat)
      requires win.Ready() && hash_head <= win.strstart + win.z.w
      modifies win`ins_h, win`head, win`prev, win`owner, win`last
      ensures win.Valid() && Inserted(head') && Inserted(0)
      ensures if win.lookahead >= MIN_MATCH then head' <= win.strstart else head' == hash_head
      ensures if win.lookahead >= MIN_MATCH then
                win.Inserts(old(win.head), old(win.prev), old(win.owner), win.strstart, head')
                            && win.Holds(win.strstart)
              else win.head == old(win.head) && win.prev == old(win.prev) && win.owner == old(win.owner)
    {
      hide SlidingWindow.Valid, PrimedAt, OnChain, HashAt, SlidingWindow.Inserts;
      win.Behind();
      win.Bounds();
      head' := hash_head;
      if win.lookahead >= MIN_MATCH {
        head' := win.InsertString();
      }
    }

    // The match found in a round of deflate_slow for the string at strstart, once that heads the chain of its hash.
    ghost predicate FindsLazily(length: nat, start: int)
      reads this`match_length, win, win.window
    {
      && 0 < win.z.w == |win.prev| && win.strstart + 3 <= win.window.Length
      && var h := HashAt(win.window[..], win.strstart, win.z);
         h < |win.head|
         && FoundLazily(win.prev[win.strstart % win.z.w := win.head[h]], win.head[h], match_length, win.match_start,
                        length, start)
    }

    lemma FindsNow(head0: seq<nat>, prev0: seq<nat>, owner0: seq<int>, first: nat, least: nat, start0: int,
                   length: nat, start: int)
      requires win.Inserts(head0, prev0, owner0, win.strstart, first) && |prev0| == win.z.w
      requires FoundLazily(win.prev, first, least, start0, length, start)
      ensures var h := HashAt(win.window[..], win.strstart, win.z);
              && h < |head0| && 0 < win.z.w == |prev0| && win.strstart + 3 <= win.window.Length
              && FoundLazily(prev0[win.strstart % win.z.w := head0[h]], head0[h], least, start0, length, start)
    {
      hide HashAt, FoundLazily;
    }

    lemma SlowMeans()
      requires SlowHead()
      ensures Tallying() && win.Ready() && Lazy(match_length, win.match_start) && 0 < win.z.w == |win.prev|
      ensures level > 0 && effort.max_chain_length >= 4 && Parts() && Sent() && match_available <= win.strstart
      ensures win.Valid() && match_available <= 1
    {
      hide BlockCoder.Valid, Sent, Told, Lazy, Tracks, Chained, Above, PrimedAt;
    }

    // The first half of a round: the string at strstart enters the dictionary and a match is looked for.
    method LookLazily(hash_head: nat) returns (head': nat, ghost length: nat, ghost start: int)
      requires SlowHead() && win.lookahead >= 1 && win.strstart <= 2 * win.z.w - MIN_LOOKAHEAD
      requires hash_head <= win.strstart + win.z.w
      modifies this`prev_length, this`prev_match, this`match_length, win`ins_h, win`head, win`prev, win`owner, win`last,
               win`match_start
      ensures Tallying() && Inserted(head') && Inserted(0) && Lazy(prev_length, prev_match)
      ensures prev_length == old(match_length) && prev_match == old(win.match_start)
      ensures match_length == length && win.match_start == start && 1 <= length <= MAX_MATCH
      ensures length > prev_length && length >= MIN_MATCH ==> Current(length, start)
      ensures if win.lookahead >= MIN_MATCH then
                old(FindsLazily(length, start)) && head' <= win.strstart && win.Holds(win.strstart)
              else length < MIN_MATCH && head' == hash_head
    {
      hide SlidingWindow.Valid, SlidingWindow.Ready, BlockCoder.Valid, Inserted, Repeats, Allowed,
        SlidingWindow.Inserts, FoundLazily, Sent, Told, Stable, SlidingWindow.Holds, Lazy, Current;
      SlowMeans();
      head' := InsertNext(hash_head);
      ghost var first := head';
      SearchLazily(head');
      length, start := match_length, win.match_start;
      if win.lookahead >= MIN_MATCH {
        FindsNow(old(win.head), old(win.prev), old(win.owner), first, prev_length, prev_match, length, start);
      }
      InsertedNone(head');
    }

    // One round of deflate_slow once there is enough lookahead. length and start are the match found at strstart.
    // When the pending match, of the string before, is no shorter it is emitted, and its strings enter the dictionary;
    // otherwise the byte before strstart is emitted, if there is one, and the match found is pending.
    method SlowRound(hash_head: nat) returns (head': nat, ghost length: nat, ghost start: int)
      requires SlowHead() && coder.out.pending == 0 && strm.avail_out > 0
      requires win.lookahead >= 1 && win.strstart <= 2 * win.z.w - MIN_LOOKAHEAD && hash_head <= win.strstart + win.z.w
      modifies this`prev_length, this`prev_match, this`match_length, this`match_available, this`blocks, this`tallies,
               this`end, win`ins_h, win`head, win`prev, win`owner, win`last, win`strstart, win`lookahead,
               win`match_start, win`block_start, strm`next_out_index, strm`total_out, strm`avail_out, strm`delivered,
               strm.next_out, coder, coder.l_desc, coder.d_desc, coder.bl_desc, coder.work, coder.out,
               coder.out.pending_buf
      ensures SlowHead() && (coder.out.pending == 0 || strm.avail_out == 0)
      ensures Start() >= old(Start()) && (strm.avail_out == 0 ==> Start() > old(Start()))
      ensures win.strstart > old(win.strstart) && win.strstart + win.lookahead == old(win.strstart + win.lookahead)
      ensures head' <= win.strstart || (old(win.lookahead) < MIN_MATCH && head' == hash_head)
      ensures if old(win.lookahead) >= MIN_MATCH then old(FindsLazily(length, start)) else length < MIN_MATCH
      ensures if old(match_length) >= MIN_MATCH && length <= old(match_length) then
                && Symbols() == old(Symbols())
                   + [Copying(old(match_length), old(win.strstart) - 1 - old(win.match_start))]
                && win.strstart == old(win.strstart + match_length) - 1
                && match_available == 0 && match_length == MIN_MATCH - 1
              else
                && Symbols() == old(Symbols())
                   + (if old(match_available) != 0 then [Literal(old(Byte(win.strstart - 1)))] else [])
                && win.strstart == old(win.strstart) + 1
                && match_available == 1 && match_length == length && win.match_start == start
      ensures old(win.lookahead) >= MIN_MATCH ==>
                win.HoldsAll(old(win.strstart), Min(win.strstart, win.strstart + win.lookahead - MIN_MATCH + 1))
    {
      hide SlidingWindow.Valid, SlidingWindow.Ready, Says, BlockCoder.Valid, Produced, Inserted, Repeats, Within,
        Allowed, Quota, WorthFlushing, Lawful, Short, Flat, SlidingWindow.Inserts, FoundLazily, Sent, Told, FindsLazily,
        Lazy, Current, SlidingWindow.HoldsAll, SlidingWindow.Holds, Stable, Done, Passed, AllSendable, Ripe;
      head', length, start := LookLazily(hash_head);
      ghost var from := if win.lookahead >= MIN_MATCH then win.strstart else win.strstart + 1;
      win.HoldsFrom(from, win.strstart + 1);
      if prev_length >= MIN_MATCH && match_length <= prev_length {
        head' := SlowMatch(head', from);
      } else if match_available != 0 {
        var _ := EmitLiteral();
      } else {
        WaitForNext();
      }
    }

    // Nothing is emitted in the first round; the match found is pending.
    method WaitForNext()
      requires Tallying() && Inserted(0) && win.lookahead >= 1 && win.strstart <= 2 * win.z.w - MIN_LOOKAHEAD
      requires match_available == 0 && 1 <= match_length <= MAX_MATCH
      requires match_length >= MIN_MATCH ==> Current(match_length, win.match_start)
      modifies this`match_available, win`strstart, win`lookahead
      ensures SlowHead() && match_available == 1
      ensures win.strstart == old(win.strstart) + 1 && win.lookahead == old(win.lookahead) - 1
    {
      hide Inserted, Repeats, Says, Stable, SlidingWindow.Valid, SlidingWindow.Ready, Sent, Within, Allowed;
      win.Bounds();
      match_available := 1;
      AdvanceInserted(0);
    }

    lemma InsertedNone(hash_head: nat)
      requires Inserted(hash_head)
      ensures Inserted(0)
    {
      hide PrimedAt, OnChain, HashAt;
    }

    method AdvanceInserted(ghost hash_head: nat)
      requires win.Valid() && Inserted(hash_head) && win.lookahead >= 1
      modifies win`strstart, win`lookahead
      ensures win.Valid() && win.Ready() && win.strstart == old(win.strstart) + 1
              && win.lookahead == old(win.lookahead) - 1
    {
      hide SlidingWindow.Valid, SlidingWindow.Ready, PrimedAt, OnChain, HashAt;
      win.Advance();
      win.Behind();
    }

    lemma SlowShape()
      requires SlowHead()
      ensures Parts() && win.z.w >= 512 && win.strstart + win.lookahead <= 2 * win.z.w
              && win.strstart <= 2 * win.z.w - 4
    {
      hide SlidingWindow.Valid, Stable, Sent, Lazy, Told;
      win.Bounds();
    }

    // deflate_slow: lazy evaluation of matches.
    method DeflateSlow(flush: int) returns (state: BlockState)
      requires SlowHead() && coder.out.pending == 0 && strm.avail_out > 0
      modifies this`extra, this`prev_length, this`prev_match, this`match_length, this`match_available, this`blocks,
               this`tallies, this`end, win, win.window, strm`avail_in, strm`next_in_index, strm`total_in, strm`accepted,
               strm`next_out_index, strm`total_out, strm`avail_out, strm`delivered, strm.next_out, coder, coder.l_desc,
               coder.d_desc, coder.bl_desc, coder.work, coder.out, coder.out.pending_buf
      ensures Stopped(flush, state) && Spared(flush, old(extra), extra, 1)
      ensures Advanced(flush, state, old(Start()))
      ensures state.NeedMore? || state.BlockDone? ==> SlowHead()
    {
      hide SlowHead, Parts, Done, SlidingWindow.Valid, Stopped, FindsLazily, Told, Flat, SlidingWindow.HoldsAll,
        SlidingWindow.Holds, Sent;
      var hash_head: nat := 0;
      while true
        invariant SlowHead() && coder.out.pending == 0 && strm.avail_out > 0
        invariant hash_head <= win.strstart
                  || (hash_head <= win.strstart + win.z.w && strm.avail_in == 0
                        && win.strstart + win.lookahead < 2 * win.z.w - MIN_LOOKAHEAD)
        invariant Start() >= old(Start()) && extra == old(extra)
        decreases strm.avail_in + win.lookahead
      {
        SlowShape();
        if win.lookahead < MIN_LOOKAHEAD {
          RefillSlow();
          SlowShape();
          if win.lookahead < MIN_LOOKAHEAD && flush == Z_NO_FLUSH {
            StoppedMore(flush);
            return NeedMore;
          }
          if win.lookahead == 0 {
            break;
          }
        }
        ghost var length, start;
        hash_head, length, start := SlowRound(hash_head);
        SlowShape();
        if strm.avail_out == 0 {
          StoppedMore(flush);
          return NeedMore;
        }
      }
      state := FinishSlow(flush);
    }

    // The last lines of deflate_slow: the last literal and the last block.
    method FinishSlow(flush: int) returns (state: BlockState)
      requires SlowHead() && coder.out.pending == 0 && strm.avail_out > 0 && win.lookahead == strm.avail_in == 0
      modifies this`extra, this`match_available, this`blocks, this`tallies, this`end, win`block_start,
               strm`next_out_index, strm`total_out, strm`avail_out, strm`delivered, strm.next_out, coder, coder.l_desc,
               coder.d_desc, coder.bl_desc, coder.work, coder.out, coder.out.pending_buf
      ensures Stopped(flush, state) && extra == old(extra) + (if flush == Z_FINISH then 0 else 1)
      ensures Start() >= old(Start()) && (flush == Z_FINISH ==> !state.NeedMore?)
      ensures state.NeedMore? || state.BlockDone? ==> SlowHead()
    {
      hide SlidingWindow.Valid, PrimedAt, Says, Stable, Sent, Stopped, Repeats, Within, Allowed, Quota, WorthFlushing,
        Lawful, Short, Told, FullWhen, Ripe, Flat, Done;
      win.Bounds();
      if match_available != 0 {
        var _ := TallyLiteral(win.strstart - 1);
        match_available := 0;
      }
      state := FlushLast(flush);
      StoppedParts(flush, state);
      Restart();
    }

    lemma StoppedMore(flush: int)
      requires Parts() && (coder.out.pending == 0 || strm.avail_out == 0)
      requires strm.avail_out > 0 ==> flush == Z_NO_FLUSH && strm.avail_in == 0
      ensures Stopped(flush, NeedMore)
    {
      hide Parts, Done;
    }

    lemma StoppedParts(flush: int, state: BlockState)
      requires Stopped(flush, state)
      ensures Parts() && (coder.out.pending == 0 || strm.avail_out == 0)
    {
      hide Parts, Done;
    }

    // ---- deflate_fast ----

    // What holds before every round of deflate_fast: the tallied symbols say the input up to strstart.
    ghost predicate FastHead()
      reads this`match_available, this`match_length, this`prev_length, this`blocks, this`tallies, this`points,
            this`extra, win, win.window, strm, strm.next_out, coder, coder.l_desc, coder.d_desc, coder.bl_desc,
            coder.work, coder.out, coder.out.pending_buf
    {
      && Tallying() && level <= 3 && match_available == 0 && win.Ready() && win.strstart <= 2 * win.z.w - 4
      && match_length < MIN_MATCH && prev_length == MIN_MATCH - 1
    }

    lemma FastShape()
      requires FastHead()
      ensures Parts() && Sent() && Told(Position()) && win.Valid()
      ensures 512 <= win.z.w <= 32768 && win.strstart + win.lookahead <= 2 * win.z.w && win.strstart <= 2 * win.z.w - 4
    {
      hide SlidingWindow.Valid, Stable, Sent, Told;
      win.Bounds();
    }

    method RefillFast()
      requires FastHead() && win.lookahead < MIN_LOOKAHEAD
      modifies win`head, win`prev, win`ins_h, win`strstart, win`lookahead, win`block_start, win`match_start,
               win`consumed, win`base, win`owner, win`last, win`floor, win.window, strm`avail_in, strm`next_in_index,
               strm`total_in, strm`accepted
      ensures FastHead() && win.strstart < 2 * win.z.w - MIN_LOOKAHEAD
      ensures Start() == old(Start())
      ensures win.lookahead >= MIN_LOOKAHEAD || strm.avail_in == 0
      ensures win.lookahead + strm.avail_in == old(win.lookahead + strm.avail_in)
      ensures win.strstart == old(win.strstart) - (if old(win.strstart) < 2 * win.z.w - MIN_LOOKAHEAD then 0
              else win.z.w)
    {
      hide Told, Stable, SlidingWindow.Valid, SlidingWindow.Ready, Sent;
      Refill(Position());
      win.Behind();
      win.Bounds();
    }

    // What a round of deflate_fast finds when first heads the chain of the string at strstart: without a search
    // nothing.
    ghost predicate FoundGreedily(prev: seq<nat>, first: nat, length0: nat, start0: int, length: nat, start: int)
      reads win`strstart, win`lookahead, win.window
    {
      if first != 0 && 0 <= win.strstart - first <= win.z.w - MIN_LOOKAHEAD && strategy != Z_HUFFMAN_ONLY then
        exists best: nat ::
          win.Selects(prev, first, MIN_MATCH - 1, effort, start0, best, start) && length == Min(best, win.lookahead)
      else length == length0 && start == start0
    }

    // The middle of a round of deflate_fast: the match at strstart, if any.
    method SearchGreedily(hash_head: nat)
      requires win.Valid() && win.lookahead >= 1 && win.strstart <= 2 * win.z.w - MIN_LOOKAHEAD && Inserted(hash_head)
      requires match_length < MIN_MATCH && prev_length == MIN_MATCH - 1 && effort.max_chain_length >= 4 && level <= 3
      modifies this`match_length, win`match_start
      ensures win.Valid() && match_length <= MAX_MATCH
      ensures match_length >= MIN_MATCH ==> Current(match_length, win.match_start)
      ensures if win.lookahead >= MIN_MATCH then
                FoundGreedily(win.prev, hash_head, old(match_length), old(win.match_start), match_length,
                              win.match_start)
              else match_length < MIN_MATCH
    {
      hide Chained, Tracks, Pow2, OnChain, HashAt, PrimedAt, Repeats, Above, SlidingWindow.Valid, SlidingWindow.Selects;
      win.Bounds();
      if hash_head != 0 && (win.strstart - hash_head) % 0x1_0000 <= win.z.w - MIN_LOOKAHEAD {
        DistanceWraps(hash_head, win.strstart, win.z.w);
        if strategy != Z_HUFFMAN_ONLY {
          ghost var best;
          match_length, best := win.LongestMatch(hash_head, prev_length, effort);
        }
      }
    }

    // do { strstart++; insert } while (--match_length !== 0)
    method InsertCovered(ghost first: int) returns (head': nat)
      requires 0 <= first <= win.strstart && win.HoldsAll(first, win.strstart + 1)
               && win.strstart + match_length < first + 512
      requires win.Valid() && Inserted(0) && 1 <= match_length && match_length + MIN_MATCH <= win.lookahead
      modifies this`match_length, win`ins_h, win`head, win`prev, win`owner, win`last, win`strstart, win`lookahead
      ensures win.Valid() && Inserted(0) && head' <= win.strstart && match_length == 0
      ensures win.strstart == old(win.strstart + match_length) && win.lookahead == old(win.lookahead - match_length)
      ensures win.HoldsAll(first, win.strstart + 1)
    {
      hide SlidingWindow.Valid, SlidingWindow.Ready, Inserted, SlidingWindow.HoldsAll, SlidingWindow.Holds;
      ghost var from, n := win.strstart + match_length, win.lookahead - match_length;
      head' := 0;
      win.Bounds();
      while match_length != 0
        invariant win.Valid() && Inserted(0) && head' <= win.strstart
        invariant win.strstart + match_length == from && win.lookahead == n + match_length
        invariant win.HoldsAll(first, win.strstart + 1) && first <= win.strstart
      {
        AdvanceInserted(0);
        ghost var owner := win.owner;
        win.HoldsBefore(first, win.strstart);
        head' := InsertNext(head');
        OwnerNow(owner, head');
        win.HoldsMore(first, win.strstart, owner);
        match_length := match_length - 1;
      }
    }

    lemma OwnerNow(owner0: seq<int>, hash_head: nat)
      requires exists head0, prev0 :: win.Inserts(head0, prev0, owner0, win.strstart, hash_head)
      ensures win.z.w > 0 && win.strstart % win.z.w < |owner0|
              && win.owner == owner0[win.strstart % win.z.w := win.strstart]
    {
      hide HashAt;
    }

    // The match branch of a round: the strings of a short match enter the dictionary if they can.
    method FastMatch(hash_head: nat) returns (bflush: bool, head': nat)
      requires win.HoldsAll(win.strstart, if win.lookahead >= MIN_MATCH then win.strstart + 1 else win.strstart)
      requires Tallying() && match_available == 0 && Inserted(0) && win.strstart <= 2 * win.z.w - MIN_LOOKAHEAD
      requires MIN_MATCH <= match_length <= MAX_MATCH && Current(match_length, win.match_start)
      modifies this`match_length, coder, coder.l_desc, coder.d_desc, win`ins_h, win`head, win`prev, win`owner, win`last,
               win`strstart, win`lookahead
      ensures Parts() && Sent() && Told(Position()) && win.Ready() && win.strstart <= 2 * win.z.w - 4
              && match_length == 0
      ensures Ripe(bflush) && FullWhen(bflush, old(win.strstart) - win.block_start)
      ensures head' == hash_head || head' <= win.strstart
      ensures win.strstart == old(win.strstart + match_length)
              && win.strstart + win.lookahead == old(win.strstart + win.lookahead)
      ensures Symbols() == old(Symbols()) + [Copying(old(match_length), old(win.strstart) - win.match_start)]
      ensures if old(match_length) <= effort.max_lazy_match && win.lookahead >= MIN_MATCH then
                win.HoldsAll(old(win.strstart), win.strstart)
              else win.owner == old(win.owner) && win.head == old(win.head) && win.prev == old(win.prev)
    {
      hide Inserted, SlidingWindow.Ready, Repeats, Says, Stable, SlidingWindow.Valid, Sent, Within, Allowed, Quota,
        WorthFlushing, Lawful, Short, SlidingWindow.HoldsAll, SlidingWindow.Holds, Done, FullWhen, Flat, AllSendable;
      win.Bounds();
      bflush := TallyMatch(win.strstart, win.strstart - win.match_start, match_length);
      head' := PassMatch(hash_head);
    }

    // Moves on past a match: the strings of a short one enter the dictionary if they can, a long one is skipped.
    method PassMatch(hash_head: nat) returns (head': nat)
      requires win.Valid() && Inserted(0) && win.strstart <= 2 * win.z.w - MIN_LOOKAHEAD
      requires MIN_MATCH <= match_length <= MAX_MATCH && match_length <= win.lookahead
      requires win.HoldsAll(win.strstart, if win.lookahead >= MIN_MATCH then win.strstart + 1 else win.strstart)
      modifies this`match_length, win`ins_h, win`head, win`prev, win`owner, win`last, win`strstart, win`lookahead
      ensures win.Valid() && win.Ready() && match_length == 0
      ensures head' == hash_head || head' <= win.strstart
      ensures win.strstart == old(win.strstart + match_length)
              && win.strstart + win.lookahead == old(win.strstart + win.lookahead)
      ensures if old(match_length) <= effort.max_lazy_match && win.lookahead >= MIN_MATCH then
                win.HoldsAll(old(win.strstart), win.strstart)
              else win.owner == old(win.owner) && win.head == old(win.head) && win.prev == old(win.prev)
    {
      hide Inserted, SlidingWindow.Ready, SlidingWindow.Valid, SlidingWindow.HoldsAll, SlidingWindow.Holds;
      win.Bounds();
      head' := hash_head;
      if match_length <= effort.max_lazy_match && win.lookahead - match_length >= MIN_MATCH {
        match_length := match_length - 1;
        head' := InsertCovered(win.strstart);
        AdvanceInserted(0);
      } else {
        win.Skip(match_length);
        win.Behind();
        match_length := 0;
      }
    }

    // The literal branch of a round.
    method FastLiteral() returns (bflush: bool)
      requires Tallying() && match_available == 0 && Inserted(0) && win.lookahead >= 1
      modifies coder, coder.l_desc, coder.d_desc, win`strstart, win`lookahead
      ensures Parts() && Sent() && Told(Position()) && win.Ready()
      ensures Ripe(bflush) && FullWhen(bflush, old(win.strstart) - win.block_start)
      ensures win.strstart == old(win.strstart) + 1 && win.lookahead == old(win.lookahead) - 1
      ensures Symbols() == old(Symbols()) + [Literal(old(Byte(win.strstart)))]
    {
      hide Inserted, SlidingWindow.Ready, Says, Stable, SlidingWindow.Valid, Sent, Within, Allowed, Quota,
        WorthFlushing, Lawful, Short;
      win.Bounds();
      bflush := TallyLiteral(win.strstart);
      AdvanceInserted(0);
    }

    // The second half of a round: the match or the literal, and the block if it is full.
    method FastStep(hash_head: nat) returns (head': nat)
      requires win.HoldsAll(win.strstart, if win.lookahead >= MIN_MATCH then win.strstart + 1 else win.strstart)
      requires Tallying() && match_available == 0 && Inserted(0) && win.strstart <= 2 * win.z.w - MIN_LOOKAHEAD
      requires match_length <= MAX_MATCH && (match_length >= MIN_MATCH ==> Current(match_length, win.match_start))
      requires win.lookahead >= 1 && coder.out.pending == 0 && strm.avail_out > 0 && prev_length == MIN_MATCH - 1
      modifies this`match_length, this`blocks, this`tallies, this`end, win`ins_h, win`head, win`prev, win`owner,
               win`last, win`strstart, win`lookahead, win`block_start, strm`next_out_index, strm`total_out,
               strm`avail_out, strm`delivered, strm.next_out, coder, coder.l_desc, coder.d_desc, coder.bl_desc,
               coder.work, coder.out, coder.out.pending_buf
      ensures level <= 3 ==> FastHead()
      ensures coder.out.pending == 0 || strm.avail_out == 0
      ensures Start() >= old(Start()) && (strm.avail_out == 0 ==> Start() > old(Start()))
      ensures win.strstart + win.lookahead == old(win.strstart + win.lookahead)
      ensures if old(match_length) >= MIN_MATCH then
                && Symbols() == old(Symbols()) + [Copying(old(match_length), old(win.strstart) - win.match_start)]
                && win.strstart == old(win.strstart + match_length) && match_length == 0
              else
                && Symbols() == old(Symbols()) + [Literal(old(Byte(win.strstart)))]
                && win.strstart == old(win.strstart) + 1 && match_length == old(match_length)
      ensures if MIN_MATCH <= old(match_length) <= effort.max_lazy_match && win.lookahead >= MIN_MATCH then
                win.HoldsAll(old(win.strstart), win.strstart)
              else win.owner == old(win.owner) && win.head == old(win.head) && win.prev == old(win.prev)
      ensures head' == hash_head || head' <= win.strstart
    {
      hide SlidingWindow.Valid, SlidingWindow.Ready, Told, Stable, Inserted, Repeats, Sent, Within, Allowed, Quota,
        WorthFlushing, Lawful, Short, SlidingWindow.HoldsAll, SlidingWindow.Holds, Done, FullWhen, Ripe,
        BlockCoder.Valid, Flat, AllSendable, Tallying, FastHead, Current;
      TallyingMeans();
      win.Bounds();
      var bflush;
      head' := hash_head;
      if match_length >= MIN_MATCH {
        bflush, head' := FastMatch(hash_head);
      } else {
        bflush := FastLiteral();
      }
      win.Behind();
      win.Bounds();
      FlushIfFull(bflush);
      FastAgain();
    }

    lemma TallyingMeans()
      requires Tallying()
      ensures Parts() && Sent() && level > 0 && win.Valid() && Start() <= Position()
      ensures coder.last_lit + 1 < coder.lit_bufsize && match_available <= 1 && match_available <= win.strstart
      ensures Told(Position() - match_available)
    {
      hide SlidingWindow.Valid, Stable, Sent, Told;
      BlockBounds();
    }

    lemma FastAgain()
      requires Parts() && Sent() && Told(Position()) && level > 0 && coder.last_lit + 1 < coder.lit_bufsize
      requires win.Ready() && match_available == 0 && match_length < MIN_MATCH && prev_length == MIN_MATCH - 1
      requires win.strstart <= 2 * win.z.w - 4
      ensures level <= 3 ==> FastHead()
    {
      hide SlidingWindow.Valid, SlidingWindow.Ready, Stable, Sent, Told, Parts;
    }

    // The match found in a round of deflate_fast for the string at strstart, once that heads the chain of its hash.
    ghost predicate FindsGreedily(length: nat, start: int)
      reads this`match_length, win, win.window
    {
      && 0 < win.z.w == |win.prev| && win.strstart + 3 <= win.window.Length
      && var h := HashAt(win.window[..], win.strstart, win.z);
         h < |win.head|
         && FoundGreedily(win.prev[win.strstart % win.z.w := win.head[h]], win.head[h], match_length, win.match_start,
                          length, start)
    }

    lemma FindsNowGreedily(head0: seq<nat>, prev0: seq<nat>, owner0: seq<int>, first: nat, length0: nat, start0: int,
                           length: nat, start: int)
      requires win.Inserts(head0, prev0, owner0, win.strstart, first) && |prev0| == win.z.w
      requires FoundGreedily(win.prev, first, length0, start0, length, start)
      ensures var h := HashAt(win.window[..], win.strstart, win.z);
              && h < |head0| && 0 < win.z.w == |prev0| && win.strstart + 3 <= win.window.Length
              && FoundGreedily(prev0[win.strstart % win.z.w := head0[h]], head0[h], length0, start0, length, start)
    {
      hide HashAt, FoundGreedily;
    }

    // The first half of a round: the string at strstart enters the dictionary and a match is looked for.
    method LookGreedily(hash_head: nat) returns (head': nat, ghost length: nat, ghost start: int)
      requires FastHead() && win.lookahead >= 1 && win.strstart <= 2 * win.z.w - MIN_LOOKAHEAD
      requires hash_head <= win.strstart + win.z.w
      modifies this`match_length, win`ins_h, win`head, win`prev, win`owner, win`last, win`match_start
      ensures Tallying() && match_available == 0 && Inserted(0) && prev_length == MIN_MATCH - 1 && level <= 3
      ensures match_length == length && win.match_start == start && length <= MAX_MATCH
      ensures length >= MIN_MATCH ==> Current(length, start)
      ensures if win.lookahead >= MIN_MATCH then
                old(FindsGreedily(length, start)) && head' <= win.strstart && win.Holds(win.strstart)
              else length < MIN_MATCH && head' == hash_head
    {
      hide SlidingWindow.Valid, SlidingWindow.Ready, BlockCoder.Valid, Inserted, Repeats, Allowed,
        SlidingWindow.Inserts, FoundGreedily, Sent, Told, Stable, SlidingWindow.Holds, Current;
      FastMeans();
      head' := InsertNext(hash_head);
      ghost var first, had, from := head', match_length, win.match_start;
      EffortOf();
      SearchGreedily(head');
      length, start := match_length, win.match_start;
      if win.lookahead >= MIN_MATCH {
        FindsNowGreedily(old(win.head), old(win.prev), old(win.owner), first, had, from, length, start);
      }
      InsertedNone(head');
    }

    // One round of deflate_fast once there is enough lookahead: the match found at strstart is emitted, or the byte
    // there if there is none. The string at strstart enters the dictionary, and so do those of a short match.
    method FastRound(hash_head: nat) returns (head': nat, ghost length: nat, ghost start: int)
      requires FastHead() && coder.out.pending == 0 && strm.avail_out > 0
      requires win.lookahead >= 1 && win.strstart <= 2 * win.z.w - MIN_LOOKAHEAD && hash_head <= win.strstart + win.z.w
      modifies this`match_length, this`blocks, this`tallies, this`end, win`ins_h, win`head, win`prev, win`owner,
               win`last, win`strstart, win`lookahead, win`match_start, win`block_start, strm`next_out_index,
               strm`total_out, strm`avail_out, strm`delivered, strm.next_out, coder, coder.l_desc, coder.d_desc,
               coder.bl_desc, coder.work, coder.out, coder.out.pending_buf
      ensures FastHead() && (coder.out.pending == 0 || strm.avail_out == 0)
      ensures Start() >= old(Start()) && (strm.avail_out == 0 ==> Start() > old(Start()))
      ensures win.strstart > old(win.strstart) && win.strstart + win.lookahead == old(win.strstart + win.lookahead)
      ensures head' <= win.strstart || (old(win.lookahead) < MIN_MATCH && head' == hash_head)
      ensures if old(win.lookahead) >= MIN_MATCH then old(FindsGreedily(length, start)) else length < MIN_MATCH
      ensures if length >= MIN_MATCH then
                && Symbols() == old(Symbols()) + [Copying(length, old(win.strstart) - start)]
                && win.strstart == old(win.strstart) + length && match_length == 0
              else
                && Symbols() == old(Symbols()) + [Literal(old(Byte(win.strstart)))]
                && win.strstart == old(win.strstart) + 1 && match_length == length
      ensures old(win.lookahead) >= MIN_MATCH ==> win.Holds(old(win.strstart))
      ensures MIN_MATCH <= length <= effort.max_lazy_match && win.lookahead >= MIN_MATCH ==>
                win.HoldsAll(old(win.strstart), win.strstart)
    {
      hide SlidingWindow.Valid, SlidingWindow.Ready, Told, Stable, Inserted, Repeats, Sent, Within, Allowed, Quota,
        WorthFlushing, Lawful, Short, Flat, SlidingWindow.Inserts, FoundGreedily, FindsGreedily, Current,
        SlidingWindow.HoldsAll, SlidingWindow.Holds, Done, BlockCoder.Valid;
      head', length, start := LookGreedily(hash_head);
      win.HoldsFrom(win.strstart, if win.lookahead >= MIN_MATCH then win.strstart + 1 else win.strstart);
      head' := FastStep(head');
      if MIN_MATCH <= length <= effort.max_lazy_match && win.lookahead >= MIN_MATCH {
        win.HoldsOne(old(win.strstart), win.strstart);
      }
    }

    lemma FastMeans()
      requires FastHead()
      ensures Tallying() && win.Ready() && win.Valid() && 0 < win.z.w == |win.prev| && level > 0 && Parts() && Sent()
    {
      hide BlockCoder.Valid, Sent, Told, Tracks, Chained, Above, PrimedAt;
    }

    lemma EffortOf()
      requires Parts() && level > 0
      ensures effort.max_chain_length >= 4
    {
      hide BlockCoder.Valid, SlidingWindow.Valid;
    }

    // deflate_fast: greedy matching.
    method DeflateFast(flush: int) returns (state: BlockState)
      requires FastHead() && coder.out.pending == 0 && strm.avail_out > 0
      modifies this`extra, this`match_length, this`blocks, this`tallies, this`end, win, win.window, strm`avail_in,
               strm`next_in_index, strm`total_in, strm`accepted, strm`next_out_index, strm`total_out, strm`avail_out,
               strm`delivered, strm.next_out, coder, coder.l_desc, coder.d_desc, coder.bl_desc, coder.work, coder.out,
               coder.out.pending_buf
      ensures Stopped(flush, state) && Spared(flush, old(extra), extra, 1)
      ensures Advanced(flush, state, old(Start()))
      ensures state.NeedMore? || state.BlockDone? ==> FastHead()
    {
      hide FastHead, Parts, Done, Sent, Told, SlidingWindow.Valid, Stopped, FindsGreedily, Flat, SlidingWindow.HoldsAll,
        SlidingWindow.Holds, Obeys;
      var hash_head: nat := 0;
      while true
        invariant FastHead() && coder.out.pending == 0 && strm.avail_out > 0
        invariant hash_head <= win.strstart
                  || (hash_head <= win.strstart + win.z.w && strm.avail_in == 0
                        && win.strstart + win.lookahead < 2 * win.z.w - MIN_LOOKAHEAD)
        invariant Start() >= old(Start()) && extra == old(extra)
        decreases strm.avail_in + win.lookahead
      {
        FastShape();
        if win.lookahead < MIN_LOOKAHEAD {
          RefillFast();
          FastShape();
          if win.lookahead < MIN_LOOKAHEAD && flush == Z_NO_FLUSH {
            StoppedMore(flush);
            return NeedMore;
          }
          if win.lookahead == 0 {
            break;
          }
        }
        ghost var length, start;
        hash_head, length, start := FastRound(hash_head);
        FastShape();
        if strm.avail_out == 0 {
          StoppedMore(flush);
          return NeedMore;
        }
      }
      state := FinishFast(flush);
    }

    method FinishFast(flush: int) returns (state: BlockState)
      requires FastHead() && coder.out.pending == 0 && strm.avail_out > 0 && win.lookahead == strm.avail_in == 0
      modifies this`extra, this`blocks, this`tallies, this`end, win`block_start, strm`next_out_index, strm`total_out,
               strm`avail_out, strm`delivered, strm.next_out, coder, coder.l_desc, coder.d_desc, coder.bl_desc,
               coder.work, coder.out, coder.out.pending_buf
      ensures Stopped(flush, state) && extra == old(extra) + (if flush == Z_FINISH then 0 else 1)
      ensures Start() >= old(Start()) && (flush == Z_FINISH ==> !state.NeedMore?)
      ensures state.NeedMore? || state.BlockDone? ==> FastHead()
    {
      hide SlidingWindow.Valid, PrimedAt, Says, Stable, Sent, Stopped, Repeats, Within, Allowed, Quota, WorthFlushing,
        Lawful, Short;
      win.Bounds();
      state := FlushLast(flush);
      StoppedParts(flush, state);
      Restart();
    }

    // ---- deflate_stored ----

    // Stored blocks are limited to 0xffff bytes and to the pending buffer.
    function MaxBlock(): int {
      Min(0xffff, 4 * coder.lit_bufsize - 5)
    }

    lemma SomeRoom()
      requires Parts()
      ensures MaxBlock() > 0
    {
      hide BlockCoder.Valid, SlidingWindow.Valid;
      coder.RoomAfterBlock();
    }

    // What holds before every round of deflate_stored: the block under way is in the window, whole, and fits a stored
    // block.
    ghost predicate StoredHead()
      reads this`blocks, this`tallies, this`points, this`extra, win, win.window, strm, strm.next_out, coder,
            coder.l_desc, coder.d_desc, coder.bl_desc, coder.work, coder.out, coder.out.pending_buf
    {
      && Parts() && Sent() && level == 0 && win.last < 0 && coder.out.bi_valid <= 5
      && 0 <= win.block_start && win.strstart - win.block_start < win.z.w - MIN_LOOKAHEAD
           && win.strstart - win.block_start < MaxBlock()
    }

    lemma StoredShape()
      requires StoredHead()
      ensures Parts() && Sent() && win.Valid() && BlockReady() && Storable()
      ensures 512 <= win.z.w <= 32768 && win.strstart + win.lookahead <= 2 * win.z.w
              && win.strstart < win.block_start + MaxBlock()
    {
      hide SlidingWindow.Valid, Stable, Sent, Told;
      win.Bounds();
    }

    // No byte of the block is lost to a slide.
    method RefillStored()
      requires StoredHead() && win.lookahead <= 1
      modifies win`head, win`prev, win`ins_h, win`strstart, win`lookahead, win`block_start, win`match_start,
               win`consumed, win`base, win`owner, win`last, win`floor, win.window, strm`avail_in, strm`next_in_index,
               strm`total_in, strm`accepted
      ensures StoredHead()
      ensures Start() == old(Start())
      ensures win.lookahead >= MIN_LOOKAHEAD || strm.avail_in == 0
      ensures win.lookahead + strm.avail_in == old(win.lookahead + strm.avail_in)
    {
      hide Told, Stable, SlidingWindow.Valid, Sent;
      win.Bounds();
      Refill(0);
    }

    // One round of deflate_stored once there is input: a stored block goes out when the pending buffer
    // would be full, or when the window may have to slide.
    method StoredRound()
      requires StoredHead() && coder.out.pending == 0 && strm.avail_out > 0 && win.lookahead >= 1
      modifies this`blocks, this`tallies, this`end, win`strstart, win`lookahead, win`block_start, strm`next_out_index,
               strm`total_out, strm`avail_out, strm`delivered, strm.next_out, coder, coder.l_desc, coder.d_desc,
               coder.bl_desc, coder.work, coder.out, coder.out.pending_buf
      ensures StoredHead() && (coder.out.pending == 0 || strm.avail_out == 0)
      ensures Start() >= old(Start()) && (strm.avail_out == 0 ==> Start() > old(Start()))
      ensures win.lookahead < old(win.lookahead)
    {
      hide Told, Stable, SlidingWindow.Valid, Sent, Done;
      win.Bounds();
      SomeRoom();
      var max_start := win.block_start + MaxBlock();
      var full := win.Gather(max_start);
      if full {
        FlushBlockOnly(false);
        if strm.avail_out == 0 {
          return;
        }
      }
      if win.strstart - win.block_start >= win.z.w - MIN_LOOKAHEAD {
        FlushBlockOnly(false);
      }
    }

    // deflate_stored: no compression.
    method DeflateStored(flush: int) returns (state: BlockState)
      requires StoredHead() && coder.out.pending == 0 && strm.avail_out > 0
      modifies this`extra, this`blocks, this`tallies, this`end, win, win.window, strm`avail_in, strm`next_in_index,
               strm`total_in, strm`accepted, strm`next_out_index, strm`total_out, strm`avail_out, strm`delivered,
               strm.next_out, coder, coder.l_desc, coder.d_desc, coder.bl_desc, coder.work, coder.out,
               coder.out.pending_buf
      ensures Stopped(flush, state) && Spared(flush, old(extra), extra, 1)
      ensures Advanced(flush, state, old(Start()))
      ensures state.NeedMore? || state.BlockDone? ==> StoredHead()
    {
      hide StoredHead, Parts, Done, Sent, SlidingWindow.Valid, BlockReady, Storable, Stopped;
      while true
        invariant StoredHead() && coder.out.pending == 0 && strm.avail_out > 0
        invariant Start() >= old(Start()) && extra == old(extra)
        decreases strm.avail_in + win.lookahead
      {
        StoredShape();
        if win.lookahead <= 1 {
          RefillStored();
          StoredShape();
          if win.lookahead == 0 && flush == Z_NO_FLUSH {
            StoppedMore(flush);
            return NeedMore;
          }
          if win.lookahead == 0 {
            break;
          }
        }
        StoredRound();
        if strm.avail_out == 0 {
          StoredShape();
          StoppedMore(flush);
          return NeedMore;
        }
      }
      state := FinishStored(flush);
    }

    method FinishStored(flush: int) returns (state: BlockState)
      requires StoredHead() && coder.out.pending == 0 && strm.avail_out > 0 && win.lookahead == strm.avail_in == 0
      modifies this`extra, this`blocks, this`tallies, this`end, win`block_start, strm`next_out_index, strm`total_out,
               strm`avail_out, strm`delivered, strm.next_out, coder, coder.l_desc, coder.d_desc, coder.bl_desc,
               coder.work, coder.out, coder.out.pending_buf
      ensures Stopped(flush, state) && extra == old(extra) + (if flush == Z_FINISH then 0 else 1)
      ensures Start() >= old(Start()) && (flush == Z_FINISH ==> !state.NeedMore?)
      ensures state.NeedMore? || state.BlockDone? ==> StoredHead()
    {
      hide SlidingWindow.Valid, Says, Stable, Sent, Stopped, Within, Allowed, Quota, WorthFlushing, Lawful, Short;
      win.Bounds();
      state := FlushLast(flush);
      StoppedParts(flush, state);
      SomeRoom();
    }

    // ---- deflate ----

    // The flush marker after a block: one or two empty blocks; a full flush also forgets the history.
    method Mark(flush: int)
      requires Parts() && Sent() && coder.out.pending == 0 && (level == 0 ==> coder.out.bi_valid == 0)
      requires win.block_start == win.strstart && win.last < win.strstart
      modifies this`extra, this`blocks, this`tallies, this`points, coder`last_eob_len, coder.out`pending, coder.out`put,
               coder.out`bi_buf, coder.out`bi_valid, coder.out.pending_buf, win`head, win`floor
      ensures Parts() && Sent() && (old(win.Ready()) ==> win.Ready())
      ensures level == 0 ==> coder.out.bi_valid <= 2
      ensures flush != Z_PARTIAL_FLUSH ==> coder.out.bi_valid == 0
      ensures old(extra) <= extra <= old(extra) + 2
      ensures MarkedBy(flush, old(blocks), blocks)
      ensures if flush == Z_FULL_FLUSH then
                points == old(points) + [Point(|coder.out.Written()|, Position(), |blocks|)]
                && win.floor == win.strstart && forall h :: 0 <= h < |win.head| ==> win.head[h] == 0
              else points == old(points) && win.floor == old(win.floor) && win.head == old(win.head)
    {
      hide BlockCoder.Valid, SlidingWindow.Valid, SlidingWindow.Ready, Produced, Appended, BitWriter.Written, Sent,
        StoredSize, Lawful, Short, Quota, Proper, Marker, Told, AllResume, Passed;
      SentMeans();
      ghost var was, hist := coder.out.Written(), win.consumed[..Start()];
      if flush == Z_PARTIAL_FLUSH {
        ghost var mid;
        var two;
        two, mid := coder.TrAlign(hist);
        AddMarker(was, mid, hist, Compressed([]));
        if two {
          AddMarker(mid, coder.out.Written(), hist, Compressed([]));
        }
      } else {
        coder.StoredMarker(win.window, hist);
        AddMarker(was, coder.out.Written(), hist, Copied(0));
        if flush == Z_FULL_FLUSH {
          Forget();
        }
      }
      SentStill();
    }

    // A partial flush is marked by one or two empty blocks with the fixed codes, any other by an empty stored one.
    static predicate MarkedBy(flush: int, was: seq<Block>, now: seq<Block>) {
      var n := |was|;
      && was <= now
      && if flush == Z_PARTIAL_FLUSH then
           n + 1 <= |now| <= n + 2 && forall i :: n <= i < |now| ==> now[i].content == Compressed([])
         else |now| == n + 1 && now[n].content == Copied(0)
    }

    // The history is forgotten; from here on the stream can be read on its own.
    method Forget()
      requires win.Valid() && win.last < win.strstart == win.block_start && Passed()
      requires 0 <= Start() <= |win.consumed| && AllResume(points, coder.out.Written(), blocks, win.consumed[..Start()])
      modifies this`points, win`head, win`floor
      ensures win.Valid() && (old(win.Ready()) ==> win.Ready()) && Passed() && win.floor == win.strstart
      ensures forall h :: 0 <= h < |win.head| ==> win.head[h] == 0
      ensures points == old(points) + [Point(|coder.out.Written()|, Position(), |blocks|)]
      ensures AllResume(points, coder.out.Written(), blocks, win.consumed[..Start()])
    {
      hide SlidingWindow.Valid, SlidingWindow.Ready, BitWriter.Written, AllResume;
      BlockBounds();
      win.Forget();
      ResumeHere(points, coder.out.Written(), blocks, win.consumed[..Start()]);
      points := points + [Point(|coder.out.Written()|, Position(), |blocks|)];
    }

    // One more marker.
    ghost method AddMarker(was: seq<bool>, now: seq<bool>, hist: seq<byte>, content: Content)
      requires Produced(was, 0, blocks, hist) && Appended(was, now, hist, hist, false, content, |now|)
      requires Lawful(Settings(), blocks, tallies) && Short(blocks, Quota(Settings())) <= extra
      requires AllResume(points, was, blocks, hist)
      requires if content == Copied(0) then |now| == |was| + StoredSize(0, |was|)
               else content == Compressed([]) && |now| == |was| + 10
      modifies this`blocks, this`tallies, this`extra
      ensures Produced(now, 0, blocks, hist) && Lawful(Settings(), blocks, tallies)
              && AllResume(points, now, blocks, hist)
      ensures Short(blocks, Quota(Settings())) <= extra == old(extra) + 1
      ensures |blocks| == old(|blocks|) + 1 && old(blocks) <= blocks && blocks[|blocks| - 1].content == content
    {
      hide Produced, Appended, Proper, Lawful, Short, Quota, StoredSize, AllResume;
      var b := NewBlock(was, hist, hist, content, |now|);
      ProducedMore(was, now, 0, blocks, hist, hist, content, |now|);
      assert hist + [] == hist;
      ReadsNothing(content, hist);
      ResumeMore(points, was, now, blocks, hist, [], content, |now|);
      LawfulMore(Settings(), blocks, tallies, b, []);
      ShortMore(blocks, b, Quota(Settings()));
      blocks, tallies, extra := blocks + [b], tallies + [[]], extra + 1;
    }

    lemma ReadsNothing(content: Content, hist: seq<byte>)
      requires content == Copied(0) || content == Compressed([])
      ensures Reads(content, points, hist, [])
    {
      assert forall j :: 0 <= j < |points| && points[j].pos <= |hist| ==>
          hist[points[j].pos..] + [] == hist[points[j].pos..];
    }

    // What holds between two calls while the stream is under way.
    ghost predicate Underway()
      reads this`match_available, this`match_length, this`prev_length, this`blocks, this`tallies, this`points,
            this`extra, win, win.window, strm, strm.next_out, coder, coder.l_desc, coder.d_desc, coder.bl_desc,
            coder.work, coder.out, coder.out.pending_buf
    {
      if level == 0 then StoredHead() else if level <= 3 then FastHead() else SlowHead()
    }

    ghost predicate Valid()
      reads this`match_available, this`match_length, this`prev_length, this`blocks, this`tallies, this`points,
            this`extra, this`status, this`end, win, win.window, strm, strm.next_out, coder, coder.l_desc, coder.d_desc,
            coder.bl_desc, coder.work, coder.out, coder.out.pending_buf
    {
      && Parts()
      && (status.Busy? ==> Underway())
      && (status.Finish? ==> Done() && win.lookahead == 0)
    }

    // The strategy of the level.
    method Strategy(flush: int) returns (bstate: BlockState)
      requires Underway() && coder.out.pending == 0 && strm.avail_out > 0
      modifies this`extra, this`prev_length, this`prev_match, this`match_length, this`match_available, this`blocks,
               this`tallies, this`end, win, win.window, strm`avail_in, strm`next_in_index, strm`total_in, strm`accepted,
               strm`next_out_index, strm`total_out, strm`avail_out, strm`delivered, strm.next_out, coder, coder.l_desc,
               coder.d_desc, coder.bl_desc, coder.work, coder.out, coder.out.pending_buf
      ensures Stopped(flush, bstate) && Spared(flush, old(extra), extra, 1)
      ensures Advanced(flush, bstate, old(Start()))
      ensures bstate.NeedMore? || bstate.BlockDone? ==> Underway()
    {
      hide SlowHead, FastHead, StoredHead, Stopped;
      if level == 0 {
        bstate := DeflateStored(flush);
      } else if level <= 3 {
        bstate := DeflateFast(flush);
      } else {
        bstate := DeflateSlow(flush);
      }
    }

    // flush_pending at the start of a call.
    method HandOverPending()
      requires Valid()
      modifies strm`next_out_index, strm`total_out, strm`avail_out, strm`delivered, strm.next_out, coder.out`pending,
               coder.out`pending_out, coder.out`handed
      ensures Valid() && (coder.out.pending == 0 || strm.avail_out == 0)
      ensures old(coder.out.pending) - coder.out.pending == old(strm.avail_out) - strm.avail_out
    {
      hide BlockCoder.Valid, SlidingWindow.Valid, SlidingWindow.Ready, Told, Sent, Lazy, Done;
      HandOver();
    }

    // The marker after a complete block, handed over as far as there is room.
    method MarkBlock(flush: int)
      requires Underway() && Stopped(flush, BlockDone) && coder.out.pending == 0
      modifies this`extra, this`points, win`floor, this`blocks, this`tallies, coder`last_eob_len, coder.out`pending,
               coder.out`pending_out, coder.out`handed, coder.out`put, coder.out`bi_buf, coder.out`bi_valid,
               coder.out.pending_buf, win`head, strm`next_out_index, strm`total_out, strm`avail_out, strm`delivered,
               strm.next_out
      ensures Parts() && Sent() && Underway() && (coder.out.pending == 0 || strm.avail_out == 0)
      ensures flush != Z_PARTIAL_FLUSH ==> coder.out.bi_valid == 0
      ensures old(extra) <= extra <= old(extra) + 2 && MarkedBy(flush, old(blocks), blocks)
      ensures if flush == Z_FULL_FLUSH then
                points == old(points) + [Point(|coder.out.Written()|, Position(), |blocks|)]
              else points == old(points)
    {
      hide BlockCoder.Valid, SlidingWindow.Valid, SlidingWindow.Ready, Told, Sent, Lazy, Done, Lawful, Short, Quota,
        Within, Allowed, MarkedBy, BitWriter.Written, Passed, AllResume, Obeys, AllInflate, SlidingWindow.Holds,
        Repeats, Says;
      NothingPending();
      Mark(flush);
      StillUnderway();
      HandOver();
    }

    // After a block there is nothing left to tally, and nothing has been inserted ahead.
    lemma NothingPending()
      requires Underway() && coder.syms == [] && win.block_start == win.strstart
      ensures win.last < win.strstart && (level > 0 ==> match_available == 0 && coder.last_lit + 1 < coder.lit_bufsize)
      ensures level > 0 ==> win.Ready() && win.strstart <= 2 * win.z.w - 4
      ensures 0 < level <= 3 ==> match_length < MIN_MATCH && prev_length == MIN_MATCH - 1
      ensures level > 3 ==> 1 <= match_length < MIN_MATCH
      ensures level == 0 ==> StoredHead()
    {
      hide BlockCoder.Valid, SlidingWindow.Valid, Sent, Says, Within, Allowed, Repeats, PrimedAt;
      if level > 0 {
        win.Behind();
      }
    }

    lemma StillUnderway()
      requires Parts() && Sent() && coder.syms == [] && win.block_start == win.strstart && win.lookahead == 0
      requires level > 0 ==>
                 && match_available == 0 && coder.last_lit + 1 < coder.lit_bufsize && win.Ready()
                 && win.strstart <= 2 * win.z.w - 4
      requires 0 < level <= 3 ==> match_length < MIN_MATCH && prev_length == MIN_MATCH - 1
      requires level > 3 ==> 1 <= match_length < MIN_MATCH
      requires level == 0 ==>
                 && win.last < 0 && coder.out.bi_valid <= 5 && 0 <= win.block_start
      ensures Underway()
    {
      hide BlockCoder.Valid, SlidingWindow.Valid, SlidingWindow.Ready, Sent, Says, Within, Allowed, Repeats, PrimedAt;
      win.Bounds();
      Restart();
      SomeRoom();
    }

    // After a flush everything read so far is in complete blocks, which end on a byte boundary unless the flush was
    // partial.
    ghost predicate Flushed(flush: int)
      reads win`base, win`floor, win`block_start, win`consumed, coder.out`put, coder.out`bi_buf, coder.out`bi_valid,
            this`blocks, this`tallies, this`points, this`extra
    {
      Sent() && Start() == |win.consumed| && (flush != Z_PARTIAL_FLUSH ==> coder.out.bi_valid == 0)
    }

    lemma FlushedNow(flush: int)
      requires Parts() && Sent() && win.lookahead == 0 && win.block_start == win.strstart
      requires flush != Z_PARTIAL_FLUSH ==> coder.out.bi_valid == 0
      ensures Flushed(flush) && Position() == |win.consumed|
    {
      hide BlockCoder.Valid, SlidingWindow.Valid, Sent;
      BlockBounds();
    }

    // Nothing is pending and nothing is in the bit buffer: the caller has every bit.
    lemma AllDelivered()
      requires Parts() && coder.out.pending == 0 && coder.out.bi_valid == 0
      ensures coder.out.Written() == BytesToBits(strm.delivered) && win.consumed == strm.accepted
    {
      hide BlockCoder.ThreeTrees, BlockCoder.Tally, BlockCoder.Clear, SlidingWindow.Valid, BytesToBits, LowBits, Pow2;
      coder.out.Aligned();
      assert coder.out.put == coder.out.handed;
    }

    // The stream is complete: what the caller got inflates to what the caller offered.
    lemma Complete()
      requires Valid() && status.Finish? && coder.out.pending == 0
      ensures Encodes(strm.delivered, strm.accepted, end) && Obeys(Settings(), BytesToBits(strm.delivered), extra)
      ensures AllInflate(points, BytesToBits(strm.delivered), strm.accepted, end)
    {
      hide Parts, Underway, BytesToBits, BitWriter.Written, Obeys, AllInflate;
      AllDelivered();
    }

    // After a flush other than a partial one, what the caller got already decodes to everything read.
    lemma Recoverable(flush: int)
      requires Parts() && coder.out.pending == 0 && Flushed(flush) && flush != Z_PARTIAL_FLUSH
      ensures Produced(BytesToBits(strm.delivered), 0, blocks, strm.accepted) && Lawful(Settings(), blocks, tallies)
    {
      hide Parts, BytesToBits, BitWriter.Written, Produced, Lawful, Short, AllResume, Passed;
      AllDelivered();
      assert win.consumed[..Start()] == win.consumed;
    }

    // What follows a complete block that is not the last one: its marker.
    method MarkDone(flush: int) returns (over: bool)
      requires Underway() && Stopped(flush, BlockDone) && coder.out.pending == 0 && status.Busy?
      modifies this`extra, this`points, win`floor, this`blocks, this`tallies, this`last_flush, coder`last_eob_len,
               coder.out`pending, coder.out`pending_out, coder.out`handed, coder.out`put, coder.out`bi_buf,
               coder.out`bi_valid, coder.out.pending_buf, win`head, strm`next_out_index, strm`total_out, strm`avail_out,
               strm`delivered, strm.next_out
      ensures Valid() && (coder.out.pending == 0 || strm.avail_out == 0)
      ensures over <==> strm.avail_out == 0
      ensures Flushed(flush) && last_flush == if over then -1 else old(last_flush)
      ensures old(extra) <= extra <= old(extra) + 2 && MarkedBy(flush, old(blocks), blocks)
      ensures if flush == Z_FULL_FLUSH then
                points == old(points) + [Point(|coder.out.Written()|, |win.consumed|, |blocks|)]
              else points == old(points)
    {
      hide Underway, Parts, Done, Sent, Flushed, MarkedBy, BitWriter.Written;
      MarkBlock(flush);
      FlushedNow(flush);
      over := strm.avail_out == 0;
      if over {
        last_flush := -1;
      }
    }

    // A full flush that is complete adds a point to start again from; nothing else does.
    static predicate NewPoints(flush: int, was: seq<Point>, now: seq<Point>, over: bool) {
      && was <= now && |now| <= |was| + 1 && (flush != Z_FULL_FLUSH ==> now == was)
      && (!over && flush == Z_FULL_FLUSH ==> |now| == |was| + 1)
    }

    // One call of the strategy of the level and what deflate does about its result; true when the call is over.
    method Compress(flush: int) returns (over: bool)
      requires Valid() && status.Busy? && coder.out.pending == 0 && strm.avail_out > 0
      modifies this, win, win.window, strm`avail_in, strm`next_in_index, strm`total_in, strm`accepted,
               strm`next_out_index, strm`total_out, strm`avail_out, strm`delivered, strm.next_out, coder, coder.l_desc,
               coder.d_desc, coder.bl_desc, coder.work, coder.out, coder.out.pending_buf
      ensures Valid() && (coder.out.pending == 0 || strm.avail_out == 0)
      ensures !over ==> coder.out.pending == 0 && strm.avail_in == 0 && strm.avail_out > 0
      ensures !over ==> if flush == Z_FINISH then status.Finish? else status.Busy? && Flushed(flush)
      ensures over && strm.avail_out > 0 ==> flush == Z_NO_FLUSH && strm.avail_in == 0
      ensures status.Finish? ==> flush == Z_FINISH && strm.avail_in == 0
      ensures Start() >= old(Start())
      ensures strm.avail_out == 0 && (flush == Z_NO_FLUSH || flush == Z_FINISH) && over ==>
                status.Finish? || Start() > old(Start())
      ensures last_flush == if over && strm.avail_out == 0 then -1 else old(last_flush)
      ensures Spared(flush, old(extra), extra, 3)
      ensures NewPoints(flush, old(points), points, over)
      ensures !over && flush == Z_FULL_FLUSH ==>
                points[|points| - 1] == Point(|coder.out.Written()|, |win.consumed|, |blocks|)
    {
      hide Underway, Parts, Done, Sent, Flushed, Lawful, Short, Obeys, AllInflate, MarkedBy, AllResume, Passed,
        BitWriter.Written;
      var bstate := Strategy(flush);
      if bstate.FinishStarted? || bstate.FinishDone? {
        status := Finish;
      }
      if bstate.NeedMore? || bstate.FinishStarted? {
        if strm.avail_out == 0 {
          last_flush := -1;
        }
        return true;
      }
      if bstate.BlockDone? {
        over := MarkDone(flush);
        return;
      }
      over := false;
    }

    // deflate: consumes input, produces output. Z_STREAM_END means that the caller has been given a stream that
    // inflates to everything offered; Z_OK after a flush that is not partial, with room left, means that what the
    // caller has been given decodes to everything offered so far. Z_OK with room left means that all input was read
    // and the stream was not to be finished; every error has its reason.
    method Run(flush: int) returns (err: int)
      requires Valid()
      modifies this, win, win.window, strm`avail_in, strm`next_in_index, strm`total_in, strm`accepted,
               strm`next_out_index, strm`total_out, strm`avail_out, strm`delivered, strm.next_out, coder, coder.l_desc,
               coder.d_desc, coder.bl_desc, coder.work, coder.out, coder.out.pending_buf
      ensures Valid()
      ensures err in {Z_STREAM_END, Z_OK, Z_BUF_ERROR, Z_STREAM_ERROR}
      ensures err == Z_STREAM_END ==> flush == Z_FINISH && strm.avail_out > 0 && strm.avail_in == 0
      ensures err == Z_STREAM_END ==> Encodes(strm.delivered, strm.offered, end)
                                      && Obeys(Settings(), BytesToBits(strm.delivered), extra)
                                      && AllInflate(points, BytesToBits(strm.delivered), strm.offered, end)
      ensures NewPoints(flush, old(points), points, err != Z_OK || strm.avail_out == 0)
      ensures err == Z_OK && flush == Z_FULL_FLUSH && strm.avail_out > 0 ==>
                points[|points| - 1] == Point(8 * |strm.delivered|, |strm.offered|, |blocks|)
      ensures err == Z_OK && flush != Z_NO_FLUSH && flush != Z_PARTIAL_FLUSH && strm.avail_out > 0 ==>
                Produced(BytesToBits(strm.delivered), 0, blocks, strm.offered) && Lawful(Settings(), blocks, tallies)
      ensures Spared(flush, old(extra), extra, 3)
      ensures err == Z_STREAM_ERROR <==> flush > Z_FINISH || flush < 0 || (old(status.Finish?) && flush != Z_FINISH)
      ensures err == Z_BUF_ERROR <==>
                && err != Z_STREAM_ERROR
                && (|| old(strm.avail_out) == 0
                    || (old(coder.out.pending) == 0 && old(strm.avail_in) == 0 && flush <= old(last_flush)
                          && flush != Z_FINISH)
                    || (old(status.Finish?) && old(strm.avail_in) != 0 && old(coder.out.pending < strm.avail_out)))
      ensures err == Z_STREAM_ERROR || old(strm.avail_out) == 0 ==>
                unchanged(this) && unchanged(strm) && unchanged(win) && unchanged(coder) && unchanged(coder.out)
      ensures err == Z_OK && strm.avail_out > 0 ==> strm.avail_in == 0 && flush != Z_FINISH
      ensures flush == Z_FINISH && strm.avail_out > 0 ==>
              err == Z_STREAM_END
              || (old(status.Finish?) && old(strm.avail_in) != 0)
      ensures status.Finish? ==> old(status.Finish?) || flush == Z_FINISH
      ensures status.Finish? && (!old(status.Finish?) || old(strm.avail_in) == 0) ==> strm.avail_in == 0
      ensures err != Z_STREAM_ERROR && old(strm.avail_out) > 0 ==>
                last_flush == if err == Z_OK && strm.avail_out == 0 then -1 else flush
      ensures Start() >= old(Start()) && (old(status.Finish?) ==> status.Finish?)
      ensures err == Z_OK && strm.avail_out == 0 && (flush == Z_NO_FLUSH || flush == Z_FINISH) ==>
                (old(status.Busy?) && status.Finish?) || Start() > old(Start())
                || (Start() == old(Start()) && status == old(status) && coder.out.pending < old(coder.out.pending))
    {
      hide Parts, Underway, Done, Produced, BytesToBits, Encodes, Obeys, AllInflate, Lawful, Sent, BitWriter.Written;
      if flush > Z_FINISH || flush < 0 {
        return Z_STREAM_ERROR;
      }
      if status.Finish? && flush != Z_FINISH {
        return Z_STREAM_ERROR;
      }
      if strm.avail_out == 0 {
        return Z_BUF_ERROR;
      }
      var old_flush := last_flush;
      last_flush := flush;
      if coder.out.pending != 0 {
        HandOverPending();
        if strm.avail_out == 0 {
          last_flush := -1;
          return Z_OK;
        }
      } else if strm.avail_in == 0 && flush <= old_flush && flush != Z_FINISH {
        return Z_BUF_ERROR;
      }
      if status.Finish? && strm.avail_in != 0 {
        return Z_BUF_ERROR;
      }
      if strm.avail_in != 0 || win.lookahead != 0 || (flush != Z_NO_FLUSH && !status.Finish?) {
        var over := Compress(flush);
        if over {
          return Z_OK;
        }
        AllRead();
        if flush != Z_FINISH && flush != Z_PARTIAL_FLUSH {
          Recoverable(flush);
          PointHere();
        }
      }
      if flush != Z_FINISH {
        return Z_OK;
      }
      AllRead();
      Complete();
      err := Z_STREAM_END;
    }

    lemma PointHere()
      requires Parts() && coder.out.pending == 0 && coder.out.bi_valid == 0
      ensures |coder.out.Written()| == 8 * |strm.delivered| && win.consumed == strm.accepted
    {
      hide Parts, BitWriter.Written;
      AllDelivered();
    }

    lemma AllRead()
      requires Parts() && strm.avail_in == 0
      ensures strm.offered == strm.accepted
    {
      hide BlockCoder.Valid, SlidingWindow.Valid;
    }

    constructor (strm: ZStream, level: nat, bits: nat, memLevel: nat, strategy: nat)
      requires 1 <= memLevel <= 9 && 9 <= bits <= 15 && level <= 9 && strategy <= 2
      requires strm.Valid() && strm.accepted == strm.delivered == []
      ensures Valid() && this.strm == strm && status.Busy? && fresh(Memory()) && extra == 0
      ensures this.level == level && this.strategy == strategy
      ensures coder.lit_bufsize == Pow2(memLevel + 6) && win.z.w == Pow2(bits)
    {
      hide Pow2, Says, Produced, BlockCoder.Valid, SlidingWindow.Valid, Valid, SlidingWindow.Ready;
      Pow2Mono(7, memLevel + 6);
      Pow2Values();
      ProducedNothing([]);
      this.strm, this.level, this.strategy := strm, level, strategy;
      effort := ConfigTable(level);
      coder := new BlockCoder(level, Pow2(memLevel + 6));
      win := new SlidingWindow(bits, memLevel + 7);
      match_length, prev_length, prev_match, match_available := MIN_MATCH - 1, MIN_MATCH - 1, 0, 0;
      status, last_flush, blocks, tallies, points, extra, end := Busy, Z_NO_FLUSH, [], [], [], 0, 0;
      new;
      win.Behind();
      coder.out.NothingWritten();
      assert win.consumed[..0] == [];
      Begins();
    }

    lemma Begins()
      requires Parts() && Sent() && win.Ready() && coder.syms == [] && coder.out.bi_valid == 0 && status.Busy?
      requires win.strstart == win.block_start == match_available == 0 && win.last < 0
      requires match_length == prev_length == MIN_MATCH - 1
      ensures Valid()
    {
      hide BlockCoder.Valid, SlidingWindow.Valid, SlidingWindow.Ready, Says, Produced, BitWriter.Written;
      win.Bounds();
      Restart();
      SomeRoom();
    }

    // The caller offers input and makes room for output.
    method Feed(data: seq<byte>, space: nat)
      requires Valid()
      modifies strm
      ensures Valid() && fresh(strm.next_out) && strm.next_out_index == 0
              && strm.next_out.Length == strm.avail_out == space
      ensures strm.avail_in == old(strm.avail_in) + |data|
      ensures strm.offered == old(strm.offered) + data && strm.taken == strm.delivered == old(strm.delivered)
    {
      hide BlockCoder.Valid, SlidingWindow.Valid, SlidingWindow.Ready, Told, Sent, Lazy, Done;
      strm.Offer(data, space);
    }

    lemma StreamValid()
      requires Valid()
      ensures strm.Valid()
    {
      hide BlockCoder.Valid, SlidingWindow.Valid, Underway, Done;
    }

    lemma StartBound()
      requires Valid()
      ensures 0 <= Start() <= |strm.offered| && strm.avail_in <= |strm.offered|
    {
      hide BlockCoder.Valid, SlidingWindow.Valid, Underway, Done;
      BlockBounds();
    }

    // One exchange with the caller: input and room for output go in, output comes back.
    method Exchange(data: seq<byte>, space: nat, flush: int) returns (err: int, output: seq<byte>)
      requires Valid()
      modifies this, strm, Memory()
      ensures fresh(strm.next_out)
      ensures Valid() && strm.offered == old(strm.offered) + data && strm.delivered == old(strm.delivered) + output
      ensures |output| <= space && err in {Z_STREAM_END, Z_OK, Z_BUF_ERROR, Z_STREAM_ERROR}
      ensures err == Z_STREAM_END ==> flush == Z_FINISH && |output| < space && strm.avail_in == 0
      ensures err == Z_STREAM_END ==> Encodes(strm.delivered, strm.offered, end)
                                      && Obeys(Settings(), BytesToBits(strm.delivered), extra)
                                      && AllInflate(points, BytesToBits(strm.delivered), strm.offered, end)
      ensures NewPoints(flush, old(points), points, err != Z_OK || |output| == space)
      ensures err == Z_OK && flush == Z_FULL_FLUSH && |output| < space ==>
                points[|points| - 1] == Point(8 * |strm.delivered|, |strm.offered|, |blocks|)
      ensures err == Z_OK && flush != Z_NO_FLUSH && flush != Z_PARTIAL_FLUSH && |output| < space ==>
                Produced(BytesToBits(strm.delivered), 0, blocks, strm.offered) && Lawful(Settings(), blocks, tallies)
      ensures Spared(flush, old(extra), extra, 3)
      ensures err == Z_STREAM_ERROR <==> flush > Z_FINISH || flush < 0 || (old(status.Finish?) && flush != Z_FINISH)
      ensures err == Z_BUF_ERROR <==>
                && err != Z_STREAM_ERROR
                && (|| space == 0
                    || (old(coder.out.pending) == 0 && old(strm.avail_in) + |data| == 0 && flush <= old(last_flush)
                          && flush != Z_FINISH)
                    || (old(status.Finish?) && old(strm.avail_in) + |data| != 0 && old(coder.out.pending) < space))
      ensures err == Z_OK && |output| < space ==> strm.avail_in == 0 && flush != Z_FINISH
      ensures flush == Z_FINISH && |output| < space ==>
                err == Z_STREAM_END || (old(status.Finish?) && old(strm.avail_in) + |data| != 0)
      ensures status.Finish? ==> old(status.Finish?) || flush == Z_FINISH
      ensures status.Finish? && (!old(status.Finish?) || old(strm.avail_in) + |data| == 0) ==> strm.avail_in == 0
      ensures err != Z_STREAM_ERROR && space > 0 ==>
                last_flush == if err == Z_OK && |output| == space then -1 else flush
      ensures Start() >= old(Start()) && (old(status.Finish?) ==> status.Finish?)
      ensures err == Z_OK && |output| == space && (flush == Z_NO_FLUSH || flush == Z_FINISH) ==>
                (old(status.Busy?) && status.Finish?) || Start() > old(Start())
                || (Start() == old(Start()) && status == old(status) && coder.out.pending < old(coder.out.pending))
      ensures Start() <= |strm.offered|
    {
      hide Valid, BytesToBits, Produced, Encodes;
      Feed(data, space);
      err := Run(flush);
      StreamValid();
      StartBound();
      output := strm.next_out[..strm.next_out_index];
    }

    // deflateInit: a memory level of 0 stands for the default.
    static method DeflateInit(strm: ZStream, level: int, bits: int, memLevel: int, strategy: int)
      returns (err: int, d: Deflate?)
      requires strm.Valid() && strm.accepted == strm.delivered == []
      ensures err == Z_STREAM_ERROR <==>
                !(-1 <= level <= 9 && 9 <= bits <= 15 && 0 <= memLevel <= MAX_MEM_LEVEL
                  && 0 <= strategy <= Z_HUFFMAN_ONLY)
      ensures err == Z_OK <==> d != null
      ensures err == Z_OK || err == Z_STREAM_ERROR
      ensures d != null ==> fresh(d) && d.strm == strm && d.Valid() && d.status.Busy? && fresh(d.Memory())
      ensures d != null ==> d.extra == 0
      ensures d != null ==>
                && d.level == (if level == Z_DEFAULT_COMPRESSION then 6 else level) && d.strategy == strategy
                && d.win.z.w == Pow2(bits)
                && d.coder.lit_bufsize == Pow2((if memLevel == 0 then DEF_MEM_LEVEL else memLevel) + 6)
      ensures d != null ==> d.Settings() == SettingOf(level, bits, memLevel, strategy)
    {
      hide Deflate.Valid, Pow2;
      var mem := if memLevel == 0 then DEF_MEM_LEVEL else memLevel;
      var lev := if level == Z_DEFAULT_COMPRESSION then 6 else level;
      if mem < 1 || mem > MAX_MEM_LEVEL || bits < 9 || bits > 15 || lev < 0 || lev > 9 || strategy < 0
        || strategy > Z_HUFFMAN_ONLY {
        return Z_STREAM_ERROR, null;
      }
      d := new Deflate(strm, lev, bits, mem, strategy);
      err := Z_OK;
    }

    // ZStream.deflateInit: 0 bits stand for the largest window; memory level and strategy are the defaults.
    static method StreamInit(strm: ZStream, level: int, bits: int) returns (err: int, d: Deflate?)
      requires strm.Valid() && strm.accepted == strm.delivered == []
      ensures err == Z_STREAM_ERROR <==> !(-1 <= level <= 9 && (bits == 0 || 9 <= bits <= 15))
      ensures err == Z_OK <==> d != null
      ensures err == Z_OK || err == Z_STREAM_ERROR
      ensures d != null ==> fresh(d) && d.strm == strm && d.Valid() && d.status.Busy? && fresh(d.Memory())
      ensures d != null ==> d.extra == 0
      ensures d != null ==>
                && d.level == (if level == Z_DEFAULT_COMPRESSION then 6 else level) && d.strategy == 0
                && d.win.z.w == (if bits == 0 then 32768 else Pow2(bits)) && d.coder.lit_bufsize == 16384
    {
      hide Deflate.Valid, Pow2;
      Pow2Values();
      Pow2Add(7, 7);
      err, d := DeflateInit(strm, level, if bits == 0 then MAX_BITS else bits, 0, 0);
    }
  }

  // What the arguments of deflateInit mean for the blocks.
  function SettingOf(level: int, bits: int, memLevel: int, strategy: int): Setting
    requires -1 <= level <= 9 && 9 <= bits <= 15 && 0 <= memLevel <= MAX_MEM_LEVEL && 0 <= strategy <= Z_HUFFMAN_ONLY
  {
    Setting(if level == Z_DEFAULT_COMPRESSION then 6 else level, strategy,
            Pow2((if memLevel == 0 then DEF_MEM_LEVEL else memLevel) + 6), Pow2(bits) - MIN_LOOKAHEAD)
  }

  lemma SettingRoom(level: int, bits: int, memLevel: int, strategy: int)
    requires -1 <= level <= 9 && 9 <= bits <= 15 && 0 <= memLevel <= MAX_MEM_LEVEL && 0 <= strategy <= Z_HUFFMAN_ONLY
    ensures var s := SettingOf(level, bits, memLevel, strategy); Quota(s) > 0 && s.far >= 0
  {
    Pow2Values();
    assert Pow2(9) == 512;
    Pow2Mono(9, bits);
    Pow2Mono(7, (if memLevel == 0 then DEF_MEM_LEVEL else memLevel) + 6);
  }

  // A stream that has at most extra short blocks before its last one: few blocks, and hardly more bytes than the input.
  ghost predicate Compact(s: Setting, output: seq<byte>, input: seq<byte>, extra: nat)
    requires Quota(s) > 0 && s.far >= 0
  {
    var n := |BlocksOf(BytesToBits(output), 0, [])|;
    && n <= 1 + extra + |input| / Quota(s)
    && 8 * |output| <= 8 * |input| + 42 * n + (if s.level == 0 then 0 else s.lit_bufsize * (|input| / (s.far + 1))) + 7
  }

  lemma RunCompact(s: Setting, output: seq<byte>, input: seq<byte>, end: nat, extra: nat, more: nat)
    requires Encodes(output, input, end) && Obeys(s, BytesToBits(output), extra) && extra <= more
    requires Quota(s) > 0 && s.far >= 0
    ensures Compact(s, output, input, more)
  {
    hide Obeys, BytesToBits, BlocksOf, Quota, Inflate.Inflate;
    ObeysMore(s, BytesToBits(output), extra, more);
    StreamBlocks(s, BytesToBits(output), input, end, more);
    StreamSize(s, BytesToBits(output), input, end, more);
  }

  // ---- whole runs ----

  // What a caller does with one call: offers more input, makes room for output, asks for a kind of flush.
  datatype Call = Call(data: seq<byte>, space: nat, flush: int)

  // What the caller gets from it.
  datatype Reply = Reply(err: int, output: seq<byte>)

  function Data(calls: seq<Call>): seq<byte> {
    if calls == [] then [] else Data(calls[..|calls| - 1]) + calls[|calls| - 1].data
  }

  function Output(replies: seq<Reply>): seq<byte> {
    if replies == [] then [] else Output(replies[..|replies| - 1]) + replies[|replies| - 1].output
  }

  // How many blocks the flushes of the calls may cut short or add.
  function Cuts(calls: seq<Call>): nat {
    if calls == [] then 0 else
      Cuts(calls[..|calls| - 1])
      + (if calls[|calls| - 1].flush == Z_NO_FLUSH || calls[|calls| - 1].flush == Z_FINISH then 0 else 3)
  }

  ghost predicate FinishAsked(calls: seq<Call>) {
    exists i :: 0 <= i < |calls| && calls[i].flush == Z_FINISH
  }

  // No input is offered any more once a call has asked for the end.
  ghost predicate Quiet(calls: seq<Call>) {
    forall i, j :: 0 <= i < j < |calls| && calls[i].flush == Z_FINISH ==> calls[j].data == []
  }

  // What a reply means, given the calls and replies up to and including it: after the end of the stream the output
  // inflates to the input; after a full or sync flush with room left it decodes to the input; with room left, a
  // call that asks for the end gets it, unless input was offered after an earlier one. The blocks keep to the law.
  ghost predicate Means(s: Setting, calls: seq<Call>, replies: seq<Reply>)
    requires 0 < |replies| == |calls|
  {
    var n := |calls| - 1;
    var c, r, output, input := calls[n], replies[n], Output(replies), Data(calls);
    && |r.output| <= c.space && r.err in {Z_STREAM_END, Z_OK, Z_BUF_ERROR, Z_STREAM_ERROR}
    && (r.err == Z_STREAM_END ==> Obeys(s, BytesToBits(output), Cuts(calls)))
    && (r.err == Z_STREAM_END ==> exists end: nat :: Encodes(output, input, end))
    && (r.err == Z_OK && c.flush != Z_NO_FLUSH && c.flush != Z_PARTIAL_FLUSH && |r.output| < c.space ==>
          exists blocks, told :: Produced(BytesToBits(output), 0, blocks, input) && Lawful(s, blocks, told))
    && (r.err == Z_STREAM_ERROR ==> c.flush > Z_FINISH || c.flush < 0 || FinishAsked(calls[..n]))
    && (c.flush == Z_FINISH && |r.output| < c.space && Quiet(calls) ==> r.err == Z_STREAM_END)
    && (r.err == Z_BUF_ERROR && c.space > 0 ==> (c.data == [] && c.flush != Z_FINISH) || !Quiet(calls))
  }

  // A whole session: whatever the caller offers, in whatever pieces and with whatever room and flushes in between,
  // every reply means what it should; the session goes on until the stream has ended or the calls are over.
  method Session(level: int, bits: int, memLevel: int, strategy: int, calls: seq<Call>)
      returns (err: int, replies: seq<Reply>)
    ensures |replies| <= |calls| && err in {Z_OK, Z_STREAM_END, Z_STREAM_ERROR}
    ensures err == Z_STREAM_ERROR <==>
              !(-1 <= level <= 9 && 9 <= bits <= 15 && 0 <= memLevel <= MAX_MEM_LEVEL
                && 0 <= strategy <= Z_HUFFMAN_ONLY)
    ensures err == Z_OK ==> |replies| == |calls|
    ensures err == Z_STREAM_END ==>
              exists end: nat :: Encodes(Output(replies), Data(calls[..|replies|]), end)
    ensures err != Z_STREAM_ERROR ==>
              forall n :: 0 < n <= |replies| ==>
                Means(SettingOf(level, bits, memLevel, strategy), calls[..n], replies[..n])
    ensures err == Z_STREAM_END ==>
              var s := SettingOf(level, bits, memLevel, strategy);
              && Quota(s) > 0 && s.far >= 0
              && Compact(s, Output(replies), Data(calls[..|replies|]), Cuts(calls[..|replies|]))
    ensures err == Z_STREAM_ERROR ==> replies == []
    ensures err == Z_STREAM_END <==> replies != [] && replies[|replies| - 1].err == Z_STREAM_END
    ensures forall i :: 0 <= i < |replies| - 1 ==> replies[i].err != Z_STREAM_END
    ensures err == Z_STREAM_END ==>
              forall i :: 0 <= i < |replies| && FullyFlushed(calls[i], replies[i]) ==>
                Restarts(calls[..|replies|], replies, i)
  {
    hide Deflate.Valid, Encodes, Produced, BytesToBits, Means, FinishAsked, Quiet, Obeys, Lawful, Cuts, Output, Data,
      AllInflate, Pointed, Restarts, Deflate.Settings, Compact, Quota;
    Nothing();
    replies := [];
    var strm := new ZStream();
    var d;
    err, d := Deflate.DeflateInit(strm, level, bits, memLevel, strategy);
    if d == null {
      return;
    }
    var n := 0;
    ghost var s := d.Settings();
    assert Data(calls[..0]) == [];
    while n < |calls|
      invariant n == |replies| <= |calls| && fresh(d) && fresh(strm) && fresh(d.Memory())
      invariant d.Valid() && d.strm == strm && (d.status.Finish? ==> FinishAsked(calls[..n]))
      invariant d.status.Finish? && Quiet(calls[..n]) ==> strm.avail_in == 0
      invariant Output(replies) == strm.delivered && strm.offered == Data(calls[..n])
      invariant forall k :: 0 < k <= n ==> Means(s, calls[..k], replies[..k])
      invariant d.Settings() == s && d.extra <= Cuts(calls[..n])
      invariant forall i :: 0 <= i < n && FullyFlushed(calls[i], replies[i]) ==> Pointed(calls, replies, i, d.points)
      invariant forall i :: 0 <= i < n ==> replies[i].err != Z_STREAM_END
    {
      ghost var points := d.points;
      ghost var finished, left, was := d.status.Finish?, strm.avail_in + |calls[n].data|, replies;
      var e, output := d.Exchange(calls[n].data, calls[n].space, calls[n].flush);
      replies := replies + [Reply(e, output)];
      n := n + 1;
      MoreCuts(calls, n - 1);
      OneMore(s, calls, was, Reply(e, output), d.end, d.blocks, d.tallies, d.extra, finished, left);
      MorePoints(calls, was, Reply(e, output), points, d.points);
      if e == Z_STREAM_END {
        RestartAll(calls, replies, d.points, d.end);
        SettingRoom(level, bits, memLevel, strategy);
        RunCompact(s, Output(replies), Data(calls[..n]), d.end, d.extra, Cuts(calls[..n]));
        assert Encodes(Output(replies), Data(calls[..n]), d.end);
        err := e;
        return;
      }
    }
    assert calls[..n] == calls;
    err := Z_OK;
  }

  // A full flush that was carried out in one call.
  predicate FullyFlushed(c: Call, r: Reply) {
    c.flush == Z_FULL_FLUSH && r.err == Z_OK && |r.output| < c.space
  }

  // A decoder that is given only what came out after reply i gets what was offered after call i.
  ghost predicate Restarts(calls: seq<Call>, replies: seq<Reply>, i: nat)
    requires i < |replies| <= |calls|
  {
    var before, input := |Data(calls[..i + 1])|, Data(calls);
    before <= |input| && exists end: nat ::
      Inflate.Inflate(BytesToBits(Output(replies)), 8 * |Output(replies[..i + 1])|, []) == Some((input[before..], end))
  }

  ghost predicate Pointed(calls: seq<Call>, replies: seq<Reply>, i: nat, points: seq<Point>)
    requires i < |replies| <= |calls|
  {
    exists j :: 0 <= j < |points| && points[j].bit == 8 * |Output(replies[..i + 1])|
                && points[j].pos == |Data(calls[..i + 1])|
  }

  lemma Nothing()
    ensures Data([]) == [] && Output([]) == []
  {
  }

  lemma MorePoints(calls: seq<Call>, was: seq<Reply>, r: Reply, points: seq<Point>, points': seq<Point>)
    requires |was| < |calls| && points <= points'
    requires forall i :: 0 <= i < |was| && FullyFlushed(calls[i], was[i]) ==> Pointed(calls, was, i, points)
    requires FullyFlushed(calls[|was|], r) ==>
               points' != [] && points'[|points'| - 1].bit == 8 * |Output(was + [r])|
               && points'[|points'| - 1].pos == |Data(calls[..|was| + 1])|
    ensures var now := was + [r];
            forall i :: 0 <= i < |now| && FullyFlushed(calls[i], now[i]) ==> Pointed(calls, now, i, points')
  {
    hide FullyFlushed, Output, Data;
    var now := was + [r];
    forall i | 0 <= i < |now| && FullyFlushed(calls[i], now[i])
      ensures Pointed(calls, now, i, points')
    {
      if i < |was| {
        var j :| 0 <= j < |points| && points[j].bit == 8 * |Output(was[..i + 1])|
                 && points[j].pos == |Data(calls[..i + 1])|;
        assert now[..i + 1] == was[..i + 1] && points'[j] == points[j];
      } else {
        assert now[..i + 1] == now;
        assert points'[|points'| - 1] == points'[|points'| - 1];
      }
    }
  }

  lemma RestartAll(calls: seq<Call>, replies: seq<Reply>, points: seq<Point>, end: nat)
    requires |replies| <= |calls|
    requires forall i :: 0 <= i < |replies| && FullyFlushed(calls[i], replies[i]) ==> Pointed(calls, replies, i, points)
    requires AllInflate(points, BytesToBits(Output(replies)), Data(calls[..|replies|]), end)
    ensures forall i :: 0 <= i < |replies| && FullyFlushed(calls[i], replies[i]) ==>
              Restarts(calls[..|replies|], replies, i)
  {
    hide FullyFlushed, Output, Data, BytesToBits, Inflate.Inflate;
    forall i | 0 <= i < |replies| && FullyFlushed(calls[i], replies[i])
      ensures Restarts(calls[..|replies|], replies, i)
    {
      var j :| 0 <= j < |points| && points[j].bit == 8 * |Output(replies[..i + 1])|
               && points[j].pos == |Data(calls[..i + 1])|;
      assert calls[..|replies|][..i + 1] == calls[..i + 1];
    }
  }

  // One more exchange of a session.
  lemma {:induction false} OneMore(s: Setting, calls: seq<Call>, was: seq<Reply>, r: Reply, end: nat,
                                   blocks: seq<Block>, told: seq<seq<Symbol>>, extra: nat, finished: bool, left: nat)
    requires |was| < |calls| && forall k :: 0 < k <= |was| ==> Means(s, calls[..k], was[..k])
    requires extra <= Cuts(calls[..|was| + 1])
    requires var n, c := |was|, calls[|was|];
             && (finished ==> FinishAsked(calls[..n]))
             && (finished && Quiet(calls[..n]) ==> left == |c.data|)
             && Result(s, c, r, Output(was) + r.output, Data(calls[..n]) + c.data, end, blocks, told, extra, finished,
                       left)
    ensures var n, c, replies := |was|, calls[|was|], was + [r];
            && Output(replies) == Output(was) + r.output && Data(calls[..n + 1]) == Data(calls[..n]) + c.data
            && (FinishAsked(calls[..n + 1]) <==> FinishAsked(calls[..n]) || c.flush == Z_FINISH)
            && (Quiet(calls[..n + 1]) ==> Quiet(calls[..n]) && (finished ==> c.data == []))
            && (forall k :: 0 < k <= n + 1 ==> Means(s, calls[..k], replies[..k]))
  {
    hide Means, FinishAsked, Quiet, Result, Output, Data, Cuts;
    var n, c, replies := |was|, calls[|was|], was + [r];
    Longer(calls, was, r);
    assert calls[..n + 1] == calls[..n] + [c];
    Asked(calls[..n], c);
    if Quiet(calls[..n + 1]) {
      QuietBefore(calls[..n], c);
    }
    MeansNow(s, calls[..n + 1], replies, end, blocks, told, extra, finished, left);
    assert forall k :: 0 < k <= n ==> replies[..k] == was[..k];
    assert replies[..n + 1] == replies;
  }

  lemma {:induction false} Longer(calls: seq<Call>, replies: seq<Reply>, r: Reply)
    requires |replies| < |calls|
    ensures var n := |replies|;
            && Data(calls[..n + 1]) == Data(calls[..n]) + calls[n].data && calls[..n + 1][..n] == calls[..n]
            && Output(replies + [r]) == Output(replies) + r.output
  {
    assert calls[..|replies| + 1][..|replies|] == calls[..|replies|];
    assert (replies + [r])[..|replies|] == replies;
  }

  lemma {:induction false} Asked(calls: seq<Call>, c: Call)
    ensures FinishAsked(calls + [c]) <==> FinishAsked(calls) || c.flush == Z_FINISH
  {
    if FinishAsked(calls) {
      var i :| 0 <= i < |calls| && calls[i].flush == Z_FINISH;
      assert (calls + [c])[i].flush == Z_FINISH;
    }
    if c.flush == Z_FINISH {
      assert (calls + [c])[|calls|].flush == Z_FINISH;
    }
  }

  lemma {:induction false} QuietBefore(calls: seq<Call>, c: Call)
    requires Quiet(calls + [c])
    ensures Quiet(calls) && (FinishAsked(calls) ==> c.data == [])
  {
    var all := calls + [c];
    assert all[|calls|] == c && forall i :: 0 <= i < |calls| ==> all[i] == calls[i];
    if FinishAsked(calls) {
      var i :| 0 <= i < |calls| && calls[i].flush == Z_FINISH;
      assert all[i] == calls[i];
    }
  }

  // What one exchange promises: output and input are all there is so far, finished says whether the last block had
  // been sent before it, left is the input there was to read.
  ghost predicate Result(s: Setting, c: Call, r: Reply, output: seq<byte>, input: seq<byte>, end: nat,
                         blocks: seq<Block>, told: seq<seq<Symbol>>, extra: nat, finished: bool, left: nat) {
    && |r.output| <= c.space && r.err in {Z_STREAM_END, Z_OK, Z_BUF_ERROR, Z_STREAM_ERROR}
    && (r.err == Z_STREAM_END ==> Encodes(output, input, end) && Obeys(s, BytesToBits(output), extra))
    && (r.err == Z_OK && c.flush != Z_NO_FLUSH && c.flush != Z_PARTIAL_FLUSH && |r.output| < c.space ==>
          Produced(BytesToBits(output), 0, blocks, input) && Lawful(s, blocks, told))
    && (r.err == Z_STREAM_ERROR ==> c.flush > Z_FINISH || c.flush < 0 || finished)
    && (c.flush == Z_FINISH && |r.output| < c.space ==> r.err == Z_STREAM_END || (finished && left > 0))
    && (r.err == Z_BUF_ERROR && c.space > 0 ==> (c.data == [] && c.flush != Z_FINISH) || (finished && left > 0))
  }

  // What it says about a session.
  lemma {:induction false} MeansNow(s: Setting, calls: seq<Call>, replies: seq<Reply>, end: nat, blocks: seq<Block>,
                                    told: seq<seq<Symbol>>, extra: nat, finished: bool, left: nat)
    requires 0 < |replies| == |calls| && (finished ==> FinishAsked(calls[..|calls| - 1]))
    requires finished && Quiet(calls) ==> left == 0
    requires extra <= Cuts(calls)
    requires Result(s, calls[|calls| - 1], replies[|calls| - 1], Output(replies), Data(calls), end, blocks, told, extra,
                    finished, left)
    ensures Means(s, calls, replies)
  {
    hide Encodes, Produced, BytesToBits, Output, Data, FinishAsked, Quiet, Cuts, Obeys, Lawful;
    if Obeys(s, BytesToBits(Output(replies)), extra) {
      ObeysMore(s, BytesToBits(Output(replies)), extra, Cuts(calls));
    }
  }

  lemma {:induction false} MoreCuts(calls: seq<Call>, n: nat)
    requires n < |calls|
    ensures Cuts(calls[..n + 1]) == Cuts(calls[..n])
            + (if calls[n].flush == Z_NO_FLUSH || calls[n].flush == Z_FINISH then 0 else 3)
  {
    assert calls[..n + 1][..n] == calls[..n];
  }
}
