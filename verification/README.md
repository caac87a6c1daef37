# SecSTAR and self-propelled agent: verified models

This project models five parts of the repository and proves what they promise, for all inputs and all runs.

1. **The DEFLATE compressor** (`deflate.js`): Huffman construction over a heap, length limiting and canonical codes;
   run-length coding of code lengths; the bit buffer and the three block types; LZ77 with hash chains over a sliding
   window in its lazy, greedy and stored forms; and the calls of `deflate` with any input pieces, output room and
   flushes. The decoder in `Inflate.dfy` is written from RFC 1951 and shares no code with the compressor. The main
   results are `Deflate.Session` (when a caller is told that the stream has ended, the output it collected inflates to
   what it offered, in blocks that are few and the best of their kind) and `Deflaters.Compress` (used as the zip
   modules use it, the compressor always gets there). What the level and the other arguments mean can be read off the
   stream: `BlockLaws.dfy` states it.
2. **Patch areas** (`snippet.cc`, `snippet-x86_64.cc`): the emitters write bytes, `Machine.dfy` decodes and runs
   them, `Trampoline.dfy` proves that a patch area is transparent to the call it wraps, and `Arguments.dfy` says which
   arguments of that call a payload can pop.
3. **The near-memory allocator** (`addr_space-x86_64.cc`, `object-x86_64.cc`): gaps, chunks, claims and buffers.
4. **The zip file-system tree** (`zip-fs.js`): linked entries, paths, moves, export and import.
5. **The shadow call stack** (`payload.cc`, `context.cc`): entry and exit wrappers over whole runs.

What the source updates in place is a class or an array whose methods are proved against specification functions;
the lemmas beside them say what those functions mean. `dafny verify dfyconfig.toml` checks everything.

Reading order: `Prelude`, `Bits`, `BitWriter`, `Inflate`, `Canonical`; then `Heap`, `Huffman`, `TreeShape`,
`LengthCounts`, `TreeCosts`, `NodeList`, `LeafHeap`, `MergeLoop`, `TreeOrder`, `CodeGen`, `TreeLimits`, `Trees`; then
`RunLength`, `Codes`, `BlockCoding`, `BlockFormat`, `Frequencies`, `TableFacts`, `DynamicBound`, `BlockSizes`,
`BlockChoice`, `BestTrees`, `BlockLaws`, `Blocks`; then `Hashing`, `Lz77`, `Dictionary`, `Streams`, `SlidingWindow`,
`Production`, `Deflate`, `Deflater`. The other parts are `Machine`, `SavedContext`, `Trampoline`, `Arguments`,
`Snippet`; `Intervals`, `NearAlloc`; `ZipTrees`, `ZipNodes`, `ZipPaths`, `ZipSubtrees`, `ZipListings`, `ZipFs`; and
`ShadowStack`.

## Findings

| where | what | exact condition |
|---|---|---|
| `src/agent/patchapi/object-x86_64.cc:98-99` | AllocateBuffer takes size + 1 bytes out of the pool, so a request for exactly the pool's size wraps buf_size around to 2^64 - 1; from then on every request is answered from beyond the chunk (`SpAddrSpace.Overrun`, `EmptyPool`) | The pool breaks if and only if the request equals it (`AllocateBuffer`). Without a refill that is the pool's size before the call; after one it is a whole number of pages. Over a run, `Serve` can only stop at a request that `Risky` names from the sizes asked for before it; odd sizes never are (`OddNotRisky`) |
| `user_agent/fpva/SecSTAR/html/lib/deflate.js:1140-1148` | The comparison that picks the stored form counts four bytes for it but not its three header bits and padding, so a longer form than necessary can be sent (`LongerForm`, `FifteenLiterals`) | When the stored form is sent, it fits into the bytes of the best compressed form if and only if stored_len + 6 <= opt_lenb, or stored_len + 5 = opt_lenb and bi_valid mod 8 is neither 6 nor 7 (`StoredNoLonger`); it never exceeds them by more than ten bits |
| `src/agent/snippet-x86_64.cc:1247-1284` | PopArgument adds the size of a stack pop to its offset without rounding, forgets that a tail call leaves a return address on the stack, and knows no xmm registers, so not all parameters can be popped (`TailSeventh`, `SecondInt`, `FloatMissed`) | Exactly the pops for which `Agrees` holds hand out their argument (`EntryArguments`): the first six if all parameters up to them are integers; after six integers a stack argument if and only if the call is no tail call and every stack pop before took a multiple of eight bytes (`StackPops`) |

## Model

| member | source | states |
|---|---|---|
| Deflaters.Compress | user_agent/fpva/SecSTAR/html/lib/deflate.js:2030-2092 | Whatever pieces the input comes in, at every level there is, nothing is thrown, every loop ends and the output inflates (RFC 1951) to the input; any other level throws. At level 0 every block is copied; otherwise each has the best of its three forms; there is at most one block for every 8192 bytes (32506 at level 0) and one more, at most 42 bits beyond the bytes for each block and 16384 for every 32507 bytes; no match reaches back further than 32506, nor from level 4 on a match of three bytes further than 4096 |
| Deflaters.Limits | user_agent/fpva/SecSTAR/html/lib/deflate.js:968-989 | What the block laws come to with the defaults of the zip modules |
| Deflaters.Deflater.Append | user_agent/fpva/SecSTAR/html/lib/deflate.js:2042-2072 | Reads all of the data, never throws while the stream is open, and gives back what came out |
| Deflaters.Deflater.Flush | user_agent/fpva/SecSTAR/html/lib/deflate.js:2073-2092 | Ends the stream: all output together inflates to all that was appended, in blocks that keep to the laws of the level; a second flush throws |
| Deflaters.Deflater.constructor | user_agent/fpva/SecSTAR/html/lib/deflate.js:2030-2040 | An empty stream exactly for levels -1 to 9, set up with that level (6 for -1), a window of 32768 bytes and 16384 symbols a block |
| Deflaters.Finish | user_agent/fpva/SecSTAR/html/lib/deflate.js:2073-2084 | Asking for the end again and again reaches it, however little room every single call makes |
| Deflaters.Absorb | user_agent/fpva/SecSTAR/html/lib/deflate.js:2046-2065 | Calls without a flush through a small buffer end, with all input read and no error |
| Deflate.Session | user_agent/fpva/SecSTAR/html/lib/deflate.js:1792-1914 | A run of calls with any input pieces, output room and flushes, for any accepted level, window, memory level and strategy: every reply means what it says. After Z_STREAM_END the collected output inflates to all input offered, its blocks keep to the laws of the arguments, they are few and the output is hardly longer than the input; after every full flush that was carried out, what follows inflates on its own to the rest of the input; after a full or sync flush with room left the output decodes to all input so far; a Z_FINISH that leaves room is answered Z_STREAM_END, repeated ones too, unless input was offered after an earlier one; errors have the stated causes only |
| Deflate.RunCompact | user_agent/fpva/SecSTAR/html/lib/deflate.js:968-1156 | How many blocks and bits a whole stream has at most: a block for every Quota bytes and one for every flush, 42 bits each, and the symbols of a block once more for every reach of a match |
| Deflate.Deflate.Run | user_agent/fpva/SecSTAR/html/lib/deflate.js:1792-1914 | One call of deflate: Z_STREAM_END only when the bytes delivered are a whole stream that inflates to the bytes offered; Z_STREAM_ERROR and Z_BUF_ERROR exactly in their cases, changing nothing where the source changes nothing; Z_OK with room left means all input was read; a call without a flush or with Z_FINISH that runs out of room has made progress, by the last block, a block of input or pending bytes |
| Deflate.Deflate.Exchange | user_agent/fpva/SecSTAR/html/lib/deflate.js:1792-1914 | One call seen by the caller: the bytes it gets back extend what was delivered, no more than its room, with the meaning of every return code |
| Deflate.Deflate.Complete | user_agent/fpva/SecSTAR/html/lib/deflate.js:1911-1914 | A finished stream with nothing pending inflates to all input read, ending in the last byte |
| Deflate.Deflate.Recoverable | user_agent/fpva/SecSTAR/html/lib/deflate.js:1889-1912 | After a flush other than a partial one the bytes delivered already decode to all input read |
| Deflate.Deflate.Compress | user_agent/fpva/SecSTAR/html/lib/deflate.js:1857-1909 | One call of the strategy and its aftermath: when the call goes on nothing is pending, all input is read and the stream is finished or flushed |
| Deflate.Deflate.Mark | user_agent/fpva/SecSTAR/html/lib/deflate.js:1889-1907 | The flush markers are open blocks that add nothing to the output: one or two fixed ones for a partial flush, one stored one otherwise, after which the stream is on a byte boundary; a full flush clears every head, so that no later match reaches back, and nothing else does |
| Deflate.Deflate.Forget | user_agent/fpva/SecSTAR/html/lib/deflate.js:1898-1902 | Clearing the heads makes this point of the stream one from which what follows can be read on its own |
| Deflate.Deflate.DeflateInit | user_agent/fpva/SecSTAR/html/lib/deflate.js:1660-1717 | Succeeds exactly for the parameters deflateInit accepts, with a compressor whose invariant holds and whose level, strategy, window and symbol buffer are those of the parameters |
| Deflate.Deflate.StreamInit | user_agent/fpva/SecSTAR/html/lib/deflate.js:1936-1942 | ZStream.deflateInit: 0 bits stand for 15, memory level and strategy are the defaults; the level is that asked for, 6 for -1 |
| Deflate.Deflate.constructor | user_agent/fpva/SecSTAR/html/lib/deflate.js:1682-1717 | A new compressor meets the invariant that every call keeps, with the level, strategy, window size and memory level given |
| Production.ProducedAll | user_agent/fpva/SecSTAR/html/lib/deflate.js:1102-1166 | A final block after open blocks makes a whole stream that inflates to everything the blocks stand for |
| Production.ProducedMore | user_agent/fpva/SecSTAR/html/lib/deflate.js:1102-1166 | An open block extends what the blocks before it decode to, whatever is sent later |
| Production.ResumeAll | user_agent/fpva/SecSTAR/html/lib/deflate.js:1898-1902 | From every point at which the history was forgotten the final stream inflates, without what came before, to the input after it |
| BlockLaws.StreamBlocks | user_agent/fpva/SecSTAR/html/lib/deflate.js:968-989 | A stream that inflates to data has at most 1 + |data| / Quota blocks and those that flushes cut short |
| BlockLaws.StreamSize | user_agent/fpva/SecSTAR/html/lib/deflate.js:1106-1156 | It takes at most 8 |data| bits, 42 for each block, and, above level 0, lit_bufsize for every reach of a match in data |
| BlockLaws.StreamContents | user_agent/fpva/SecSTAR/html/lib/deflate.js:1443-1446 | At level 0 every block is copied; elsewhere every match has a length of 3 to 258 and a distance of at most w_size - MIN_LOOKAHEAD; none with Z_HUFFMAN_ONLY, none of five bytes or less with Z_FILTERED, and no far ones of three bytes, from level 4 on |
| BlockLaws.InflateTotals | user_agent/fpva/SecSTAR/html/lib/deflate.js:1102-1166 | The blocks a decoder finds take all bits of the stream and stand for all its bytes |
| BlockLaws.BodyCost | user_agent/fpva/SecSTAR/html/lib/deflate.js:992-1036 | With the fixed codes a block takes at most one bit more for each symbol than its bytes, and seven |
| Inflate.ReadElsewhere | user_agent/fpva/SecSTAR/html/lib/deflate.js:1898-1902 | A block whose matches stay within its own bytes and those after the point reads the same after any other history |
| Deflate.Deflate.DeflateSlow | user_agent/fpva/SecSTAR/html/lib/deflate.js:1512-1641 | Lazy matching keeps that the tallied symbols decode to the input up to strstart - match_available and that the pending match repeats earlier input; where and why it stops |
| Deflate.Deflate.SlowRound | user_agent/fpva/SecSTAR/html/lib/deflate.js:1534-1625 | One round of lazy matching, exactly: the pending match is emitted if the one found at strstart is not longer, and its strings enter the dictionary; otherwise the byte before is emitted, if it waits, and the match found is pending. The loop invariant holds and strstart moves forward |
| Deflate.Deflate.LookLazily | user_agent/fpva/SecSTAR/html/lib/deflate.js:1534-1566 | The string at strstart enters the dictionary and the match found is exactly the one the search and the three filters leave |
| Deflate.Deflate.EmitMatch | user_agent/fpva/SecSTAR/html/lib/deflate.js:1570-1595 | Emitting the pending match: the symbols grow by it and say the input up to the new strstart; every string covered enters the dictionary if it can |
| Deflate.Deflate.SearchLazily | user_agent/fpva/SecSTAR/html/lib/deflate.js:1545-1566 | The pending match is kept as it was; whether a search is made, what it selects and what the filters drop; a better match at strstart repeats the input |
| Deflate.Deflate.DeflateFast | user_agent/fpva/SecSTAR/html/lib/deflate.js:1408-1507 | Greedy matching keeps that the tallied symbols decode to the input up to strstart |
| Deflate.Deflate.FastRound | user_agent/fpva/SecSTAR/html/lib/deflate.js:1427-1496 | One round of greedy matching, exactly: the match found is emitted and passed, or else the byte at strstart; the strings of a short match enter the dictionary. The loop invariant holds and strstart moves forward |
| Deflate.Deflate.LookGreedily | user_agent/fpva/SecSTAR/html/lib/deflate.js:1427-1449 | The string at strstart enters the dictionary and the match found is exactly the one the search leaves |
| Deflate.Deflate.PassMatch | user_agent/fpva/SecSTAR/html/lib/deflate.js:1459-1488 | The strings of a match enter the dictionary if it is no longer than max_lazy_match and three bytes of input are left after it, and else none of them |
| Deflate.Deflate.SearchGreedily | user_agent/fpva/SecSTAR/html/lib/deflate.js:1438-1449 | Whether a search is made and what it selects; a match that is taken repeats the input at strstart |
| Deflate.Deflate.DeflateStored | user_agent/fpva/SecSTAR/html/lib/deflate.js:1273-1325 | Level 0 keeps the block under way in the window and short enough to be stored; blocks so far decode to the input before it |
| Deflate.Deflate.StoredRound | user_agent/fpva/SecSTAR/html/lib/deflate.js:1295-1317 | A stored block goes out before the pending buffer or the window would overflow |
| Deflate.Deflate.RefillStored | user_agent/fpva/SecSTAR/html/lib/deflate.js:1287-1293 | Sliding the window at level 0 loses no byte of the block under way |
| Deflate.Deflate.FlushBlockOnly | user_agent/fpva/SecSTAR/html/lib/deflate.js:1168-1172 | The block goes out, the next one starts at strstart, and all blocks decode to the input before it |
| Deflate.Deflate.SendBlock | user_agent/fpva/SecSTAR/html/lib/deflate.js:1168-1172 | The block sent has the form of its level, its symbols are those tallied, and a short one is counted as cut by a flush |
| Deflate.Deflate.FlushLast | user_agent/fpva/SecSTAR/html/lib/deflate.js:1499-1506 | The lines every strategy ends with: with Z_FINISH the stream is complete |
| Deflate.Deflate.TallyLiteral | user_agent/fpva/SecSTAR/html/lib/deflate.js:1487-1487 | A literal extends what the tallied symbols say by one byte; last_lit stays below lit_bufsize |
| Deflate.Deflate.TallyMatch | user_agent/fpva/SecSTAR/html/lib/deflate.js:1453-1453 | A match extends what the tallied symbols say by the bytes it repeats |
| Deflate.HigherTriesMore | user_agent/fpva/SecSTAR/html/lib/deflate.js:425-427 | Within a strategy a higher level follows more links of a chain, takes longer matches to be nice and gives up later |
| Deflate.ConfigTable | user_agent/fpva/SecSTAR/html/lib/deflate.js:425-427 | Every compressing level tries at least four strings of a chain, so that a quarter of them is still one |
| SlidingWindows.SlidingWindow.LongestMatch | user_agent/fpva/SecSTAR/html/lib/deflate.js:1327-1401 | Of the strings tried, the first of the longest longer than prev_length, or the first that is nice, cut off at the lookahead; a result above prev_length of at least three bytes is a true repetition of the input, at a distance of at most w_size - MIN_LOOKAHEAD |
| SlidingWindows.SlidingWindow.FollowChain | user_agent/fpva/SecSTAR/html/lib/deflate.js:1355-1398 | The loop along the chain tries exactly the strings of the chain down to the limit, as many as it may, and stops at the first nice one |
| SlidingWindows.SlidingWindow.Attempt | user_agent/fpva/SecSTAR/html/lib/deflate.js:1361-1385 | One candidate: its whole agreement is returned exactly when that is longer than best_len, the third byte included, which is not always compared |
| SlidingWindows.SlidingWindow.Compare | user_agent/fpva/SecSTAR/html/lib/deflate.js:1374-1385 | How far two strings agree from their fourth byte on, up to 258 bytes |
| SlidingWindows.SlidingWindow.NextOnChain | user_agent/fpva/SecSTAR/html/lib/deflate.js:1396-1396 | The next string of a chain is a candidate again, also when the head was left over from a lookahead below three |
| SlidingWindows.SlidingWindow.FillWindow | user_agent/fpva/SecSTAR/html/lib/deflate.js:1182-1263 | Reads until there is enough lookahead or no input, keeps the window equal to a span of the input and leaves strstart below window_size - MIN_LOOKAHEAD; terminates |
| SlidingWindows.SlidingWindow.FillOnce | user_agent/fpva/SecSTAR/html/lib/deflate.js:1187-1262 | One round of fill_window has room for at least two bytes, so it reads something or all input is read |
| SlidingWindows.SlidingWindow.Slide | user_agent/fpva/SecSTAR/html/lib/deflate.js:1203-1234 | Moving the window down keeps what every dictionary entry names, or drops exactly those that fall out of it |
| SlidingWindows.SlidingWindow.ReadMore | user_agent/fpva/SecSTAR/html/lib/deflate.js:1250-1257 | New input joins the window; the hash is primed with the first two bytes at strstart |
| SlidingWindows.SlidingWindow.InsertString | user_agent/fpva/SecSTAR/html/lib/deflate.js:1537-1543 | The string at strstart becomes the head of its chain and links to the head before; all else stays; hash_head is an older string with the same hash that is not forgotten, or 0 |
| SlidingWindows.SlidingWindow.Forget | user_agent/fpva/SecSTAR/html/lib/deflate.js:1898-1902 | After a full flush no head names a string before strstart |
| Dictionary.ChainedInsert | user_agent/fpva/SecSTAR/html/lib/deflate.js:1429-1436 | Inserting a string keeps that every chain holds strings of one hash, each older than the one before |
| Dictionary.ChainedSlides | user_agent/fpva/SecSTAR/html/lib/deflate.js:1218-1232 | After a slide every head and link names the same string or none |
| Dictionary.ChainStep | user_agent/fpva/SecSTAR/html/lib/deflate.js:1396-1396 | Each step along a chain leads to an older string with the same hash |
| Dictionary.ChainThird | user_agent/fpva/SecSTAR/html/lib/deflate.js:1365-1373 | Two strings of one hash that agree in two bytes agree in the third |
| Dictionary.AboveStep | user_agent/fpva/SecSTAR/html/lib/deflate.js:1898-1902 | A chain that starts after a full flush never leads back across it |
| Hashing.Roll | user_agent/fpva/SecSTAR/html/lib/deflate.js:1430-1430 | Rolling the hash over a third byte gives the hash of exactly the last three bytes |
| Hashing.ThirdByte | user_agent/fpva/SecSTAR/html/lib/deflate.js:1371-1373 | Equal hashes and equal first two bytes force equal third bytes |
| Lz77.SaysMatch | user_agent/fpva/SecSTAR/html/lib/deflate.js:952-989 | Tallying a match of bytes that repeat extends what the symbols decode to by those bytes |
| Lz77.SaysLiteral | user_agent/fpva/SecSTAR/html/lib/deflate.js:952-989 | Tallying a literal extends what the symbols decode to by that byte |
| Lz77.CopyRepeats | user_agent/fpva/SecSTAR/html/lib/deflate.js:1451-1453 | Copying as section 3.2.3 of RFC 1951 says, overlap included, rebuilds bytes that repeat |
| Streams.ZStream.ReadBuf | user_agent/fpva/SecSTAR/html/lib/deflate.js:1980-1992 | Input is read in order, at most size bytes, and all four counters move together |
| Streams.ZStream.FlushPending | user_agent/fpva/SecSTAR/html/lib/deflate.js:1998-2025 | As many pending bytes as there is room for arrive, in order; nothing else is let go; the counters move together |
| Streams.ZStream.Deliver | user_agent/fpva/SecSTAR/html/lib/deflate.js:2015-2017 | The delivered bytes follow what was in the output buffer, which is kept |
| BitWriters.BitWriter.Release | user_agent/fpva/SecSTAR/html/lib/deflate.js:2018-2024 | Pending bytes that were handed over leave the buffer from the front |
| BitWriters.BitWriter.SendBits | user_agent/fpva/SecSTAR/html/lib/deflate.js:817-831 | Everything written so far is extended by exactly the length low bits of value, whatever the 16-bit buffer held before; the buffer is emptied only when it would overflow |
| BitWriters.BitWriter.BiFlush | user_agent/fpva/SecSTAR/html/lib/deflate.js:911-921 | Nothing written changes; fewer than eight bits stay in the buffer |
| BitWriters.BitWriter.BiWindup | user_agent/fpva/SecSTAR/html/lib/deflate.js:1062-1070 | What was written is padded with zero bits to the next byte |
| BitWriters.BitWriter.PutShort | user_agent/fpva/SecSTAR/html/lib/deflate.js:807-810 | Sixteen bits, low byte first |
| BitWriters.Spill | user_agent/fpva/SecSTAR/html/lib/deflate.js:819-825 | When value overflows the buffer, the full word and the bits left over are together the old bits and value |
| Blocks.BlockCoder.TrFlushBlock | user_agent/fpva/SecSTAR/html/lib/deflate.js:1102-1166 | Whatever form is chosen, the decoder reads the block as exactly the bytes it stands for, after any bits sent before and before any sent later; above level 0 form and size are the best for the tallied symbols, with the best trees for the dynamic one, and at level 0 the block is copied |
| Blocks.BlockCoder.SendMeasured | user_agent/fpva/SecSTAR/html/lib/deflate.js:1106-1156 | The size of the block as the decoder finds it, by its place in the stream |
| Blocks.BlockCoder.SendBest | user_agent/fpva/SecSTAR/html/lib/deflate.js:1106-1156 | Which form is sent, from true sizes; the bits sent are never more than the stored form takes and at most ten more than the whole bytes of the best compressed form |
| Blocks.BlockCoder.SendForm | user_agent/fpva/SecSTAR/html/lib/deflate.js:1140-1156 | The stored form exactly when its bytes and four more are no more than opt_lenb and the bytes are still there |
| Blocks.BlockCoder.Sizes | user_agent/fpva/SecSTAR/html/lib/deflate.js:1109-1138 | static_len and opt_len are the exact body sizes; opt_lenb is the smaller in bytes |
| BlockChoice.StoredNoLonger | user_agent/fpva/SecSTAR/html/lib/deflate.js:1140-1148 | A stored block fits into the bytes of the best compressed form if and only if it has two bytes to spare, or one and bi_valid mod 8 is neither 6 nor 7 |
| BlockChoice.StoredLonger | user_agent/fpva/SecSTAR/html/lib/deflate.js:1140-1148 | With no byte to spare the stored form is always longer than the compressed one, by up to ten bits more than its whole bytes |
| BlockChoice.FifteenLiterals | user_agent/fpva/SecSTAR/html/lib/deflate.js:1129-1148 | An input on which a longer form is sent: for fifteen different literals from 144 on, whatever trees are built, the comparison sends 160 bits where the static form takes 145 |
| Blocks.LongerForm | user_agent/fpva/SecSTAR/html/lib/deflate.js:1102-1156 | The compressor itself doing so: fifteen bytes tallied by a new coder of any level above 0 go out as 160 bits, with static_len + 3 = 145 |
| DynamicBound.FifteenDynamic | user_agent/fpva/SecSTAR/html/lib/deflate.js:1115-1127 | No trees describe such a block in fewer than 147 bits |
| DynamicBound.BodyBound | user_agent/fpva/SecSTAR/html/lib/deflate.js:992-1036 | Whatever complete code is used, a body with sixteen different symbols takes 64 bits |
| DynamicBound.RunsBound | user_agent/fpva/SecSTAR/html/lib/deflate.js:840-892 | A run-length symbol of k bits stands for at most 18 k code lengths |
| DynamicBound.OneBitCode | user_agent/fpva/SecSTAR/html/lib/deflate.js:791-796 | A table with a code of one bit makes the header send eighteen bit length codes |
| BlockSizes.NoDistances | user_agent/fpva/SecSTAR/html/lib/deflate.js:286-294 | Without matches the distance tree has just the two forced codes, of one bit each |
| BlockChoice.StoredChosen | user_agent/fpva/SecSTAR/html/lib/deflate.js:1140-1148 | The bounds that hold when the stored form is sent |
| BlockChoice.CodedChosen | user_agent/fpva/SecSTAR/html/lib/deflate.js:1149-1156 | The bounds that hold when a compressed form is sent: fewer bytes than stored, and the fewest of the two |
| Blocks.BlockCoder.SendDynamic | user_agent/fpva/SecSTAR/html/lib/deflate.js:1152-1155 | The dynamic branch sends exactly 3 + opt_len bits: header, tables and body |
| Blocks.BlockCoder.SendStatic | user_agent/fpva/SecSTAR/html/lib/deflate.js:1149-1151 | The static branch sends exactly 3 + static_len bits |
| Blocks.BlockCoder.BuildTrees | user_agent/fpva/SecSTAR/html/lib/deflate.js:1115-1127 | All three trees carry complete codes for the block, of least cost unless a length is limited; the header describes them up to the last code in use; opt_len and static_len are the exact sizes of its two compressed forms |
| Blocks.BlockCoder.BuildBlTree | user_agent/fpva/SecSTAR/html/lib/deflate.js:775-799 | The bit length tree comes from the run-length symbols of both tables and codes all of them; the header stops at the last length in use, and opt_len grows by exactly its bits |
| Blocks.BlockCoder.ScanTree | user_agent/fpva/SecSTAR/html/lib/deflate.js:725-771 | Adds to the frequencies exactly the symbols that send_tree will send, and sets the guard |
| Blocks.BlockCoder.SendTree | user_agent/fpva/SecSTAR/html/lib/deflate.js:840-892 | Sends exactly the codes of the run-length symbols of the table |
| Blocks.BlockCoder.LastInUse | user_agent/fpva/SecSTAR/html/lib/deflate.js:791-794 | The index returned, in transmission order, is that of the last bit length code in use, and at least that of the fourth |
| Blocks.BlockCoder.BuildFinished | user_agent/fpva/SecSTAR/html/lib/deflate.js:259-336 | The tree comes from the greedy merges over the frequencies it had, max_code is its last code in use, and the accounts grow by the exact costs |
| Blocks.BlockCoder.SendAllTrees | user_agent/fpva/SecSTAR/html/lib/deflate.js:897-908 | The header as section 3.2.7 of RFC 1951 lays it out |
| Blocks.BlockCoder.CompressBlock | user_agent/fpva/SecSTAR/html/lib/deflate.js:992-1036 | Sends exactly the codes of the tallied symbols followed by one end-of-block, whose length is remembered |
| Blocks.BlockCoder.SendLength | user_agent/fpva/SecSTAR/html/lib/deflate.js:1009-1017 | A length code and its extra bits |
| Blocks.BlockCoder.SendDistance | user_agent/fpva/SecSTAR/html/lib/deflate.js:1018-1026 | A distance code and its extra bits |
| Blocks.BlockCoder.TrTally | user_agent/fpva/SecSTAR/html/lib/deflate.js:952-989 | The symbol joins the buffer and the frequencies; a flush is asked for exactly when the buffer is full but for one or, above level 2, when the block is worth flushing early |
| Blocks.BlockCoder.EarlyFlush | user_agent/fpva/SecSTAR/html/lib/deflate.js:973-983 | A block is flushed early exactly when a multiple of 8192 symbols is tallied, less than half of them matches, and the estimate is under half of the input |
| Blocks.EstimateIs | user_agent/fpva/SecSTAR/html/lib/deflate.js:974-979 | Adding up the distance frequencies gives eight bits for every symbol and five and the extra bits for every match |
| Blocks.BlockCoder.TrStoredBlock | user_agent/fpva/SecSTAR/html/lib/deflate.js:1092-1098 | Section 3.2.4 of RFC 1951: header, padding, both lengths and the bytes, from any bit position |
| Blocks.BlockCoder.CopyBlock | user_agent/fpva/SecSTAR/html/lib/deflate.js:1074-1089 | Padding to a byte, the length and its complement, the bytes |
| Blocks.BlockCoder.TrAlign | user_agent/fpva/SecSTAR/html/lib/deflate.js:932-948 | One or two empty static blocks, which decode to nothing; a second one exactly when the first and the last end-of-block leave the decoder fewer than nine bits |
| Blocks.BlockCoder.StoredMarker | user_agent/fpva/SecSTAR/html/lib/deflate.js:1892-1903 | The marker of a flush is an empty block that ends on a byte boundary |
| Blocks.BlockCoder.InitBlock | user_agent/fpva/SecSTAR/html/lib/deflate.js:659-672 | The tally is empty again but for one end-of-block |
| BlockFormat.DynamicRead | user_agent/fpva/SecSTAR/html/lib/deflate.js:1152-1155 | A decoder following section 3.2.7 of RFC 1951 reads a dynamic block back as the bytes its symbols stand for |
| BlockFormat.StaticRead | user_agent/fpva/SecSTAR/html/lib/deflate.js:1149-1151 | The same for a block with the fixed codes of section 3.2.6 |
| BlockFormat.StoredRead | user_agent/fpva/SecSTAR/html/lib/deflate.js:1092-1098 | The same for a stored block of at most 65535 bytes |
| BlockFormat.FixedComplete | user_agent/fpva/SecSTAR/html/lib/deflate.js:382-400 | The fixed codes are complete codes |
| BlockCoding.BodyRead | user_agent/fpva/SecSTAR/html/lib/deflate.js:992-1036 | Decoding the body of a block gives exactly its symbols and stops after its end-of-block |
| BlockCoding.MatchRead | user_agent/fpva/SecSTAR/html/lib/deflate.js:1007-1027 | A match reads back with its length and distance |
| BlockCoding.TablesRead | user_agent/fpva/SecSTAR/html/lib/deflate.js:897-908 | The header reads back as the tables it was written for |
| BlockCoding.RunsRead | user_agent/fpva/SecSTAR/html/lib/deflate.js:840-892 | Run-length symbols read back as the lengths they expand to |
| RunLength.TableExpands | user_agent/fpva/SecSTAR/html/lib/deflate.js:840-892 | Expanding the symbols of a table by section 3.2.7 of RFC 1951 gives back its lengths, whatever table came before; every repeat count fits its extra bits |
| RunLength.SymbolsExpand | user_agent/fpva/SecSTAR/html/lib/deflate.js:840-892 | The same from any point of the scan, with a run under way |
| Codes.LengthParts | user_agent/fpva/SecSTAR/html/lib/deflate.js:1009-1017 | A match length is its code base plus a number that fits the extra bits of the code |
| Codes.DistParts | user_agent/fpva/SecSTAR/html/lib/deflate.js:1018-1026 | The same for distances |
| BlockSizes.BodySize | user_agent/fpva/SecSTAR/html/lib/deflate.js:158-165 | The costs of the literal and distance trees are exactly the bits of the body |
| BlockSizes.StaticSize | user_agent/fpva/SecSTAR/html/lib/deflate.js:160-165 | static_len is exactly the bits of the body with the fixed codes |
| BlockSizes.HeaderSize | user_agent/fpva/SecSTAR/html/lib/deflate.js:795-796 | The header takes 14 bits, three per bit length code, and the cost of the run-length symbols |
| Trees.Tree.BuildTree | user_agent/fpva/SecSTAR/html/lib/deflate.js:259-336 | Complete canonical codes within max_length for every frequency table; lengths of least total cost over all prefix codes when none was clamped, and clamped or not no code longer than that of a rarer one; opt_len and static_len grow by the exact cost, forced codes included |
| Trees.Tree.Construct | user_agent/fpva/SecSTAR/html/lib/deflate.js:264-328 | The tree of the used codes by repeatedly joining the two lightest, listed with fathers before sons |
| Trees.Tree.ForceTwo | user_agent/fpva/SecSTAR/html/lib/deflate.js:286-294 | At least two codes are used, and the accounts take the forced ones back |
| Trees.Tree.CombineLeast | user_agent/fpva/SecSTAR/html/lib/deflate.js:305-325 | One round joins two nodes of least weight |
| Trees.Tree.AssignLengths | user_agent/fpva/SecSTAR/html/lib/deflate.js:134-166 | Lengths from the root down, clamped; overflow counts the clamped nodes; the costs are added exactly |
| Trees.Tree.LimitLengths | user_agent/fpva/SecSTAR/html/lib/deflate.js:167-182 | The overflow loop ends with counts of a complete code for as many leaves |
| Trees.Tree.Redistribute | user_agent/fpva/SecSTAR/html/lib/deflate.js:184-196 | The counts are handed out to the leaves, the longest lengths to the rarest ones, and opt_len follows the change exactly |
| Trees.Tree.GenBitlen | user_agent/fpva/SecSTAR/html/lib/deflate.js:125-197 | Every leaf has a length of 1 to max_length, bl_count counts them, and they fill the code space |
| Trees.Tree.GenCodes | user_agent/fpva/SecSTAR/html/lib/deflate.js:221-251 | Every code is the bit reversal of the canonical code of its length table |
| CodeGen.BiReverse | user_agent/fpva/SecSTAR/html/lib/deflate.js:203-213 | The first len bits the other way round |
| CodeGen.NoExcessComplete | user_agent/fpva/SecSTAR/html/lib/deflate.js:171-197 | Lengths without excess describe a complete code |
| LengthCounts.MoveDown | user_agent/fpva/SecSTAR/html/lib/deflate.js:172-182 | One step of the overflow loop removes exactly two halves of a unit of excess |
| Heaps.Work.PqDownHeap | user_agent/fpva/SecSTAR/html/lib/deflate.js:699-721 | The heap order holds from k on and the contents stay the same |
| Heaps.RootIsLeast | user_agent/fpva/SecSTAR/html/lib/deflate.js:699-721 | In a heap the root is least |
| Huffman.HuffmanBound | user_agent/fpva/SecSTAR/html/lib/deflate.js:259-336 | Huffman's theorem: no lengths that fit the code space cost less than the weights of the fathers |
| Huffman.TreeCost | user_agent/fpva/SecSTAR/html/lib/deflate.js:143-168 | Without clamping the leaves cost exactly the weights of the fathers |
| Huffman.TreeShare | user_agent/fpva/SecSTAR/html/lib/deflate.js:143-168 | The code space the leaves take exceeds one by one unit per clamped father |
| Huffman.KraftInequality | user_agent/fpva/SecSTAR/html/lib/deflate.js:253-258 | Every prefix code fits the code space, so optimality ranges over all of them |
| TreeLimits.UnclampedOptimal | user_agent/fpva/SecSTAR/html/lib/deflate.js:259-336 | With no length clamped the lengths are optimal |
| TreeOrder.UnclampedOrdered | user_agent/fpva/SecSTAR/html/lib/deflate.js:259-336 | With no length clamped a more frequent code is never longer, or exchanging the two would cost less than is possible |
| TreeOrder.ListOrder | user_agent/fpva/SecSTAR/html/lib/deflate.js:305-328 | The heap lists the nodes by weight, the heaviest first, which is the order the counts are handed out in |
| Canonical.PrefixFree | user_agent/fpva/SecSTAR/html/lib/deflate.js:221-251 | The canonical codes of a complete table are prefix-free |
| Canonical.CodeFits | user_agent/fpva/SecSTAR/html/lib/deflate.js:234-251 | Every canonical code is below 2^len |
| Canonical.ReadSent | user_agent/fpva/SecSTAR/html/lib/deflate.js:833-837 | A decoder by section 3.2.2 of RFC 1951 reads each code back as its symbol |
| Trampoline.DirectCall | src/agent/snippet.cc:133-211 | A patch area around a direct call enters the entry wrapper with point and payload on an aligned stack, the callee with the context of the call site, the exit wrapper with the context of the callee's return, and arrives at ret_addr with that context |
| Trampoline.TailCall | src/agent/snippet.cc:133-162 | The same for a tail call, which enters the callee with the call site's %rsp |
| Trampoline.VisitIn | src/agent/snippet-x86_64.cc:64-126 | From the start of the saving code to the wrapper: only the stack below %rsp and the recorded pointer are written; every xmm store is aligned |
| Trampoline.VisitOut | src/agent/snippet-x86_64.cc:203-254 | After a wrapper that respects the ABI the context is back: argument registers, %rax, xmm0-7, flags, %rsp |
| Trampoline.SavedRegs | src/agent/snippet-x86_64.cc:577-622 | GetSavedReg gives a payload the registers of the call site or of the callee's return |
| Trampoline.EnterCallee | src/agent/snippet.cc:133-170 | The first half of a direct call: the callee is entered with the context of the call site and returns to the patch area |
| Arguments.EntryArguments | src/agent/snippet-x86_64.cc:1247-1284 | The n-th pop of an entry payload looks where the callee will find its n-th parameter if and only if Agrees holds, which classes, sizes and the kind of call decide beforehand; then it hands out that argument, and a stack argument is missed otherwise |
| Arguments.StackPops | src/agent/snippet-x86_64.cc:1280-1283 | After six integers, stack arguments are found if and only if the call is no tail call and every stack pop before took a whole number of eightbytes |
| Arguments.IntegerPops | src/agent/snippet-x86_64.cc:1280-1283 | With integers only: the k-th stack argument lies 8 + 8 k above the stack pointer on entry, and is found if and only if the call is no tail call and every stack pop before took eight bytes |
| Arguments.PopsRight | src/agent/snippet-x86_64.cc:1247-1284 | The place a pop looks at is that of the parameter if and only if Agrees holds, for parameters of the classes INTEGER, SSE and MEMORY |
| Arguments.PopAll | src/agent/snippet-x86_64.cc:1247-1284 | A run of pops from a new handle hands out, one by one, what the sizes popped before decide |
| Arguments.ArgumentHandle.PopArgument | src/agent/snippet-x86_64.cc:1247-1284 | One pop: the count and, after six, the offset move on by what was popped |
| Arguments.ArgumentHandle.constructor | src/agent/payload.cc:290-292 | A new handle has popped nothing |
| Arguments.HandedIs | src/agent/snippet-x86_64.cc:1247-1284 | In a wrapper a pop hands out the register of the call site, or a pointer into its stack |
| Arguments.TailSeventh | src/agent/snippet-x86_64.cc:1280-1283 | At a tail call the seventh pop points to the return address |
| Arguments.SecondInt | src/agent/snippet-x86_64.cc:1280-1283 | The second of two stack ints is looked for four bytes after the first, and lies eight after it |
| Arguments.FloatMissed | src/agent/snippet-x86_64.cc:1250-1278 | A floating-point argument is in xmm0, the pop copies %rdi |
| Trampoline.CallReaches | src/agent/snippet-x86_64.cc:416-451 | Both forms of emit_call_abs enter the callee with the address after them on the stack |
| Trampoline.JumpReaches | src/agent/snippet-x86_64.cc:454-481 | Both forms of emit_jump_abs arrive at the target with registers, flags and stack pointer unchanged |
| Trampoline.PiecesLE | src/agent/snippet-x86_64.cc:394-412 | Four pushed words of sixteen bits are the eight bytes of the address |
| Trampoline.RunReaches | src/agent/snippet-x86_64.cc:64-322 | A processor that decodes the bytes does what the instructions do |
| SavedContext.SaveRun | src/agent/snippet-x86_64.cc:64-168 | What emit_save leaves: registers, flags and xmm0-7 in memory, the stack pointer recorded, all else unchanged |
| SavedContext.RestoreRun | src/agent/snippet-x86_64.cc:203-299 | emit_restore undoes it |
| SavedContext.AddSahf | src/agent/snippet-x86_64.cc:238-241 | Adding 0x7f to %al and sahf bring all six flags back |
| SavedContext.PushesRun | src/agent/snippet-x86_64.cc:74-83 | Registers lie in memory in the order they were pushed |
| SavedContext.PopsRun | src/agent/snippet-x86_64.cc:243-251 | Pops read them back |
| Snippet.SpSnippet.BuildBlob | src/agent/snippet.cc:93-229 | The bytes of the blob decode to the parts of a patch area in order, for direct and direct tail calls; a blob that exists is kept |
| Snippet.SpSnippet.EmitSave | src/agent/snippet-x86_64.cc:64-126 | The bytes decode to the saving instructions; nothing before them changes |
| Snippet.SpSnippet.EmitRestore | src/agent/snippet-x86_64.cc:203-254 | The bytes decode to the restoring instructions |
| Snippet.SpSnippet.EmitSaveFpRegisters | src/agent/snippet-x86_64.cc:128-174 | The bytes decode to the saving of xmm0-7, with the displacement that aligns the site |
| Snippet.SpSnippet.EmitRestoreFpRegisters | src/agent/snippet-x86_64.cc:257-299 | The bytes decode to their restoring |
| Snippet.SpSnippet.EmitXmmRegsSaveRestore | src/agent/snippet-x86_64.cc:176-200 | The loop writes eight aligned moves |
| Snippet.SpSnippet.EmitSaveSp | src/agent/snippet-x86_64.cc:304-322 | The bytes decode to the recording of the stack pointer |
| Snippet.SpSnippet.EmitPassParam | src/agent/snippet-x86_64.cc:374-391 | The bytes decode to the loading of the parameters; no second one for a null payload |
| Snippet.SpSnippet.EmitCallAbs | src/agent/snippet-x86_64.cc:416-451 | The bytes decode to a relative call within reach, or else to an absolute one through r11 |
| Snippet.SpSnippet.EmitJumpAbs | src/agent/snippet-x86_64.cc:454-481 | The bytes decode to a relative jump within reach, or else to pushes and a return |
| Snippet.SpSnippet.EmitPushImm64 | src/agent/snippet-x86_64.cc:394-412 | The bytes decode to four pushes, the high word first |
| NearAlloc.Serve | src/agent/patchapi/object-x86_64.cc:81-112 | Over a run of requests every buffer out of a chunk is off every mapped region, apart from every other and within a 32-bit displacement of where its object was loaded; every step binds, refills and bumps as what mmap grants decides; the run only stops at a request for exactly what its pool has left, which a caller can rule out from the sizes requested before |
| NearAlloc.OneRun | src/agent/patchapi/object-x86_64.cc:81-112 | What mmap grants and what is requested decide the whole run: which requests are met near, with which addresses, and what the pools are then |
| NearAlloc.WhyFar | src/agent/patchapi/object-x86_64.cc:81-112 | A buffer comes from the heap if and only if the pool is too small and no unclaimed chunk is near, or too little of the nearest one is granted |
| NearAlloc.SpAddrSpace.AllocateBuffer | src/agent/patchapi/object-x86_64.cc:81-112 | Where the buffer comes from, exactly: the pool if it is large enough, or what is granted of the nearest unclaimed chunk if that is, or else the heap; what the pool then is, and that the allocator's invariant survives if and only if the request was not for exactly the pool |
| NearAlloc.EnoughGranted | src/agent/patchapi/object-x86_64.cc:81-95 | A refill makes room for a request if and only if there is an unclaimed chunk near of which enough is granted |
| NearAlloc.SpAddrSpace.Overrun | src/agent/patchapi/object-x86_64.cc:94-102 | After a request for exactly the pool the next one, of any size, is answered one byte beyond the end of the chunk |
| NearAlloc.EmptyPool | src/agent/patchapi/object-x86_64.cc:94-102 | The shortest such run, from a new allocator: a request for no bytes is answered 0, the next one 1 |
| NearAlloc.OddNotRisky | src/agent/patchapi/object-x86_64.cc:98-99 | With odd sizes and an even page size no request can be for exactly what is left |
| NearAlloc.BumpStays | src/agent/patchapi/object-x86_64.cc:98-99 | The bump stays inside the chunk if and only if the request was not for exactly the space left |
| NearAlloc.Reach | src/agent/patchapi/addr_space-x86_64.cc:287-319 | Every buffer and its end are within a 32-bit displacement of the mapping of its object, and on no mapped address |
| NearAlloc.SpAddrSpace.Answer | src/agent/patchapi/object-x86_64.cc:81-112 | One request of a run keeps the invariant and the remainders the requests explain |
| NearAlloc.SpObject.InitMemoryAlloc | src/agent/patchapi/object-x86_64.cc:40-78 | Succeeds if and only if mmap grants the region from some page on; the pool is the largest such end, in whole pages, and is left alone otherwise |
| NearAlloc.SpAddrSpace.AllocateNewInterval | src/agent/patchapi/addr_space-x86_64.cc:244-285 | The nearest unclaimed chunk is claimed for the object alone, and what is granted of it becomes the pool; failing means there is none or nothing is granted |
| NearAlloc.SpAddrSpace.ClaimChunk | src/agent/patchapi/addr_space-x86_64.cc:244-285 | The chunk found is claimed, whether or not anything of it is granted; the pool is the largest end that is |
| NearAlloc.SpAddrSpace.GetClosestInterval | src/agent/patchapi/addr_space-x86_64.cc:287-319 | The first unused interval that starts at most 1.5 GB below the address is marked, or there is none |
| NearAlloc.SpAddrSpace.UpdateFreeIntervals | src/agent/patchapi/addr_space-x86_64.cc:149-232 | The holes are clamped, cut and bound to the objects in turn; the invariant holds |
| NearAlloc.SpAddrSpace.BindObjects | src/agent/patchapi/addr_space-x86_64.cc:192-232 | Every object in turn is given what is granted of the nearest chunk that is left |
| NearAlloc.SpAddrSpace.CutHole | src/agent/patchapi/addr_space-x86_64.cc:175-190 | The do-while loop appends exactly the chunks of the hole |
| NearAlloc.SpAddrSpace.ClampHoles | src/agent/patchapi/addr_space-x86_64.cc:164-171 | Every hole keeps its top 1.5 GB |
| NearAlloc.SpAddrSpace.UpdateMemoryMappings | src/agent/patchapi/addr_space-x86_64.cc:85-107 | The recorded intervals are the gaps between the mappings, whose addresses stop at the largest long when parsed; a start that was recorded is skipped |
| Intervals.ParsedFits | src/agent/patchapi/addr_space-x86_64.cc:86-93 | What parsing leaves of the list of a process is still in order, and in whole pages below every object |
| Intervals.ParsedMapped | src/agent/patchapi/addr_space-x86_64.cc:86-93 | Below the largest long nothing mapped is lost by parsing |
| Intervals.Vsyscall | src/agent/patchapi/addr_space-x86_64.cc:86-93 | The [vsyscall] line of x86-64 Linux becomes an empty mapping off every page |
| NearAlloc.SpAddrSpace.InitMemoryAllocator | src/agent/patchapi/addr_space-x86_64.cc:149-232 | From the mappings of the process to an allocator whose invariant holds |
| Intervals.ChunksTile | src/agent/patchapi/addr_space-x86_64.cc:175-190 | Chunks follow each other without gap, each at most 16 MB |
| Intervals.AllChunksCover | src/agent/patchapi/addr_space-x86_64.cc:164-190 | The chunks cover exactly the holes clamped to their top 1.5 GB |
| Intervals.GapsComplement | src/agent/patchapi/addr_space-x86_64.cc:89-107 | The gaps are exactly the unmapped addresses below the end of the last mapping |
| ZipFs.Copy | user_agent/fpva/SecSTAR/html/lib/zip-fs.js:129-159 | Exporting a file system with usable names and importing it into an empty one rebuilds the same ordered tree |
| ZipFs.FS.Export | user_agent/fpva/SecSTAR/html/lib/zip-fs.js:129-159 | The lines written are those of every descendant once, parents first |
| ZipFs.FS.Import | user_agent/fpva/SecSTAR/html/lib/zip-fs.js:460-478 | Importing does to the tree what inserting line by line does; it fails where that fails, with the entries of the lines before in place |
| ZipTrees.InsertFails | user_agent/fpva/SecSTAR/html/lib/zip-fs.js:311-327 | A line cannot be inserted if and only if a file is on the way or its name is taken |
| ZipListings.ExportImport | user_agent/fpva/SecSTAR/html/lib/zip-fs.js:129-159 | The listing of any well-named tree, imported into an empty one, rebuilds it |
| ZipListings.LinesAreListing | user_agent/fpva/SecSTAR/html/lib/zip-fs.js:129-159 | exportZip lists every entry below a directory once, in order, by its path |
| ZipListings.ImportRebuilds | user_agent/fpva/SecSTAR/html/lib/zip-fs.js:460-478 | Importing a listing into a directory adds exactly its entries |
| ZipTrees.RoundTrip | user_agent/fpva/SecSTAR/html/lib/zip-fs.js:460-478 | On trees as values a listing rebuilds the tree |
| ZipTrees.SplitJoin | user_agent/fpva/SecSTAR/html/lib/zip-fs.js:507-507 | Splitting a joined path gives the names back |
| ZipFs.FS.MoveTo | user_agent/fpva/SecSTAR/html/lib/zip-fs.js:334-349 | Which error, if any, moveTo throws; otherwise the entry, with its subtree as it was, is the last child of the target and the others keep their order, there and where it came from; no other list of children changes; links stay mutual and acyclic |
| ZipSubtrees.MovedTree | user_agent/fpva/SecSTAR/html/lib/zip-fs.js:334-349 | In terms of trees: the subtree moved is unchanged and the last one of the target |
| ZipSubtrees.MovedInto | user_agent/fpva/SecSTAR/html/lib/zip-fs.js:334-349 | The children of the target are those before, in order, and then the subtree moved |
| ZipSubtrees.MovedFrom | user_agent/fpva/SecSTAR/html/lib/zip-fs.js:334-349 | The children of the old parent are those before without the subtree moved |
| ZipSubtrees.MovedElsewhere | user_agent/fpva/SecSTAR/html/lib/zip-fs.js:334-349 | Every subtree with neither of the two in it is as before |
| ZipSubtrees.AlreadyThere | user_agent/fpva/SecSTAR/html/lib/zip-fs.js:334-349 | An attached entry is never moved to its own parent: its name is taken there |
| ZipFs.FS.Remove | user_agent/fpva/SecSTAR/html/lib/zip-fs.js:502-505 | The entry leaves its parent's children and the table; the root cannot be removed |
| ZipFs.FS.Init | user_agent/fpva/SecSTAR/html/lib/zip-fs.js:311-327 | Fails exactly when the name is taken, changing nothing; otherwise the new entry is the last child, with a fresh id |
| ZipFs.FS.AddChild | user_agent/fpva/SecSTAR/html/lib/zip-fs.js:300-305 | Fails for files as parents; otherwise as init |
| ZipFs.FS.Splice | user_agent/fpva/SecSTAR/html/lib/zip-fs.js:121-127 | The loop of detach removes exactly the child with the id, although it splices what it visits |
| ZipFs.FS.Find | user_agent/fpva/SecSTAR/html/lib/zip-fs.js:506-511 | The result of walking the path by names, and the TypeError when it goes on beyond a file |
| ZipPaths.WalkStops | user_agent/fpva/SecSTAR/html/lib/zip-fs.js:506-511 | A walk ends in a TypeError if and only if an entry that is a file has names after it, and in null if and only if a directory lacks the next name |
| ZipFs.FS.GetFullname | user_agent/fpva/SecSTAR/html/lib/zip-fs.js:350-357 | The names from the root on, joined by slashes |
| ZipFs.FS.IsDescendantOf | user_agent/fpva/SecSTAR/html/lib/zip-fs.js:358-363 | True exactly for proper ancestors; terminates |
| ZipFs.FS.GetChildByName | user_agent/fpva/SecSTAR/html/lib/zip-fs.js:489-496 | The first child of that name |
| ZipPaths.FindFullName | user_agent/fpva/SecSTAR/html/lib/zip-fs.js:506-511 | find(getFullname(e)) is e for every attached entry below the root with usable names |
| ZipPaths.WalkFinds | user_agent/fpva/SecSTAR/html/lib/zip-fs.js:506-511 | A walk finds attached entries only, each by its own path |
| ZipNodes.MovedLinked | user_agent/fpva/SecSTAR/html/lib/zip-fs.js:334-349 | Moving keeps parents and children mutual, the graph acyclic and sibling names different |
| ZipNodes.AddedLinked | user_agent/fpva/SecSTAR/html/lib/zip-fs.js:311-327 | Adding keeps them |
| ZipNodes.DetachedLinked | user_agent/fpva/SecSTAR/html/lib/zip-fs.js:121-127 | Detaching keeps them |
| ZipNodes.BelowRanks | user_agent/fpva/SecSTAR/html/lib/zip-fs.js:358-363 | Nothing is its own ancestor |
| ShadowStack.Agent.Run | src/agent/payload.cc:119-238 | Whatever properly nested calls and tail calls a thread makes, the wrappers do exactly the expected steps, run exactly the expected payloads with their handles, in order, and leave only the pending tail calls on the stack |
| ShadowStack.Agent.RunCalls | src/agent/payload.cc:119-238 | Calls leave the stack as it was, having run an entry and an exit payload for each |
| ShadowStack.Agent.WrapperEntry | src/agent/payload.cc:119-158 | Pushes one handle for the point, with its callee, and runs the entry payload once, if there is one and the callee is known, keeping what it returns for the exit payload; does nothing inside a payload |
| ShadowStack.Agent.WrapperExit | src/agent/payload.cc:175-238 | Pops exactly the handles above the newest one of the point and then that, running the exit payload, if there is one, exactly once for each, newest first, with what its entry payload returned and one return value |
| ShadowStack.Agent.LeaveTo | src/agent/payload.cc:205-236 | The loop over pending tail calls: every handle down to that of the point is popped and its exit payload run once |
| ShadowStack.Agent.RunPayload | src/agent/payload.cc:94-107 | A payload runs once, with its handle; calls made by it change neither stack nor trace nor what runs |
| ShadowStack.SpContext.PopPointCallHandle | src/agent/context.cc:179-187 | The newest handle, or NULL from an empty stack |
| ShadowStack.SpContext.PushPointCallHandle | src/agent/context.cc:174-176 | The handle is the newest |
| ShadowStack.StepsNest | src/agent/payload.cc:119-238 | The expected steps obey the stack discipline for every nesting, recursion through one point included |
| ShadowStack.LeftOnce | src/agent/payload.cc:175-238 | Every call entered is left exactly once, but for pending tail calls |

## Left out

- Overlay of d_buf and l_buf inside pending_buf (`deflate.js:1703-1709`): the symbol buffer and the output are separate, so nothing is claimed about output overtaking unread symbols.
- The zlib header, preset dictionaries (deflateSetDictionary), deflateParams, deflateEnd and set_data_type: the status is BUSY_STATE after every reset, so the header is never written; the rest would add easy members.
- How well a file compresses: which match is taken, which form a block has and that its codes are the best are proved, but nothing about the sum beyond the upper bounds.
- 32-bit wrap-around of opt_len and static_len and the `& 0xffff` masks on head and prev, which never change a value below 2^16: numbers are unbounded.
- The eightfold unrolled comparison of longest_match is one loop; the branches of fill_window for `more === 0` and `-1` cannot be reached and are not modelled.
- The tables of length codes, distance codes and static trees are functions with the ranges of sections 3.2.5 and 3.2.6 of RFC 1951; the array literals are not compared entry by entry.
- SlidingWindows.SlidingWindow.LongestMatch: with fewer than three bytes of lookahead left only that the result is within bounds, because the hash then covers bytes beyond the input.
- The messages of the Deflater worker and onprogress.
- Streams.ZStream.FlushPending: avail_out is the room left in the output buffer; a caller that announces less room than it has is not modelled.
- Indirect calls, whose call instruction is relocated, and everything that rests on Dyninst: parsing, reloc_block, springboards, the instruction decoder.
- Trampoline.GetSavedReg: the registers that only indirect sites save (r10, r11, rbx, r12 to r15, rbp) read as absent; in a direct site the source reads other saved data at their offsets. Of the narrower names only 64-bit ones are modelled.
- Trampoline.DirectCall: r10 and r11 are not preserved, addresses do not wrap around, and the stack pointer is at least 512; x87, MXCSR and the upper halves of vector registers are not part of the machine.
- Arguments.EntryArguments: parameters of class X87, aggregates passed in two registers and parameters aligned to more than eight bytes are not modelled; a pop of more than eight bytes out of a register, which copies beyond a variable, is excluded. What an exit payload pops is left out: the registers are those of the return.
- Trampoline.CallReaches: the displacement is an integer; the source's 64-bit difference is the same for addresses below 2^63.
- The text of /proc, mmap and posix_memalign: the lines are given as numbers, in order, each in the lower or the upper half of the address space; what mmap grants is a parameter, the same for the same region throughout a run, and a buffer from the heap is any address.
- NearAlloc.Serve: objects are loaded below 2^62 - 1.5 GB, far above where the lower half of the address space ends.
- NearAlloc.SpAddrSpace.Answer: whether a request after a refill is for exactly the pool depends on how many pages mmap refuses, so the condition that mentions only the sizes is sufficient over a run; with what mmap grants the run is determined (OneRun).
- FreeBuffer, alloc_bufs_ and the SP_LIBC_MALLOC setting.
- Entry data, readers, writers, HTTP, CRC and asynchrony of the zip modules: file contents are opaque numbers, and the writer's trimming of names is not part of this model.
- getFileEntry, addFileEntry and the other conversions between file systems.
- Multi-threading and process communication in the wrappers, the dlopen hook and longjmp past a wrapper: calls are properly nested on one thread.
- ShadowStack.Agent.RunPayload: a payload is a list of instrumented calls it makes; it returns a value and what else it does is left out.
- i386 code, injection, user-agent checkers, trace writers and packaging.
