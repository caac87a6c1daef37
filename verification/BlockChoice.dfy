/** Which of its three forms _tr_flush_block sends a block in, and how much longer than the others that can be: the
    comparison counts four bytes for a stored block, without its three header bits and the padding after them. */
module BlockChoice {
  import opened Prelude
  import opened Bits
  import opened BitWriters
  import opened Inflate
  import opened Canonical
  import opened Codes
  import opened BlockCoding
  import opened BlockFormat
  import opened DynamicBound

  // The bits of a stored block when bi_valid bits are waiting: header, padding, two lengths, bytes.
  function StoredSize(stored_len: nat, bi_valid: nat): nat {
    3 + PadLength(bi_valid + 3) + 32 + 8 * stored_len
  }

  // The bytes that the shorter of the compressed forms takes, header included.
  function BestBytes(opt_len: nat, static_len: nat): nat {
    Min((opt_len + 10) / 8, (static_len + 10) / 8)
  }

  // The bits of the compressed form that is sent if the stored one is not: the static one unless the dynamic one
  // saves a byte.
  function CodedSize(opt_len: nat, static_len: nat): nat {
    3 + (if (static_len + 10) / 8 <= (opt_len + 10) / 8 then static_len else opt_len)
  }

  // What is known of the number of bits sent: never more than the stored form takes, and exactly that when the
  // bytes and four more are no more than the best compressed form; otherwise a compressed form of the fewest bytes.
  // Either way at most ten bits more than the best compressed form in whole bytes.
  ghost predicate WellChosen(stored_len: nat, buf: int, opt_len: nat, static_len: nat, bi_valid: nat, sent: int) {
    var stored, best := StoredSize(stored_len, bi_valid), BestBytes(opt_len, static_len);
    && (buf != -1 ==> sent <= stored && (sent == stored <==> stored_len + 4 <= best))
    && (buf == -1 || stored_len + 4 > best ==> sent == CodedSize(opt_len, static_len) && (sent + 7) / 8 == best)
    && sent <= 8 * best + 10 && sent <= 3 + opt_len + 17 && sent <= 3 + static_len + 17
  }

  lemma {:induction false} StoredChosen(stored_len: nat, buf: int, opt_len: nat, static_len: nat, bi_valid: nat,
                                        sent: int)
    requires stored_len + 4 <= BestBytes(opt_len, static_len) && buf != -1 && sent == StoredSize(stored_len, bi_valid)
    ensures WellChosen(stored_len, buf, opt_len, static_len, bi_valid, sent)
  {
    hide PadLength;
    assert PadLength(bi_valid + 3) <= 7;
  }

  lemma {:induction false} CodedChosen(stored_len: nat, buf: int, opt_len: nat, static_len: nat, bi_valid: nat,
                                       sent: int)
    requires buf == -1 || stored_len + 4 > BestBytes(opt_len, static_len)
    requires sent == CodedSize(opt_len, static_len)
    ensures WellChosen(stored_len, buf, opt_len, static_len, bi_valid, sent)
  {
    hide PadLength;
    assert PadLength(bi_valid + 3) <= 7;
  }

  // When a stored block is sent it fits into the bytes of the best compressed form if and only if it has two bytes
  // to spare, or one and the padding leaves that byte room for the header.
  lemma {:induction false} StoredNoLonger(stored_len: nat, bi_valid: nat, best: nat)
    requires stored_len + 4 <= best
    ensures StoredSize(stored_len, bi_valid) <= 8 * best <==>
              stored_len + 6 <= best || (stored_len + 5 == best && bi_valid % 8 != 6 && bi_valid % 8 != 7)
  {
    hide PadLength;
    PadOf(bi_valid);
  }

  lemma {:induction false} PadOf(bi_valid: nat)
    ensures PadLength(bi_valid + 3) >= 6 <==> bi_valid % 8 == 6 || bi_valid % 8 == 7
    ensures PadLength(bi_valid + 3) <= 7
  {
    var r := bi_valid % 8;
    assert (bi_valid + 3) % 8 == (r + 3) % 8;
  }

  // With no byte to spare it is always longer, by up to ten bits.
  lemma {:induction false} StoredLonger(stored_len: nat, bi_valid: nat, opt_len: nat, static_len: nat)
    requires stored_len + 4 == BestBytes(opt_len, static_len)
    ensures StoredSize(stored_len, bi_valid) > CodedSize(opt_len, static_len)
    ensures bi_valid % 8 == 6 ==> StoredSize(stored_len, bi_valid) == 8 * BestBytes(opt_len, static_len) + 10
  {
    if bi_valid % 8 == 6 {
      assert (bi_valid + 3) % 8 == 1;
    }
  }

  function Literals(bs: seq<byte>): (syms: seq<Symbol>)
    ensures |syms| == |bs| && forall i :: 0 <= i < |bs| ==> syms[i] == Literal(bs[i])
  {
    seq(|bs|, i requires 0 <= i < |bs| => Literal(bs[i]))
  }

  // Literals from 144 on take nine bits each in the static form.
  lemma {:induction false} HighLiterals(bs: seq<byte>)
    requires forall i :: 0 <= i < |bs| ==> bs[i] >= 144
    ensures AllCoded(FixedLiteralLengths(), FixedDistanceLengths(), Literals(bs))
            && HasCode(FixedLiteralLengths(), END_BLOCK)
    ensures |EncodeSymbols(FixedLiteralLengths(), FixedDistanceLengths(), Literals(bs))| == 9 * |bs|
    ensures |EncodeBody(FixedLiteralLengths(), FixedDistanceLengths(), Literals(bs))| == 9 * |bs| + 7
  {
    hide FixedLiteralLengths, FixedDistanceLengths, SymbolBits;
    FixedCoded(Literals(bs));
    FixedAt(END_BLOCK);
    if bs == [] {
      assert Literals(bs) == [];
    } else {
      FixedAt(bs[0]);
      HighLiterals(bs[1..]);
      assert Literals(bs)[1..] == Literals(bs[1..]);
      assert Literals(bs)[0] == Literal(bs[0]);
    }
  }

  lemma {:induction false} LiteralsExpand(out: seq<byte>, bs: seq<byte>)
    ensures Expand(out, Literals(bs)) == Some(out + bs)
    decreases |bs|
  {
    if bs == [] {
      assert Literals(bs) == [] && out + bs == out;
    } else {
      LiteralsExpand(out + [bs[0]], bs[1..]);
      assert Literals(bs)[1..] == Literals(bs[1..]) && Literals(bs)[0] == Literal(bs[0]);
      assert out + [bs[0]] + bs[1..] == out + bs;
    }
  }

  // Fifteen such literals at the start of a stream, all different: whatever trees are built, the dynamic form is no
  // shorter than the static one, and 160 bits are sent where the static form takes 145.
  lemma {:induction false} FifteenLiterals(bs: seq<byte>, t: Tables, sent: int)
    requires |bs| == 15 && forall i :: 0 <= i < 15 ==> bs[i] == 144 + i
    requires DynamicFits(t, Literals(bs)) && LoneDistances(t, Literals(bs))
    ensures AllCoded(FixedLiteralLengths(), FixedDistanceLengths(), Literals(bs))
            && HasCode(FixedLiteralLengths(), END_BLOCK)
    ensures var opt_len := |TablesBits(t)| + |EncodeBody(t.llens, t.dlens, Literals(bs))|;
            var static_len := |EncodeBody(FixedLiteralLengths(), FixedDistanceLengths(), Literals(bs))|;
            && CodedSize(opt_len, static_len) == 145
            && (WellChosen(15, 0, opt_len, static_len, 0, sent) ==> sent == 160)
  {
    hide FixedLiteralLengths, FixedDistanceLengths, EncodeBody, AllCoded, HasCode, DynamicFits, TablesBits, TablesFit;
    HighLiterals(bs);
    FifteenDynamic(t, Literals(bs), 144);
  }
}
