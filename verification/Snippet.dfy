/** The code generator of patch areas: the emitters write bytes at an advancing offset of the blob, and what they
    write decodes to the instructions the patch area is meant to run. */
module Snippet {
  import opened Prelude
  import opened Intervals
  import opened Machine
  import opened SavedContext
  import opened Trampoline

  // ---- bytes written after other bytes ----

  // An instruction's bytes mean the same wherever they stand.
  lemma {:induction false} DecodeShift(pre: seq<byte>, bs: seq<byte>, k: nat)
    requires k < |bs|
    ensures Shifted(|pre|, Decode(bs, k), Decode(pre + bs, |pre| + k))
  {
    hide Word, SignedImm, Imm, DecodeB, DecodeW, Decode66, DecodeMov;
    var all, n := pre + bs, |pre|;
    assert all[n + k] == bs[k];
    if k + 5 <= |bs| {
      ShiftImm(pre, bs, k + 1, 4);
    }
    if k + 3 <= |bs| {
      assert all[n + k + 1] == bs[k + 1] && all[n + k + 2] == bs[k + 2];
    }
    ShiftB(pre, bs, k);
    ShiftW(pre, bs, k);
    Shift66(pre, bs, k);
    ShiftMov(pre, bs, k, 8);
  }

  ghost predicate Shifted(n: nat, x: Option<(Instr, nat)>, y: Option<(Instr, nat)>) {
    x.Some? ==> y == Some((x.value.0, n + x.value.1))
  }

  lemma {:induction false} ShiftImm(pre: seq<byte>, bs: seq<byte>, k: nat, n: nat)
    requires k + n <= |bs|
    ensures SignedImm(pre + bs, |pre| + k, n) == SignedImm(bs, k, n)
  {
    hide Val, Signed;
    assert (pre + bs)[|pre| + k..|pre| + k + n] == bs[k..k + n];
  }

  lemma {:induction false} ShiftB(pre: seq<byte>, bs: seq<byte>, k: nat)
    requires k < |bs|
    ensures Shifted(|pre|, DecodeB(bs, k), DecodeB(pre + bs, |pre| + k))
  {
    assert forall j :: 0 <= j < |bs| ==> (pre + bs)[|pre| + j] == bs[j];
  }

  lemma {:induction false} ShiftMov(pre: seq<byte>, bs: seq<byte>, k: nat, high: nat)
    requires k < |bs| && (high == 0 || high == 8)
    ensures Shifted(|pre|, DecodeMov(bs, k, high), DecodeMov(pre + bs, |pre| + k, high))
  {
    hide Word;
    assert forall j :: 0 <= j < |bs| ==> (pre + bs)[|pre| + j] == bs[j];
    if |bs| >= k + 10 {
      assert (pre + bs)[|pre| + k + 2..|pre| + k + 10] == bs[k + 2..k + 10];
    }
  }

  lemma {:induction false} ShiftW(pre: seq<byte>, bs: seq<byte>, k: nat)
    requires k < |bs|
    ensures Shifted(|pre|, DecodeW(bs, k), DecodeW(pre + bs, |pre| + k))
  {
    hide Word, SignedImm, Imm, DecodeMov;
    ShiftMov(pre, bs, k, 0);
    var all, n := pre + bs, |pre|;
    if k + 3 <= |bs| {
      assert all[n + k + 1] == bs[k + 1] && all[n + k + 2] == bs[k + 2];
    }
    if k + 6 <= |bs| {
      ShiftImm(pre, bs, k + 2, 4);
    }
    if k + 8 <= |bs| {
      assert all[n + k + 3] == bs[k + 3];
      ShiftImm(pre, bs, k + 4, 4);
    }
  }

  lemma {:induction false} Shift66(pre: seq<byte>, bs: seq<byte>, k: nat)
    requires k < |bs|
    ensures Shifted(|pre|, Decode66(bs, k), Decode66(pre + bs, |pre| + k))
  {
    hide Word, Val, SignedImm;
    var all, n := pre + bs, |pre|;
    if k + 4 <= |bs| {
      assert all[n + k + 1] == bs[k + 1] && all[n + k + 2] == bs[k + 2] && all[n + k + 3] == bs[k + 3];
      assert all[n + k + 2..n + k + 4] == bs[k + 2..k + 4];
    }
    if k + 5 <= |bs| {
      ShiftImm(pre, bs, k + 4, 1);
    }
  }

  lemma {:induction false} CodesShift(pre: seq<byte>, bs: seq<byte>, k: nat, p: seq<Instr>)
    requires Codes(bs, k, p, |bs|)
    ensures Codes(pre + bs, |pre| + k, p, |pre| + |bs|)
    decreases |p|
  {
    hide Decode;
    if p != [] {
      DecodeShift(pre, bs, k);
      CodesShift(pre, bs, Decode(bs, k).value.1, p[1..]);
    }
  }

  // Some bytes mean these instructions.
  ghost predicate Means(bs: seq<byte>, p: seq<Instr>) {
    Codes(bs, 0, p, |bs|)
  }

  lemma {:induction false} MeansOne(bs: seq<byte>, i: Instr)
    requires Decode(bs, 0) == Some((i, |bs|))
    ensures Means(bs, [i])
  {
    hide Decode;
    assert [i][1..] == [];
    CodesNone(bs, |bs|);
  }

  lemma {:induction false} MeansBoth(x: seq<byte>, p: seq<Instr>, y: seq<byte>, q: seq<Instr>)
    requires Means(x, p) && Means(y, q)
    ensures Means(x + y, p + q)
  {
    hide Codes;
    CodesGrow(x, x + y, 0, p, |x|);
    CodesShift(x, y, 0, q);
    CodesConcat(x + y, 0, p, |x|, q, |x| + |y|);
  }

  // The instructions written so far and some more.
  lemma {:induction false} CodesNext(code: seq<byte>, at: nat, p: seq<Instr>, bs: seq<byte>, q: seq<Instr>)
    requires Codes(code, at, p, |code|) && Means(bs, q)
    ensures Codes(code + bs, at, p + q, |code| + |bs|)
  {
    hide Codes;
    NextShift(code, bs, q);
    CodesGrow(code, code + bs, at, p, |code|);
    CodesConcat(code + bs, at, p, |code|, q, |code| + |bs|);
  }

  lemma {:induction false} NextShift(code: seq<byte>, bs: seq<byte>, q: seq<Instr>)
    requires Means(bs, q)
    ensures Codes(code + bs, |code|, q, |code| + |bs|)
  {
    CodesShift(code, bs, 0, q);
  }

  // A program written after another.
  lemma {:induction false} CodesAfter(code: seq<byte>, more: seq<byte>, at: nat, p: seq<Instr>, q: seq<Instr>)
    requires Codes(code, at, p, |code|) && code <= more && Codes(more, |code|, q, |more|)
    ensures Codes(more, at, p + q, |more|)
  {
    hide Decode;
    CodesGrow(code, more, at, p, |code|);
    CodesConcat(more, at, p, |code|, q, |more|);
  }

  lemma {:induction false} SignedRel(rel: int)
    requires IsDisp32(rel)
    ensures Signed(Val(LE(rel % 0x1_0000_0000, 4)), 4) == rel
  {
    Pow256Values();
    ValLE(rel % 0x1_0000_0000, 4);
  }

  lemma {:induction false} DecodeMovImm(high: bool, r: nat, v: word)
    requires r < 8
    ensures var bs := [if high then 0x49 else 0x48, 0xb8 + r] + LE(v, 8);
            Means(bs, [MovImm((if high then 8 else 0) + r, v)])
  {
    hide LE, Means;
    var bs := [if high then 0x49 else 0x48, 0xb8 + r] + LE(v, 8);
    assert bs[2..10] == LE(v, 8);
    WordLE(v);
    MeansOne(bs, MovImm((if high then 8 else 0) + r, v));
  }

  lemma {:induction false} DecodeRel32(call: bool, rel: int)
    requires IsDisp32(rel)
    ensures var bs := [if call then 0xe8 else 0xe9] + LE(rel % 0x1_0000_0000, 4);
            Means(bs, [if call then CallRel(rel) else JmpRel(rel)])
  {
    hide LE, Signed, IsDisp32, Means;
    var bs := [if call then 0xe8 else 0xe9] + LE(rel % 0x1_0000_0000, 4);
    assert bs[1..5] == LE(rel % 0x1_0000_0000, 4);
    SignedRel(rel);
    MeansOne(bs, if call then CallRel(rel) else JmpRel(rel));
  }

  lemma {:induction false} DecodePush16(w: nat)
    requires w < 0x1_0000
    ensures var bs := [0x66, 0x68] + LE(w, 2); Means(bs, [PushImm16(w)])
  {
    hide LE, Means;
    var bs := [0x66, 0x68] + LE(w, 2);
    assert bs[2..4] == LE(w, 2);
    Pow256Values();
    ValLE(w, 2);
    MeansOne(bs, PushImm16(w));
  }

  lemma {:induction false} DecodeLea(b: byte)
    ensures Decode([0x48, 0x8d, 0xa4, 0x24, b, 0xff, 0xff, 0xff], 0) == Some((LeaRsp(b - 256), 8))
    ensures Decode([0x48, 0x8d, 0xa4, 0x24, b, 0, 0, 0], 0) == Some((LeaRsp(b), 8))
  {
    hide Word;
    Pow256Values();
    var down, up := [0x48, 0x8d, 0xa4, 0x24, b, 0xff, 0xff, 0xff], [0x48, 0x8d, 0xa4, 0x24, b, 0, 0, 0];
    assert down[4..8] == [b, 0xff, 0xff, 0xff] && up[4..8] == [b, 0, 0, 0];
    ValFour(b, 0xff, 0xff, 0xff);
    ValFour(b, 0, 0, 0);
  }

  lemma {:induction false} ValFour(a: byte, b: byte, c: byte, d: byte)
    ensures Val([a, b, c, d]) == a + 256 * b + 0x1_0000 * c + 0x100_0000 * d
  {
    assert [a, b, c, d][1..] == [b, c, d];
    assert [b, c, d][1..] == [c, d];
    assert [c, d][1..] == [d];
    var z: seq<byte> := [];
    assert [d][1..] == z && Val(z) == 0;
    assert Val([d]) == d;
    assert Val([c, d]) == c + 256 * d;
    assert Val([b, c, d]) == b + 256 * (c + 256 * d);
  }

  lemma {:induction false} DecodeAddRax()
    ensures Decode([0x48, 0x05, 0x08, 0, 0, 0], 0) == Some((AddRax(8), 6))
  {
    hide Word;
    Pow256Values();
    assert [0x48, 0x05, 0x08, 0, 0, 0][2..6] == [0x08, 0, 0, 0];
    ValFour(8, 0, 0, 0);
  }

  lemma {:induction false} DecodeXmm(load: bool, x: nat)
    requires x < 8
    ensures Decode([0x66, 0x0f, if load then 0x6f else 0x7f, 0x00], 0) == Some((MoveXmm(load, 0, 0), 4))
    ensures x > 0 ==>
            Decode([0x66, 0x0f, if load then 0x6f else 0x7f, 0x40 + 8 * x, 16 * x], 0) ==
            Some((MoveXmm(load, x, 16 * x), 5))
  {
    hide Word;
    var bs: seq<byte> := [0x66, 0x0f, if load then 0x6f else 0x7f, 0x40 + 8 * x, 16 * x];
    assert bs[4..5] == [16 * x];
    assert [16 * x][1..] == [];
    assert Val([16 * x]) == 16 * x + 256 * Val([]);
    assert Pow256(1) == 256;
  }

  lemma {:induction false} DecodePushPop(r: nat)
    requires r < 8
    ensures Decode([0x50 + r], 0) == Some((Push(r), 1)) && Decode([0x41, 0x50 + r], 0) == Some((Push(8 + r), 2))
    ensures Decode([0x58 + r], 0) == Some((Pop(r), 1)) && Decode([0x41, 0x58 + r], 0) == Some((Pop(8 + r), 2))
  {
    hide Word, SignedImm, Imm;
  }

  lemma {:induction false} DecodeFixed()
    ensures Decode([0x9f], 0) == Some((Lahf, 1)) && Decode([0x9e], 0) == Some((Sahf, 1))
            && Decode([0xc3], 0) == Some((Ret, 1))
    ensures Decode([0x0f, 0x90, 0xc0], 0) == Some((SetoAl, 3))
            && Decode([0x80, 0xc0, 0x7f], 0) == Some((AddAl(0x7f), 3))
    ensures Decode([0x48, 0x89, 0x20], 0) == Some((StoreReg(RAX, RSP), 3))
    ensures Decode([0x48, 0x8b, 0xc4], 0) == Some((MovReg(RAX, RSP), 3))
    ensures Decode([0x41, 0xff, 0xd3], 0) == Some((CallReg(R11), 3))
  {
    hide Word, SignedImm, Imm;
  }

  lemma {:induction false} CodesNone(code: seq<byte>, at: nat)
    ensures Codes(code, at, [], at)
  {
  }

  // ---- the emitters ----

  // The bytes that push and pop registers.
  function PushByte(r: nat): seq<byte>
    requires r < 16
  {
    if r < 8 then [0x50 + r] else [0x41, 0x50 + r - 8]
  }

  function PopByte(r: nat): seq<byte>
    requires r < 16
  {
    if r < 8 then [0x58 + r] else [0x41, 0x58 + r - 8]
  }

  function PushBytesOf(l: seq<nat>): seq<byte>
    requires AllRegs(l)
  {
    if l == [] then [] else PushByte(l[0]) + PushBytesOf(l[1..])
  }

  function PopBytesOf(l: seq<nat>): seq<byte>
    requires AllRegs(l)
  {
    if l == [] then [] else PopByte(l[0]) + PopBytesOf(l[1..])
  }

  lemma {:induction false} PushesMean(l: seq<nat>)
    requires AllRegs(l)
    ensures Means(PushBytesOf(l), Pushes(l)) && Means(PopBytesOf(l), Pops(l))
    decreases |l|
  {
    hide Means, Decode;
    if l == [] {
      MeansNone();
    } else {
      DecodePushPop(l[0] % 8);
      MeansOne(PushByte(l[0]), Push(l[0]));
      MeansOne(PopByte(l[0]), Pop(l[0]));
      PushesMean(l[1..]);
      MeansBoth(PushByte(l[0]), [Push(l[0])], PushBytesOf(l[1..]), Pushes(l[1..]));
      MeansBoth(PopByte(l[0]), [Pop(l[0])], PopBytesOf(l[1..]), Pops(l[1..]));
    }
  }

  lemma {:induction false} SavedBytes()
    ensures Means([0x57, 0x56, 0x52, 0x51, 0x41, 0x50, 0x41, 0x51, 0x50], Pushes(SAVED))
    ensures Means([0x58, 0x41, 0x59, 0x41, 0x58, 0x59, 0x5a, 0x5e, 0x5f], Pops(RESTORED))
  {
    hide Means, Pushes, Pops;
    PushesMean(SAVED);
    PushesMean(RESTORED);
    SavedBytesAre();
    RestoredBytesAre();
  }

  lemma {:induction false} LastBytes()
    ensures PushBytesOf([RCX, R8, R9, RAX]) == [0x51, 0x41, 0x50, 0x41, 0x51, 0x50]
    ensures PopBytesOf([RCX, RDX, RSI, RDI]) == [0x59, 0x5a, 0x5e, 0x5f]
  {
    assert PushBytesOf([RAX]) == [0x50];
    assert PushBytesOf([R9, RAX]) == [0x41, 0x51, 0x50];
    assert PushBytesOf([R8, R9, RAX]) == [0x41, 0x50, 0x41, 0x51, 0x50];
    assert PopBytesOf([RDI]) == [0x5f];
    assert PopBytesOf([RSI, RDI]) == [0x5e, 0x5f];
    assert PopBytesOf([RDX, RSI, RDI]) == [0x5a, 0x5e, 0x5f];
  }

  lemma {:induction false} PushFirst(r: nat, l: seq<nat>)
    requires AllRegs([r] + l) && AllRegs(l) && r < 16
    ensures PushBytesOf([r] + l) == PushByte(r) + PushBytesOf(l)
  {
    assert ([r] + l)[1..] == l;
  }

  lemma {:induction false} SavedBytesAre()
    ensures PushBytesOf(SAVED) == [0x57, 0x56, 0x52, 0x51, 0x41, 0x50, 0x41, 0x51, 0x50]
  {
    hide PushBytesOf;
    LastBytes();
    PushFirst(RDX, [RCX, R8, R9, RAX]);
    PushFirst(RSI, [RDX, RCX, R8, R9, RAX]);
    PushFirst(RDI, [RSI, RDX, RCX, R8, R9, RAX]);
    assert [RDX] + [RCX, R8, R9, RAX] == [RDX, RCX, R8, R9, RAX];
    assert [RSI] + [RDX, RCX, R8, R9, RAX] == [RSI, RDX, RCX, R8, R9, RAX];
    assert [RDI] + [RSI, RDX, RCX, R8, R9, RAX] == SAVED;
  }

  lemma {:induction false} RestoredBytesAre()
    ensures PopBytesOf(RESTORED) == [0x58, 0x41, 0x59, 0x41, 0x58, 0x59, 0x5a, 0x5e, 0x5f]
  {
    LastBytes();
    assert PopBytesOf([R8, RCX, RDX, RSI, RDI]) == [0x41, 0x58, 0x59, 0x5a, 0x5e, 0x5f];
    assert PopBytesOf([R9, R8, RCX, RDX, RSI, RDI]) == [0x41, 0x59, 0x41, 0x58, 0x59, 0x5a, 0x5e, 0x5f];
    assert RESTORED[1..] == [R9, R8, RCX, RDX, RSI, RDI];
  }

  // The other bytes of saving and restoring.
  lemma {:induction false} FlagBytes()
    ensures Means([0x9f, 0x0f, 0x90, 0xc0, 0x50], FlagsDown())
    ensures Means([0x80, 0xc0, 0x7f, 0x9e], [AddAl(0x7f), Sahf])
  {
    hide Means, Decode;
    DecodeFixed();
    DecodePushPop(0);
    MeansOne([0x9f], Lahf);
    MeansOne([0x0f, 0x90, 0xc0], SetoAl);
    MeansOne([0x50], Push(RAX));
    MeansBoth([0x9f], [Lahf], [0x0f, 0x90, 0xc0], [SetoAl]);
    MeansBoth([0x9f] + [0x0f, 0x90, 0xc0], [Lahf] + [SetoAl], [0x50], [Push(RAX)]);
    assert [0x9f, 0x0f, 0x90, 0xc0, 0x50] == [0x9f] + [0x0f, 0x90, 0xc0] + [0x50];
    assert FlagsDown() == [Lahf] + [SetoAl] + [Push(RAX)];
    MeansOne([0x80, 0xc0, 0x7f], AddAl(0x7f));
    MeansOne([0x9e], Sahf);
    MeansBoth([0x80, 0xc0, 0x7f], [AddAl(0x7f)], [0x9e], [Sahf]);
    assert [0x80, 0xc0, 0x7f, 0x9e] == [0x80, 0xc0, 0x7f] + [0x9e];
    assert [AddAl(0x7f), Sahf] == [AddAl(0x7f)] + [Sahf];
  }

  lemma {:induction false} FpBytes()
    ensures Means([0x48, 0x8b, 0xc4, 0x48, 0x05, 0x08, 0, 0, 0], [MovReg(RAX, RSP), AddRax(8)])
    ensures Means([0x50], [Push(RAX)]) && Means([0x58], [Pop(RAX)])
    ensures Means([0x48, 0x89, 0x20], [StoreReg(RAX, RSP)])
    ensures Means([0xc3], [Ret]) && Means([0x41, 0xff, 0xd3], [CallReg(R11)])
  {
    hide Means, Decode;
    DecodeFixed();
    DecodePushPop(0);
    DecodeAddRax();
    MeansOne([0x50], Push(RAX));
    MeansOne([0x58], Pop(RAX));
    MeansOne([0x48, 0x89, 0x20], StoreReg(RAX, RSP));
    MeansOne([0xc3], Ret);
    MeansOne([0x41, 0xff, 0xd3], CallReg(R11));
    MeansOne([0x48, 0x8b, 0xc4], MovReg(RAX, RSP));
    MeansOne([0x48, 0x05, 0x08, 0, 0, 0], AddRax(8));
    MeansBoth([0x48, 0x8b, 0xc4], [MovReg(RAX, RSP)], [0x48, 0x05, 0x08, 0, 0, 0], [AddRax(8)]);
    assert [0x48, 0x8b, 0xc4, 0x48, 0x05, 0x08, 0, 0, 0] == [0x48, 0x8b, 0xc4] + [0x48, 0x05, 0x08, 0, 0, 0];
    assert [MovReg(RAX, RSP), AddRax(8)] == [MovReg(RAX, RSP)] + [AddRax(8)];
  }

  lemma {:induction false} LeaBytes(b: byte)
    ensures Means([0x48, 0x8d, 0xa4, 0x24, b, 0xff, 0xff, 0xff], [LeaRsp(b - 256)])
    ensures Means([0x48, 0x8d, 0xa4, 0x24, b, 0, 0, 0], [LeaRsp(b)])
  {
    hide Means, Decode;
    DecodeLea(b);
    MeansOne([0x48, 0x8d, 0xa4, 0x24, b, 0xff, 0xff, 0xff], LeaRsp(b - 256));
    MeansOne([0x48, 0x8d, 0xa4, 0x24, b, 0, 0, 0], LeaRsp(b));
  }

  // The bytes of one aligned move.
  function XmmBytes(load: bool, x: nat): seq<byte>
    requires x < 8
  {
    if x == 0 then [0x66, 0x0f, if load then 0x6f else 0x7f, 0x00]
    else [0x66, 0x0f, if load then 0x6f else 0x7f, 0x40 + 8 * x, 16 * x]
  }

  lemma {:induction false} XmmMeans(load: bool, x: nat)
    requires x < 8
    ensures Means(XmmBytes(load, x), [MoveXmm(load, x, 16 * x)])
  {
    hide Means, Decode;
    DecodeXmm(load, x);
    MeansOne(XmmBytes(load, x), MoveXmm(load, x, 16 * x));
  }

  lemma {:induction false} XmmBytesAre(load: bool, x: nat, bs: seq<byte>)
    requires x < 8 && bs == [0x66, 0x0f, if load then 0x6f else 0x7f]
             + (if x == 0 then [0x00] else [0x40 + 8 * x, 16 * x])
    ensures bs == XmmBytes(load, x)
  {
  }

  lemma {:induction false} MovesStep(load: bool, i: nat, prog: seq<Instr>)
    requires i < 8
    ensures prog + [MoveXmm(load, i, 16 * i)] + Moves(load, i + 1) == prog + Moves(load, i)
  {
    hide MoveXmm;
    var rest := Moves(load, i + 1);
    assert prog + [MoveXmm(load, i, 16 * i)] + rest == prog + ([MoveXmm(load, i, 16 * i)] + rest);
  }

  lemma {:induction false} MovesNone(load: bool)
    ensures Moves(load, 8) == []
  {
  }

  lemma {:induction false} PushImmStep(v: word, i: nat, prog: seq<Instr>)
    requires i < 4
    ensures prog + [PushImm16(Piece(v, i))] + PushImm(v, i) == prog + PushImm(v, i + 1)
  {
    hide Piece;
    var rest := PushImm(v, i);
    assert prog + [PushImm16(Piece(v, i))] + rest == prog + ([PushImm16(Piece(v, i))] + rest);
  }

  lemma {:induction false} PushImmNone(v: word)
    ensures PushImm(v, 0) == []
  {
  }

  lemma {:induction false} MeansNone()
    ensures Means([], [])
  {
  }

  lemma {:induction false} VisitGrow(code: seq<byte>, more: seq<byte>, site: Site, payload: word, wrapper: word,
                                     m0: nat, m1: nat, m2: nat, m3: nat, m4: nat)
    requires Visit(code, site, payload, wrapper, m0, m1, m2, m3, m4) && code <= more
    requires m1 <= |code| && m2 <= |code| && m3 <= |code| && m4 <= |code|
    ensures Visit(more, site, payload, wrapper, m0, m1, m2, m3, m4)
  {
    hide Codes, SaveProg, RestoreProg, ParamProg, CallProg;
    CodesGrow(code, more, m0, SaveProg(site.loc, site.Disp()), m1);
    CodesGrow(code, more, m1, ParamProg(site.point, payload), m2);
    CodesGrow(code, more, m2, CallProg(wrapper, site.base + m2), m3);
    CodesGrow(code, more, m3, RestoreProg(site.Disp()), m4);
  }

  class SpSnippet {
    const site: Site
    const blob: array<byte>
    var blob_size: nat
    var pt_ra: nat                 // where the callee returns to, as the context's map records it
    ghost var marks: seq<nat>      // where the parts of the patch area begin

    constructor (site: Site, blob: array<byte>)
      ensures this.site == site && this.blob == blob && blob_size == 0
    {
      this.site, this.blob, blob_size, pt_ra, marks := site, blob, 0, 0, [];
    }

    // The patch area was generated.
    ghost predicate Built()
      reads this, blob
    {
      && 0 < blob_size <= blob.Length && Blob(blob[..blob_size], site, marks)
      && (!site.tailcall ==> pt_ra == site.base + marks[5])
    }

    // Writes bytes at p, after the instructions written since offset.
    method Emit(p: nat, ghost offset: nat, ghost prog: seq<Instr>, bs: seq<byte>, ghost more: seq<Instr>)
      returns (next: nat, ghost longer: seq<Instr>)
      requires offset <= p && p + |bs| <= blob.Length
      requires Codes(blob[..p], offset, prog, p) && Means(bs, more)
      modifies blob
      ensures next == p + |bs| && longer == prog + more && Codes(blob[..next], offset, longer, next)
      ensures blob[..p] == old(blob[..p]) && blob[..offset] == old(blob[..offset])
    {
      hide Decode, Codes, Means;
      ghost var code := blob[..p];
      var k := 0;
      while k < |bs|
        invariant k <= |bs| && blob[..p + k] == code + bs[..k]
      {
        blob[p + k] := bs[k];
        assert bs[..k + 1] == bs[..k] + [bs[k]];
        k := k + 1;
      }
      next := p + |bs|;
      longer := prog + more;
      CodesNext(code, offset, prog, bs, more);
      assert blob[..next] == code + bs;
      assert blob[..p] == code;
      assert blob[..offset] == code[..offset];
    }

    // emit_save_sp
    method EmitSaveSp(offset: nat) returns (size: nat)
      requires offset + 13 <= blob.Length
      modifies blob
      ensures size <= 13 && offset + size <= blob.Length && blob[..offset] == old(blob[..offset])
      ensures Codes(blob[..offset + size], offset, SpDown(site.loc), offset + size)
    {
      hide LE, Decode, Codes, Means;
      CodesNone(blob[..offset], offset);
      DecodeMovImm(false, RAX, site.loc);
      FpBytes();
      var p := offset;
      ghost var prog: seq<Instr> := [];
      p, prog := Emit(p, offset, prog, [0x48, 0xb8] + LE(site.loc, 8), [MovImm(RAX, site.loc)]);
      p, prog := Emit(p, offset, prog, [0x48, 0x89, 0x20], [StoreReg(RAX, RSP)]);
      size := p - offset;
      assert prog == SpDown(site.loc);
    }

    // emitXMMRegsSaveRestore
    method EmitXmmRegsSaveRestore(off: nat, isRestore: bool) returns (size: nat)
      requires off + 40 <= blob.Length
      modifies blob
      ensures size <= 40 && off + size <= blob.Length && blob[..off] == old(blob[..off])
      ensures Codes(blob[..off + size], off, Moves(isRestore, 0), off + size)
    {
      hide Decode, Codes, MoveXmm, Means, Moves, XmmBytes;
      CodesNone(blob[..off], off);
      MovesNone(isRestore);
      var p := off;
      ghost var prog: seq<Instr> := [];
      var xmm_reg := 0;
      while xmm_reg <= 7
        invariant xmm_reg <= 8 && off <= p <= off + 5 * xmm_reg && blob[..off] == old(blob[..off])
        invariant Codes(blob[..p], off, prog, p) && prog + Moves(isRestore, xmm_reg) == Moves(isRestore, 0)
      {
        ghost var i := MoveXmm(isRestore, xmm_reg, 16 * xmm_reg);
        MovesStep(isRestore, xmm_reg, prog);
        XmmMeans(isRestore, xmm_reg);
        var opcode := if isRestore then 0x6f else 0x7f;
        var bs := [0x66, 0x0f, opcode];
        if xmm_reg == 0 {
          bs := bs + [0x00];
        } else {
          var modrm := 0x40 + 0x8 * xmm_reg;
          bs := bs + [modrm, xmm_reg * 16];
        }
        XmmBytesAre(isRestore, xmm_reg, bs);
        p, prog := Emit(p, off, prog, bs, [i]);
        xmm_reg := xmm_reg + 1;
      }
      assert prog + [] == prog;
      size := p - off;
    }

    // emit_save_fp_registers
    method EmitSaveFpRegisters(offset: nat) returns (size: nat)
      requires offset + 58 <= blob.Length
      modifies blob
      ensures size <= 58 && offset + size <= blob.Length && blob[..offset] == old(blob[..offset])
      ensures Codes(blob[..offset + size], offset, FpDown(site.Disp()) + Moves(false, 0) + [Push(RAX)], offset + size)
    {
      hide Decode, Codes, Moves, Means;
      CodesNone(blob[..offset], offset);
      FpBytes();
      var p := offset;
      ghost var prog: seq<Instr> := [];
      var isTailCall := site.tailcall;
      var disp: int := if !isTailCall then 0x78 else 0x70;
      LeaBytes(disp);
      p, prog := Emit(p, offset, prog, [0x48, 0x8d, 0xa4, 0x24, disp, 0xff, 0xff, 0xff], [LeaRsp(disp - 256)]);
      p, prog := Emit(p, offset, prog, [0x48, 0x8b, 0xc4, 0x48, 0x05, 0x08, 0, 0, 0], [MovReg(RAX, RSP), AddRax(8)]);
      assert prog == FpDown(site.Disp());
      ghost var code := blob[..p];
      var n := EmitXmmRegsSaveRestore(p, false);
      assert blob[..offset] == code[..offset];
      CodesAfter(code, blob[..p + n], offset, prog, Moves(false, 0));
      p, prog := Emit(p + n, offset, prog + Moves(false, 0), [0x50], [Push(RAX)]);
      size := p - offset;
    }

    // emit_save, for direct calls
    method EmitSave(offset: nat) returns (size: nat)
      requires offset + 85 <= blob.Length
      modifies blob
      ensures size <= 85 && offset + size <= blob.Length && blob[..offset] == old(blob[..offset])
      ensures Codes(blob[..offset + size], offset, SaveProg(site.loc, site.Disp()), offset + size)
    {
      hide Decode, Codes, Moves, Means, Pushes, FlagsDown, SpDown, FpDown;
      CodesNone(blob[..offset], offset);
      SavedBytes();
      FlagBytes();
      var p := offset;
      ghost var prog: seq<Instr> := [];
      p, prog := Emit(p, offset, prog, [0x57, 0x56, 0x52, 0x51, 0x41, 0x50, 0x41, 0x51, 0x50], Pushes(SAVED));
      p, prog := Emit(p, offset, prog, [0x9f, 0x0f, 0x90, 0xc0, 0x50], FlagsDown());
      ghost var code := blob[..p];
      var n := EmitSaveSp(p);
      CodesAfter(code, blob[..p + n], offset, prog, SpDown(site.loc));
      p, prog := p + n, prog + SpDown(site.loc);
      code := blob[..p];
      n := EmitSaveFpRegisters(p);
      ghost var fp := FpDown(site.Disp()) + Moves(false, 0) + [Push(RAX)];
      CodesAfter(code, blob[..p + n], offset, prog, fp);
      size := p + n - offset;
      assert prog + fp == SaveProg(site.loc, site.Disp());
    }

    // emit_restore_fp_registers
    method EmitRestoreFpRegisters(offset: nat) returns (size: nat)
      requires offset + 58 <= blob.Length
      modifies blob
      ensures size <= 58 && offset + size <= blob.Length && blob[..offset] == old(blob[..offset])
      ensures Codes(blob[..offset + size], offset, FpUp() + Moves(true, 0) + [LeaRsp(site.Disp())], offset + size)
    {
      hide Decode, Codes, Moves, Means;
      CodesNone(blob[..offset], offset);
      FpBytes();
      var p := offset;
      ghost var prog: seq<Instr> := [];
      p, prog := Emit(p, offset, prog, [0x58], [Pop(RAX)]);
      p, prog := Emit(p, offset, prog, [0x48, 0x8b, 0xc4, 0x48, 0x05, 0x08, 0, 0, 0], [MovReg(RAX, RSP), AddRax(8)]);
      assert prog == FpUp();
      ghost var code := blob[..p];
      var n := EmitXmmRegsSaveRestore(p, true);
      assert blob[..offset] == code[..offset];
      CodesAfter(code, blob[..p + n], offset, prog, Moves(true, 0));
      var isTailCall := site.tailcall;
      var disp: int := if !isTailCall then 0x88 else 0x90;
      LeaBytes(disp);
      p, prog := Emit(p + n, offset, prog + Moves(true, 0), [0x48, 0x8d, 0xa4, 0x24, disp, 0, 0, 0], [LeaRsp(disp)]);
      size := p - offset;
    }

    // emit_restore, for direct calls
    method EmitRestore(offset: nat) returns (size: nat)
      requires offset + 72 <= blob.Length
      modifies blob
      ensures size <= 72 && offset + size <= blob.Length && blob[..offset] == old(blob[..offset])
      ensures Codes(blob[..offset + size], offset, RestoreProg(site.Disp()), offset + size)
    {
      hide Decode, Codes, Moves, Means, Pops, FpUp;
      SavedBytes();
      FlagBytes();
      FpBytes();
      var n := EmitRestoreFpRegisters(offset);
      var p := offset + n;
      ghost var prog := FpUp() + Moves(true, 0) + [LeaRsp(site.Disp())];
      p, prog := Emit(p, offset, prog, [0x58], [Pop(RAX)]);
      p, prog := Emit(p, offset, prog, [0x80, 0xc0, 0x7f, 0x9e], [AddAl(0x7f), Sahf]);
      p, prog := Emit(p, offset, prog, [0x58, 0x41, 0x59, 0x41, 0x58, 0x59, 0x5a, 0x5e, 0x5f], Pops(RESTORED));
      size := p - offset;
      assert prog == RestoreProg(site.Disp());
    }

    // emit_pass_param
    method EmitPassParam(point: word, payload: word, offset: nat) returns (size: nat)
      requires offset + 20 <= blob.Length
      modifies blob
      ensures size <= 20 && offset + size <= blob.Length && blob[..offset] == old(blob[..offset])
      ensures Codes(blob[..offset + size], offset, ParamProg(point, payload), offset + size)
    {
      hide LE, Decode, Codes, Means;
      CodesNone(blob[..offset], offset);
      DecodeMovImm(false, RDI, point);
      DecodeMovImm(false, RSI, payload);
      var p := offset;
      ghost var prog: seq<Instr> := [];
      p, prog := Emit(p, offset, prog, [0x48, 0xbf] + LE(point, 8), [MovImm(RDI, point)]);
      if payload != 0 {
        p, prog := Emit(p, offset, prog, [0x48, 0xbe] + LE(payload, 8), [MovImm(RSI, payload)]);
      }
      size := p - offset;
      assert prog == ParamProg(point, payload);
    }

    // emit_push_imm64
    method EmitPushImm64(imm: word, offset: nat) returns (size: nat)
      requires offset + 16 <= blob.Length
      modifies blob
      ensures size == 16 && blob[..offset] == old(blob[..offset])
      ensures Codes(blob[..offset + size], offset, PushImm(imm, 4), offset + size)
    {
      hide LE, Decode, Codes, Means, Piece, PushImm;
      CodesNone(blob[..offset], offset);
      PushImmNone(imm);
      var p := offset;
      ghost var prog: seq<Instr> := [];
      var i := 4;
      while i > 0
        invariant i <= 4 && p == offset + 4 * (4 - i) && blob[..offset] == old(blob[..offset])
        invariant Codes(blob[..p], offset, prog, p) && prog + PushImm(imm, i) == PushImm(imm, 4)
      {
        i := i - 1;
        var piece := Piece(imm, i);
        DecodePush16(piece);
        PushImmStep(imm, i, prog);
        p, prog := Emit(p, offset, prog, [0x66, 0x68] + LE(piece, 2), [PushImm16(piece)]);
      }
      size := p - offset;
      assert prog + [] == prog;
    }

    // emit_call_abs
    method EmitCallAbs(callee: word, offset: nat) returns (size: nat)
      requires offset + 13 <= blob.Length
      modifies blob
      ensures size <= 13 && offset + size <= blob.Length && blob[..offset] == old(blob[..offset])
      ensures Codes(blob[..offset + size], offset, CallProg(callee, site.base + offset), offset + size)
    {
      hide LE, Decode, Codes, Means, IsDisp32;
      CodesNone(blob[..offset], offset);
      FpBytes();
      var p := offset;
      ghost var prog: seq<Instr> := [];
      var retaddr := site.base + p + 5;
      var rel_addr := callee - retaddr;
      if IsDisp32(rel_addr) {
        DecodeRel32(true, rel_addr);
        p, prog := Emit(p, offset, prog, [0xe8] + LE(rel_addr % 0x1_0000_0000, 4), [CallRel(rel_addr)]);
      } else {
        DecodeMovImm(true, 3, callee);
        p, prog := Emit(p, offset, prog, [0x49, 0xbb] + LE(callee, 8), [MovImm(R11, callee)]);
        p, prog := Emit(p, offset, prog, [0x41, 0xff, 0xd3], [CallReg(R11)]);
      }
      size := p - offset;
      assert prog == CallProg(callee, site.base + offset);
    }

    // emit_jump_abs
    method EmitJumpAbs(trg: word, offset: nat, abs: bool) returns (size: nat)
      requires offset + 17 <= blob.Length
      modifies blob
      ensures 0 < size <= 17 && offset + size <= blob.Length && blob[..offset] == old(blob[..offset])
      ensures Codes(blob[..offset + size], offset, JumpProg(trg, site.base + offset, abs), offset + size)
    {
      hide LE, Decode, Codes, Means, IsDisp32, PushImm;
      CodesNone(blob[..offset], offset);
      FpBytes();
      var p := offset;
      ghost var prog: seq<Instr> := [];
      var retaddr := site.base + p + 5;
      var rel_addr := trg - retaddr;
      if IsDisp32(rel_addr) && !abs {
        DecodeRel32(false, rel_addr);
        p, prog := Emit(p, offset, prog, [0xe9] + LE(rel_addr % 0x1_0000_0000, 4), [JmpRel(rel_addr)]);
      } else {
        var insnsize := EmitPushImm64(trg, p);
        p, prog := Emit(p + insnsize, offset, PushImm(trg, 4), [0xc3], [Ret]);
      }
      size := p - offset;
      assert prog == JumpProg(trg, site.base + offset, abs);
    }

    // One visit to a wrapper: save the context, pass the parameters, call, restore.
    method EmitVisit(payload: word, wrapper: word) returns (ghost m1: nat, ghost m2: nat, ghost m3: nat)
      requires blob_size + 190 <= blob.Length && site.base + blob.Length < U64
      modifies this`blob_size, blob
      ensures old(blob_size) <= m1 <= m2 <= m3 <= blob_size <= old(blob_size) + 190
      ensures blob[..old(blob_size)] == old(blob[..blob_size])
      ensures Visit(blob[..blob_size], site, payload, wrapper, old(blob_size), m1, m2, m3, blob_size)
    {
      hide Codes, SaveProg, RestoreProg, ParamProg, CallProg;
      ghost var m0, c0 := blob_size, blob[..blob_size];
      var n := EmitSave(blob_size);
      blob_size := blob_size + n;
      m1 := blob_size;
      ghost var c1 := blob[..m1];
      n := EmitPassParam(site.point, payload, blob_size);
      blob_size := blob_size + n;
      m2 := blob_size;
      ghost var c2 := blob[..m2];
      n := EmitCallAbs(wrapper, blob_size);
      blob_size := blob_size + n;
      m3 := blob_size;
      ghost var c3 := blob[..m3];
      n := EmitRestore(blob_size);
      blob_size := blob_size + n;
      ghost var c4 := blob[..blob_size];
      Nested(c0, c1, c2, c3, c4);
      CodesGrow(c1, c4, m0, SaveProg(site.loc, site.Disp()), m1);
      CodesGrow(c2, c4, m1, ParamProg(site.point, payload), m2);
      CodesGrow(c3, c4, m2, CallProg(wrapper, site.base + m2), m3);
    }

    // BuildBlob, for direct calls
    method BuildBlob()
      requires blob_size == 0 || Built()
      requires 512 <= blob.Length && site.base + blob.Length < U64
      modifies this`blob_size, this`pt_ra, this`marks, blob
      ensures Built()
      ensures old(blob_size) > 0 ==> blob_size == old(blob_size) && blob[..] == old(blob[..])
    {
      if blob_size > 0 {
        return;
      }
      hide Visit, Blob;
      ghost var m1, m2, m3 := EmitVisit(site.entry, site.wrapper_entry);
      if site.tailcall {
        BuildTail(m1, m2, m3);
      } else {
        BuildCall(m1, m2, m3);
      }
    }

    // BuildBlob, case 5.1: jump to the callee.
    method BuildTail(ghost m1: nat, ghost m2: nat, ghost m3: nat)
      requires site.tailcall && blob_size + 17 <= blob.Length && m1 <= m2 <= m3 <= blob_size
      requires Visit(blob[..blob_size], site, site.entry, site.wrapper_entry, 0, m1, m2, m3, blob_size)
      modifies this`blob_size, this`marks, blob
      ensures Built()
    {
      hide Codes, Visit, JumpProg, CallProg;
      ghost var m4, c4 := blob_size, blob[..blob_size];
      var n := EmitJumpAbs(site.callee, blob_size, false);
      blob_size := blob_size + n;
      marks := [0, m1, m2, m3, m4, blob_size];
      VisitGrow(c4, blob[..blob_size], site, site.entry, site.wrapper_entry, 0, m1, m2, m3, m4);
    }

    // BuildBlob, case 5.2: call the callee, visit the exit wrapper, jump back.
    method BuildCall(ghost m1: nat, ghost m2: nat, ghost m3: nat)
      requires !site.tailcall && m1 <= m2 <= m3 <= blob_size && blob_size + 220 <= blob.Length
               && site.base + blob.Length < U64
      requires Visit(blob[..blob_size], site, site.entry, site.wrapper_entry, 0, m1, m2, m3, blob_size)
      modifies this`blob_size, this`pt_ra, this`marks, blob
      ensures Built()
    {
      hide Codes, Visit, JumpProg, CallProg;
      ghost var m4, c4 := blob_size, blob[..blob_size];
      var n := EmitCallAbs(site.callee, blob_size);
      blob_size := blob_size + n;
      pt_ra := site.base + blob_size;
      ghost var m5, c5 := blob_size, blob[..blob_size];
      ghost var m6, m7, m8 := EmitVisit(site.exit, site.wrapper_exit);
      ghost var m9, c9 := blob_size, blob[..blob_size];
      n := EmitJumpAbs(site.ret_addr, blob_size, false);
      blob_size := blob_size + n;
      ghost var c10 := blob[..blob_size];
      marks := [0, m1, m2, m3, m4, m5, m6, m7, m8, m9, blob_size];
      Nested(c4, c4, c5, c9, c10);
      VisitGrow(c4, c10, site, site.entry, site.wrapper_entry, 0, m1, m2, m3, m4);
      CodesGrow(c5, c10, m4, CallProg(site.callee, site.base + m4), m5);
      VisitGrow(c9, c10, site, site.exit, site.wrapper_exit, m5, m6, m7, m8, m9);
    }
  }

  lemma {:induction false} Nested(a: seq<byte>, b: seq<byte>, c: seq<byte>, d: seq<byte>, e: seq<byte>)
    requires a <= b <= c <= d <= e
    ensures a <= e && b <= e && c <= e && a == e[..|a|]
  {
  }
}
