/** The part of an x86-64 processor that patch areas use: sixteen registers, xmm0 to xmm7, the status flags,
    a memory of bytes, and the instructions the code generator emits. Execution stops with None where the
    processor would raise a fault. */
module Machine {
  import opened Prelude

  type word = x: int | 0 <= x < U64

  // ---- little-endian numbers ----

  function Pow256(n: nat): (p: nat)
    ensures p > 0
  {
    if n == 0 then 1 else 256 * Pow256(n - 1)
  }

  function LE(v: nat, n: nat): (bs: seq<byte>)
    ensures |bs| == n
  {
    if n == 0 then [] else [v % 256] + LE(v / 256, n - 1)
  }

  function Val(bs: seq<byte>): (v: nat)
    ensures v < Pow256(|bs|)
  {
    if bs == [] then 0 else bs[0] + 256 * Val(bs[1..])
  }

  lemma {:induction false} ValLE(v: nat, n: nat)
    requires v < Pow256(n)
    ensures Val(LE(v, n)) == v
  {
    if n > 0 {
      ValLE(v / 256, n - 1);
      assert LE(v, n)[1..] == LE(v / 256, n - 1);
    }
  }

  lemma {:induction false} Pow256Values()
    ensures Pow256(2) == 0x1_0000 && Pow256(4) == 0x1_0000_0000 && Pow256(8) == U64
  {
    assert Pow256(2) == 0x1_0000;
    assert Pow256(4) == 0x1_0000_0000;
    assert Pow256(6) == 0x1_0000_0000_0000;
  }

  // The low sixteen bits followed by the rest.
  lemma {:induction false} LESplit(v: nat, n: nat)
    ensures LE(v, n + 2) == LE(v % 0x1_0000, 2) + LE(v / 0x1_0000, n)
  {
    var w := v % 0x1_0000;
    Halves(v);
    LETwo(w);
    assert LE(v, n + 2) == [v % 256] + LE(v / 256, n + 1);
    assert LE(v / 256, n + 1) == [v / 256 % 256] + LE(v / 256 / 256, n);
  }

  lemma {:induction false} LETwo(w: nat)
    ensures LE(w, 2) == [w % 256, w / 256 % 256]
  {
    assert LE(w / 256 / 256, 0) == [];
    assert LE(w / 256, 1) == [w / 256 % 256] + LE(w / 256 / 256, 0);
    assert LE(w, 2) == [w % 256] + LE(w / 256, 1);
  }

  lemma {:induction false} Halves(v: nat)
    ensures var w := v % 0x1_0000; w % 256 == v % 256 && w / 256 % 256 == v / 256 % 256 && v / 256 / 256 == v / 0x1_0000
  {
    var q, w := v / 0x1_0000, v % 0x1_0000;
    var a, b := w / 256, w % 256;
    DivModUnique(v, 256, 256 * q + a, b);
    DivModUnique(256 * q + a, 256, q, a);
    DivModUnique(a, 256, 0, a);
  }

  function Word(bs: seq<byte>): word
    requires |bs| == 8
  {
    Pow256Values();
    Val(bs)
  }

  function Signed(v: nat, n: nat): int {
    if 2 * v >= Pow256(n) then v - Pow256(n) else v
  }

  // ---- state ----

  const RAX: nat := 0
  const RCX: nat := 1
  const RDX: nat := 2
  const RBX: nat := 3
  const RSP: nat := 4
  const RBP: nat := 5
  const RSI: nat := 6
  const RDI: nat := 7
  const R8: nat := 8
  const R9: nat := 9
  const R10: nat := 10
  const R11: nat := 11

  type Regs = r: seq<word> | |r| == 16 witness seq(16, _ => 0)
  type Xmms = x: seq<seq<byte>> | |x| == 8
    && (forall i :: 0 <= i < 8 ==> |x[i]| == 16) witness seq(8, _ => seq(16, _ => 0))

  datatype Flags = Flags(sf: bool, zf: bool, af: bool, pf: bool, cf: bool, of: bool)

  datatype State = State(reg: Regs, xmm: Xmms, flags: Flags, mem: int -> byte, rip: int)

  function Get(mem: int -> byte, a: int, n: nat): (bs: seq<byte>)
    ensures |bs| == n
  {
    seq(n, i => mem(a + i))
  }

  function Put(mem: int -> byte, a: int, bs: seq<byte>): int -> byte {
    x => if a <= x < a + |bs| then bs[x - a] else mem(x)
  }

  lemma {:induction false} GetPut(mem: int -> byte, a: int, bs: seq<byte>)
    ensures Get(Put(mem, a, bs), a, |bs|) == bs
  {
  }

  // The two memories agree on [lo, hi).
  ghost predicate Agree(m: int -> byte, w: int -> byte, lo: int, hi: int) {
    forall x :: lo <= x < hi ==> m(x) == w(x)
  }

  lemma {:induction false} GetAgree(m: int -> byte, w: int -> byte, lo: int, hi: int, a: int, n: nat)
    requires Agree(m, w, lo, hi) && lo <= a && a + n <= hi
    ensures Get(m, a, n) == Get(w, a, n)
  {
  }

  lemma {:induction false} GetConcat(m: int -> byte, a: int, n: nat, k: nat)
    ensures Get(m, a, n + k) == Get(m, a, n) + Get(m, a + n, k)
  {
  }

  // ---- flags ----

  function Parity(v: nat): bool
  {
    if v == 0 then true else (v % 2 == 0) == Parity(v / 2)
  }

  // The flags after an addition of operands of n bytes.
  function AddFlags(a: nat, b: nat, n: nat): Flags {
    var v := (a + b) % Pow256(n);
    Flags(2 * v >= Pow256(n), v == 0, a % 16 + b % 16 >= 16, Parity(v % 256), a + b >= Pow256(n),
          (2 * a >= Pow256(n)) == (2 * b >= Pow256(n)) && (2 * v >= Pow256(n)) != (2 * a >= Pow256(n)))
  }

  function Bit(b: bool, v: nat): nat {
    if b then v else 0
  }

  // lahf and sahf: SF ZF - AF - PF 1 CF
  function FlagByte(f: Flags): byte {
    Bit(f.sf, 128) + Bit(f.zf, 64) + Bit(f.af, 16) + Bit(f.pf, 4) + 2 + Bit(f.cf, 1)
  }

  function FromByte(b: byte, of: bool): Flags {
    Flags(b / 128 % 2 == 1, b / 64 % 2 == 1, b / 16 % 2 == 1, b / 4 % 2 == 1, b % 2 == 1, of)
  }

  lemma {:induction false} FlagsBack(f: Flags, of: bool)
    ensures FromByte(FlagByte(f), of) == f.(of := of)
  {
  }

  // %al and %ah
  function Low(v: word): byte {
    v % 256
  }

  function High(v: word): byte {
    v / 256 % 256
  }

  function WithLow(v: word, b: byte): word {
    v / 256 * 256 + b
  }

  function WithHigh(v: word, b: byte): word {
    v / 0x1_0000 * 0x1_0000 + b * 256 + v % 256
  }

  lemma {:induction false} WithParts(v: word, h: byte, l: byte)
    ensures var w := WithLow(WithHigh(v, h), l); High(w) == h && Low(w) == l
  {
    var u := WithHigh(v, h);
    assert u == (v / 0x1_0000 * 256 + h) * 256 + v % 256;
    assert u / 256 == v / 0x1_0000 * 256 + h;
  }

  // add $0x7f, %al after seto %al brings the overflow flag back.
  lemma {:induction false} OverflowBack(of: bool)
    ensures AddFlags(Bit(of, 1), 0x7f, 1).of == of
  {
    assert Pow256(1) == 256;
  }

  // ---- instructions ----

  datatype Instr =
    | Push(r: nat) | Pop(r: nat) | PushImm16(w: nat)
    | Lahf | Sahf | SetoAl | AddAl(b: byte)
    | MovImm(r: nat, v: word) | MovReg(d: nat, s: nat) | StoreReg(base: nat, s: nat)
    | LeaRsp(disp: int) | AddRax(imm: int)
    | SaveXmm(x: nat, disp: int) | LoadXmm(x: nat, disp: int)
    | CallRel(rel: int) | CallReg(r: nat) | JmpRel(rel: int) | Ret
  {
    predicate Fits() {
      match this
      case Push(r) => r < 16
      case Pop(r) => r < 16
      case PushImm16(w) => w < 0x1_0000
      case MovImm(r, _) => r < 16
      case MovReg(d, s) => d < 16 && s < 16
      case StoreReg(b, s) => b < 16 && s < 16
      case SaveXmm(x, _) => x < 8
      case LoadXmm(x, _) => x < 8
      case CallReg(r) => r < 16
      case _ => true
    }

    // Whether control falls through to the next instruction.
    predicate Plain() {
      !(CallRel? || CallReg? || JmpRel? || Ret?)
    }
  }

  // Pushing bytes moves %rsp down by their number.
  function PushBytes(s: State, bs: seq<byte>): Option<State> {
    var a := s.reg[RSP] - |bs|;
    if a < 0 then None else Some(s.(reg := s.reg[RSP := a], mem := Put(s.mem, a, bs)))
  }

  // One instruction; rip is already that of the next.
  function Exec(i: Instr, s: State): Option<State>
    requires i.Fits()
  {
    var rax, rsp := s.reg[RAX], s.reg[RSP];
    match i
    case Push(r) => PushBytes(s, LE(s.reg[r], 8))
    case PushImm16(w) => PushBytes(s, LE(w, 2))
    case Pop(r) =>
      if rsp + 8 >= U64 then None else
        Some(s.(reg := s.reg[RSP := rsp + 8][r := Word(Get(s.mem, rsp, 8))]))
    case Lahf => Some(s.(reg := s.reg[RAX := WithHigh(rax, FlagByte(s.flags))]))
    case Sahf => Some(s.(flags := FromByte(High(rax), s.flags.of)))
    case SetoAl => Some(s.(reg := s.reg[RAX := WithLow(rax, Bit(s.flags.of, 1))]))
    case AddAl(b) => Some(s.(reg := s.reg[RAX := WithLow(rax, (Low(rax) + b) % 256)],
      flags := AddFlags(Low(rax), b, 1)))
    case MovImm(r, v) => Some(s.(reg := s.reg[r := v]))
    case MovReg(d, r) => Some(s.(reg := s.reg[d := s.reg[r]]))
    case StoreReg(b, r) => if s.reg[b] + 8 > U64 then None else Some(s.(mem := Put(s.mem, s.reg[b], LE(s.reg[r], 8))))
    case LeaRsp(disp) => if 0 <= rsp + disp < U64 then Some(s.(reg := s.reg[RSP := rsp + disp])) else None
    case AddRax(imm) =>
      Some(s.(reg := s.reg[RAX := (rax + imm) % U64], flags := AddFlags(rax, imm % U64, 8)))
    case SaveXmm(x, disp) =>
      if (rax + disp) % 16 != 0 then None else Some(s.(mem := Put(s.mem, rax + disp, s.xmm[x])))
    case LoadXmm(x, disp) =>
      if (rax + disp) % 16 != 0 then None else Some(s.(xmm := s.xmm[x := Get(s.mem, rax + disp, 16)]))
    case CallRel(rel) => Called(s, s.rip + rel)
    case CallReg(r) => Called(s, s.reg[r])
    case JmpRel(rel) => Some(s.(rip := s.rip + rel))
    case Ret =>
      if rsp + 8 >= U64 then None else
        Some(s.(reg := s.reg[RSP := rsp + 8], rip := Word(Get(s.mem, rsp, 8))))
  }

  function Called(s: State, target: int): Option<State> {
    if !(0 <= s.rip < U64) then None else
      match PushBytes(s, LE(s.rip, 8))
      case None => None
      case Some(t) => Some(t.(rip := target))
  }

  // ---- decoding ----

  function Imm(code: seq<byte>, at: nat, n: nat): (v: nat)
    requires at + n <= |code|
    ensures v < Pow256(n)
  {
    Val(code[at..at + n])
  }

  function SignedImm(code: seq<byte>, at: nat, n: nat): int
    requires at + n <= |code|
  {
    Signed(Imm(code, at, n), n)
  }

  // The instruction at an offset and the offset of the next.
  function Decode(code: seq<byte>, at: nat): (r: Option<(Instr, nat)>)
    ensures r.Some? ==> r.value.0.Fits() && at < r.value.1 <= |code|
  {
    if at >= |code| then None else
      var b := code[at];
      if 0x50 <= b < 0x58 then Some((Push(b - 0x50), at + 1))
      else if 0x58 <= b < 0x60 then Some((Pop(b - 0x58), at + 1))
      else if b == 0x9f then Some((Lahf, at + 1))
      else if b == 0x9e then Some((Sahf, at + 1))
      else if b == 0xc3 then Some((Ret, at + 1))
      else if b == 0xe8 then if at + 5 <= |code| then Some((CallRel(SignedImm(code, at + 1, 4)), at + 5)) else None
      else if b == 0xe9 then if at + 5 <= |code| then Some((JmpRel(SignedImm(code, at + 1, 4)), at + 5)) else None
      else if b == 0x0f then if at + 3 <= |code| && code[at + 1] == 0x90
        && code[at + 2] == 0xc0 then Some((SetoAl, at + 3)) else None
      else if b == 0x80 then if at + 3 <= |code| && code[at + 1] == 0xc0 then Some((AddAl(code[at + 2]), at + 3))
        else None
      else if b == 0x41 then DecodeB(code, at)
      else if b == 0x48 then DecodeW(code, at)
      else if b == 0x49 then DecodeMov(code, at, 8)
      else if b == 0x66 then Decode66(code, at)
      else None
  }

  // REX.B
  function DecodeB(code: seq<byte>, at: nat): (r: Option<(Instr, nat)>)
    requires at < |code|
    ensures r.Some? ==> r.value.0.Fits() && at < r.value.1 <= |code|
  {
    if at + 2 > |code| then None else
      var b := code[at + 1];
      if 0x50 <= b < 0x58 then Some((Push(8 + b - 0x50), at + 2))
      else if 0x58 <= b < 0x60 then Some((Pop(8 + b - 0x58), at + 2))
      else if b == 0xff && at + 3 <= |code|
        && 0xd0 <= code[at + 2] < 0xd8 then Some((CallReg(8 + code[at + 2] - 0xd0), at + 3))
      else None
  }

  // REX.W
  function DecodeW(code: seq<byte>, at: nat): (r: Option<(Instr, nat)>)
    requires at < |code|
    ensures r.Some? ==> r.value.0.Fits() && at < r.value.1 <= |code|
  {
    if at + 3 > |code| then None else
      var b, m := code[at + 1], code[at + 2];
      if b == 0x89 && m < 0x40 && m % 8 != 4 && m % 8 != 5 then Some((StoreReg(m % 8, m / 8), at + 3))
      else if b == 0x8b && m >= 0xc0 then Some((MovReg(m / 8 % 8, m % 8), at + 3))
      else if b == 0x05 && at + 6 <= |code| then Some((AddRax(SignedImm(code, at + 2, 4)), at + 6))
      else if b == 0x8d && m == 0xa4 && at + 8 <= |code|
        && code[at + 3] == 0x24 then Some((LeaRsp(SignedImm(code, at + 4, 4)), at + 8))
      else DecodeMov(code, at, 0)
  }

  // mov $imm64, %r
  function DecodeMov(code: seq<byte>, at: nat, high: nat): (r: Option<(Instr, nat)>)
    requires at < |code| && (high == 0 || high == 8)
    ensures r.Some? ==> r.value.0.Fits() && at < r.value.1 <= |code|
  {
    if at + 10 <= |code| && 0xb8 <= code[at + 1] < 0xc0
    then Some((MovImm(high + code[at + 1] - 0xb8, Word(code[at + 2..at + 10])), at + 10))
    else None
  }

  // Operand-size prefix: push of 16 bits, and aligned moves of xmm registers to and from (%rax).
  function Decode66(code: seq<byte>, at: nat): (r: Option<(Instr, nat)>)
    requires at < |code|
    ensures r.Some? ==> r.value.0.Fits() && at < r.value.1 <= |code|
  {
    if at + 4 > |code| then None
    else if code[at + 1] == 0x68 then Pow256Values(); Some((PushImm16(Imm(code, at + 2, 2)), at + 4))
    else if code[at + 1] == 0x0f && (code[at + 2] == 0x6f || code[at + 2] == 0x7f) then
      var m := code[at + 3];
      if m < 0x40 && m % 8 == 0 then Some((MoveXmm(code[at + 2] == 0x6f, m / 8, 0), at + 4))
      else if 0x40 <= m < 0x80 && m % 8 == 0 && at + 5 <= |code| then
        Some((MoveXmm(code[at + 2] == 0x6f, m / 8 - 8, SignedImm(code, at + 4, 1)), at + 5))
      else None
    else None
  }

  function MoveXmm(load: bool, x: nat, disp: int): Instr {
    if load then LoadXmm(x, disp) else SaveXmm(x, disp)
  }

  // ---- programs ----

  // The bytes from at to end are exactly these instructions.
  ghost predicate Codes(code: seq<byte>, at: nat, prog: seq<Instr>, end: nat)
    decreases |prog|
  {
    if prog == [] then at == end else
      && Decode(code, at).Some? && Decode(code, at).value.0 == prog[0]
      && Codes(code, Decode(code, at).value.1, prog[1..], end)
  }

  lemma {:induction false} CodesConcat(code: seq<byte>, at: nat, p: seq<Instr>, mid: nat, q: seq<Instr>, end: nat)
    requires Codes(code, at, p, mid) && Codes(code, mid, q, end)
    ensures Codes(code, at, p + q, end)
    decreases |p|
  {
    hide Decode;
    if p == [] {
      assert p + q == q;
    } else {
      CodesConcat(code, Decode(code, at).value.1, p[1..], mid, q, end);
      assert (p + q)[1..] == p[1..] + q;
    }
  }

  // Code does not change its meaning when more is written after it.
  lemma {:induction false} CodesGrow(code: seq<byte>, more: seq<byte>, at: nat, p: seq<Instr>, end: nat)
    requires Codes(code, at, p, end) && end <= |code| && code <= more
    ensures Codes(more, at, p, end)
    decreases |p|
  {
    hide Decode;
    if p != [] {
      DecodeGrow(code, more, at);
      CodesGrow(code, more, Decode(code, at).value.1, p[1..], end);
    }
  }

  lemma {:induction false} DecodeGrow(code: seq<byte>, more: seq<byte>, at: nat)
    requires code <= more && Decode(code, at).Some?
    ensures Decode(more, at) == Decode(code, at)
  {
    assert forall i, j :: 0 <= i <= j <= |code| ==> more[i..j] == code[i..j];
  }

  // Running instructions one after the other, with rip left alone.
  function Run(prog: seq<Instr>, s: State): Option<State>
    requires forall i :: 0 <= i < |prog| ==> prog[i].Fits()
  {
    if prog == [] then Some(s) else
      match Exec(prog[0], s)
      case None => None
      case Some(t) => Run(prog[1..], t)
  }

  lemma {:induction false} RunConcat(p: seq<Instr>, q: seq<Instr>, s: State)
    requires (forall i :: 0 <= i < |p| ==> p[i].Fits()) && (forall i :: 0 <= i < |q| ==> q[i].Fits())
    ensures Run(p + q, s) == if Run(p, s).None? then None else Run(q, Run(p, s).value)
    decreases |p|
  {
    hide Exec;
    if p == [] {
      assert p + q == q;
    } else {
      assert (p + q)[1..] == p[1..] + q;
      if Exec(p[0], s).Some? {
        RunConcat(p[1..], q, Exec(p[0], s).value);
      }
    }
  }

  // One step of a processor whose instructions lie at base.
  function Step(code: seq<byte>, base: nat, s: State): Option<State> {
    if s.rip < base then None else
      match Decode(code, s.rip - base)
      case None => None
      case Some((i, next)) => Exec(i, s.(rip := base + next))
  }

  function Steps(code: seq<byte>, base: nat, s: State, n: nat): Option<State>
    decreases n
  {
    if n == 0 then Some(s) else
      match Step(code, base, s)
      case None => None
      case Some(t) => Steps(code, base, t, n - 1)
  }

  // Whether the processor gets from one state to another.
  ghost predicate Reaches(code: seq<byte>, base: nat, s: State, t: State) {
    exists n: nat :: Steps(code, base, s, n) == Some(t)
  }
}
