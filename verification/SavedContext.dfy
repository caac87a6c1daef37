/** The context a patch area saves before it calls a payload and restores afterwards: argument registers,
    %rax, the status flags and xmm0 to xmm7. */
module SavedContext {
  import opened Prelude
  import opened Machine

  function Reg(s: State, r: nat): int
    requires r < 16
  {
    s.reg[r]
  }

  // ---- one instruction at a time ----

  lemma {:induction false} RunFirst(i: Instr, p: seq<Instr>, s: State)
    requires i.Fits() && Fit(p)
    ensures Fit([i] + p)
    ensures Run([i] + p, s) == if Exec(i, s).None? then None else Run(p, Exec(i, s).value)
  {
    hide Exec;
    assert ([i] + p)[1..] == p;
  }

  lemma {:induction false} RunNone(s: State)
    ensures Run([], s) == Some(s) && Fit([])
  {
  }

  lemma {:induction false} ExecPush(r: nat, s: State) returns (t: State)
    requires r < 16 && Reg(s, RSP) >= 8
    ensures Exec(Push(r), s) == Some(t)
    ensures t == s.(reg := s.reg[RSP := Reg(s, RSP) - 8], mem := t.mem)
    ensures Get(t.mem, Reg(s, RSP) - 8, 8) == LE(s.reg[r], 8) && OnlyIn(s.mem, t.mem, Reg(s, RSP) - 8, Reg(s, RSP))
  {
    hide LE;
    t := Exec(Push(r), s).value;
    GetPut(s.mem, Reg(s, RSP) - 8, LE(s.reg[r], 8));
  }

  lemma {:induction false} ExecPop(r: nat, s: State) returns (t: State)
    requires r < 16 && Reg(s, RSP) + 8 < U64
    ensures Exec(Pop(r), s) == Some(t)
    ensures t == s.(reg := s.reg[RSP := Reg(s, RSP) + 8][r := Word(Get(s.mem, Reg(s, RSP), 8))])
  {
    t := Exec(Pop(r), s).value;
  }

  lemma {:induction false} ExecSave(i: nat, s: State) returns (t: State)
    requires i < 8 && Reg(s, RAX) % 16 == 0
    ensures Exec(MoveXmm(false, i, 16 * i), s) == Some(t) && t == s.(mem := t.mem)
    ensures Get(t.mem, Reg(s, RAX) + 16 * i, 16) == s.xmm[i]
    ensures OnlyIn(s.mem, t.mem, Reg(s, RAX) + 16 * i, Reg(s, RAX) + 16 * i + 16)
  {
    assert (Reg(s, RAX) + 16 * i) % 16 == 0;
    t := Exec(SaveXmm(i, 16 * i), s).value;
    GetPut(s.mem, Reg(s, RAX) + 16 * i, s.xmm[i]);
  }

  lemma {:induction false} ExecLoad(i: nat, s: State) returns (t: State)
    requires i < 8 && Reg(s, RAX) % 16 == 0
    ensures Exec(MoveXmm(true, i, 16 * i), s) == Some(t)
    ensures t == s.(xmm := s.xmm[i := Get(s.mem, Reg(s, RAX) + 16 * i, 16)])
  {
    assert (Reg(s, RAX) + 16 * i) % 16 == 0;
    t := Exec(LoadXmm(i, 16 * i), s).value;
  }

  // ---- lists of instructions ----

  // In the order they are pushed.
  const SAVED: seq<nat> := [RDI, RSI, RDX, RCX, R8, R9, RAX]
  const RESTORED: seq<nat> := [RAX, R9, R8, RCX, RDX, RSI, RDI]

  function Pushes(l: seq<nat>): seq<Instr> {
    if l == [] then [] else [Push(l[0])] + Pushes(l[1..])
  }

  function Pops(l: seq<nat>): seq<Instr> {
    if l == [] then [] else [Pop(l[0])] + Pops(l[1..])
  }

  // Moves of xmm registers i to 7 to or from (%rax).
  function Moves(load: bool, i: nat): seq<Instr>
    requires i <= 8
    decreases 8 - i
  {
    if i == 8 then [] else [MoveXmm(load, i, 16 * i)] + Moves(load, i + 1)
  }

  ghost predicate Fit(p: seq<Instr>) {
    forall i :: 0 <= i < |p| ==> p[i].Fits()
  }

  ghost predicate AllRegs(l: seq<nat>) {
    forall i :: 0 <= i < |l| ==> l[i] < 16 && l[i] != RSP
  }

  // The memories differ at most in [lo, hi).
  ghost predicate OnlyIn(m: int -> byte, w: int -> byte, lo: int, hi: int) {
    forall x :: x < lo || hi <= x ==> m(x) == w(x)
  }

  // Register number i of the list lies i + 1 words below the old %rsp.
  ghost predicate Pushed(mem: int -> byte, rsp: int, reg: Regs, l: seq<nat>)
    requires AllRegs(l)
  {
    forall i :: 0 <= i < |l| ==> Get(mem, rsp - 8 * (i + 1), 8) == LE(reg[l[i]], 8)
  }

  lemma {:induction false} PushesRun(l: seq<nat>, s: State) returns (t: State)
    requires AllRegs(l) && Reg(s, RSP) >= 8 * |l|
    ensures Fit(Pushes(l)) && Run(Pushes(l), s) == Some(t)
    ensures t == s.(reg := s.reg[RSP := Reg(s, RSP) - 8 * |l|], mem := t.mem)
    ensures Pushed(t.mem, Reg(s, RSP), s.reg, l) && OnlyIn(s.mem, t.mem, Reg(s, RSP) - 8 * |l|, Reg(s, RSP))
    decreases |l|
  {
    hide Exec, Run, Fit, Get, LE;
    if l == [] {
      t := s;
      RunNone(s);
      assert s.reg[RSP := Reg(s, RSP)] == s.reg;
    } else {
      var rsp := Reg(s, RSP);
      var u := ExecPush(l[0], s);
      t := PushesRun(l[1..], u);
      RunFirst(Push(l[0]), Pushes(l[1..]), s);
      GetAgree(t.mem, u.mem, rsp - 8, rsp, rsp - 8, 8);
      forall i | 0 <= i < |l|
        ensures Get(t.mem, rsp - 8 * (i + 1), 8) == LE(s.reg[l[i]], 8)
      {
        if i > 0 {
          assert l[i] == l[1..][i - 1];
        }
      }
    }
  }

  lemma {:induction false} PopsRun(l: seq<nat>, s: State) returns (t: State)
    requires AllRegs(l) && (forall i, j :: 0 <= i < j < |l| ==> l[i] != l[j]) && Reg(s, RSP) + 8 * |l| < U64
    ensures Fit(Pops(l)) && Run(Pops(l), s) == Some(t)
    ensures t == s.(reg := t.reg) && Reg(t, RSP) == Reg(s, RSP) + 8 * |l|
    ensures forall i :: 0 <= i < |l| ==> t.reg[l[i]] == Word(Get(s.mem, Reg(s, RSP) + 8 * i, 8))
    ensures forall r :: 0 <= r < 16 && r != RSP && r !in l ==> t.reg[r] == s.reg[r]
    decreases |l|
  {
    hide Exec, Run, Fit, Get, Word;
    if l == [] {
      t := s;
      RunNone(s);
    } else {
      var u := ExecPop(l[0], s);
      t := PopsRun(l[1..], u);
      RunFirst(Pop(l[0]), Pops(l[1..]), s);
      forall i | 0 <= i < |l|
        ensures t.reg[l[i]] == Word(Get(s.mem, Reg(s, RSP) + 8 * i, 8))
      {
        if i > 0 {
          assert l[i] == l[1..][i - 1];
        }
      }
    }
  }

  // The xmm registers from i on lie in memory from f on.
  ghost predicate XmmSaved(mem: int -> byte, f: int, xmm: Xmms, i: nat) {
    forall j :: i <= j < 8 ==> Get(mem, f + 16 * j, 16) == xmm[j]
  }

  lemma {:induction false} SavesRun(i: nat, s: State) returns (t: State)
    requires i <= 8 && Reg(s, RAX) % 16 == 0
    ensures Fit(Moves(false, i)) && Run(Moves(false, i), s) == Some(t)
    ensures t == s.(mem := t.mem)
    ensures XmmSaved(t.mem, Reg(s, RAX), s.xmm, i) && OnlyIn(s.mem, t.mem, Reg(s, RAX) + 16 * i, Reg(s, RAX) + 128)
    decreases 8 - i
  {
    hide Exec, Run, Fit, Get, MoveXmm;
    if i == 8 {
      t := s;
      RunNone(s);
    } else {
      var u := ExecSave(i, s);
      t := SavesRun(i + 1, u);
      SaveFits(false, i);
      RunFirst(MoveXmm(false, i, 16 * i), Moves(false, i + 1), s);
      GetAgree(t.mem, u.mem, Reg(s, RAX) + 16 * i, Reg(s, RAX) + 16 * i + 16, Reg(s, RAX) + 16 * i, 16);
    }
  }

  lemma {:induction false} SaveFits(load: bool, i: nat)
    requires i < 8
    ensures MoveXmm(load, i, 16 * i).Fits()
  {
  }

  lemma {:induction false} LoadsRun(i: nat, s: State) returns (t: State)
    requires i <= 8 && Reg(s, RAX) % 16 == 0
    ensures Fit(Moves(true, i)) && Run(Moves(true, i), s) == Some(t)
    ensures t == s.(xmm := t.xmm) && XmmSaved(s.mem, Reg(s, RAX), t.xmm, i)
    ensures forall j :: 0 <= j < i ==> t.xmm[j] == s.xmm[j]
    decreases 8 - i
  {
    hide Exec, Run, Fit, Get, MoveXmm;
    if i == 8 {
      t := s;
      RunNone(s);
    } else {
      var u := ExecLoad(i, s);
      t := LoadsRun(i + 1, u);
      SaveFits(true, i);
      RunFirst(MoveXmm(true, i, 16 * i), Moves(true, i + 1), s);
    }
  }

  // ---- what is saved where ----

  // ctx is the value the stack pointer is recorded with: the registers lie above it, the flags at it.
  ghost predicate FlagsSaved(mem: int -> byte, ctx: int, f: Flags) {
    var w := Word(Get(mem, ctx, 8));
    High(w) == FlagByte(f) && Low(w) == Bit(f.of, 1)
  }

  // The context of state o, with the xmm registers disp - 8 below ctx.
  ghost predicate Context(mem: int -> byte, ctx: int, disp: nat, o: State) {
    && AllRegs(SAVED) && Pushed(mem, ctx + 64, o.reg, SAVED)
    && FlagsSaved(mem, ctx, o.flags)
    && XmmSaved(mem, ctx - disp + 8, o.xmm, 0)
  }

  lemma {:induction false} PushedAgree(m: int -> byte, w: int -> byte, rsp: int, reg: Regs, l: seq<nat>)
    requires AllRegs(l) && Pushed(m, rsp, reg, l) && Agree(m, w, rsp - 8 * |l|, rsp)
    ensures Pushed(w, rsp, reg, l)
  {
    hide Get, Agree;
    forall i | 0 <= i < |l|
      ensures Get(w, rsp - 8 * (i + 1), 8) == LE(reg[l[i]], 8)
    {
      GetAgree(m, w, rsp - 8 * |l|, rsp, rsp - 8 * (i + 1), 8);
    }
  }

  lemma {:induction false} XmmAgree(m: int -> byte, w: int -> byte, f: int, xmm: Xmms)
    requires XmmSaved(m, f, xmm, 0) && Agree(m, w, f, f + 128)
    ensures XmmSaved(w, f, xmm, 0)
  {
    hide Get, Agree;
    forall j | 0 <= j < 8
      ensures Get(w, f + 16 * j, 16) == xmm[j]
    {
      GetAgree(m, w, f, f + 128, f + 16 * j, 16);
    }
  }

  lemma {:induction false} ContextAgree(m: int -> byte, w: int -> byte, ctx: int, disp: nat, o: State)
    requires Context(m, ctx, disp, o) && Agree(m, w, ctx - disp, ctx + 64) && disp >= 136
    ensures Context(w, ctx, disp, o)
  {
    hide Get, Word;
    PushedAgree(m, w, ctx + 64, o.reg, SAVED);
    XmmAgree(m, w, ctx - disp + 8, o.xmm);
    GetAgree(m, w, ctx - disp, ctx + 64, ctx, 8);
  }

  // ---- saving ----

  function FlagsDown(): seq<Instr> {
    [Lahf, SetoAl, Push(RAX)]
  }

  function SpDown(loc: word): seq<Instr> {
    [MovImm(RAX, loc), StoreReg(RAX, RSP)]
  }

  function FpDown(disp: int): seq<Instr> {
    [LeaRsp(-disp), MovReg(RAX, RSP), AddRax(8)]
  }

  function SaveProg(loc: word, disp: int): seq<Instr> {
    Pushes(SAVED) + FlagsDown() + SpDown(loc) + FpDown(disp) + Moves(false, 0) + [Push(RAX)]
  }

  lemma {:induction false} RunTwo(i: Instr, j: Instr, s: State)
    requires i.Fits() && j.Fits()
    ensures Fit([i, j])
    ensures Run([i, j], s) == if Exec(i, s).None? then None else Exec(j, Exec(i, s).value)
  {
    hide Exec;
    assert [i, j][1..] == [j];
    assert [j][1..] == [];
    if Exec(i, s).Some? {
      var t := Exec(i, s).value;
      assert Run([j], t) == if Exec(j, t).None? then None else Run([], Exec(j, t).value);
    }
  }

  lemma {:induction false} RunThree(i: Instr, j: Instr, k: Instr, s: State)
    requires i.Fits() && j.Fits() && k.Fits()
    ensures Fit([i, j, k])
    ensures Run([i, j, k], s) ==
              if Exec(i, s).None? then None else
              if Exec(j, Exec(i, s).value).None? then None else Exec(k, Exec(j, Exec(i, s).value).value)
  {
    hide Exec, Run;
    assert [i, j, k] == [i] + [j, k];
    RunFirst(i, [j, k], s);
    if Exec(i, s).Some? {
      RunTwo(j, k, Exec(i, s).value);
    }
  }

  lemma {:induction false} WordLE(v: word)
    ensures Word(LE(v, 8)) == v
  {
    Pow256Values();
    ValLE(v, 8);
  }

  lemma {:induction false} FlagsDownRun(s: State) returns (t: State)
    requires Reg(s, RSP) >= 8
    ensures Fit(FlagsDown()) && Run(FlagsDown(), s) == Some(t)
    ensures t == s.(reg := s.reg[RSP := Reg(s, RSP) - 8][RAX := t.reg[RAX]], mem := t.mem)
    ensures FlagsSaved(t.mem, Reg(s, RSP) - 8, s.flags) && OnlyIn(s.mem, t.mem, Reg(s, RSP) - 8, Reg(s, RSP))
  {
    hide Run, LE, Word, Get, High, Low, WithHigh, WithLow, FlagByte;
    RunThree(Lahf, SetoAl, Push(RAX), s);
    var u := Exec(Lahf, s).value;
    var v := Exec(SetoAl, u).value;
    WithParts(s.reg[RAX], FlagByte(s.flags), Bit(s.flags.of, 1));
    t := ExecPush(RAX, v);
    WordLE(v.reg[RAX]);
  }

  lemma {:induction false} SpDownRun(loc: word, s: State) returns (t: State)
    requires loc + 8 <= U64
    ensures Fit(SpDown(loc)) && Run(SpDown(loc), s) == Some(t)
    ensures t == s.(reg := s.reg[RAX := loc], mem := t.mem)
    ensures Get(t.mem, loc, 8) == LE(s.reg[RSP], 8) && OnlyIn(s.mem, t.mem, loc, loc as int + 8)
  {
    hide Run, LE;
    RunTwo(MovImm(RAX, loc), StoreReg(RAX, RSP), s);
    var u := Exec(MovImm(RAX, loc), s).value;
    t := Exec(StoreReg(RAX, RSP), u).value;
    GetPut(s.mem, loc, LE(s.reg[RSP], 8));
  }

  lemma {:induction false} FpDownRun(disp: int, s: State) returns (t: State)
    requires Reg(s, RSP) >= disp >= 8
    ensures Fit(FpDown(disp)) && Run(FpDown(disp), s) == Some(t)
    ensures t == s.(reg := t.reg, flags := t.flags)
    ensures t.reg == s.reg[RSP := Reg(s, RSP) - disp][RAX := Reg(s, RSP) - disp + 8]
  {
    hide Run, AddFlags;
    RunThree(LeaRsp(-disp), MovReg(RAX, RSP), AddRax(8), s);
    var u := Exec(LeaRsp(-disp), s).value;
    var v := Exec(MovReg(RAX, RSP), u).value;
    t := Exec(AddRax(8), v).value;
  }

  // Running one program after another.
  lemma {:induction false} RunThen(p: seq<Instr>, q: seq<Instr>, s: State, t: State, u: State)
    requires Fit(p) && Fit(q) && Run(p, s) == Some(t) && Run(q, t) == Some(u)
    ensures Fit(p + q) && Run(p + q, s) == Some(u)
  {
    hide Run;
    RunConcat(p, q, s);
  }

  // What saving leaves: everything but %rax, %rsp and the flags as it was, and the context in memory.
  ghost predicate Frozen(o: State, e: State, loc: word, disp: int) {
    var rsp := Reg(o, RSP);
    && Reg(e, RSP) == rsp - 72 - disp && e.xmm == o.xmm && e.rip == o.rip
    && (forall r :: 0 <= r < 16 && r != RAX && r != RSP ==> e.reg[r] == o.reg[r])
    && disp >= 136 && Context(e.mem, rsp - 64, disp, o)
    && Get(e.mem, loc, 8) == LE(Clip(rsp - 64), 8)
    && (forall x :: (x < rsp - 72 - disp || rsp <= x) && (x < loc || loc as int + 8 <= x) ==> e.mem(x) == o.mem(x))
  }

  function Clip(a: int): nat {
    if a < 0 then 0 else a
  }

  // Where the recorded stack pointer may lie: off the part of the stack that is written.
  ghost predicate Clear(rsp: int, loc: word, disp: int) {
    loc as int + 8 <= U64 && (loc as int + 8 <= rsp - 72 - disp || rsp <= loc as int)
  }

  // The first half: registers, flags and the stack pointer.
  lemma {:induction false} SaveGeneral(o: State, loc: word, disp: int) returns (c: State)
    requires Reg(o, RSP) >= 512 && 136 <= disp <= 144 && Clear(Reg(o, RSP), loc, disp)
    ensures var p := Pushes(SAVED) + FlagsDown() + SpDown(loc); Fit(p) && Run(p, o) == Some(c)
    ensures c.xmm == o.xmm && c.rip == o.rip && Reg(c, RSP) == Reg(o, RSP) - 64
    ensures forall r :: 0 <= r < 16 && r != RAX && r != RSP ==> c.reg[r] == o.reg[r]
    ensures AllRegs(SAVED) && Pushed(c.mem, Reg(o, RSP), o.reg, SAVED) && FlagsSaved(c.mem, Reg(o, RSP) - 64, o.flags)
    ensures Get(c.mem, loc, 8) == LE(c.reg[RSP], 8)
    ensures forall x :: (x < Reg(o, RSP) - 64 || Reg(o, RSP) <= x) && (x < loc || loc as int + 8 <= x) ==>
            c.mem(x) == o.mem(x)
  {
    hide Run, Fit, Get, LE, Word, Pushes;
    var a := PushesRun(SAVED, o);
    var b := FlagsDownRun(a);
    c := SpDownRun(loc, b);
    RunThen(Pushes(SAVED), FlagsDown(), o, a, b);
    RunThen(Pushes(SAVED) + FlagsDown(), SpDown(loc), o, b, c);
    PushedAgree(a.mem, c.mem, Reg(o, RSP), o.reg, SAVED);
    GetAgree(b.mem, c.mem, Reg(o, RSP) - 64, Reg(o, RSP) - 56, Reg(o, RSP) - 64, 8);
  }

  lemma {:induction false} SaveRun(o: State, loc: word, disp: int) returns (e: State)
    requires Reg(o, RSP) >= 512 && 136 <= disp <= 144 && Clear(Reg(o, RSP), loc, disp)
    requires (Reg(o, RSP) - disp + 8) % 16 == 0
    ensures Fit(SaveProg(loc, disp)) && Run(SaveProg(loc, disp), o) == Some(e)
    ensures Frozen(o, e, loc, disp)
  {
    hide Run, Fit, Get, LE, Word, Pushes, Moves, FlagsDown, SpDown, FpDown;
    var rsp := Reg(o, RSP);
    var c := SaveGeneral(o, loc, disp);
    var d := FpDownRun(disp, c);
    var m := SavesRun(0, d);
    var p := Pushes(SAVED) + FlagsDown() + SpDown(loc);
    RunThen(p, FpDown(disp), o, c, d);
    RunThen(p + FpDown(disp), Moves(false, 0), o, d, m);
    e := ExecPush(RAX, m);
    RunNone(e);
    RunFirst(Push(RAX), [], m);
    assert [Push(RAX)] + [] == [Push(RAX)];
    RunThen(p + FpDown(disp) + Moves(false, 0), [Push(RAX)], o, m, e);
    PushedAgree(c.mem, e.mem, rsp, o.reg, SAVED);
    GetAgree(c.mem, e.mem, rsp - 64, rsp - 56, rsp - 64, 8);
    XmmAgree(m.mem, e.mem, rsp - 64 - disp + 8, o.xmm);
    GetAgree(c.mem, e.mem, loc, loc as int + 8, loc, 8);
  }

  // ---- restoring ----

  function FpUp(): seq<Instr> {
    [Pop(RAX), MovReg(RAX, RSP), AddRax(8)]
  }

  function FlagsUp(disp: int): seq<Instr> {
    [LeaRsp(disp), Pop(RAX)] + [AddAl(0x7f), Sahf]
  }

  function RestoreProg(disp: int): seq<Instr> {
    FpUp() + Moves(true, 0) + FlagsUp(disp) + Pops(RESTORED)
  }

  // What restoring leaves: the context of o, the other registers and memory of w.
  ghost predicate Thawed(o: State, w: State, r: State) {
    && Reg(r, RSP) == Reg(o, RSP) && r.xmm == o.xmm && r.flags == o.flags && r.mem == w.mem && r.rip == w.rip
    && (forall i :: 0 <= i < 16 && i in RESTORED ==> r.reg[i] == o.reg[i])
    && (forall i :: 0 <= i < 16 && i !in RESTORED && i != RSP ==> r.reg[i] == w.reg[i])
  }

  lemma {:induction false} FpUpRun(s: State) returns (t: State)
    requires Reg(s, RSP) + 16 < U64
    ensures Fit(FpUp()) && Run(FpUp(), s) == Some(t)
    ensures t == s.(reg := t.reg, flags := t.flags) && t.reg == s.reg[RSP := Reg(s, RSP) + 8][RAX := Reg(s, RSP) + 16]
  {
    hide Run, Word, Get, AddFlags;
    RunThree(Pop(RAX), MovReg(RAX, RSP), AddRax(8), s);
    var u := ExecPop(RAX, s);
    var v := Exec(MovReg(RAX, RSP), u).value;
    t := Exec(AddRax(8), v).value;
  }

  lemma {:induction false} FlagsUpRun(disp: int, s: State, f: Flags) returns (t: State)
    requires disp >= 0 && Reg(s, RSP) + disp + 8 < U64 && FlagsSaved(s.mem, Reg(s, RSP) + disp, f)
    ensures Fit(FlagsUp(disp)) && Run(FlagsUp(disp), s) == Some(t)
    ensures t == s.(reg := s.reg[RSP := Reg(s, RSP) + disp + 8][RAX := t.reg[RAX]], flags := f)
  {
    hide Run, Word, Get;
    RunTwo(LeaRsp(disp), Pop(RAX), s);
    var u := Exec(LeaRsp(disp), s).value;
    var v := ExecPop(RAX, u);
    t := AddSahf(v, f);
    RunThen([LeaRsp(disp), Pop(RAX)], [AddAl(0x7f), Sahf], s, v, t);
  }

  lemma {:induction false} AddSahf(v: State, f: Flags) returns (t: State)
    requires High(v.reg[RAX]) == FlagByte(f) && Low(v.reg[RAX]) == Bit(f.of, 1)
    ensures Fit([AddAl(0x7f), Sahf]) && Run([AddAl(0x7f), Sahf], v) == Some(t)
    ensures t == v.(reg := v.reg[RAX := t.reg[RAX]], flags := f)
  {
    hide Run, AddFlags, FlagByte, FromByte;
    RunTwo(AddAl(0x7f), Sahf, v);
    var w := Exec(AddAl(0x7f), v).value;
    t := Exec(Sahf, w).value;
    var rax, l := v.reg[RAX], Bit(f.of, 1);
    HighStays(rax, (l + 0x7f) % 256);
    OverflowBack(f.of);
    FlagsBack(f, f.of);
    assert f.(of := f.of) == f;
  }

  lemma {:induction false} HighStays(v: word, b: byte)
    ensures High(WithLow(v, b)) == High(v)
  {
  }

  lemma {:induction false} RestoreRun(o: State, w: State, disp: int) returns (r: State)
    requires 136 <= disp <= 144 && Reg(o, RSP) >= 512 && Reg(o, RSP) + 8 < U64 && Reg(w, RSP) == Reg(o, RSP) - 72 - disp
    requires Context(w.mem, Reg(o, RSP) - 64, disp, o) && (Reg(o, RSP) - disp + 8) % 16 == 0
    ensures Fit(RestoreProg(disp)) && Run(RestoreProg(disp), w) == Some(r)
    ensures Thawed(o, w, r)
  {
    hide Run, Fit, Get, Word, LE, Pops, Moves, FpUp, FlagsUp, FlagsSaved;
    var ctx := Reg(o, RSP) - 64;
    var a := FpUpRun(w);
    var b := LoadsRun(0, a);
    SameXmm(w.mem, ctx - disp + 8, o.xmm, b.xmm);
    var c := FlagsUpRun(disp, b, o.flags);
    RegsBack(w.mem, ctx + 64, o.reg);
    r := PopsRun(RESTORED, c);
    RunThen(FpUp(), Moves(true, 0), w, a, b);
    RunThen(FpUp() + Moves(true, 0), FlagsUp(disp), w, b, c);
    RunThen(FpUp() + Moves(true, 0) + FlagsUp(disp), Pops(RESTORED), w, c, r);
    forall i | 0 <= i < 16 && i in RESTORED
      ensures r.reg[i] == o.reg[i]
    {
      var k :| 0 <= k < |RESTORED| && RESTORED[k] == i;
    }
  }

  lemma {:induction false} SameXmm(mem: int -> byte, f: int, x: Xmms, y: Xmms)
    requires XmmSaved(mem, f, x, 0) && XmmSaved(mem, f, y, 0)
    ensures x == y
  {
    hide Get;
  }

  // The pops find the words in the opposite order of the pushes.
  lemma {:induction false} RegsBack(mem: int -> byte, rsp: int, reg: Regs)
    requires AllRegs(SAVED) && Pushed(mem, rsp, reg, SAVED)
    ensures forall i :: 0 <= i < |RESTORED| ==> Word(Get(mem, rsp - 56 + 8 * i, 8)) == reg[RESTORED[i]]
  {
    hide Get, Word, LE;
    forall i | 0 <= i < |RESTORED|
      ensures Word(Get(mem, rsp - 56 + 8 * i, 8)) == reg[RESTORED[i]]
    {
      var k := 6 - i;
      assert SAVED[k] == RESTORED[i];
      assert Get(mem, rsp - 8 * (k + 1), 8) == LE(reg[SAVED[k]], 8);
      WordLE(reg[SAVED[k]]);
    }
  }
}
