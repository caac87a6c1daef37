/** What a patch area does when it is run: the calls and jumps between its parts, and the whole way from the
    call site to the wrappers, the callee and back. */
module Trampoline {
  import opened Prelude
  import opened Machine
  import opened SavedContext
  import opened Intervals

  // ---- steps of the processor ----

  lemma {:induction false} StepsAdd(code: seq<byte>, base: nat, s: State, n: nat, m: nat)
    requires Steps(code, base, s, n).Some?
    ensures Steps(code, base, s, n + m) == Steps(code, base, Steps(code, base, s, n).value, m)
    decreases n
  {
    hide Step;
    if n > 0 {
      StepsAdd(code, base, Step(code, base, s).value, n - 1, m);
    }
  }

  lemma {:induction false} ReachesThen(code: seq<byte>, base: nat, s: State, t: State, u: State)
    requires Reaches(code, base, s, t) && Reaches(code, base, t, u)
    ensures Reaches(code, base, s, u)
  {
    hide Steps;
    var n: nat :| Steps(code, base, s, n) == Some(t);
    var m: nat :| Steps(code, base, t, m) == Some(u);
    StepsAdd(code, base, s, n, m);
  }

  lemma {:induction false} ReachesStep(code: seq<byte>, base: nat, s: State, t: State)
    requires Step(code, base, s) == Some(t)
    ensures Reaches(code, base, s, t)
  {
    hide Step;
    assert Steps(code, base, t, 0) == Some(t);
    assert Steps(code, base, s, 1) == Some(t);
  }

  lemma {:induction false} ReachesSelf(code: seq<byte>, base: nat, s: State)
    ensures Reaches(code, base, s, s)
  {
    assert Steps(code, base, s, 0) == Some(s);
  }

  ghost predicate AllPlain(p: seq<Instr>) {
    forall i :: 0 <= i < |p| ==> p[i].Plain()
  }

  // Plain instructions neither read nor write rip.
  lemma {:induction false} PlainExec(i: Instr, s: State, rip: int)
    requires i.Fits() && i.Plain()
    ensures Exec(i, s.(rip := rip)).Some? <==> Exec(i, s).Some?
    ensures Exec(i, s).Some? ==> Exec(i, s.(rip := rip)).value == Exec(i, s).value.(rip := rip)
    ensures Exec(i, s).Some? ==> Exec(i, s).value.rip == s.rip
  {
    hide LE, Word, Get, AddFlags, WithHigh, WithLow, FlagByte, FromByte, Put;
  }

  // The processor does what the instructions its code stands for do.
  lemma {:induction false} RunReaches(code: seq<byte>, base: nat, at: nat, p: seq<Instr>, end: nat, s: State, t: State)
    requires Fit(p) && AllPlain(p) && Codes(code, at, p, end) && s.rip == base + at && Run(p, s) == Some(t)
    ensures Reaches(code, base, s, t.(rip := base + end))
    decreases |p|
  {
    hide Exec, Decode, Reaches;
    if p == [] {
      assert t == s && s.(rip := base + end) == s;
      ReachesSelf(code, base, s);
    } else {
      var next := Decode(code, at).value.1;
      PlainExec(p[0], s, base + next);
      var u := Exec(p[0], s).value;
      var v := u.(rip := base + next);
      assert Step(code, base, s) == Some(v);
      ReachesStep(code, base, s, v);
      RunRip(p[1..], u, base + next, t);
      RunReaches(code, base, next, p[1..], end, v, t.(rip := base + next));
      assert t.(rip := base + next).(rip := base + end) == t.(rip := base + end);
      ReachesThen(code, base, s, v, t.(rip := base + end));
    }
  }

  lemma {:induction false} RunRip(p: seq<Instr>, s: State, rip: int, t: State)
    requires Fit(p) && AllPlain(p) && Run(p, s) == Some(t)
    ensures Run(p, s.(rip := rip)) == Some(t.(rip := rip))
    decreases |p|
  {
    hide Exec;
    if p != [] {
      PlainExec(p[0], s, rip);
      RunRip(p[1..], Exec(p[0], s).value, rip, t);
    }
  }

  // ---- calls and jumps ----

  // emit_call_abs at an address.
  function CallProg(callee: word, from: int): seq<Instr> {
    if IsDisp32(callee - (from + 5)) then [CallRel(callee - (from + 5))]
    else [MovImm(R11, callee), CallReg(R11)]
  }

  // emit_push_imm64: the words from i - 1 down to 0.
  function PushImm(v: word, i: nat): seq<Instr>
    requires i <= 4
  {
    if i == 0 then [] else [PushImm16(Piece(v, i - 1))] + PushImm(v, i - 1)
  }

  // Word i of sixteen bits.
  function Piece(v: nat, i: nat): (w: nat)
    ensures w < 0x1_0000
    decreases i
  {
    if i == 0 then v % 0x1_0000 else Piece(v / 0x1_0000, i - 1)
  }

  // emit_jump_abs at an address.
  function JumpProg(target: word, from: int, far: bool): seq<Instr> {
    if IsDisp32(target - (from + 5)) && !far then [JmpRel(target - (from + 5))]
    else PushImm(target, 4) + [Ret]
  }

  // Arrived at a function, with the return address on the stack.
  ghost predicate Entered(s: State, t: State, callee: int, back: int) {
    && t.rip == callee && Reg(t, RSP) == Reg(s, RSP) - 8 && 0 <= back < U64
    && (forall r :: 0 <= r < 16 && r != RSP && r != R11 ==> t.reg[r] == s.reg[r])
    && t.xmm == s.xmm && t.flags == s.flags
    && Get(t.mem, Reg(s, RSP) - 8, 8) == LE(back, 8) && OnlyIn(s.mem, t.mem, Reg(s, RSP) - 8, Reg(s, RSP))
  }

  lemma {:induction false} CallReaches(code: seq<byte>, base: nat, at: nat, callee: word, end: nat, s: State)
    returns (t: State)
    requires Codes(code, at, CallProg(callee, base + at), end) && s.rip == base + at && base + end < U64
             && Reg(s, RSP) >= 8
    ensures Reaches(code, base, s, t) && Entered(s, t, callee, base + end)
  {
    hide Decode, Reaches, Codes, LE, Run, Exec, Called, OnlyIn, IsDisp32, Get;
    var rel := callee - (base + at + 5);
    if IsDisp32(rel) {
      CodesOne(code, at, CallRel(rel), end);
      DecodeRel(code, at);
      t := ExecCall(s.(rip := base + end), callee);
      ExecCallRel(s.(rip := base + end), rel);
      DecodedReaches(code, base, at, CallRel(rel), end, s, t);
    } else {
      var mid := CodesTwo(code, at, MovImm(R11, callee), CallReg(R11), end);
      var u := s.(reg := s.reg[R11 := callee], rip := base + mid);
      ExecMov(s.(rip := base + mid), R11, callee);
      DecodedReaches(code, base, at, MovImm(R11, callee), mid, s, u);
      t := ExecCall(u.(rip := base + end), callee);
      ExecCallReg(u.(rip := base + end), R11);
      DecodedReaches(code, base, mid, CallReg(R11), end, u, t);
      ReachesThen(code, base, s, u, t);
    }
  }

  lemma {:induction false} ExecCallRel(s: State, rel: int)
    ensures Exec(CallRel(rel), s) == Called(s, s.rip + rel)
  {
    hide Called;
  }

  lemma {:induction false} ExecCallReg(s: State, r: nat)
    requires r < 16
    ensures Exec(CallReg(r), s) == Called(s, s.reg[r])
  {
    hide Called;
  }

  lemma {:induction false} ExecMov(s: State, r: nat, v: word)
    requires r < 16
    ensures Exec(MovImm(r, v), s) == Some(s.(reg := s.reg[r := v]))
  {
  }

  // Relative calls and jumps are five bytes long.
  lemma {:induction false} DecodeRel(code: seq<byte>, at: nat)
    requires Decode(code, at).Some? && (Decode(code, at).value.0.CallRel? || Decode(code, at).value.0.JmpRel?)
    ensures Decode(code, at).value.1 == at + 5
  {
    hide SignedImm, Imm, Word;
  }

  lemma {:induction false} DecodedReaches(code: seq<byte>, base: nat, at: nat, i: Instr, end: nat, s: State, t: State)
    requires i.Fits() && Decode(code, at) == Some((i, end)) && s.rip == base + at
             && Exec(i, s.(rip := base + end)) == Some(t)
    ensures Reaches(code, base, s, t)
  {
    hide Decode, Exec, Reaches;
    ReachesStep(code, base, s, t);
  }

  lemma {:induction false} ExecCall(s: State, target: int) returns (t: State)
    requires 0 <= s.rip < U64 && Reg(s, RSP) >= 8
    ensures Called(s, target) == Some(t)
    ensures t == s.(reg := s.reg[RSP := Reg(s, RSP) - 8], mem := t.mem, rip := target)
    ensures Get(t.mem, Reg(s, RSP) - 8, 8) == LE(s.rip, 8) && OnlyIn(s.mem, t.mem, Reg(s, RSP) - 8, Reg(s, RSP))
  {
    hide LE;
    t := Called(s, target).value;
    GetPut(s.mem, Reg(s, RSP) - 8, LE(s.rip, 8));
  }

  lemma {:induction false} CodesOne(code: seq<byte>, at: nat, i: Instr, end: nat)
    requires Codes(code, at, [i], end)
    ensures Decode(code, at) == Some((i, end))
  {
    hide Decode;
    assert [i][1..] == [];
  }

  lemma {:induction false} CodesTwo(code: seq<byte>, at: nat, i: Instr, j: Instr, end: nat) returns (mid: nat)
    requires Codes(code, at, [i, j], end)
    ensures Decode(code, at) == Some((i, mid)) && Decode(code, mid) == Some((j, end))
  {
    hide Decode;
    assert [i, j][1..] == [j];
    mid := Decode(code, at).value.1;
    CodesOne(code, mid, j, end);
  }

  // The bytes the pushes of words leave, from the lowest address on.
  function Pieces(v: nat, i: nat): (bs: seq<byte>)
    ensures |bs| == 2 * i
  {
    if i == 0 then [] else Pieces(v, i - 1) + LE(Piece(v, i - 1), 2)
  }

  lemma {:induction false} PiecesLE(v: word)
    ensures Pieces(v, 4) == LE(v, 8)
  {
    hide LE;
    var v1 := v / 0x1_0000;
    var v2 := v1 / 0x1_0000;
    var v3 := v2 / 0x1_0000;
    LESplit(v, 6);
    LESplit(v1, 4);
    LESplit(v2, 2);
    LESplit(v3, 0);
    LENone(v3 / 0x1_0000);
    PieceAt(v);
    PieceAt(v1);
    PieceAt(v2);
    PieceAt(v3);
    hide Piece;
    assert Pieces(v, 0) == [];
    assert Pieces(v, 1) == LE(v % 0x1_0000, 2);
    assert Pieces(v, 2) == Pieces(v, 1) + LE(v1 % 0x1_0000, 2);
    assert Pieces(v, 3) == Pieces(v, 2) + LE(v2 % 0x1_0000, 2);
    assert Pieces(v, 4) == Pieces(v, 3) + LE(v3 % 0x1_0000, 2);
  }

  lemma {:induction false} PieceAt(v: nat)
    ensures Piece(v, 0) == v % 0x1_0000
    ensures Piece(v, 1) == Piece(v / 0x1_0000, 0) && Piece(v, 2) == Piece(v / 0x1_0000, 1)
            && Piece(v, 3) == Piece(v / 0x1_0000, 2)
  {
  }

  lemma {:induction false} LENone(v: nat)
    ensures LE(v, 0) == []
  {
  }

  lemma {:induction false} ExecPush16(w: nat, s: State) returns (t: State)
    requires w < 0x1_0000 && Reg(s, RSP) >= 2
    ensures Exec(PushImm16(w), s) == Some(t)
    ensures t == s.(reg := s.reg[RSP := Reg(s, RSP) - 2], mem := t.mem)
    ensures Get(t.mem, Reg(s, RSP) - 2, 2) == LE(w, 2) && OnlyIn(s.mem, t.mem, Reg(s, RSP) - 2, Reg(s, RSP))
  {
    hide LE;
    t := Exec(PushImm16(w), s).value;
    GetPut(s.mem, Reg(s, RSP) - 2, LE(w, 2));
  }

  lemma {:induction false} PushImmPlain(v: word, i: nat)
    requires i <= 4
    ensures AllPlain(PushImm(v, i))
    decreases i
  {
    hide Piece;
    if i > 0 {
      PushImmPlain(v, i - 1);
    }
  }

  lemma {:induction false} PushImmRun(v: word, i: nat, s: State) returns (t: State)
    requires i <= 4 && Reg(s, RSP) >= 2 * i
    ensures Fit(PushImm(v, i)) && Run(PushImm(v, i), s) == Some(t)
    ensures t == s.(reg := s.reg[RSP := Reg(s, RSP) - 2 * i], mem := t.mem)
    ensures Get(t.mem, Reg(s, RSP) - 2 * i, 2 * i) == Pieces(v, i)
            && OnlyIn(s.mem, t.mem, Reg(s, RSP) - 2 * i, Reg(s, RSP))
    decreases i
  {
    hide Exec, Run, Fit, LE, Piece, Get;
    var rsp := Reg(s, RSP);
    if i == 0 {
      t := s;
      RunNone(s);
      assert s.reg[RSP := rsp] == s.reg;
      assert Get(t.mem, rsp, 0) == [];
    } else {
      var u := ExecPush16(Piece(v, i - 1), s);
      t := PushImmRun(v, i - 1, u);
      RunFirst(PushImm16(Piece(v, i - 1)), PushImm(v, i - 1), s);
      GetAgree(t.mem, u.mem, rsp - 2, rsp, rsp - 2, 2);
      GetConcat(t.mem, rsp - 2 * i, 2 * (i - 1), 2);
      assert u.reg[RSP := rsp - 2 * i] == s.reg[RSP := rsp - 2 * i];
    }
  }

  // Arrived at the target, with nothing changed but what lies below the stack.
  ghost predicate Jumped(s: State, t: State, target: int) {
    && t == s.(rip := target, mem := t.mem) && OnlyIn(s.mem, t.mem, Reg(s, RSP) - 8, Reg(s, RSP))
  }

  lemma {:induction false} JumpReaches(code: seq<byte>, base: nat, at: nat, target: word, far: bool, end: nat,
                                       s: State) returns (t: State)
    requires Codes(code, at, JumpProg(target, base + at, far), end) && s.rip == base + at && Reg(s, RSP) >= 8
    ensures Reaches(code, base, s, t) && Jumped(s, t, target)
  {
    hide Decode, Reaches, Codes, LE, Run, Exec, IsDisp32, Get, Fit, PushImm, Pieces, AllPlain;
    var rel := target - (base + at + 5);
    if IsDisp32(rel) && !far {
      CodesOne(code, at, JmpRel(rel), end);
      DecodeRel(code, at);
      t := s.(rip := target);
      ExecJmp(s.(rip := base + end), rel);
      DecodedReaches(code, base, at, JmpRel(rel), end, s, t);
    } else {
      var u := PushImmRun(target, 4, s);
      PiecesLE(target);
      PushImmPlain(target, 4);
      var mid := CodesSplit(code, at, PushImm(target, 4), [Ret], end);
      RunReaches(code, base, at, PushImm(target, 4), mid, s, u);
      var v := u.(rip := base + mid);
      CodesOne(code, mid, Ret, end);
      t := ExecRet(v.(rip := base + end), target);
      DecodedReaches(code, base, mid, Ret, end, v, t);
      ReachesThen(code, base, s, v, t);
      assert t.reg == s.reg;
    }
  }

  lemma {:induction false} ExecJmp(s: State, rel: int)
    ensures Exec(JmpRel(rel), s) == Some(s.(rip := s.rip + rel))
  {
  }

  lemma {:induction false} ExecRet(s: State, target: word) returns (t: State)
    requires Get(s.mem, Reg(s, RSP), 8) == LE(target, 8) && Reg(s, RSP) + 8 < U64
    ensures Exec(Ret, s) == Some(t) && t == s.(reg := s.reg[RSP := Reg(s, RSP) + 8], rip := target)
  {
    hide Get, LE, Word;
    WordLE(target);
    t := Exec(Ret, s).value;
  }

  lemma {:induction false} CodesSplit(code: seq<byte>, at: nat, p: seq<Instr>, q: seq<Instr>, end: nat)
    returns (mid: nat)
    requires Codes(code, at, p + q, end)
    ensures Codes(code, at, p, mid) && Codes(code, mid, q, end)
    decreases |p|
  {
    hide Decode;
    if p == [] {
      mid := at;
      assert p + q == q;
    } else {
      assert (p + q)[1..] == p[1..] + q;
      mid := CodesSplit(code, Decode(code, at).value.1, p[1..], q, end);
    }
  }

  // ---- one visit to a wrapper: save, pass the parameters, call, restore ----

  // The point a patch area belongs to, and the addresses its code mentions.
  datatype Site = Site(base: nat, loc: word, point: word, entry: word, exit: word, wrapper_entry: word,
                       wrapper_exit: word, callee: word, ret_addr: word, tailcall: bool)
  {
    // How far the floating-point area moves the stack pointer.
    function Disp(): int {
      if tailcall then 0x90 else 0x88
    }

    // Section 3.2.2 of the System V AMD64 ABI: %rsp is a multiple of 16 where a call is about to be made, and
    // 8 off where a function was entered, which is where a tail call is made.
    predicate Stack(rsp: int) {
      rsp % 16 == (if tailcall then 8 else 0) && 512 <= rsp < U64 - 8
    }

    // Where the stack pointer is recorded is off the part of the stack the patch area writes.
    predicate Clear(rsp: int) {
      loc as int + 8 <= U64 && (loc as int + 8 <= rsp - 80 - Disp() || rsp <= loc as int)
    }
  }

  function ParamProg(point: word, payload: word): seq<Instr> {
    [MovImm(RDI, point)] + (if payload != 0 then [MovImm(RSI, payload)] else [])
  }

  ghost predicate Visit(code: seq<byte>, site: Site, payload: word, wrapper: word, m0: nat, m1: nat, m2: nat, m3: nat,
                        m4: nat) {
    && Codes(code, m0, SaveProg(site.loc, site.Disp()), m1)
    && Codes(code, m1, ParamProg(site.point, payload), m2)
    && Codes(code, m2, CallProg(wrapper, site.base + m2), m3)
    && Codes(code, m3, RestoreProg(site.Disp()), m4)
    && site.base + m3 < U64
  }

  // A function entered in e has returned in w, keeping what the ABI says it keeps and some of the stack above
  // its return address.
  ghost predicate Returned(e: State, w: State, keep: nat) {
    && w.rip == Word(Get(e.mem, Reg(e, RSP), 8)) && Reg(w, RSP) == Reg(e, RSP) + 8
    && (forall r :: r in KEPT ==> w.reg[r] == e.reg[r])
    && Agree(e.mem, w.mem, Reg(e, RSP) + 8, Reg(e, RSP) + 8 + keep)
  }

  // A function that respects the ABI wherever it is entered.
  ghost predicate Behaves(f: State -> State, keep: nat) {
    forall s :: Reg(s, RSP) + 8 < U64 ==> Returned(s, f(s), keep)
  }

  // There are such functions: one that only returns is one.
  lemma {:induction false} ReturningBehaves(keep: nat)
    ensures Behaves(s => if Reg(s, RSP) + 8 < U64
                         then s.(reg := s.reg[RSP := Reg(s, RSP) + 8], rip := Word(Get(s.mem, Reg(s, RSP), 8))) else s,
                           keep)
  {
    hide Word, Get;
  }

  lemma {:induction false} BehavesAt(f: State -> State, keep: nat, s: State)
    requires Behaves(f, keep) && Reg(s, RSP) + 8 < U64
    ensures Returned(s, f(s), keep)
  {
    hide Returned;
  }

  const KEPT: set<nat> := {RBX, RBP, 12, 13, 14, 15}

  // The wrapper was called with the point and the payload, on an aligned stack, with the context of o saved.
  ghost predicate Wrapped(site: Site, payload: word, wrapper: word, back: nat, o: State, e: State) {
    var rsp := Reg(o, RSP);
    && e.rip == wrapper && (Reg(e, RSP) + 8) % 16 == 0 && Reg(e, RSP) == rsp - 80 - site.Disp()
    && e.reg[RDI] == site.point && (payload != 0 ==> e.reg[RSI] == payload)
    && (forall r :: r in KEPT ==> e.reg[r] == o.reg[r])
    && Get(e.mem, Reg(e, RSP), 8) == LE(back, 8)
    && Context(e.mem, rsp - 64, site.Disp(), o) && Get(e.mem, site.loc, 8) == LE(Clip(rsp - 64), 8)
    && (forall x :: rsp <= x && (x < site.loc || site.loc as int + 8 <= x) ==> e.mem(x) == o.mem(x))
  }

  lemma {:induction false} ParamsRun(point: word, payload: word, s: State) returns (t: State)
    ensures var p := ParamProg(point, payload); Fit(p) && AllPlain(p) && Run(p, s) == Some(t)
    ensures t == s.(reg := t.reg) && t.reg[RDI] == point && (payload != 0 ==> t.reg[RSI] == payload)
    ensures forall r :: 0 <= r < 16 && r != RDI && r != RSI ==> t.reg[r] == s.reg[r]
  {
    hide Exec, Run;
    ExecMov(s, RDI, point);
    t := s.(reg := s.reg[RDI := point]);
    RunNone(t);
    RunFirst(MovImm(RDI, point), [], s);
    assert [MovImm(RDI, point)] + [] == [MovImm(RDI, point)];
    if payload != 0 {
      var u := t;
      ExecMov(u, RSI, payload);
      t := u.(reg := u.reg[RSI := payload]);
      RunNone(t);
      RunFirst(MovImm(RSI, payload), [], u);
      assert [MovImm(RSI, payload)] + [] == [MovImm(RSI, payload)];
      RunThen([MovImm(RDI, point)], [MovImm(RSI, payload)], s, u, t);
    }
  }

  lemma {:induction false} PushesPlain(l: seq<nat>)
    ensures AllPlain(Pushes(l)) && AllPlain(Pops(l))
    decreases |l|
  {
    if l != [] {
      PushesPlain(l[1..]);
    }
  }

  lemma {:induction false} MovesPlain(load: bool, i: nat)
    requires i <= 8
    ensures AllPlain(Moves(load, i))
    decreases 8 - i
  {
    if i < 8 {
      MovesPlain(load, i + 1);
    }
  }

  lemma {:induction false} SavePlain(loc: word, disp: int)
    ensures AllPlain(SaveProg(loc, disp)) && AllPlain(RestoreProg(disp))
  {
    hide Pushes, Pops, Moves;
    PushesPlain(SAVED);
    PushesPlain(RESTORED);
    MovesPlain(false, 0);
    MovesPlain(true, 0);
  }

  // From the call site, or the return from the callee, into the wrapper.
  lemma {:induction false} VisitIn(code: seq<byte>, site: Site, payload: word, wrapper: word,
                                   m0: nat, m1: nat, m2: nat, m3: nat, m4: nat, o: State) returns (e: State)
    requires Visit(code, site, payload, wrapper, m0, m1, m2, m3, m4) && o.rip == site.base + m0
    requires site.Stack(Reg(o, RSP)) && site.Clear(Reg(o, RSP))
    ensures Reaches(code, site.base, o, e) && Wrapped(site, payload, wrapper, site.base + m3, o, e)
  {
    hide Codes, Reaches, Run, Fit, AllPlain, Get, LE, Context, SaveProg, RestoreProg, ParamProg, CallProg;
    var base, disp, rsp := site.base, site.Disp(), Reg(o, RSP);
    var a := SaveRun(o, site.loc, disp);
    SavePlain(site.loc, disp);
    RunReaches(code, base, m0, SaveProg(site.loc, disp), m1, o, a);
    var b := ParamsRun(site.point, payload, a.(rip := base + m1));
    RunReaches(code, base, m1, ParamProg(site.point, payload), m2, a.(rip := base + m1), b);
    e := CallReaches(code, base, m2, wrapper, m3, b.(rip := base + m2));
    ReachesThen(code, base, o, a.(rip := base + m1), b.(rip := base + m2));
    ReachesThen(code, base, o, b.(rip := base + m2), e);
    ContextAgree(a.mem, e.mem, rsp - 64, disp, o);
    GetAgree(a.mem, e.mem, site.loc, site.loc as int + 8, site.loc, 8);
  }

  // From the wrapper's return to the end of the restoring code.
  lemma {:induction false} VisitOut(code: seq<byte>, site: Site, payload: word, wrapper: word,
                                    m0: nat, m1: nat, m2: nat, m3: nat, m4: nat, o: State, e: State, w: State)
                                      returns (r: State)
    requires Visit(code, site, payload, wrapper, m0, m1, m2, m3, m4) && site.Stack(Reg(o, RSP))
    requires Wrapped(site, payload, wrapper, site.base + m3, o, e) && Returned(e, w, 72 + site.Disp())
    ensures Reaches(code, site.base, w, r) && Thawed(o, w.(rip := site.base + m4), r)
  {
    hide Codes, Reaches, Run, Fit, AllPlain, Get, LE, Word, Context, SaveProg, RestoreProg, ParamProg, CallProg;
    var base, disp, rsp := site.base, site.Disp(), Reg(o, RSP);
    WordLE(base + m3);
    ContextAgree(e.mem, w.mem, rsp - 64, disp, o);
    var t := RestoreRun(o, w, disp);
    SavePlain(site.loc, disp);
    RunReaches(code, base, m3, RestoreProg(disp), m4, w, t);
    r := t.(rip := base + m4);
  }

  // ---- what the payload reads ----

  // GetRegInternal and GetSavedReg: the offsets from the recorded stack pointer.
  function RegOffset(r: nat): Option<int> {
    if r == RAX then Some(8) else if r == R9 then Some(16) else if r == R8 then Some(24) else if r == RCX then Some(32)
    else if r == RDX then Some(40) else if r == RSI then Some(48) else if r == RDI then Some(56) else None
  }

  function RegVal(mem: int -> byte, loc: word, offset: int): word {
    Word(Get(mem, Word(Get(mem, loc, 8)) as int + offset, 8))
  }

  function GetSavedReg(mem: int -> byte, loc: word, r: nat): nat {
    if RegOffset(r).Some? then RegVal(mem, loc, RegOffset(r).value)
    else if r == RSP then Word(Get(mem, loc, 8)) + 64
    else 0
  }

  // In a wrapper, the saved registers are those of the call site or of the callee's return.
  lemma {:induction false} SavedRegs(site: Site, payload: word, wrapper: word, back: nat, o: State, e: State)
    requires Wrapped(site, payload, wrapper, back, o, e) && site.Stack(Reg(o, RSP))
    ensures forall r :: 0 <= r < 16 && (r in RESTORED || r == RSP) ==> GetSavedReg(e.mem, site.loc, r) == o.reg[r]
  {
    hide Get, LE, Word, FlagsSaved, XmmSaved;
    var rsp := Reg(o, RSP);
    WordLE(rsp - 64);
    RegsBack(e.mem, rsp, o.reg);
    forall i | 0 <= i < |RESTORED|
      ensures GetSavedReg(e.mem, site.loc, RESTORED[i]) == o.reg[RESTORED[i]]
    {
      assert RegOffset(RESTORED[i]) == Some(8 + 8 * i);
    }
    forall r | 0 <= r < 16 && r in RESTORED
      ensures GetSavedReg(e.mem, site.loc, r) == o.reg[r]
    {
      var i :| 0 <= i < |RESTORED| && RESTORED[i] == r;
    }
  }

  // ---- the whole way ----

  // The patch area of a direct call, its parts at the marks m.
  ghost predicate Blob(code: seq<byte>, site: Site, m: seq<nat>) {
    && |m| == (if site.tailcall then 6 else 11) && m[0] == 0
    && Visit(code, site, site.entry, site.wrapper_entry, m[0], m[1], m[2], m[3], m[4])
    && (if site.tailcall then Codes(code, m[4], JumpProg(site.callee, site.base + m[4], false), m[5])
        else
          && Codes(code, m[4], CallProg(site.callee, site.base + m[4]), m[5]) && site.base + m[5] < U64
          && Visit(code, site, site.exit, site.wrapper_exit, m[5], m[6], m[7], m[8], m[9])
          && Codes(code, m[9], JumpProg(site.ret_addr, site.base + m[9], false), m[10]))
  }

  // Same arguments, result registers, xmm registers, flags and kept registers: all but r10, r11 and %rsp.
  ghost predicate SameContext(s: State, t: State) {
    && (forall r :: 0 <= r < 16 && r != R10 && r != R11 && r != RSP ==> t.reg[r] == s.reg[r])
    && t.xmm == s.xmm && t.flags == s.flags
  }

  // A tail call: the callee is entered from the patch area as it would have been from the call site.
  lemma {:induction false} TailCall(code: seq<byte>, site: Site, m: seq<nat>, o: State, entry: State -> State)
    returns (e: State, k: State)
    requires Blob(code, site, m) && site.tailcall && o.rip == site.base
    requires site.Stack(Reg(o, RSP)) && site.Clear(Reg(o, RSP))
    requires Behaves(entry, 72 + site.Disp())
    ensures Reaches(code, site.base, o, e) && Wrapped(site, site.entry, site.wrapper_entry, site.base + m[3], o, e)
    ensures Reaches(code, site.base, entry(e), k)
    ensures k.rip == site.callee && Reg(k, RSP) == Reg(o, RSP) && SameContext(o, k)
    ensures forall x :: Reg(o, RSP) <= x ==> k.mem(x) == entry(e).mem(x)
  {
    hide Codes, Reaches, Visit, JumpProg, Context, Get, LE, Word, Agree, Behaves;
    e := VisitIn(code, site, site.entry, site.wrapper_entry, m[0], m[1], m[2], m[3], m[4], o);
    var w := entry(e);
    BehavesAt(entry, 72 + site.Disp(), e);
    var r := VisitOut(code, site, site.entry, site.wrapper_entry, m[0], m[1], m[2], m[3], m[4], o, e, w);
    ThawedSame(site, site.entry, site.wrapper_entry, site.base + m[3], o, e, w, r, site.base + m[4]);
    k := JumpReaches(code, site.base, m[4], site.callee, false, m[5], r);
    ReachesThen(code, site.base, w, r, k);
  }

  lemma {:induction false} ThawedSame(site: Site, payload: word, wrapper: word, back: nat, o: State, e: State,
                                      w: State, r: State, rip: int)
    requires Wrapped(site, payload, wrapper, back, o, e) && Returned(e, w, 72 + site.Disp())
             && Thawed(o, w.(rip := rip), r)
    ensures SameContext(o, r) && Reg(r, RSP) == Reg(o, RSP) && r.mem == w.mem && r.rip == rip
  {
    hide Context, Get, LE, Word, Agree;
  }

  // Any other call, up to the callee: it is entered with the call site's context and returns to the patch area.
  lemma {:induction false} EnterCallee(code: seq<byte>, site: Site, m: seq<nat>, o: State, entry: State -> State)
    returns (e: State, k: State)
    requires Blob(code, site, m) && !site.tailcall && o.rip == site.base
    requires site.Stack(Reg(o, RSP)) && site.Clear(Reg(o, RSP))
    requires Behaves(entry, 72 + site.Disp())
    ensures Reaches(code, site.base, o, e) && Wrapped(site, site.entry, site.wrapper_entry, site.base + m[3], o, e)
    ensures Reaches(code, site.base, entry(e), k)
    ensures k.rip == site.callee && Reg(k, RSP) == Reg(o, RSP) - 8 && SameContext(o, k)
    ensures Get(k.mem, Reg(k, RSP), 8) == LE(site.base + m[5], 8)
    ensures forall a :: Reg(o, RSP) <= a ==> k.mem(a) == entry(e).mem(a)
  {
    hide Codes, Reaches, Visit, JumpProg, CallProg, Context, Get, LE, Word, Agree, Behaves;
    var base := site.base;
    e := VisitIn(code, site, site.entry, site.wrapper_entry, m[0], m[1], m[2], m[3], m[4], o);
    var w := entry(e);
    BehavesAt(entry, 72 + site.Disp(), e);
    var r := VisitOut(code, site, site.entry, site.wrapper_entry, m[0], m[1], m[2], m[3], m[4], o, e, w);
    ThawedSame(site, site.entry, site.wrapper_entry, base + m[3], o, e, w, r, base + m[4]);
    k := CallReaches(code, base, m[4], site.callee, m[5], r);
    ReachesThen(code, base, w, r, k);
    WordLE(base + m[5]);
  }

  // The whole of it: what the callee returns arrives at ret_addr.
  lemma {:induction false} DirectCall(code: seq<byte>, site: Site, m: seq<nat>, o: State,
                                      entry: State -> State, callee: State -> State, exit: State -> State)
    returns (e: State, k: State, x: State, f: State)
    requires Blob(code, site, m) && !site.tailcall && o.rip == site.base
    requires site.Stack(Reg(o, RSP)) && site.Clear(Reg(o, RSP))
    requires Behaves(entry, 72 + site.Disp())
    requires Behaves(callee, 0)
    requires Behaves(exit, 72 + site.Disp())
    ensures Reaches(code, site.base, o, e) && Wrapped(site, site.entry, site.wrapper_entry, site.base + m[3], o, e)
    ensures Reaches(code, site.base, entry(e), k)
    ensures k.rip == site.callee && Reg(k, RSP) == Reg(o, RSP) - 8 && SameContext(o, k)
    ensures Get(k.mem, Reg(k, RSP), 8) == LE(site.base + m[5], 8)
    ensures forall a :: Reg(o, RSP) <= a ==> k.mem(a) == entry(e).mem(a)
    ensures Reaches(code, site.base, callee(k), x)
    ensures Wrapped(site, site.exit, site.wrapper_exit, site.base + m[8], callee(k), x)
    ensures Reaches(code, site.base, exit(x), f)
    ensures f.rip == site.ret_addr && Reg(f, RSP) == Reg(o, RSP) && SameContext(callee(k), f)
    ensures forall a :: Reg(o, RSP) <= a ==> f.mem(a) == exit(x).mem(a)
  {
    hide Codes, Reaches, Visit, JumpProg, CallProg, Context, Get, LE, Word, Agree, Behaves;
    var base := site.base;
    e, k := EnterCallee(code, site, m, o, entry);
    WordLE(base + m[5]);
    var c := callee(k);
    BehavesAt(callee, 0, k);
    x := VisitIn(code, site, site.exit, site.wrapper_exit, m[5], m[6], m[7], m[8], m[9], c);
    var y := exit(x);
    BehavesAt(exit, 72 + site.Disp(), x);
    var z := VisitOut(code, site, site.exit, site.wrapper_exit, m[5], m[6], m[7], m[8], m[9], c, x, y);
    ThawedSame(site, site.exit, site.wrapper_exit, base + m[8], c, x, y, z, base + m[9]);
    f := JumpReaches(code, base, m[9], site.ret_addr, false, m[10], z);
    ReachesThen(code, base, y, z, f);
  }
}
