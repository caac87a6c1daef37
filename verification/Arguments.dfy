/** What a payload pops as the arguments of the call it wraps, and where those arguments are. */
module Arguments {
  import opened Prelude
  import opened Machine
  import opened SavedContext
  import opened Trampoline

  // ---- where arguments are: section 3.2.3 of the System V AMD64 ABI ----

  // A parameter of one of the classes INTEGER, SSE and MEMORY, with its size in bytes.
  datatype Param = Integer(size: nat) | Sse(size: nat) | Memory(size: nat)

  datatype Place = Register(r: nat) | Xmm(x: nat) | Stack(address: int)

  // The registers for integers, in order.
  const ARGUMENTS: seq<nat> := [RDI, RSI, RDX, RCX, R8, R9]

  function Integers(ps: seq<Param>): (n: nat)
    ensures n <= |ps|
  {
    if ps == [] then 0 else Integers(ps[..|ps| - 1]) + if ps[|ps| - 1].Integer? then 1 else 0
  }

  function Sses(ps: seq<Param>): (n: nat)
    ensures n <= |ps|
  {
    if ps == [] then 0 else Sses(ps[..|ps| - 1]) + if ps[|ps| - 1].Sse? then 1 else 0
  }

  // Whether the parameter p after the parameters ps goes on the stack.
  predicate Spilled(ps: seq<Param>, p: Param) {
    match p
    case Integer(_) => Integers(ps) >= 6
    case Sse(_) => Sses(ps) >= 8
    case Memory(_) => true
  }

  // A stack argument takes a whole number of eightbytes.
  function Eightbytes(size: nat): nat {
    (size + 7) / 8 * 8
  }

  // What the parameters take of the stack.
  function StackBytes(ps: seq<Param>): nat {
    if ps == [] then 0 else
      var before, p := ps[..|ps| - 1], ps[|ps| - 1];
      StackBytes(before) + if Spilled(before, p) then Eightbytes(p.size) else 0
  }

  // Where a function entered with %rsp finds its parameter p after the parameters ps: stack arguments follow the
  // return address.
  function PlaceOf(rsp: int, ps: seq<Param>, p: Param): Place {
    if Spilled(ps, p) then Stack(rsp + 8 + StackBytes(ps))
    else if p.Integer? then Register(ARGUMENTS[Integers(ps)])
    else Xmm(Sses(ps))
  }

  // ---- where PopArgument looks ----

  function Total(sizes: seq<nat>): nat {
    if sizes == [] then 0 else Total(sizes[..|sizes| - 1]) + sizes[|sizes| - 1]
  }

  // The offset of a handle after pops of these sizes: the first six were out of registers.
  function Offset(sizes: seq<nat>): nat {
    if |sizes| <= 6 then 0 else Total(sizes[6..])
  }

  // The place of the next pop, with %rsp as it was at the call site.
  function Popped(rsp: int, sizes: seq<nat>): Place {
    if |sizes| < 6 then Register(ARGUMENTS[|sizes|]) else Stack(rsp + Offset(sizes))
  }

  // What a payload gets: a copy of a register, or a pointer into the stack.
  datatype Handed = Copied(bytes: seq<byte>) | InPlace(address: int)

  // What the pop of size bytes after pops of the given sizes hands out, from what is saved in memory.
  function Handing(mem: int -> byte, loc: word, sizes: seq<nat>, size: nat): Handed
    requires |sizes| < 6 ==> size <= 8
  {
    if |sizes| < 6 then Copied(LE(GetSavedReg(mem, loc, ARGUMENTS[|sizes|]), 8)[..size])
    else InPlace(Word(Get(mem, loc, 8)) as int + 64 + Offset(sizes))
  }

  // The handle counts its pops and adds up the sizes of those off the stack.
  class ArgumentHandle {
    var offset: nat
    var num: nat
    ghost var sizes: seq<nat>

    ghost predicate Valid()
      reads this
    {
      num == |sizes| && offset == Offset(sizes)
    }

    constructor ()
      ensures Valid() && sizes == []
    {
      offset, num, sizes := 0, 0, [];
    }

    // PopArgument: the first six out of registers, the rest where the offset points.
    method PopArgument(mem: int -> byte, loc: word, size: nat) returns (arg: Handed)
      requires Valid() && (num < 6 ==> size <= 8)
      modifies this
      ensures Valid() && sizes == old(sizes) + [size]
      ensures arg == Handing(mem, loc, old(sizes), size)
    {
      hide LE, Word, Get, GetSavedReg;
      OffsetNext(sizes, size);
      sizes := sizes + [size];
      if num < 6 {
        arg := Copied(LE(GetSavedReg(mem, loc, ARGUMENTS[num]), 8)[..size]);
        num := num + 1;
      } else {
        arg := InPlace(Word(Get(mem, loc, 8)) as int + 64 + offset);
        offset := offset + size;
        num := num + 1;
      }
    }
  }

  lemma OffsetNext(sizes: seq<nat>, size: nat)
    ensures Offset(sizes + [size]) == Offset(sizes) + if |sizes| < 6 then 0 else size
  {
    if |sizes| >= 6 {
      assert (sizes + [size])[6..] == sizes[6..] + [size];
      assert (sizes[6..] + [size])[..|sizes[6..]|] == sizes[6..];
    }
  }

  function Sizes(ps: seq<Param>): (sizes: seq<nat>)
    ensures |sizes| == |ps| && forall i :: 0 <= i < |ps| ==> sizes[i] == ps[i].size
  {
    seq(|ps|, i requires 0 <= i < |ps| => ps[i].size)
  }

  // A payload pops all parameters of the call, from the first to the last.
  method PopAll(mem: int -> byte, loc: word, ps: seq<Param>) returns (args: seq<Handed>)
    requires forall i :: 0 <= i < |ps| && i < 6 ==> ps[i].size <= 8
    ensures |args| == |ps|
    ensures forall i :: 0 <= i < |ps| ==> args[i] == Handing(mem, loc, Sizes(ps[..i]), ps[i].size)
  {
    hide Handing, Offset;
    var h := new ArgumentHandle();
    args := [];
    for i := 0 to |ps|
      invariant h.Valid() && h.sizes == Sizes(ps[..i]) && |args| == i && fresh(h)
      invariant forall j :: 0 <= j < i ==> args[j] == Handing(mem, loc, Sizes(ps[..j]), ps[j].size)
    {
      var arg := h.PopArgument(mem, loc, ps[i].size);
      args := args + [arg];
      assert Sizes(ps[..i + 1]) == Sizes(ps[..i]) + [ps[i].size];
    }
  }

  // In a wrapper a pop hands out what was at its place in the context that was saved.
  lemma {:induction false} HandedIs(site: Site, payload: word, wrapper: word, back: nat, o: State, e: State,
                                    sizes: seq<nat>, size: nat)
    requires Wrapped(site, payload, wrapper, back, o, e) && site.Stack(Reg(o, RSP)) && (|sizes| < 6 ==> size <= 8)
    ensures match Popped(Reg(o, RSP), sizes)
            case Register(r) =>
              r < 16 && Handing(e.mem, site.loc, sizes, size) == Copied(LE(o.reg[r], 8)[..size])
            case Xmm(_) => false
            case Stack(a) =>
              && Handing(e.mem, site.loc, sizes, size) == InPlace(a)
              && (site.loc as int + 8 <= a || a + size <= site.loc as int ==>
                    Get(e.mem, a, size) == Get(o.mem, a, size))
  {
    hide LE, Word, Context, GetSavedReg, Offset;
    var rsp := Reg(o, RSP);
    SavedRegs(site, payload, wrapper, back, o, e);
    if |sizes| < 6 {
      assert ARGUMENTS[|sizes|] in RESTORED;
    } else {
      WordLE(rsp - 64);
      var a := rsp + Offset(sizes);
      if site.loc as int + 8 <= a || a + size <= site.loc as int {
        GetAgree(e.mem, o.mem, a, a + size, a, size);
      }
    }
  }

  // ---- when the two places are the same ----

  // Whether the pop of the parameter p after the parameters ps looks in the right place; all of it is known before
  // the call is made.
  predicate Agrees(tailcall: bool, ps: seq<Param>, p: Param) {
    if |ps| < 6 then p.Integer? && Integers(ps) == |ps|
    else Spilled(ps, p) && (if tailcall then 0 else 8) + Offset(Sizes(ps)) == 8 + StackBytes(ps)
  }

  // %rsp on entry of the callee, from where it was at the call site.
  function EntryRsp(rsp: int, tailcall: bool): int {
    if tailcall then rsp else rsp - 8
  }

  lemma {:induction false} PopsRight(rsp: int, tailcall: bool, ps: seq<Param>, p: Param)
    ensures Popped(rsp, Sizes(ps)) == PlaceOf(EntryRsp(rsp, tailcall), ps, p) <==> Agrees(tailcall, ps, p)
  {
    hide Offset, StackBytes, Integers, Sses;
  }

  // The first six parameters are integers, and those after them go on the stack.
  predicate Ordinary(ps: seq<Param>) {
    && (forall i :: 0 <= i < |ps| && i < 6 ==> ps[i].Integer?)
    && (forall i :: 6 <= i < |ps| ==> Spilled(ps[..i], ps[i]))
  }

  // Then stack arguments are found if and only if the site is not a tail call and every one before took a whole
  // number of eightbytes.
  lemma {:induction false} StackPops(tailcall: bool, ps: seq<Param>, p: Param)
    requires |ps| >= 6 && Ordinary(ps) && Spilled(ps, p)
    ensures Agrees(tailcall, ps, p) <==> !tailcall && forall i :: 6 <= i < |ps| ==> ps[i].size % 8 == 0
  {
    hide Spilled, StackBytes, Offset;
    OffsetRounds(ps);
  }

  // The offset falls behind the stack by what is lost to rounding.
  lemma {:induction false} OffsetRounds(ps: seq<Param>)
    requires Ordinary(ps)
    ensures Offset(Sizes(ps)) <= StackBytes(ps)
    ensures Offset(Sizes(ps)) == StackBytes(ps) <==> forall i :: 6 <= i < |ps| ==> ps[i].size % 8 == 0
    decreases |ps|
  {
    hide Spilled, Offset;
    if ps == [] {
      OffsetNone(Sizes(ps));
    } else {
      var before, p := ps[..|ps| - 1], ps[|ps| - 1];
      assert forall i :: 0 <= i < |before| ==> before[..i] == ps[..i];
      OffsetRounds(before);
      assert Sizes(ps) == Sizes(before) + [p.size];
      OffsetNext(Sizes(before), p.size);
      if |ps| <= 6 {
        IntegersAll(before);
        NotSpilled(before, p);
      } else {
        assert ps == before + [p];
      }
    }
  }

  lemma OffsetNone(sizes: seq<nat>)
    requires |sizes| <= 6
    ensures Offset(sizes) == 0
  {
  }

  lemma {:induction false} IntegersAll(ps: seq<Param>)
    requires forall i :: 0 <= i < |ps| ==> ps[i].Integer?
    ensures Integers(ps) == |ps|
  {
    if ps != [] {
      IntegersAll(ps[..|ps| - 1]);
    }
  }

  lemma NotSpilled(ps: seq<Param>, p: Param)
    requires Integers(ps) == |ps| < 6 && p.Integer?
    ensures !Spilled(ps, p)
  {
  }

  // With integers only: the k-th stack argument has its place 8 + 8 k above %rsp, and is found there if and only if
  // the site is not a tail call and every stack argument before it was popped as eight bytes.
  lemma {:induction false} IntegerPops(rsp: int, tailcall: bool, ps: seq<Param>, p: Param)
    requires |ps| >= 6 && p.Integer? && forall i :: 0 <= i < |ps| ==> ps[i].Integer? && 1 <= ps[i].size <= 8
    ensures PlaceOf(rsp, ps, p) == Stack(rsp + 8 + 8 * (|ps| - 6))
    ensures Agrees(tailcall, ps, p) <==> !tailcall && forall i :: 6 <= i < |ps| ==> ps[i].size == 8
  {
    hide StackBytes, Offset, Agrees, Integers;
    forall i | 6 <= i <= |ps|
      ensures Integers(ps[..i]) == i
    {
      IntegersAll(ps[..i]);
    }
    assert ps[..|ps|] == ps;
    StackPops(tailcall, ps, p);
    IntegerBytes(ps);
  }

  lemma {:induction false} IntegerBytes(ps: seq<Param>)
    requires forall i :: 0 <= i < |ps| ==> ps[i].Integer? && 1 <= ps[i].size <= 8
    ensures StackBytes(ps) == if |ps| <= 6 then 0 else 8 * (|ps| - 6)
  {
    if ps != [] {
      IntegerBytes(ps[..|ps| - 1]);
      IntegersAll(ps[..|ps| - 1]);
    }
  }

  // ---- an entry payload ----

  // From the call site into the wrapper of the entry payload, and from its return into the callee.
  ghost predicate Enters(code: seq<byte>, site: Site, m: seq<nat>, o: State, entry: State -> State, e: State, k: State)
    requires |m| > 3
  {
    && Reaches(code, site.base, o, e) && Wrapped(site, site.entry, site.wrapper_entry, site.base + m[3], o, e)
    && Reaches(code, site.base, entry(e), k) && k.rip == site.callee
    && Reg(k, RSP) == EntryRsp(Reg(o, RSP), site.tailcall) && SameContext(o, k)
  }

  lemma {:induction false} EnterBy(code: seq<byte>, site: Site, m: seq<nat>, o: State, entry: State -> State)
    returns (e: State, k: State)
    requires Blob(code, site, m) && o.rip == site.base && Behaves(entry, 72 + site.Disp())
    requires site.Stack(Reg(o, RSP)) && site.Clear(Reg(o, RSP))
    ensures |m| > 3 && Enters(code, site, m, o, entry, e, k)
  {
    hide Visit, Codes, Reaches, Wrapped, SameContext, Behaves;
    if site.tailcall {
      e, k := TailCall(code, site, m, o, entry);
    } else {
      e, k := EnterCallee(code, site, m, o, entry);
    }
  }

  // What was handed out is the argument the callee finds at the place: a copy of the register, or a pointer to it.
  ghost predicate Found(arg: Handed, place: Place, k: State, size: nat) {
    match place
    case Register(r) => r < 16 && size <= 8 && arg == Copied(LE(k.reg[r], 8)[..size])
    case Xmm(_) => false
    case Stack(a) => arg == InPlace(a)
  }

  // The n-th pop of an entry payload, after the parameters before it were popped by their sizes: it looks where the
  // callee will find the parameter if and only if the two places agree, and then hands out that argument. Of an
  // argument on the stack it hands out nothing right otherwise.
  lemma {:induction false} EntryArguments(code: seq<byte>, site: Site, m: seq<nat>, o: State, entry: State -> State,
                                          ps: seq<Param>, n: nat) returns (e: State, k: State)
    requires Blob(code, site, m) && o.rip == site.base && Behaves(entry, 72 + site.Disp())
    requires site.Stack(Reg(o, RSP)) && site.Clear(Reg(o, RSP))
    requires n < |ps| && (n < 6 ==> ps[n].size <= 8)
    ensures |m| > 3 && Enters(code, site, m, o, entry, e, k)
    ensures Popped(Reg(o, RSP), Sizes(ps[..n])) == PlaceOf(Reg(k, RSP), ps[..n], ps[n])
        <==> Agrees(site.tailcall, ps[..n], ps[n])
    ensures var arg, place := Handing(e.mem, site.loc, Sizes(ps[..n]), ps[n].size),
            PlaceOf(Reg(k, RSP), ps[..n], ps[n]);
            && (Agrees(site.tailcall, ps[..n], ps[n]) ==> Found(arg, place, k, ps[n].size))
            && (Spilled(ps[..n], ps[n]) ==> (Found(arg, place, k, ps[n].size) <==>
                                               Agrees(site.tailcall, ps[..n], ps[n])))
  {
    hide Blob, Reaches, Wrapped, Behaves, Handing, Agrees, Get, Found, Spilled, PlaceOf, Popped, SameContext;
    var before, p := ps[..n], ps[n];
    e, k := EnterBy(code, site, m, o, entry);
    PopsRight(Reg(o, RSP), site.tailcall, before, p);
    HandedAt(site, site.base + m[3], o, e, k, before, p);
  }

  lemma {:induction false} HandedAt(site: Site, back: nat, o: State, e: State, k: State, ps: seq<Param>, p: Param)
    requires Wrapped(site, site.entry, site.wrapper_entry, back, o, e) && site.Stack(Reg(o, RSP))
    requires (|ps| < 6 ==> p.size <= 8) && SameContext(o, k)
    ensures var arg, place := Handing(e.mem, site.loc, Sizes(ps), p.size), PlaceOf(Reg(k, RSP), ps, p);
            && (Popped(Reg(o, RSP), Sizes(ps)) == place ==> Found(arg, place, k, p.size))
            && (Spilled(ps, p) ==> (Found(arg, place, k, p.size) <==> Popped(Reg(o, RSP), Sizes(ps)) == place))
  {
    hide Wrapped, Handing, Get, LE, Offset, StackBytes;
    HandedIs(site, site.entry, site.wrapper_entry, back, o, e, Sizes(ps), p.size);
  }

  // ---- where it goes wrong ----

  const SEVEN: seq<Param> := seq(7, _ => Integer(8))

  // At a tail call the seventh pop points to the return address; the seventh argument lies above it.
  lemma {:induction false} TailSeventh(code: seq<byte>, site: Site, m: seq<nat>, o: State, entry: State -> State)
    returns (e: State, k: State)
    requires Blob(code, site, m) && o.rip == site.base && Behaves(entry, 72 + site.Disp()) && site.tailcall
    requires site.Stack(Reg(o, RSP)) && site.Clear(Reg(o, RSP))
    ensures |m| > 3 && Enters(code, site, m, o, entry, e, k)
    ensures Handing(e.mem, site.loc, Sizes(SEVEN[..6]), 8) == InPlace(Reg(k, RSP))
    ensures PlaceOf(Reg(k, RSP), SEVEN[..6], SEVEN[6]) == Stack(Reg(k, RSP) + 8)
  {
    hide Blob, Reaches, Wrapped, Behaves, Handing, Get;
    e, k := EnterBy(code, site, m, o, entry);
    HandedIs(site, site.entry, site.wrapper_entry, site.base + m[3], o, e, Sizes(SEVEN[..6]), 8);
    IntegerPops(Reg(k, RSP), true, SEVEN[..6], SEVEN[6]);
  }

  const INTS: seq<Param> := seq(8, i => Integer(4))

  // At any other call the second of two ints popped off the stack points into the middle of the first one's
  // eightbyte; its own is the next one.
  lemma {:induction false} SecondInt(code: seq<byte>, site: Site, m: seq<nat>, o: State, entry: State -> State)
    returns (e: State, k: State)
    requires Blob(code, site, m) && o.rip == site.base && Behaves(entry, 72 + site.Disp()) && !site.tailcall
    requires site.Stack(Reg(o, RSP)) && site.Clear(Reg(o, RSP))
    ensures |m| > 3 && Enters(code, site, m, o, entry, e, k)
    ensures Handing(e.mem, site.loc, Sizes(INTS[..7]), 4) == InPlace(Reg(o, RSP) + 4)
    ensures PlaceOf(Reg(k, RSP), INTS[..7], INTS[7]) == Stack(Reg(o, RSP) + 8)
  {
    hide Blob, Reaches, Wrapped, Behaves, Handing, Get, Offset;
    e, k := EnterBy(code, site, m, o, entry);
    HandedIs(site, site.entry, site.wrapper_entry, site.base + m[3], o, e, Sizes(INTS[..7]), 4);
    IntegerPops(Reg(k, RSP), false, INTS[..7], INTS[7]);
    assert Sizes(INTS[..7]) == Sizes(INTS[..6]) + [4];
    OffsetNext(Sizes(INTS[..6]), 4);
    OffsetNone(Sizes(INTS[..6]));
  }

  // A floating-point argument is in xmm0; the pop copies %rdi.
  lemma {:induction false} FloatMissed(rsp: int)
    ensures PlaceOf(rsp, [], Sse(8)) == Xmm(0) && Popped(rsp, []) == Register(RDI)
  {
    assert Sses([]) == 0;
  }
}
