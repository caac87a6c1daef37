/** The shadow call stack of the agent: entry and exit wrappers around calls, which catch up on tail calls. */
module ShadowStack {
  import opened Prelude

  // An instrumented call site.
  datatype Point = Point(id: nat, tailcall: bool)

  // What the wrappers do, as a trace: a call is entered, or left with a return value.
  datatype Step = Entered(pt: Point) | Left(pt: Point, value: int)

  // What an instrumented function does: calls that return here, then perhaps a tail call.
  datatype Activity = Activity(calls: Calls, tail: Tail)
  datatype Calls = NoCalls | Then(pt: Point, body: Activity, value: int, rest: Calls)
  datatype Tail = Returns | TailCall(pt: Point, body: Activity)

  // Ordinary calls are made at ordinary points, tail calls at tail-call points.
  predicate Proper(a: Activity)
    decreases a
  {
    ProperCalls(a.calls) && (a.tail.TailCall? ==> a.tail.pt.tailcall && Proper(a.tail.body))
  }

  predicate ProperCalls(c: Calls)
    decreases c
  {
    c.Then? ==> !c.pt.tailcall && Proper(c.body) && ProperCalls(c.rest)
  }

  // The tail calls under way when the activity reaches its end, oldest first.
  function TailPoints(a: Activity): (s: seq<Point>)
    decreases a
  {
    match a.tail
    case Returns => []
    case TailCall(pt, body) => [pt] + TailPoints(body)
  }

  // What the wrappers are expected to do while the activity runs: a call is left after everything it started,
  // first the tail calls it ended in, newest first, then the call itself, all with the value it returns.
  function Steps(a: Activity): seq<Step>
    decreases a
  {
    match a.tail
    case Returns => CallSteps(a.calls)
    case TailCall(pt, body) => CallSteps(a.calls) + ([Entered(pt)] + Steps(body))
  }

  function CallSteps(c: Calls): seq<Step>
    decreases c
  {
    match c
    case NoCalls => []
    case Then(pt, body, value, rest) =>
      [Entered(pt)] + Steps(body) + Unwind(TailPoints(body), value) + [Left(pt, value)] + CallSteps(rest)
  }

  // Leaving all of s, the last one first.
  function Unwind(s: seq<Point>, value: int): (r: seq<Step>)
    ensures |r| == |s|
  {
    if s == [] then [] else [Left(s[|s| - 1], value)] + Unwind(s[..|s| - 1], value)
  }

  // ---- the discipline of a stack, independently of how calls nest ----

  // Following a trace: every step out of a call is out of the newest one.
  function Follow(stack: seq<Point>, steps: seq<Step>): Option<seq<Point>>
    decreases |steps|
  {
    if steps == [] then Some(stack) else
      match steps[0]
      case Entered(pt) => Follow(stack + [pt], steps[1..])
      case Left(pt, _) =>
        if stack == [] || stack[|stack| - 1] != pt then None else Follow(stack[..|stack| - 1], steps[1..])
  }

  lemma {:induction false} FollowConcat(stack: seq<Point>, a: seq<Step>, b: seq<Step>)
    requires Follow(stack, a).Some?
    ensures Follow(stack, a + b) == Follow(Follow(stack, a).value, b)
    decreases |a|
  {
    if a == [] {
      assert a + b == b;
    } else {
      assert (a + b)[0] == a[0] && (a + b)[1..] == a[1..] + b;
      match a[0] {
        case Entered(pt) => FollowConcat(stack + [pt], a[1..], b);
        case Left(_, _) => FollowConcat(stack[..|stack| - 1], a[1..], b);
      }
    }
  }

  lemma {:induction false} FollowUnwind(stack: seq<Point>, s: seq<Point>, value: int)
    ensures Follow(stack + s, Unwind(s, value)) == Some(stack)
    decreases |s|
  {
    if s == [] {
      assert stack + s == stack;
    } else {
      var front := s[..|s| - 1];
      FollowUnwind(stack, front, value);
      assert (stack + s)[..|stack + s| - 1] == stack + front;
      assert Unwind(s, value)[1..] == Unwind(front, value);
    }
  }

  lemma FollowOne(stack: seq<Point>, step: Step)
    ensures step.Entered? ==> Follow(stack, [step]) == Some(stack + [step.pt])
    ensures step.Left? && stack != [] && stack[|stack| - 1] == step.pt ==>
            Follow(stack, [step]) == Some(stack[..|stack| - 1])
  {
    assert [step][1..] == [];
  }

  // The expected steps obey the discipline, for every nesting of calls and tail calls: an activity leaves
  // exactly its pending tail calls on the stack, a call leaves nothing.
  lemma {:induction false} StepsNest(stack: seq<Point>, a: Activity)
    ensures Follow(stack, Steps(a)) == Some(stack + TailPoints(a))
    decreases a, 1
  {
    hide Follow;
    CallsNest(stack, a.calls);
    if a.tail.TailCall? {
      var pt, body := a.tail.pt, a.tail.body;
      StepsNest(stack + [pt], body);
      FollowOne(stack, Entered(pt));
      FollowConcat(stack, [Entered(pt)], Steps(body));
      FollowConcat(stack, CallSteps(a.calls), [Entered(pt)] + Steps(body));
      assert stack + [pt] + TailPoints(body) == stack + ([pt] + TailPoints(body));
    } else {
      assert stack + [] == stack;
    }
  }

  lemma {:induction false} CallsNest(stack: seq<Point>, c: Calls)
    ensures Follow(stack, CallSteps(c)) == Some(stack)
    decreases c, 0
  {
    hide Follow;
    match c {
      case NoCalls => FollowNothing(stack);
      case Then(pt, body, value, rest) =>
        var inside := stack + [pt];
        var a, b, u, l := [Entered(pt)], Steps(body), Unwind(TailPoints(body), value), [Left(pt, value)];
        FollowOne(stack, Entered(pt));
        StepsNest(inside, body);
        FollowUnwind(inside, TailPoints(body), value);
        FollowOne(inside, Left(pt, value));
        assert inside[..|inside| - 1] == stack;
        CallsNest(stack, rest);
        FollowConcat(stack, a, b);
        FollowConcat(stack, a + b, u);
        FollowConcat(stack, a + b + u, l);
        FollowConcat(stack, a + b + u + l, CallSteps(rest));
    }
  }

  lemma FollowNothing(stack: seq<Point>)
    ensures Follow(stack, []) == Some(stack)
  {
  }

  // Every call entered is left exactly once, except the tail calls still pending.
  function EnteredPoints(steps: seq<Step>): multiset<Point> {
    if steps == [] then multiset{} else
      (if steps[0].Entered? then multiset{steps[0].pt} else multiset{}) + EnteredPoints(steps[1..])
  }

  function LeftPoints(steps: seq<Step>): multiset<Point> {
    if steps == [] then multiset{} else
      (if steps[0].Left? then multiset{steps[0].pt} else multiset{}) + LeftPoints(steps[1..])
  }

  lemma OneIn(a: multiset<Point>, e: multiset<Point>, r: multiset<Point>, l: multiset<Point>, x: multiset<Point>)
    requires a + x + e == r + l
    ensures a + (x + e) == r + l
  {
  }

  lemma OneOut(a: multiset<Point>, e: multiset<Point>, r: multiset<Point>, l: multiset<Point>, x: multiset<Point>)
    requires a + e == r + l
    ensures a + x + e == r + (x + l)
  {
    assert a + x + e == x + (a + e);
    assert x + (r + l) == r + (x + l);
  }

  lemma {:induction false} FollowBalances(stack: seq<Point>, steps: seq<Step>)
    requires Follow(stack, steps).Some?
    ensures multiset(stack) + EnteredPoints(steps) == multiset(Follow(stack, steps).value) + LeftPoints(steps)
    decreases |steps|
  {
    if steps != [] {
      var e, l := EnteredPoints(steps[1..]), LeftPoints(steps[1..]);
      var r := multiset(Follow(stack, steps).value);
      match steps[0] {
        case Entered(pt) =>
          FollowBalances(stack + [pt], steps[1..]);
          OneIn(multiset(stack), e, r, l, multiset{pt});
        case Left(pt, _) =>
          var front := stack[..|stack| - 1];
          assert stack == front + [pt];
          FollowBalances(front, steps[1..]);
          OneOut(multiset(front), e, r, l, multiset{pt});
      }
    }
  }

  lemma LeftOnce(a: Activity)
    ensures EnteredPoints(Steps(a)) == multiset(TailPoints(a)) + LeftPoints(Steps(a))
  {
    StepsNest([], a);
    FollowBalances([], Steps(a));
    assert [] + TailPoints(a) == TailPoints(a);
  }

  // ---- the wrappers ----

  class PointCallHandle {
    const pt: Point
    const callee: Option<nat>
    var user_info: int
    var return_value: int

    constructor (pt: Point, callee: Option<nat>)
      ensures this.pt == pt && this.callee == callee && user_info == return_value == 0
    {
      this.pt, this.callee, user_info, return_value := pt, callee, 0, 0;
    }
  }

  class SpContext {
    var call_handle_stack: seq<PointCallHandle>

    constructor ()
      ensures call_handle_stack == []
    {
      call_handle_stack := [];
    }

    method PushPointCallHandle(call_handle: PointCallHandle)
      modifies this
      ensures call_handle_stack == old(call_handle_stack) + [call_handle]
    {
      call_handle_stack := call_handle_stack + [call_handle];
    }

    // NULL when the stack is empty.
    method PopPointCallHandle() returns (ret: PointCallHandle?)
      modifies this
      ensures old(call_handle_stack) == [] ==> ret == null && call_handle_stack == []
      ensures old(call_handle_stack) != [] ==>
                var n := |old(call_handle_stack)| - 1;
                ret == old(call_handle_stack)[n] && call_handle_stack == old(call_handle_stack)[..n]
    {
      if |call_handle_stack| == 0 {
        return null;
      }
      ret := call_handle_stack[|call_handle_stack| - 1];
      call_handle_stack := call_handle_stack[..|call_handle_stack| - 1];
    }
  }

  // What a handle tells a payload.
  datatype Info = Info(pt: Point, callee: Option<nat>, user_info: int)

  // A payload function was run: which, for which call, and what its handle said.
  datatype PayloadRun = EntryRun(info: Info) | ExitRun(info: Info, return_value: int)

  ghost function InfoOf(h: PointCallHandle): Info
    reads h`user_info
  {
    Info(h.pt, h.callee, h.user_info)
  }

  ghost function Infos(stack: seq<PointCallHandle>): (s: seq<Info>)
    reads stack`user_info
    ensures |s| == |stack| && forall i :: 0 <= i < |s| ==> s[i] == InfoOf(stack[i])
  {
    if stack == [] then [] else Infos(stack[..|stack| - 1]) + [InfoOf(stack[|stack| - 1])]
  }

  lemma PushedOn(stack: seq<PointCallHandle>, h: PointCallHandle)
    ensures Infos(stack + [h]) == Infos(stack) + [InfoOf(h)] && Points(stack + [h]) == Points(stack) + [h.pt]
  {
    assert (stack + [h])[..|stack|] == stack;
  }

  lemma FirstInfos(stack: seq<PointCallHandle>, k: nat)
    requires k <= |stack|
    ensures Infos(stack[..k]) == Infos(stack)[..k]
  {
  }

  // Exit payloads for all of s, the last one first.
  function ExitRuns(s: seq<Info>, value: int): (r: seq<PayloadRun>)
    ensures |r| == |s| && forall i :: 0 <= i < |r| ==> r[i] == ExitRun(s[|s| - 1 - i], value)
  {
    if s == [] then [] else [ExitRun(s[|s| - 1], value)] + ExitRuns(s[..|s| - 1], value)
  }

  lemma ExitRunsLast(s: seq<Info>, value: int)
    requires s != []
    ensures ExitRuns(s, value) == [ExitRun(s[|s| - 1], value)] + ExitRuns(s[..|s| - 1], value)
  {
  }

  // What a payload function does to the agent: calls into instrumented code, in any order; and what it returns.
  datatype Nested = NestedEntry(pt: Point) | NestedExit(pt: Point, value: int)
  datatype Payload = Payload(calls: seq<Nested>, result: int)

  function Points(stack: seq<PointCallHandle>): (s: seq<Point>)
    ensures |s| == |stack|
  {
    seq(|stack|, i requires 0 <= i < |stack| => stack[i].pt)
  }

  // The newest handle for pt is at index k.
  predicate Newest(stack: seq<Point>, pt: Point, k: nat) {
    k < |stack| && stack[k] == pt && forall j :: k < j < |stack| ==> stack[j] != pt
  }

  lemma {:induction false} SomeNewest(stack: seq<Point>, pt: Point) returns (k: nat)
    requires pt in stack
    ensures Newest(stack, pt, k)
    decreases |stack|
  {
    if stack[|stack| - 1] == pt {
      k := |stack| - 1;
    } else {
      k := SomeNewest(stack[..|stack| - 1], pt);
    }
  }

  lemma PointsAre(stack: seq<PointCallHandle>)
    ensures forall i :: 0 <= i < |stack| ==> Points(stack)[i] == stack[i].pt
  {
  }

  // There is only one newest handle.
  lemma NewestIs(stack: seq<Point>, pt: Point, k: nat)
    requires Newest(stack, pt, k)
    ensures k < |stack| && stack[k] == pt && forall j :: k < j < |stack| ==> stack[j] != pt
    ensures forall i: nat :: Newest(stack, pt, i) ==> i == k
  {
  }

  lemma NothingUnwound(stack: seq<Point>, k: nat, n: nat, pt: Point, value: int)
    requires k <= n < |stack| && stack[n] == pt && forall j :: k < j < |stack| ==> stack[j] != pt
    ensures n == k && Unwind(stack[k + 1..n + 1], value) == []
  {
  }

  lemma UnwindNext(s: seq<Point>, value: int, steps: seq<Step>)
    requires s != []
    ensures steps + Unwind(s, value) == steps + [Left(s[|s| - 1], value)] + Unwind(s[..|s| - 1], value)
  {
  }

  class Agent {
    const context: SpContext
    const sp_entry: Option<Payload>
    const sp_exit: Option<Payload>
    const callees: map<nat, nat>
    var inTramp: bool
    ghost var trace: seq<Step>        // calls entered and left, in order
    ghost var log: seq<PayloadRun>    // payloads run, in order

    constructor (context: SpContext, sp_entry: Option<Payload>, sp_exit: Option<Payload>, callees: map<nat, nat>)
      ensures this.context == context && !inTramp && trace == [] && log == []
      ensures this.sp_entry == sp_entry && this.sp_exit == sp_exit && this.callees == callees
    {
      this.context, this.sp_entry, this.sp_exit, this.callees := context, sp_entry, sp_exit, callees;
      inTramp, trace, log := false, [], [];
    }

    ghost function Stack(): seq<Point>
      reads context
    {
      Points(context.call_handle_stack)
    }

    // What the handles on the stack say.
    ghost function Told(): seq<Info>
      reads context, context.call_handle_stack`user_info
    {
      Infos(context.call_handle_stack)
    }

    function Callee(pt: Point): Option<nat> {
      if pt.id in callees then Some(callees[pt.id]) else None
    }

    // What a handle for pt says: the entry payload sets user_info, if there is one and the callee is known.
    function Expected(pt: Point): (info: Info)
      ensures info.pt == pt && info.callee == Callee(pt)
    {
      Info(pt, Callee(pt), if Callee(pt).Some? && sp_entry.Some? then sp_entry.value.result else 0)
    }

    function EntryRuns(pt: Point): seq<PayloadRun> {
      if Callee(pt).Some? && sp_entry.Some? then [EntryRun(Info(pt, Callee(pt), 0))] else []
    }

    // A payload function runs with the guard up: whatever instrumented code it calls, the wrappers do nothing.
    method RunPayload(payload: Payload, call_handle: PointCallHandle, atExit: bool) returns (result: int)
      requires inTramp
      modifies this, context, context.call_handle_stack`return_value
      ensures inTramp && trace == old(trace) && context.call_handle_stack == old(context.call_handle_stack)
      ensures Told() == old(Told())
      ensures log == old(log) + [if atExit then ExitRun(InfoOf(call_handle), old(call_handle.return_value))
                                 else EntryRun(InfoOf(call_handle))]
      ensures result == payload.result
      decreases 1, |payload.calls|
    {
      log := log + [if atExit then ExitRun(InfoOf(call_handle), call_handle.return_value)
                    else EntryRun(InfoOf(call_handle))];
      ghost var ran := log;
      for i := 0 to |payload.calls|
        invariant inTramp && trace == old(trace) && context.call_handle_stack == old(context.call_handle_stack)
        invariant log == ran && Told() == old(Told())
      {
        match payload.calls[i] {
          case NestedEntry(pt) => WrapperEntry(pt);
          case NestedExit(pt, value) => WrapperExit(pt, value);
        }
      }
      result := payload.result;
    }

    // wrapper_entry
    method WrapperEntry(pt: Point)
      modifies this, context, context.call_handle_stack`return_value
      ensures old(inTramp) ==> trace == old(trace) && context.call_handle_stack == old(context.call_handle_stack)
      ensures old(inTramp) ==> log == old(log) && Told() == old(Told())
      ensures !old(inTramp) ==>
                && trace == old(trace) + [Entered(pt)] && log == old(log) + EntryRuns(pt)
                && |context.call_handle_stack| == |old(context.call_handle_stack)| + 1
                && context.call_handle_stack[..|old(context.call_handle_stack)|] == old(context.call_handle_stack)
                && fresh(context.call_handle_stack[|old(context.call_handle_stack)|])
                && Told() == old(Told()) + [Expected(pt)]
                && Stack() == old(Stack()) + [pt]
      ensures !old(inTramp) ==>
                if pt.id in callees && sp_entry.Some? then
                  && log == old(log) + [EntryRun(Info(pt, Some(callees[pt.id]), 0))]
                  && Told() == old(Told()) + [Info(pt, Some(callees[pt.id]), sp_entry.value.result)]
                else log == old(log) && Told() == old(Told()) + [Info(pt, Callee(pt), 0)]
      ensures inTramp == old(inTramp)
      decreases if inTramp then 0 else 2, 0
    {
      hide Points, Infos;
      if inTramp {
        return;
      }
      inTramp := true;
      ghost var was := context.call_handle_stack;
      var call_handle := Enter(pt);
      PushedOn(was, call_handle);
      trace := trace + [Entered(pt)];
      inTramp := false;
    }

    // A handle for the call, shown to the entry payload and then pushed.
    method Enter(pt: Point) returns (call_handle: PointCallHandle)
      requires inTramp
      modifies this, context, context.call_handle_stack`return_value
      ensures inTramp && trace == old(trace) && log == old(log) + EntryRuns(pt) && fresh(call_handle)
      ensures context.call_handle_stack == old(context.call_handle_stack) + [call_handle]
      ensures InfoOf(call_handle) == Expected(pt) && Infos(old(context.call_handle_stack)) == old(Told())
      decreases 1, 1 + (if sp_entry.Some? then |sp_entry.value.calls| else 0)
    {
      hide Points, Infos;
      var user_info := 0;
      var callee := Callee(pt);
      call_handle := new PointCallHandle(pt, callee);
      if callee.Some? {
        if sp_entry.Some? {
          user_info := RunPayload(sp_entry.value, call_handle, false);
        }
        call_handle.user_info := user_info;
      }
      context.PushPointCallHandle(call_handle);
    }

    // wrapper_exit: leaves the newest call made at pt, after the tail calls made since, newest first.
    method WrapperExit(pt: Point, ret_val: int)
      requires inTramp || pt in Stack()
      modifies this, context, context.call_handle_stack`return_value
      ensures old(inTramp) ==> trace == old(trace) && context.call_handle_stack == old(context.call_handle_stack)
      ensures old(inTramp) ==> log == old(log) && Told() == old(Told())
      ensures !old(inTramp) ==>
                forall k: nat :: Newest(old(Stack()), pt, k) ==>
                  && context.call_handle_stack == old(context.call_handle_stack)[..k]
                  && trace == old(trace) + Unwind(old(Stack())[k + 1..], ret_val) + [Left(pt, ret_val)]
                  && k < |old(Told())| && Told() == old(Told())[..k]
                  && log == old(log) + (if sp_exit.Some? then ExitRuns(old(Told())[k..], ret_val) else [])
      ensures inTramp == old(inTramp)
      decreases if inTramp then 0 else 2, 0
    {
      hide Unwind, Points, Newest, Follow, Steps, ExitRuns, Leaving, Infos;
      if inTramp {
        return;
      }
      ghost var k := SomeNewest(Stack(), pt);
      NewestIs(Stack(), pt, k);
      inTramp := true;
      LeaveTo(pt, ret_val, k);
      inTramp := false;
    }

    // Leaves the handle at k, which is the newest one for pt, after those above it.
    method LeaveTo(pt: Point, ret_val: int, ghost k: nat)
      requires inTramp && Newest(Stack(), pt, k)
      modifies this, context, context.call_handle_stack`return_value
      ensures inTramp && k < |old(context.call_handle_stack)| && k < |old(Stack())| && k < |old(Told())|
      ensures context.call_handle_stack == old(context.call_handle_stack)[..k] && Told() == old(Told())[..k]
      ensures trace == old(trace) + Unwind(old(Stack())[k + 1..], ret_val) + [Left(pt, ret_val)]
      ensures log == old(log) + Exits(old(Told())[k..], ret_val)
      decreases 1, 2 + (if sp_exit.Some? then |sp_exit.value.calls| else 0)
    {
      hide Unwind, Points, Newest, Follow, Steps, ExitRuns, Leaving, Infos, Exits;
      PointsAre(context.call_handle_stack);
      ghost var was, handles, before := Stack(), context.call_handle_stack, trace;
      ghost var infos, ran := Infos(handles), log;
      NewestIs(was, pt, k);
      var call_handle := Take(ret_val);
      ghost var n := |was| - 1;   // index of call_handle
      LeavingStarts(was, infos, k, ret_val, before, ran);
      while pt != call_handle.pt
        invariant k <= n < |was| && call_handle == handles[n] && context.call_handle_stack == handles[..n] && inTramp
        invariant call_handle.return_value == ret_val && Infos(handles) == infos
        invariant Leaving(was, infos, k, n, ret_val, trace, log, before, ran)
        decreases n
      {
        ghost var t, l := trace, log;
        Leave(call_handle);
        LeavingGoesOn(was, infos, k, n, ret_val, t, l, before, ran);
        call_handle := Take(ret_val);
        n := n - 1;
      }
      ghost var t, l := trace, log;
      Leave(call_handle);
      LeavingEnds(was, infos, k, n, pt, ret_val, t, l, before, ran);
      FirstInfos(handles, k);
    }

    // The exit payloads still to run.
    function Exits(s: seq<Info>, value: int): seq<PayloadRun> {
      if sp_exit.Some? then ExitRuns(s, value) else []
    }

    // In the middle of wrapper_exit: the handles from k to n are still to be left.
    ghost predicate Leaving(was: seq<Point>, infos: seq<Info>, k: nat, n: nat, value: int, trace: seq<Step>,
                            log: seq<PayloadRun>, before: seq<Step>, ran: seq<PayloadRun>) {
      && k <= n < |was| == |infos|
      && trace + Unwind(was[k + 1..n + 1], value) == before + Unwind(was[k + 1..], value)
      && log + Exits(infos[k..n + 1], value) == ran + Exits(infos[k..], value)
    }

    lemma LeavingStarts(was: seq<Point>, infos: seq<Info>, k: nat, value: int, before: seq<Step>, ran: seq<PayloadRun>)
      requires k < |was| == |infos|
      ensures Leaving(was, infos, k, |was| - 1, value, before, ran, before, ran)
    {
      assert was[k + 1..|was|] == was[k + 1..] && infos[k..|was|] == infos[k..];
    }

    lemma LeavingGoesOn(was: seq<Point>, infos: seq<Info>, k: nat, n: nat, value: int, trace: seq<Step>,
                        log: seq<PayloadRun>, before: seq<Step>, ran: seq<PayloadRun>)
      requires Leaving(was, infos, k, n, value, trace, log, before, ran) && n > k
      ensures Leaving(was, infos, k, n - 1, value, trace + [Left(was[n], value)],
                      log + (if sp_exit.Some? then [ExitRun(infos[n], value)] else []), before, ran)
    {
      hide Unwind, ExitRuns;
      UnwindNext(was[k + 1..n + 1], value, trace);
      assert was[k + 1..n + 1][..n - k - 1] == was[k + 1..n];
      ExitsNext(infos, k, n, value, log);
    }

    lemma LeavingEnds(was: seq<Point>, infos: seq<Info>, k: nat, n: nat, pt: Point, value: int, trace: seq<Step>,
                      log: seq<PayloadRun>, before: seq<Step>, ran: seq<PayloadRun>)
      requires Leaving(was, infos, k, n, value, trace, log, before, ran) && was[n] == pt
      requires forall j :: k < j < |was| ==> was[j] != pt
      ensures n == k && trace + [Left(pt, value)] == before + Unwind(was[k + 1..], value) + [Left(pt, value)]
      ensures log + (if sp_exit.Some? then [ExitRun(infos[n], value)] else []) == ran + Exits(infos[k..], value)
    {
      hide Unwind, ExitRuns;
      NothingUnwound(was, k, n, pt, value);
      ExitsNext(infos, k, n, value, log);
      ExitsNone(infos, k, value);
    }

    lemma ExitsNext(infos: seq<Info>, k: nat, n: nat, value: int, log: seq<PayloadRun>)
      requires k <= n < |infos|
      ensures log + Exits(infos[k..n + 1], value) ==
                log + (if sp_exit.Some? then [ExitRun(infos[n], value)] else []) + Exits(infos[k..n], value)
    {
      var s := infos[k..n + 1];
      assert s[..n - k] == infos[k..n] && s[|s| - 1] == infos[n];
      ExitRunsLast(s, value);
    }

    lemma ExitsNone(infos: seq<Info>, k: nat, value: int)
      requires k <= |infos|
      ensures Exits(infos[k..k], value) == []
    {
    }

    // The exit payload of one handle.
    method Leave(call_handle: PointCallHandle)
      requires inTramp
      modifies this, context, context.call_handle_stack`return_value
      ensures inTramp && trace == old(trace) + [Left(call_handle.pt, old(call_handle.return_value))]
      ensures context.call_handle_stack == old(context.call_handle_stack)
      ensures Told() == old(Told())
      ensures log == old(log) + (if sp_exit.Some? then [ExitRun(InfoOf(call_handle), old(call_handle.return_value))]
                                 else [])
      decreases 1, 1 + (if sp_exit.Some? then |sp_exit.value.calls| else 0)
    {
      trace := trace + [Left(call_handle.pt, call_handle.return_value)];
      if sp_exit.Some? {
        var _ := RunPayload(sp_exit.value, call_handle, true);
      }
    }

    // Pops the newest handle and gives it the return value.
    method Take(ret_val: int) returns (call_handle: PointCallHandle)
      requires context.call_handle_stack != []
      modifies context, context.call_handle_stack`return_value
      ensures var n := |old(context.call_handle_stack)| - 1;
              call_handle == old(context.call_handle_stack)[n]
                && context.call_handle_stack == old(context.call_handle_stack)[..n]
      ensures call_handle.return_value == ret_val
    {
      call_handle := context.PopPointCallHandle();
      call_handle.return_value := ret_val;
    }

    // ---- whole runs ----

    lemma NewestBelowTails(stack: seq<Point>, pt: Point, tails: seq<Point>)
      requires !pt.tailcall && forall i :: 0 <= i < |tails| ==> tails[i].tailcall
      ensures Newest(stack + [pt] + tails, pt, |stack|)
      ensures (stack + [pt] + tails)[|stack| + 1..] == tails && (stack + [pt] + tails)[..|stack|] == stack
    {
    }

    // The payload runs that go with the steps, one by one.
    function StepRuns(step: Step): seq<PayloadRun> {
      match step
      case Entered(pt) => EntryRuns(pt)
      case Left(pt, value) => if sp_exit.Some? then [ExitRun(Expected(pt), value)] else []
    }

    function Runs(steps: seq<Step>): seq<PayloadRun> {
      if steps == [] then [] else StepRuns(steps[0]) + Runs(steps[1..])
    }

    lemma {:induction false} RunsConcat(a: seq<Step>, b: seq<Step>)
      ensures Runs(a + b) == Runs(a) + Runs(b)
      decreases |a|
    {
      hide StepRuns;
      if a == [] {
        assert a + b == b;
      } else {
        assert (a + b)[0] == a[0] && (a + b)[1..] == a[1..] + b;
        RunsConcat(a[1..], b);
        assert StepRuns(a[0]) + (Runs(a[1..]) + Runs(b)) == StepRuns(a[0]) + Runs(a[1..]) + Runs(b);
      }
    }

    lemma RunsOne(step: Step)
      ensures Runs([step]) == StepRuns(step)
    {
      assert [step][1..] == [];
    }

    // Leaving handles that say what is expected runs the payloads that go with the steps.
    lemma {:induction false} UnwindRuns(points: seq<Point>, infos: seq<Info>, value: int)
      requires |points| == |infos| && forall i :: 0 <= i < |points| ==> infos[i] == Expected(points[i])
      ensures Runs(Unwind(points, value)) == Exits(infos, value)
    {
      hide Expected;
      if points != [] {
        var n := |points| - 1;
        UnwindRuns(points[..n], infos[..n], value);
        RunsConcat([Left(points[n], value)], Unwind(points[..n], value));
        RunsOne(Left(points[n], value));
      }
    }

    function ExpectedOf(points: seq<Point>): (s: seq<Info>)
      ensures |s| == |points| && forall i :: 0 <= i < |s| ==> s[i] == Expected(points[i])
    {
      seq(|points|, i requires 0 <= i < |points| => Expected(points[i]))
    }

    lemma ExpectedTail(a: Activity, told: seq<Info>)
      requires a.tail.TailCall?
      ensures told + ExpectedOf(TailPoints(a)) == told + [Expected(a.tail.pt)] + ExpectedOf(TailPoints(a.tail.body))
    {
      hide Expected, ExpectedOf;
      var first, rest := [Expected(a.tail.pt)], ExpectedOf(TailPoints(a.tail.body));
      ExpectedFirst(a.tail.pt, TailPoints(a.tail.body));
      assert told + (first + rest) == told + first + rest;
    }

    lemma ExpectedFirst(pt: Point, points: seq<Point>)
      ensures ExpectedOf([pt] + points) == [Expected(pt)] + ExpectedOf(points)
    {
      hide Expected;
    }

    // The mutatee runs an activity: the wrappers do exactly the expected steps, and only its pending tail calls
    // stay on the stack, above the handles that were there.
    method Run(a: Activity)
      requires Proper(a) && !inTramp
      modifies this, context, context.call_handle_stack`return_value
      ensures !inTramp && trace == old(trace) + Steps(a)
      ensures log == old(log) + Runs(Steps(a))
      ensures Stack() == old(Stack()) + TailPoints(a)
      ensures |context.call_handle_stack| >= |old(context.call_handle_stack)|
      ensures context.call_handle_stack[..|old(context.call_handle_stack)|] == old(context.call_handle_stack)
      ensures forall i :: |old(context.call_handle_stack)| <= i < |context.call_handle_stack| ==>
              fresh(context.call_handle_stack[i])
      ensures Told() == old(Told()) + ExpectedOf(TailPoints(a))
      decreases a, 1
    {
      hide Runs, EntryRuns, Expected, ExpectedOf, Infos, Steps, CallSteps, TailPoints, Points;
      ghost var was, before := log, trace;
      RunCalls(a.calls);
      ActivityEnds(a, Stack(), Told(), before, was);
      if a.tail.TailCall? {
        WrapperEntry(a.tail.pt);
        Run(a.tail.body);
      }
    }

    // How an activity is put together from its calls and its tail call.
    lemma ActivityEnds(a: Activity, stack: seq<Point>, told: seq<Info>, trace: seq<Step>, log: seq<PayloadRun>)
      ensures a.tail.Returns? ==>
                && trace + CallSteps(a.calls) == trace + Steps(a)
                && log + Runs(CallSteps(a.calls)) == log + Runs(Steps(a))
                && stack == stack + TailPoints(a) && told == told + ExpectedOf(TailPoints(a))
      ensures a.tail.TailCall? ==>
                var pt, body := a.tail.pt, a.tail.body;
                && trace + CallSteps(a.calls) + [Entered(pt)] + Steps(body) == trace + Steps(a)
                && log + Runs(CallSteps(a.calls)) + EntryRuns(pt) + Runs(Steps(body)) == log + Runs(Steps(a))
                && stack + [pt] + TailPoints(body) == stack + TailPoints(a)
                && told + [Expected(pt)] + ExpectedOf(TailPoints(body)) == told + ExpectedOf(TailPoints(a))
    {
      hide Runs, EntryRuns, Expected, ExpectedOf, CallSteps;
      if a.tail.TailCall? {
        ExpectedTail(a, told);
        RunsOfTail(a);
      }
    }

    lemma RunsOfTail(a: Activity)
      requires a.tail.TailCall?
      ensures Runs(Steps(a)) == Runs(CallSteps(a.calls)) + (EntryRuns(a.tail.pt) + Runs(Steps(a.tail.body)))
    {
      var pt, body := a.tail.pt, a.tail.body;
      hide Runs, EntryRuns;
      RunsConcat(CallSteps(a.calls), [Entered(pt)] + Steps(body));
      RunsConcat([Entered(pt)], Steps(body));
      RunsOne(Entered(pt));
    }

    lemma RunsOfCall(c: Calls)
      requires c.Then?
      ensures Runs(CallSteps(c)) == EntryRuns(c.pt) + Runs(Steps(c.body)) + Runs(Unwind(TailPoints(c.body), c.value))
              + StepRuns(Left(c.pt, c.value)) + Runs(CallSteps(c.rest))
    {
      hide Runs, EntryRuns, Expected, Steps;
      var a, b, u, l := [Entered(c.pt)], Steps(c.body), Unwind(TailPoints(c.body), c.value), [Left(c.pt, c.value)];
      RunsConcat(a + b + u + l, CallSteps(c.rest));
      RunsConcat(a + b + u, l);
      RunsConcat(a + b, u);
      RunsConcat(a, b);
      RunsOne(Entered(c.pt));
      RunsOne(Left(c.pt, c.value));
    }

    // The handles a call leaves: its own below those of its tail calls.
    lemma ExitsOfCall(stack: seq<Info>, own: Info, tails: seq<Info>, points: seq<Point>, value: int)
      requires own == Expected(own.pt) && |points| == |tails|
      requires forall i :: 0 <= i < |tails| ==> tails[i] == Expected(points[i])
      ensures (stack + [own] + tails)[|stack|..] == [own] + tails
      ensures Exits([own] + tails, value) == Runs(Unwind(points, value)) + StepRuns(Left(own.pt, value))
    {
      hide Expected;
      UnwindRuns(points, tails, value);
      OwnLast(own, tails, value);
    }

    lemma {:induction false} OwnLast(own: Info, tails: seq<Info>, value: int)
      ensures ExitRuns([own] + tails, value) == ExitRuns(tails, value) + [ExitRun(own, value)]
    {
      if tails != [] {
        var front := tails[..|tails| - 1];
        assert ([own] + tails)[..|tails|] == [own] + front;
        OwnLast(own, front, value);
      }
    }

    lemma LogOfCall(c: Calls, log: seq<PayloadRun>, entered: seq<PayloadRun>, inside: seq<PayloadRun>,
                    left: seq<PayloadRun>, told: seq<Info>)
      requires c.Then? && entered == log + EntryRuns(c.pt) && inside == entered + Runs(Steps(c.body))
      requires left == inside
                       + Exits((told + [Expected(c.pt)] + ExpectedOf(TailPoints(c.body)))[|told|..], c.value)
      ensures left + Runs(CallSteps(c.rest)) == log + Runs(CallSteps(c))
    {
      hide Runs, EntryRuns, Expected, ExpectedOf, Exits, Steps, CallSteps, Unwind, TailPoints;
      ExitsOfCall(told, Expected(c.pt), ExpectedOf(TailPoints(c.body)), TailPoints(c.body), c.value);
      RunsOfCall(c);
    }

    lemma StepsOfCall(c: Calls, trace: seq<Step>)
      requires c.Then?
      ensures trace + [Entered(c.pt)] + Steps(c.body) + Unwind(TailPoints(c.body), c.value) + [Left(c.pt, c.value)]
              + CallSteps(c.rest) == trace + CallSteps(c)
    {
      hide Unwind, TailPoints, Steps;
    }

    method RunCalls(c: Calls)
      requires ProperCalls(c) && !inTramp
      modifies this, context, context.call_handle_stack`return_value
      ensures !inTramp && trace == old(trace) + CallSteps(c) && log == old(log) + Runs(CallSteps(c))
      ensures context.call_handle_stack == old(context.call_handle_stack)
      ensures Told() == old(Told())
      decreases c, 0
    {
      hide Unwind, Steps, Newest, Points, Runs, EntryRuns, Expected, ExpectedOf, ExitRuns, Infos, CallSteps, TailPoints;
      if c.Then? {
        ghost var told, was, before := Told(), log, trace;
        WrapperEntry(c.pt);
        ghost var entered := log;
        Run(c.body);
        ghost var inside := log;
        TailsAreTails(c.body);
        NewestBelowTails(old(Stack()), c.pt, TailPoints(c.body));
        WrapperExit(c.pt, c.value);
        LogOfCall(c, was, entered, inside, log, told);
        StepsOfCall(c, before);
        RunCalls(c.rest);
      } else {
        NoCallsDone(c);
      }
    }

    lemma NoCallsDone(c: Calls)
      requires c.NoCalls?
      ensures CallSteps(c) == [] && Runs(CallSteps(c)) == []
    {
    }
  }

  lemma {:induction false} TailsAreTails(a: Activity)
    requires Proper(a)
    ensures forall i :: 0 <= i < |TailPoints(a)| ==> TailPoints(a)[i].tailcall
    decreases a
  {
    if a.tail.TailCall? {
      TailsAreTails(a.tail.body);
    }
  }
}
