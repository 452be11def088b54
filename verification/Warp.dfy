/** `Warp::launch` and `Warp::update` in the source's form: nested loops that clear mask bits and
    fill a map of paths, then a loop that pushes, edits and pops the stack in place. */
module WarpDevice {
  import opened SimtStack

  class Warp {
    const warpSize: nat
    var stack: seq<Entry>

    constructor (warpSize: nat)
      ensures this.warpSize == warpSize && stack == []
    {
      this.warpSize := warpSize;
      stack := [];
    }

    method Launch(startPc: nat, mask: set<nat>)
      modifies this`stack
      ensures stack == LaunchStack(startPc, mask)
    {
      stack := [];
      var entry := FRESH_ENTRY;
      entry := entry.(pc := startPc);
      entry := entry.(calldepth := 1);
      entry := entry.(mask := mask);
      entry := entry.(kind := Normal);
      stack := stack + [entry];
    }

    method Update(i: Issue)
      requires Asserts(stack, i)
      requires |i.nextPc| == warpSize
      requires forall l | l in Top(stack).mask :: l < warpSize
      modifies this`stack
      ensures stack == NextStack(old(stack), i)
    {
      hide Paths, LanesAt, NextStack;
      var top := stack[|stack| - 1];
      var paths, count := GroupPaths(warpSize, top.mask, i);
      WalkPaths(i, top, paths, count);
    }

    /** The path loop and the final pop. */
    method WalkPaths(i: Issue, top: Entry, paths: map<nat, set<nat>>, count: nat)
      requires stack != [] && Asserts(stack, i) && top == Top(stack)
      requires paths.Keys == Paths(Live(stack, i), i) && count == |paths.Keys|
      requires forall p | p in paths :: paths[p] == LanesAt(Live(stack, i), i, p)
      modifies this`stack
      ensures stack == NextStack(old(stack), i)
    {
      hide Place, Walk, NextStack, PathOrder, Paths, LanesAt, FirstPath, Asserts, Matches, Remaining;
      ghost var s, live := stack, Live(stack, i);
      AtMostTwo(s, i);
      ghost var order := PathOrder(Paths(live, i), i.pc + i.size);
      WalkStart(s, i, paths);
      var rest, diverged, newRecvg, n, returned := paths, false, NULL_PC, 0, false;
      while n < count
        invariant 0 <= n <= count
        invariant WalkedTo(s, top, i, count, n, order.0, order.1, rest, stack, diverged, newRecvg)
      {
        returned, rest, diverged, newRecvg :=
          NextPath(i, top, count, n, rest, diverged, newRecvg, s, order.0, order.1);
        if returned {
          return;
        }
        n := n + 1;
      }
      WalkEnd(s, i, count, rest, stack, diverged, newRecvg);
      stack := stack[..|stack| - 1];
    }

    /** One round of the path loop. */
    method NextPath(i: Issue, top: Entry, count: nat, n: nat, rest: map<nat, set<nat>>, diverged: bool, newRecvg: nat,
                    ghost s: seq<Entry>, ghost p: nat, ghost q: nat)
      returns (returned: bool, rest': map<nat, set<nat>>, diverged': bool, newRecvg': nat)
      requires s != [] && n < count <= 2 && Asserts(s, i) && top == Top(s) && count == |Paths(Live(s, i), i)|
      requires (p, q) == PathOrder(Paths(Live(s, i), i), i.pc + i.size)
      requires WalkedTo(s, top, i, count, n, p, q, rest, stack, diverged, newRecvg)
      modifies this`stack
      ensures returned ==> stack == NextStack(s, i)
      ensures !returned ==> WalkedTo(s, top, i, count, n + 1, p, q, rest', stack, diverged', newRecvg')
    {
      hide Place, Walk, NextStack, PathOrder, Paths, LanesAt, Asserts, Matches, FirstPath;
      ghost var start, notTaken := Progress(Pop(s), top, false, NULL_PC), i.pc + i.size;
      assert n == 0 ==> rest.Keys == Paths(Live(s, i), i);
      RemainingFirst(rest.Keys, n, count, p, q, notTaken);
      WalkOn(start, top, i, count, n, p, q);
      var pc, lanes;
      pc, lanes, rest' := TakePath(rest, i.pc + i.size);
      ghost var before := Walk(start, top, i, count, n, p, q);
      returned, diverged', newRecvg' := HandlePath(pc, lanes, i, top, count, diverged, newRecvg, s, before);
    }

    /** Takes the next path out of the map: the fall-through if present, else the least. */
    method TakePath(paths: map<nat, set<nat>>, notTaken: nat)
      returns (pc: nat, lanes: set<nat>, rest: map<nat, set<nat>>)
      requires paths.Keys != {}
      ensures pc == FirstPath(paths.Keys, notTaken)
      ensures lanes == paths[pc] && rest.Keys == paths.Keys - {pc} && forall x | x in rest :: rest[x] == paths[x]
    {
      if notTaken in paths {
        pc := notTaken;
      } else {
        MinExists(paths.Keys);
        pc :| IsMin(pc, paths.Keys);
      }
      lanes := paths[pc];
      rest := paths - {pc};
    }

    /** The body of the path loop for one path. */
    method HandlePath(pc: nat, lanes: set<nat>, i: Issue, top: Entry, count: nat, diverged: bool, newRecvg: nat,
                      ghost s: seq<Entry>, ghost d: Progress)
      returns (returned: bool, diverged': bool, newRecvg': nat)
      requires Asserts(s, i) && top == Top(s) && Matches(d, stack, diverged, newRecvg)
      requires i.op.CallOp? || Returning(s, i) ==>
                 && stack == s && Paths(Live(s, i), i) != {}
                 && pc == FirstPath(Paths(Live(s, i), i), i.pc + i.size)
      requires lanes == LanesAt(Live(s, i), i, pc)
      modifies this`stack
      ensures returned == (i.op.CallOp? || Returning(s, i))
      ensures if returned then stack == NextStack(s, i)
              else Matches(Place(d, top, i, count, pc, lanes), stack, diverged', newRecvg')
    {
      hide Place, NextStack, Paths, LanesAt;
      diverged', newRecvg' := diverged, newRecvg;
      returned := CallOrReturn(pc, lanes, i, top, s);
      if !returned {
        diverged', newRecvg' := PlacePath(pc, lanes, i, top, count, diverged, newRecvg, d);
      }
    }

    /** The special cases: a call pushes its entry, a return from a call entry pops it. */
    method CallOrReturn(pc: nat, lanes: set<nat>, i: Issue, top: Entry, ghost s: seq<Entry>) returns (returned: bool)
      requires Asserts(s, i) && top == Top(s) && stack != []
      requires i.op.CallOp? || Returning(s, i) ==>
                 && stack == s && Paths(Live(s, i), i) != {}
                 && pc == FirstPath(Paths(Live(s, i), i), i.pc + i.size) && lanes == LanesAt(Live(s, i), i, pc)
      modifies this`stack
      ensures returned == (i.op.CallOp? || Returning(s, i))
      ensures stack == if returned then NextStack(s, i) else old(stack)
    {
      if i.op.CallOp? {
        stack := stack + [FRESH_ENTRY.(pc := pc, mask := lanes, kind := Call)];
        FirstIsCall(s, i, pc);
        return true;
      } else if i.op.RetOp? && top.kind.Call? {
        stack := stack[..|stack| - 1];
        var caller := stack[|stack| - 1];
        stack := stack[|stack| - 1 := caller.(pc := pc)];
        if pc == caller.rpc && !caller.kind.Call? {
          stack := stack[..|stack| - 1];
        }
        FirstIsCall(s, i, pc);
        return true;
      }
      return false;
    }

    /** The part of the path loop below the special cases. */
    method PlacePath(pc: nat, lanes: set<nat>, i: Issue, top: Entry, count: nat, diverged: bool, newRecvg: nat,
                     ghost d: Progress)
      returns (diverged': bool, newRecvg': nat)
      requires Matches(d, stack, diverged, newRecvg)
      modifies this`stack
      ensures Matches(Place(d, top, i, count, pc, lanes), stack, diverged', newRecvg')
    {
      diverged', newRecvg' := diverged, newRecvg;
      if pc == top.rpc && !top.kind.Call? {
        return;
      }
      if count > 1 && !diverged' {
        diverged' := true;
        newRecvg' := i.recvg;
        if newRecvg' != top.rpc {
          stack := stack[|stack| - 1 := stack[|stack| - 1].(pc := newRecvg')];
          stack := stack + [FRESH_ENTRY];
        }
      }
      if diverged' && pc == newRecvg' {
        return;
      }
      var slot := stack[|stack| - 1].(pc := pc, mask := lanes);
      if diverged' {
        slot := slot.(calldepth := 0);
        slot := slot.(rpc := newRecvg');
      } else {
        slot := slot.(rpc := top.rpc);
      }
      stack := stack[|stack| - 1 := slot];
      stack := stack + [FRESH_ENTRY];
    }
  }

  /** The nested grouping loop: one entry for each distinct next program counter of the lanes that
      are active and not done, holding exactly the lanes with that counter. */
  method GroupPaths(warpSize: nat, mask: set<nat>, i: Issue) returns (paths: map<nat, set<nat>>, count: nat)
    requires |i.nextPc| == warpSize && forall l | l in mask :: l < warpSize
    requires forall l | l in mask - i.done :: i.Target(l) != NULL_PC
    ensures paths.Keys == Paths(mask - i.done, i)
    ensures forall p | p in paths :: paths[p] == LanesAt(mask - i.done, i, p)
    ensures count == |Paths(mask - i.done, i)|
  {
    var active := mask;
    ghost var live := mask - i.done;
    paths, count := map[], 0;
    while active != {}
      invariant active <= mask
      invariant forall l | l in live :: l in active <==> i.Target(l) !in paths
      invariant forall p | p in paths :: paths[p] == LanesAt(live, i, p) && p in Paths(live, i)
      invariant count == |paths|
      decreases |active|
    {
      var pc, group, rest := ExtractGroup(warpSize, active, i);
      if pc != NULL_PC {
        var g :| g in group;
        assert pc !in paths;
        paths := paths[pc := group];
        count := count + 1;
      }
      active := rest;
    }
    assert paths.Keys == Paths(live, i);
  }

  /** The inner scan, from the highest lane down: done lanes leave the mask, and so do the lanes that
      share the first next program counter met. */
  method ExtractGroup(warpSize: nat, active: set<nat>, i: Issue) returns (pc: nat, group: set<nat>, rest: set<nat>)
    requires |i.nextPc| == warpSize && active != {} && forall l | l in active :: l < warpSize
    requires forall l | l in active - i.done :: i.Target(l) != NULL_PC
    ensures |rest| < |active| && rest <= active
    ensures pc == NULL_PC ==> rest == {} && active <= i.done
    ensures pc != NULL_PC ==> group != {} && group == LanesAt(active - i.done, i, pc)
    ensures pc != NULL_PC ==> rest == active - i.done - group
  {
    pc, group, rest := NULL_PC, {}, active;
    for k := warpSize downto 0
      invariant pc == NULL_PC ==> group == {} && forall l | l in active && l >= k :: l in i.done
      invariant pc != NULL_PC ==> group != {}
      invariant forall l :: l in group <==> l in active && l >= k && l !in i.done && i.Target(l) == pc
      invariant forall l :: l in rest <==> l in active && (l < k || (l !in i.done && l !in group))
    {
      if k in rest {
        assert i.Target(k) == i.nextPc[k];
        if k in i.done {
          rest := rest - {k};
        } else if pc == NULL_PC {
          pc := i.nextPc[k];
          group := group + {k};
          rest := rest - {k};
        } else if pc == i.nextPc[k] {
          group := group + {k};
          rest := rest - {k};
        }
      }
    }
    var x :| x in active;
    if pc == NULL_PC {
      assert x !in rest;
    } else {
      var g :| g in group;
      assert g in active && g !in rest;
    }
    StrictSubsetCard(rest, active);
  }

  lemma StrictSubsetCard<T>(a: set<T>, b: set<T>)
    requires a < b
    ensures |a| < |b|
  {
    var x :| x in b && x !in a;
    assert b == a + (b - a) && x in b - a;
  }

  // ---------- the path loop as a function, and its closed form ----------

  /** The state between two paths: `slot` is the back of the stack, `base` all below it. */
  datatype Progress = Progress(base: seq<Entry>, slot: Entry, diverged: bool, newRecvg: nat)

  predicate Matches(d: Progress, stack: seq<Entry>, diverged: bool, newRecvg: nat) {
    stack == d.base + [d.slot] && diverged == d.diverged && newRecvg == d.newRecvg
  }

  /** The order in which the loop takes the paths. */
  ghost function PathOrder(paths: set<nat>, notTaken: nat): (r: (nat, nat))
    ensures |paths| >= 1 ==> paths != {} && r.0 == FirstPath(paths, notTaken)
    ensures |paths| == 1 ==> paths == {r.0}
    ensures |paths| == 2 ==> r.1 != r.0 && r.1 != notTaken && paths == {r.0, r.1} && r.1 == MinPath(paths - {r.0})
  {
    if |paths| == 0 then (0, 0)
    else
      var p := FirstPath(paths, notTaken);
      assert |paths - {p}| == |paths| - 1;
      if |paths| == 1 then (p, 0)
      else
        var q := MinPath(paths - {p});
        assert |paths - {p} - {q}| == |paths| - 2;
        (p, q)
  }

  function Remaining(n: nat, count: nat, p: nat, q: nat): set<nat> {
    (if n < 1 <= count then {p} else {}) + (if n < 2 <= count then {q} else {})
  }

  lemma RemainingFirst(keys: set<nat>, n: nat, count: nat, p: nat, q: nat, notTaken: nat)
    requires n < count <= 2 && keys == Remaining(n, count, p, q)
    requires count == 2 ==> p != q && notTaken != q
    requires n == 0 && count == 2 ==> p == FirstPath(keys, notTaken)
    ensures keys != {} && FirstPath(keys, notTaken) == (if n == 0 then p else q)
    ensures notTaken in keys ==> n == 0
  {
  }

  function Place(d: Progress, top: Entry, i: Issue, count: nat, pc: nat, lanes: set<nat>): Progress {
    if pc == top.rpc && !top.kind.Call? then d
    else
      var starts := count > 1 && !d.diverged;
      var recvg := if starts then i.recvg else d.newRecvg;
      var diverged := count > 1 || d.diverged;
      var split := starts && recvg != top.rpc;
      var base := if split then d.base + [d.slot.(pc := recvg)] else d.base;
      var slot := if split then FRESH_ENTRY else d.slot;
      if diverged && pc == recvg then Progress(base, slot, diverged, recvg)
      else
        var e := if diverged then Branch(slot, pc, lanes, recvg)
                 else slot.(pc := pc, mask := lanes, rpc := top.rpc);
        Progress(base + [e], FRESH_ENTRY, diverged, recvg)
  }

  function Walk(d: Progress, top: Entry, i: Issue, count: nat, n: nat, p: nat, q: nat): Progress {
    if n == 0 then d
    else
      var pc := if n == 1 then p else q;
      Place(Walk(d, top, i, count, n - 1, p, q), top, i, count, pc, LanesAt(top.mask - i.done, i, pc))
  }

  /** The state of the path loop after `n` rounds. */
  ghost predicate WalkedTo(s: seq<Entry>, top: Entry, i: Issue, count: nat, n: nat, p: nat, q: nat,
                           rest: map<nat, set<nat>>, stack: seq<Entry>, diverged: bool, newRecvg: nat)
    requires s != []
  {
    && rest.Keys == Remaining(n, count, p, q)
    && (forall x | x in rest :: rest[x] == LanesAt(Live(s, i), i, x))
    && Matches(Walk(Progress(Pop(s), top, false, NULL_PC), top, i, count, n, p, q), stack, diverged, newRecvg)
    && (n > 0 ==> !i.op.CallOp? && !Returning(s, i))
    && (n == 0 ==> stack == s)
  }

  lemma WalkStart(s: seq<Entry>, i: Issue, paths: map<nat, set<nat>>)
    requires Asserts(s, i) && paths.Keys == Paths(Live(s, i), i)
    requires forall p | p in paths :: paths[p] == LanesAt(Live(s, i), i, p)
    ensures var order := PathOrder(Paths(Live(s, i), i), i.pc + i.size);
            WalkedTo(s, Top(s), i, |paths.Keys|, 0, order.0, order.1, paths, s, false, NULL_PC)
  {
    hide Paths, LanesAt, FirstPath;
    assert s == Pop(s) + [Top(s)];
  }

  lemma WalkEnd(s: seq<Entry>, i: Issue, count: nat, rest: map<nat, set<nat>>, stack: seq<Entry>, diverged: bool,
                newRecvg: nat)
    requires s != [] && Asserts(s, i) && count == |Paths(Live(s, i), i)|
    requires var order := PathOrder(Paths(Live(s, i), i), i.pc + i.size);
             WalkedTo(s, Top(s), i, count, count, order.0, order.1, rest, stack, diverged, newRecvg)
    ensures stack != [] && Pop(stack) == NextStack(s, i)
  {
    hide Paths, LanesAt, FirstPath, NextStack, Asserts, PathOrder, Walk;
    var order := PathOrder(Paths(Live(s, i), i), i.pc + i.size);
    WalkAll(s, i, count, order.0, order.1);
  }

  /** One more path. */
  lemma WalkOn(d: Progress, top: Entry, i: Issue, count: nat, n: nat, p: nat, q: nat)
    ensures var pc := if n == 0 then p else q;
            Walk(d, top, i, count, n + 1, p, q)
            == Place(Walk(d, top, i, count, n, p, q), top, i, count, pc, LanesAt(top.mask - i.done, i, pc))
  {
  }

  lemma AtMostTwo(s: seq<Entry>, i: Issue)
    requires Asserts(s, i)
    ensures |Paths(Live(s, i), i)| <= 2
  {
  }

  lemma FirstIsCall(s: seq<Entry>, i: Issue, p: nat)
    requires Asserts(s, i) && Paths(Live(s, i), i) != {} && p == FirstPath(Paths(Live(s, i), i), i.pc + i.size)
    ensures i.op.CallOp? ==> NextStack(s, i) == s + [Callee(p, LanesAt(Live(s, i), i, p))]
    ensures Returning(s, i) ==> NextStack(s, i) == Return(s, p)
  {
    if i.op.CallOp? {
      OnePath(Live(s, i), i, p);
    }
  }

  lemma WalkAll(s: seq<Entry>, i: Issue, count: nat, p: nat, q: nat)
    requires Asserts(s, i) && count == |Paths(Live(s, i), i)|
    requires p == PathOrder(Paths(Live(s, i), i), i.pc + i.size).0
    requires q == PathOrder(Paths(Live(s, i), i), i.pc + i.size).1
    requires count > 0 ==> !i.op.CallOp? && !Returning(s, i)
    ensures Walk(Progress(Pop(s), Top(s), false, NULL_PC), Top(s), i, count, count, p, q).base == NextStack(s, i)
  {
    var live := Live(s, i);
    if live != {} {
      var l :| l in live;
      assert i.Target(l) in Paths(live, i);
      if count == 1 {
        OnePath(live, i, p);
      } else {
        WalkTwo(s, i, p, q);
      }
    }
  }

  lemma WalkTwo(s: seq<Entry>, i: Issue, p: nat, q: nat)
    requires Asserts(s, i) && Paths(Live(s, i), i) == {p, q} && p != q
    ensures Walk(Progress(Pop(s), Top(s), false, NULL_PC), Top(s), i, 2, 2, p, q).base == Diverge(s, i, p, q)
  {
    var live, top := Live(s, i), Top(s);
    var d0 := Progress(Pop(s), top, false, NULL_PC);
    var d1 := Place(d0, top, i, 2, p, LanesAt(live, i, p));
    assert d1 == Walk(d0, top, i, 2, 1, p, q) by { assert d0 == Walk(d0, top, i, 2, 0, p, q); }
    assert Walk(d0, top, i, 2, 2, p, q) == Place(d1, top, i, 2, q, LanesAt(live, i, q));
  }
}
