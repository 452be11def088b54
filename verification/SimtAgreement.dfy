/** What one update keeps: every lane that is not done stands at the program counter of the
    topmost stack entry that contains it. */
module SimtAgreement {
  import opened SimtStack

  /** Lane `l`, standing at `pc`, is where stack `s` says it is: the topmost entry holding `l` has
      program counter `pc`, and the entries below are ready to take `l` over when it rejoins or
      returns.  A lane outside a call entry may lie below it only if the caller does not hold it. */
  ghost predicate Standing(s: seq<Entry>, l: nat, pc: nat)
    decreases |s|, 0
  {
    && s != []
    && if l in Top(s).mask then
         Top(s).pc == pc && Waiting(Pop(s), l, Top(s).kind, Top(s).rpc)
       else
         (Top(s).kind.Call? ==> |s| >= 2 && l !in Top(Pop(s)).mask) && Standing(Pop(s), l, pc)
  }

  /** What the entries below one of kind `kind` must offer its lane `l`: the suspended caller, or the
      entry that waits at the reconvergence point `rpc`; nothing when it never rejoins. */
  ghost predicate Waiting(below: seq<Entry>, l: nat, kind: EntryKind, rpc: nat)
    decreases |below|, 1
  {
    if kind.Call? then
      below != [] && l in Top(below).mask && Waiting(Pop(below), l, Top(below).kind, Top(below).rpc)
    else
      rpc != NULL_PC ==> Standing(below, l, rpc)
  }

  /** The program counter the stack assigns to lane `l`. */
  function StackPc(s: seq<Entry>, l: nat): nat {
    if s == [] then NULL_PC
    else if l in Top(s).mask then Top(s).pc
    else StackPc(Pop(s), l)
  }

  lemma {:induction false} StandingPc(s: seq<Entry>, l: nat, pc: nat)
    requires Standing(s, l, pc)
    ensures StackPc(s, l) == pc
  {
    if l !in Top(s).mask {
      StandingPc(Pop(s), l, pc);
    }
  }

  /** A call entry has no reconvergence point. */
  ghost predicate CallsNeverRejoin(s: seq<Entry>) {
    forall k | 0 <= k < |s| && s[k].kind.Call? :: s[k].rpc == NULL_PC
  }

  /** The condition on the reconvergence argument: when a warp diverges while one path already stands
      at the top's own reconvergence point, the branch must reconverge there. */
  ghost predicate WellFormedRecvg(s: seq<Entry>, i: Issue)
    requires s != []
  {
    |Paths(Live(s, i), i)| == 2 && Top(s).kind.Normal? && Top(s).rpc in Paths(Live(s, i), i)
    ==> i.recvg == Top(s).rpc
  }

  /** Where lane `l`, before at `pc`, stands after the instruction. */
  function LanePc(s: seq<Entry>, i: Issue, l: nat, pc: nat): nat
    requires s != []
  {
    if l in Top(s).mask then i.Target(l) else pc
  }

  lemma PushedStanding(base: seq<Entry>, e: Entry, l: nat, pc: nat)
    requires if l in e.mask then e.pc == pc && Waiting(base, l, e.kind, e.rpc)
             else (e.kind.Call? ==> base != [] && l !in Top(base).mask) && Standing(base, l, pc)
    ensures Standing(base + [e], l, pc)
  {
    assert Pop(base + [e]) == base && Top(base + [e]) == e;
  }

  lemma PushedPc(base: seq<Entry>, e: Entry, l: nat)
    ensures StackPc(base + [e], l) == if l in e.mask then e.pc else StackPc(base, l)
  {
    assert Pop(base + [e]) == base && Top(base + [e]) == e;
  }

  lemma CallKeeps(s: seq<Entry>, i: Issue, p: nat, l: nat, pc: nat)
    requires Asserts(s, i) && p in Paths(Live(s, i), i) && |Paths(Live(s, i), i)| <= 1
    requires Standing(s, l, pc) && l !in i.done
    ensures Standing(s + [Callee(p, Live(s, i))], l, LanePc(s, i, l, pc))
  {
    OnePath(Live(s, i), i, p);
    PushedStanding(s, Callee(p, Live(s, i)), l, LanePc(s, i, l, pc));
  }

  lemma ReturnKeeps(s: seq<Entry>, i: Issue, p: nat, l: nat, pc: nat)
    requires Asserts(s, i) && Returning(s, i) && p in Paths(Live(s, i), i)
    requires Standing(s, l, pc) && l !in i.done
    ensures |s| >= 2 && Standing(Return(s, p), l, LanePc(s, i, l, pc))
  {
    OnePath(Live(s, i), i, p);
    var callers := Pop(s);
    var caller := Top(callers);
    if l in Top(s).mask {
      assert Waiting(Pop(callers), l, caller.kind, caller.rpc);
    } else {
      assert Standing(callers, l, pc);
    }
    if !(caller.kind.Normal? && p == caller.rpc) {
      PushedStanding(Pop(callers), caller.(pc := p), l, LanePc(s, i, l, pc));
    }
  }

  lemma AdvanceKeeps(s: seq<Entry>, i: Issue, p: nat, l: nat, pc: nat)
    requires Asserts(s, i) && p in Paths(Live(s, i), i) && |Paths(Live(s, i), i)| == 1
    requires Standing(s, l, pc) && l !in i.done
    ensures Standing(Advance(s, i, p), l, LanePc(s, i, l, pc))
  {
    OnePath(Live(s, i), i, p);
    if !(Top(s).kind.Normal? && p == Top(s).rpc) {
      PushedStanding(Pop(s), Top(s).(pc := p, mask := Live(s, i)), l, LanePc(s, i, l, pc));
    }
  }

  /** The top moves to `r` with all its lanes. */
  lemma MovedTopStanding(s: seq<Entry>, r: nat, l: nat, pc: nat)
    requires Standing(s, l, pc)
    ensures Standing(Pop(s) + [Top(s).(pc := r)], l, if l in Top(s).mask then r else pc)
  {
    PushedStanding(Pop(s), Top(s).(pc := r), l, if l in Top(s).mask then r else pc);
  }

  /** A branch entry on top of what waits for it. */
  lemma BranchStanding(base: seq<Entry>, e: Entry, l: nat, pc: nat)
    requires e.kind.Normal?
    requires if l in e.mask then e.pc == pc && (e.rpc != NULL_PC ==> Standing(base, l, e.rpc))
             else Standing(base, l, pc)
    ensures Standing(base + [e], l, pc)
  {
    PushedStanding(base, e, l, pc);
  }

  /** Diverging below a new reconvergence entry. */
  lemma SplitKeeps(s: seq<Entry>, i: Issue, p: nat, q: nat, l: nat, pc: nat)
    requires Asserts(s, i) && Paths(Live(s, i), i) == {p, q} && p != q
    requires i.recvg != Top(s).rpc && WellFormedRecvg(s, i)
    requires Standing(s, l, pc) && l !in i.done
    ensures Standing(Diverge(s, i, p, q), l, LanePc(s, i, l, pc))
  {
    hide Standing, Waiting;
    var live := Live(s, i);
    var pc' := LanePc(s, i, l, pc);
    TwoPaths(live, i, p, q);
    var base := Pop(s) + [Top(s).(pc := i.recvg)];
    MovedTopStanding(s, i.recvg, l, pc);
    var eP := Branch(FRESH_ENTRY, p, LanesAt(live, i, p), i.recvg);
    var eQ := Branch(FRESH_ENTRY, q, LanesAt(live, i, q), i.recvg);
    if p == i.recvg {
      BranchStanding(base, eQ, l, pc');
    } else if q == i.recvg {
      BranchStanding(base, eP, l, pc');
    } else {
      BranchStanding(base, eP, l, if l in eQ.mask then i.recvg else pc');
      BranchStanding(base + [eP], eQ, l, pc');
    }
  }

  /** Diverging towards the top's own reconvergence point: the top is replaced. */
  lemma ReplaceKeeps(s: seq<Entry>, i: Issue, p: nat, q: nat, l: nat, pc: nat)
    requires Asserts(s, i) && Paths(Live(s, i), i) == {p, q} && p != q
    requires i.recvg == Top(s).rpc && CallsNeverRejoin(s)
    requires Standing(s, l, pc) && l !in i.done
    ensures Standing(Diverge(s, i, p, q), l, LanePc(s, i, l, pc))
  {
    var live := Live(s, i);
    var top := Top(s);
    var pc' := LanePc(s, i, l, pc);
    TwoPaths(live, i, p, q);
    var eP := Branch(top, p, LanesAt(live, i, p), i.recvg);
    if Rejoins(top, i.recvg, p) {
      var eQ := Branch(top, q, LanesAt(live, i, q), i.recvg);
      PushedStanding(Pop(s), eQ, l, pc');
    } else {
      var eQ := Branch(FRESH_ENTRY, q, LanesAt(live, i, q), i.recvg);
      if l !in live || l in eP.mask || Rejoins(top, i.recvg, q) {
        PushedStanding(Pop(s), eP, l, pc');
      }
      if !Rejoins(top, i.recvg, q) {
        if l in eQ.mask && i.recvg != NULL_PC {
          PushedStanding(Pop(s), eP, l, i.recvg);
        }
        PushedStanding(Pop(s) + [eP], eQ, l, pc');
      }
    }
  }

  /** One update keeps a lane's standing, wherever the lane is. */
  lemma UpdateKeepsStanding(s: seq<Entry>, i: Issue, l: nat, pc: nat)
    requires Asserts(s, i) && CallsNeverRejoin(s) && WellFormedRecvg(s, i)
    requires Standing(s, l, pc) && l !in i.done
    ensures Standing(NextStack(s, i), l, LanePc(s, i, l, pc))
  {
    hide Waiting, Diverge, Advance, Return;
    var live := Live(s, i);
    var paths := Paths(live, i);
    if live != {} {
      var k :| k in live;
      assert i.Target(k) in paths;
      var p := FirstPath(paths, i.pc + i.size);
      if i.op.CallOp? {
        CallKeeps(s, i, p, l, pc);
      } else if Returning(s, i) {
        ReturnKeeps(s, i, p, l, pc);
      } else if |paths| == 1 {
        AdvanceKeeps(s, i, p, l, pc);
      } else {
        assert |paths - {p}| == |paths| - 1;
        var q := MinPath(paths - {p});
        TwoPaths(live, i, p, q);
        if i.recvg == Top(s).rpc {
          ReplaceKeeps(s, i, p, q, l, pc);
        } else {
          SplitKeeps(s, i, p, q, l, pc);
        }
      }
    }
  }

  /** The condition cannot be weakened: without it some lane that is not done is left on an entry
      that waits elsewhere. */
  lemma IllFormedRecvgLosesALane(s: seq<Entry>, i: Issue) returns (l: nat)
    requires Asserts(s, i) && !WellFormedRecvg(s, i)
    ensures l in Live(s, i) && StackPc(NextStack(s, i), l) != i.Target(l)
  {
    var live := Live(s, i);
    var paths := Paths(live, i);
    var p := FirstPath(paths, i.pc + i.size);
    assert |paths - {p}| == |paths| - 1;
    var q := MinPath(paths - {p});
    TwoPaths(live, i, p, q);
    var top := Top(s);
    var r := if p == top.rpc then q else p;
    l :| l in live && i.Target(l) == top.rpc;
    var waiter := top.(pc := i.recvg);
    PushedPc(Pop(s), waiter, l);
    if r != i.recvg {
      PushedPc(Pop(s) + [waiter], Branch(FRESH_ENTRY, r, LanesAt(live, i, r), i.recvg), l);
    }
  }

  /** An ill-formed argument can be met: lanes 0, 1, 2 branch at 0 with reconvergence point 8, where lane
      2 goes at once; lanes 0 and 1 branch again at 16 towards 12, and lane 0 goes to 8.  Its stack then
      says 12. */
  lemma IllFormedIsMet() returns (s: seq<Entry>, first: Issue, second: Issue)
    ensures s == LaunchStack(0, {0, 1, 2}) && Asserts(s, first) && WellFormedRecvg(s, first)
    ensures first.recvg == 8 && first.nextPc == [16, 16, 8] && second.recvg == 12 && second.nextPc == [8, 24, 8]
    ensures Asserts(NextStack(s, first), second) && !WellFormedRecvg(NextStack(s, first), second)
    ensures StackPc(NextStack(NextStack(s, first), second), 0) == 12 != second.Target(0)
  {
    s := LaunchStack(0, {0, 1, 2});
    first, second := Issue({}, [16, 16, 8], 8, OtherOp, 4, 0), Issue({}, [8, 24, 8], 12, OtherOp, 4, 16);
    assert first.Target(0) == 16 && first.Target(1) == 16 && first.Target(2) == 8;
    assert Live(s, first) == {0, 1, 2} && Paths({0, 1, 2}, first) == {8, 16};
    OneRejoins(s, first, 8, 16);
    assert LanesAt({0, 1, 2}, first, 16) == {0, 1};
    var s1 := NextStack(s, first);
    assert s1 == [s[0].(pc := 8), Branch(FRESH_ENTRY, 16, {0, 1}, 8)];
    hide NextStack;
    LosesLaneZero(s1, second, s[0].(pc := 8));
  }

  lemma LosesLaneZero(s: seq<Entry>, i: Issue, bottom: Entry)
    requires s == [bottom, Branch(FRESH_ENTRY, 16, {0, 1}, 8)] && i == Issue({}, [8, 24, 8], 12, OtherOp, 4, 16)
    ensures Asserts(s, i) && !WellFormedRecvg(s, i) && StackPc(NextStack(s, i), 0) == 12
  {
    assert i.Target(0) == 8 && i.Target(1) == 24;
    assert Live(s, i) == {0, 1} && Paths({0, 1}, i) == {8, 24};
    OneRejoins(s, i, 8, 24);
    var waiter, child := s[1].(pc := 12), Branch(FRESH_ENTRY, 24, LanesAt({0, 1}, i, 24), 12);
    assert Pop(s) == [bottom];
    PushedPc([bottom] + [waiter], child, 0);
    PushedPc([bottom], waiter, 0);
  }

  /** A divergence of which one path stands at a reconvergence point already: the other gets an entry. */
  lemma OneRejoins(s: seq<Entry>, i: Issue, r: nat, o: nat)
    requires Asserts(s, i) && i.op.OtherOp? && Paths(Live(s, i), i) == {r, o} && r != o
    requires i.recvg != Top(s).rpc && Rejoins(Top(s), i.recvg, r) && !Rejoins(Top(s), i.recvg, o)
    ensures NextStack(s, i)
            == Pop(s) + [Top(s).(pc := i.recvg)] + [Branch(FRESH_ENTRY, o, LanesAt(Live(s, i), i, o), i.recvg)]
  {
    var p := FirstPath({r, o}, i.pc + i.size);
    assert |{r, o} - {p}| == 1;
    assert NextStack(s, i) == Diverge(s, i, p, MinPath({r, o} - {p}));
  }

  /** One update leaves every lane of `lanes` that is not done where its own program counter is,
      exactly when the reconvergence argument is well formed. */
  lemma AgreementIff(s: seq<Entry>, i: Issue, lanes: set<nat>, pc: map<nat, nat>)
    requires Asserts(s, i) && CallsNeverRejoin(s)
    requires Top(s).mask <= lanes <= pc.Keys
    requires forall l | l in lanes - i.done :: Standing(s, l, pc[l])
    ensures WellFormedRecvg(s, i)
            <==> forall l | l in lanes - i.done :: StackPc(NextStack(s, i), l) == LanePc(s, i, l, pc[l])
  {
    if WellFormedRecvg(s, i) {
      forall l | l in lanes - i.done
        ensures StackPc(NextStack(s, i), l) == LanePc(s, i, l, pc[l])
      {
        UpdateKeepsStanding(s, i, l, pc[l]);
        StandingPc(NextStack(s, i), l, LanePc(s, i, l, pc[l]));
      }
    } else {
      var l := IllFormedRecvgLosesALane(s, i);
    }
  }

  lemma UpdateKeepsCallsNeverRejoin(s: seq<Entry>, i: Issue)
    requires Asserts(s, i) && CallsNeverRejoin(s)
    ensures CallsNeverRejoin(NextStack(s, i))
  {
  }
}
