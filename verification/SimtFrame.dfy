/** Reconvergence restores the pre-branch entry, and when finished lanes can be met again. */
module SimtFrame {
  import opened SimtStack
  import opened SimtAgreement
  import opened SimtParents

  // ---------- reconvergence restores ----------

  /** The entries below height `h` are untouched while the entry at `h` is a branch entry. */
  lemma UpdateKeepsBelow(s: seq<Entry>, i: Issue, h: nat)
    requires Asserts(s, i) && h < |s| && s[h].kind.Normal?
    ensures |NextStack(s, i)| >= h && NextStack(s, i)[..h] == s[..h]
    ensures |NextStack(s, i)| > h ==> NextStack(s, i)[h].kind.Normal?
  {
  }

  ghost predicate IsStackRun(ss: seq<seq<Entry>>, issues: seq<Issue>) {
    && |ss| == |issues| + 1
    && forall k | 0 <= k < |issues| :: Asserts(ss[k], issues[k]) && ss[k + 1] == NextStack(ss[k], issues[k])
  }

  /** The update diverges and opens a reconvergence entry. */
  ghost predicate OpensReconvergence(s: seq<Entry>, i: Issue) {
    && Asserts(s, i) && |Paths(Live(s, i), i)| == 2 && i.recvg != Top(s).rpc
  }

  /** What the top has become once every branch above it is gone. */
  function Reconverged(s: seq<Entry>, i: Issue): seq<Entry>
    requires s != []
  {
    Pop(s) + [Top(s).(pc := i.recvg)]
  }

  lemma DivergeOpens(s: seq<Entry>, i: Issue)
    requires OpensReconvergence(s, i)
    ensures |NextStack(s, i)| >= |s| && NextStack(s, i)[..|s|] == Reconverged(s, i)
    ensures |NextStack(s, i)| > |s| ==> NextStack(s, i)[|s|].kind.Normal?
  {
    var paths := Paths(Live(s, i), i);
    var p := FirstPath(paths, i.pc + i.size);
    assert |paths - {p}| == 1;
    var q := MinPath(paths - {p});
    assert NextStack(s, i) == Diverge(s, i, p, q);
  }

  lemma {:induction false} RunKeepsBelow(ss: seq<seq<Entry>>, issues: seq<Issue>, n: nat)
    requires IsStackRun(ss, issues) && 0 < n < |ss| && OpensReconvergence(ss[0], issues[0])
    requires forall k | 0 < k < n :: |ss[k]| > |ss[0]|
    ensures |ss[n]| >= |ss[0]| && ss[n][..|ss[0]|] == Reconverged(ss[0], issues[0])
    ensures |ss[n]| > |ss[0]| ==> ss[n][|ss[0]|].kind.Normal?
  {
    if n == 1 {
      DivergeOpens(ss[0], issues[0]);
    } else {
      RunKeepsBelow(ss, issues, n - 1);
      UpdateKeepsBelow(ss[n - 1], issues[n - 1], |ss[0]|);
    }
  }

  /** After an update that diverges towards a new reconvergence point, any run, with any calls inside
      the branches, that first comes back to the old height leaves the stack with the top at that
      point, its mask, kind and own reconvergence point as before the branch, and all below unchanged. */
  lemma ReconvergenceRestores(ss: seq<seq<Entry>>, issues: seq<Issue>, n: nat)
    requires IsStackRun(ss, issues) && 0 < n < |ss| && OpensReconvergence(ss[0], issues[0])
    requires forall k | 0 < k < n :: |ss[k]| > |ss[0]|
    requires |ss[n]| <= |ss[0]|
    ensures ss[n] == Reconverged(ss[0], issues[0])
  {
    RunKeepsBelow(ss, issues, n);
    assert ss[n][..|ss[0]|] == ss[n];
  }

  // ---------- finished lanes ----------

  /** No stored mask holds a finished lane, so `ThreadItem::Execute` never meets one. */
  ghost predicate NoFinishedLane(s: seq<Entry>, done: set<nat>) {
    forall k | 0 <= k < |s| :: s[k].mask !! done
  }

  lemma PushedFinished(base: seq<Entry>, e: Entry, done: set<nat>)
    ensures NoFinishedLane(base + [e], done) <==> NoFinishedLane(base, done) && e.mask !! done
  {
    var s := base + [e];
    assert s[|base|] == e && forall k | 0 <= k < |base| :: s[k] == base[k];
  }

  lemma TopFinished(s: seq<Entry>, done: set<nat>)
    requires s != []
    ensures NoFinishedLane(s, done) <==> NoFinishedLane(Pop(s), done) && Top(s).mask !! done
  {
    assert s == Pop(s) + [Top(s)];
    PushedFinished(Pop(s), Top(s), done);
  }

  /** The lanes that finish with this instruction lie in no entry the update leaves in place: in none
      below the top; and if lanes are left to go on, the top is not kept with all its lanes, as the
      caller of a call or as a reconvergence entry. */
  ghost predicate SafeExit(s: seq<Entry>, i: Issue)
    requires s != []
  {
    && NoFinishedLane(Pop(s), i.done)
    && (!(Top(s).mask !! i.done) && Live(s, i) != {} ==>
          !i.op.CallOp? && (Returning(s, i) || |Paths(Live(s, i), i)| != 2 || i.recvg == Top(s).rpc))
  }

  lemma NextMasks(s: seq<Entry>, i: Issue)
    requires Asserts(s, i) && !i.op.CallOp? && !Returning(s, i)
    ensures |NextStack(s, i)| >= |s| - 1 && NextStack(s, i)[..|s| - 1] == Pop(s)
    ensures OpensReconvergence(s, i) ==>
              |NextStack(s, i)| >= |s| && NextStack(s, i)[|s| - 1].mask == Top(s).mask
    ensures forall k | |s| - 1 <= k < |NextStack(s, i)| ::
              NextStack(s, i)[k].mask <= Live(s, i) || (k == |s| - 1 && OpensReconvergence(s, i))
  {
    if OpensReconvergence(s, i) {
      DivergeOpens(s, i);
      assert NextStack(s, i)[|s| - 1] == NextStack(s, i)[..|s|][|s| - 1];
    }
  }

  lemma OrdinaryExitIff(s: seq<Entry>, i: Issue)
    requires Asserts(s, i) && !i.op.CallOp? && !Returning(s, i)
    ensures NoFinishedLane(NextStack(s, i), i.done) <==> SafeExit(s, i)
  {
    hide NextStack;
    var s', n := NextStack(s, i), |s| - 1;
    NextMasks(s, i);
    forall k | 0 <= k < n ensures s'[k] == Pop(s)[k] {
      assert s'[k] == s'[..n][k];
    }
    if SafeExit(s, i) {
      forall k | 0 <= k < |s'| ensures s'[k].mask !! i.done {
        if k < n {
          assert Pop(s)[k].mask !! i.done;
        } else if !(s'[k].mask <= Live(s, i)) {
          assert Top(s).mask !! i.done;
        }
      }
    } else if NoFinishedLane(Pop(s), i.done) {
      assert s'[n].mask == Top(s).mask;
    } else {
      var k :| 0 <= k < n && !(Pop(s)[k].mask !! i.done);
      assert s'[k] == Pop(s)[k];
    }
  }

  /** A call keeps the whole stack under the callee. */
  lemma CallExitIff(s: seq<Entry>, i: Issue)
    requires Asserts(s, i) && i.op.CallOp?
    ensures NoFinishedLane(NextStack(s, i), i.done) <==> SafeExit(s, i)
  {
    if Live(s, i) != {} {
      var l :| l in Live(s, i);
      assert i.Target(l) in Paths(Live(s, i), i);
      PushedFinished(s, Callee(FirstPath(Paths(Live(s, i), i), i.pc + i.size), Live(s, i)), i.done);
      TopFinished(s, i.done);
    }
  }

  /** What a return may drop with the callee holds no finished lane that is not held below as well. */
  lemma CallerDropped(callers: seq<Entry>, done: set<nat>)
    requires callers != [] && Branches(Top(callers)) && Parented(callers)
    ensures NoFinishedLane(Pop(callers), done) <==> NoFinishedLane(callers, done)
  {
    var n := |callers| - 1;
    assert HasParent(callers, n);
    var j: nat :| Nearest(callers, j, n) && callers[n].mask <= callers[j].mask;
    assert Pop(callers)[j] == callers[j];
    TopFinished(callers, done);
  }

  lemma ReturnExitIff(s: seq<Entry>, i: Issue)
    requires Asserts(s, i) && Parented(s) && Returning(s, i)
    ensures NoFinishedLane(NextStack(s, i), i.done) <==> SafeExit(s, i)
  {
    var s' := NextStack(s, i);
    if Live(s, i) != {} {
      var callers := Pop(s);
      PrefixParented(s, |s| - 1);
      var l :| l in Live(s, i);
      assert i.Target(l) in Paths(Live(s, i), i);
      var p := FirstPath(Paths(Live(s, i), i), i.pc + i.size);
      assert s' == Return(s, p) && p != NULL_PC;
      if Top(callers).kind.Normal? && p == Top(callers).rpc {
        CallerDropped(callers, i.done);
      } else {
        assert forall k | 0 <= k < |callers| :: s'[k].mask == callers[k].mask;
      }
    }
  }

  /** An instruction that may finish lanes, of whatever type, leaves a stack free of finished lanes
      exactly when the exit is safe. */
  lemma SafeExitIff(s: seq<Entry>, i: Issue)
    requires Asserts(s, i) && Parented(s)
    ensures NoFinishedLane(NextStack(s, i), i.done) <==> SafeExit(s, i)
  {
    hide NextStack, SafeExit, NoFinishedLane, Parented;
    if i.op.CallOp? {
      CallExitIff(s, i);
    } else if Returning(s, i) {
      ReturnExitIff(s, i);
    } else {
      OrdinaryExitIff(s, i);
    }
  }

  /** An instruction that finishes no lane keeps the stack free of finished lanes. */
  lemma NoExitKeepsClean(s: seq<Entry>, i: Issue)
    requires Asserts(s, i) && NoFinishedLane(s, i.done)
    ensures NoFinishedLane(NextStack(s, i), i.done)
  {
  }

  /** The exit that is not safe: lanes 0 and 1 branch at 0 with reconvergence point 8, lane 1 goes to
      16 and exits there; the entry waiting at 8 is then issued with the finished lane 1 in its mask. */
  lemma FinishedLaneIsMet() returns (s: seq<Entry>, branch: Issue, exit: Issue, resumed: seq<Entry>)
    ensures s == LaunchStack(0, {0, 1})
    ensures Asserts(s, branch) && branch.recvg == 8 && branch.done == {} && branch.nextPc == [8, 16]
    ensures WellFormedRecvg(s, branch)
    ensures Asserts(NextStack(s, branch), exit) && exit.done == {1} && !SafeExit(NextStack(s, branch), exit)
    ensures resumed == NextStack(NextStack(s, branch), exit)
    ensures resumed != [] && Top(resumed).pc == 8 && Top(resumed).mask == {0, 1}
  {
    s := LaunchStack(0, {0, 1});
    branch := Issue({}, [8, 16], 8, OtherOp, 4, 0);
    exit := Issue({1}, [8, NULL_PC], NULL_PC, OtherOp, 4, 16);
    assert branch.Target(0) == 8 && branch.Target(1) == 16;
    assert Live(s, branch) == {0, 1};
    assert Paths({0, 1}, branch) == {8, 16};
    OneRejoins(s, branch, 8, 16);
    var s1 := NextStack(s, branch);
    assert LanesAt({0, 1}, branch, 16) == {1};
    assert s1 == [s[0].(pc := 8)] + [Branch(FRESH_ENTRY, 16, {1}, 8)];
    assert Live(s1, exit) == {};
    assert Pop(s1)[0].mask == {0, 1} && 1 in Pop(s1)[0].mask * exit.done;
    resumed := NextStack(s1, exit);
  }
}
