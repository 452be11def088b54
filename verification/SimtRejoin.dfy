/** Branches come back: an entry keeps its reconvergence counter as long as it is on the stack, so the
    lanes of a divergence are merged exactly when the last of them have reached it or finished. */
module SimtRejoin {
  import opened SimtStack
  import opened SimtParents
  import opened SimtFrame
  import opened SimtRun

  // ---------- what a divergence pushes ----------

  /** The height below which a divergence leaves entries in place. */
  function Base(s: seq<Entry>, i: Issue): nat
    requires s != []
  {
    if i.recvg != Top(s).rpc then |s| else |s| - 1
  }

  /** Every path that is not at a reconvergence point gets one entry, with exactly its lanes and the
      instruction's reconvergence counter; of two, the one handled first lies below. */
  lemma DivergePaths(s: seq<Entry>, i: Issue)
    requires Asserts(s, i) && |Paths(Live(s, i), i)| == 2
    ensures var s', base, live := NextStack(s, i), Base(s, i), Live(s, i);
            && base <= |s'| <= base + 2
            && (forall k | base <= k < |s'| ::
                  && s'[k].pc in Paths(live, i) && s'[k].mask == LanesAt(live, i, s'[k].pc)
                  && s'[k].rpc == i.recvg && s'[k].calldepth == 0
                  && s'[k].kind == if k < |s| then Top(s).kind else Normal)
            && (|s'| == base + 2 ==>
                  s'[base].pc == FirstPath(Paths(live, i), i.pc + i.size) && s'[base + 1].pc != s'[base].pc)
            && forall p | p in Paths(live, i) ::
                 !Rejoins(Top(s), i.recvg, p) <==> exists k :: base <= k < |s'| && s'[k].pc == p
  {
    var live := Live(s, i);
    var paths := Paths(live, i);
    var p := FirstPath(paths, i.pc + i.size);
    assert |paths - {p}| == 1;
    var q := MinPath(paths - {p});
    TwoPaths(live, i, p, q);
    var s', base := NextStack(s, i), Base(s, i);
    assert s' == Diverge(s, i, p, q);
    if !Rejoins(Top(s), i.recvg, p) {
      assert s'[base].pc == p;
    }
    if !Rejoins(Top(s), i.recvg, q) {
      assert s'[|s'| - 1].pc == q;
    }
  }

  // ---------- reconvergence counters stay ----------

  /** No update changes the reconvergence counter or the kind of an entry that stays. */
  lemma UpdateKeepsRpc(s: seq<Entry>, i: Issue, h: nat)
    requires Asserts(s, i) && h < |s| && h < |NextStack(s, i)|
    ensures NextStack(s, i)[h].rpc == s[h].rpc && NextStack(s, i)[h].kind == s[h].kind
  {
  }

  lemma {:induction false} RunKeepsRpc(ss: seq<seq<Entry>>, issues: seq<Issue>, h: nat, m: nat, n: nat)
    requires IsStackRun(ss, issues) && m <= n < |ss| && forall k | m <= k <= n :: |ss[k]| > h
    ensures ss[n][h].rpc == ss[m][h].rpc && ss[n][h].kind == ss[m][h].kind
  {
    hide NextStack;
    if m < n {
      RunKeepsRpc(ss, issues, h, m, n - 1);
      assert ss[n - 1 + 1] == NextStack(ss[n - 1], issues[n - 1]);
      UpdateKeepsRpc(ss[n - 1], issues[n - 1], h);
    }
  }

  /** As long as a divergence is not resolved, its lowest branch is bound for the reconvergence counter. */
  lemma BranchKeepsTarget(ss: seq<seq<Entry>>, issues: seq<Issue>, n: nat)
    requires IsStackRun(ss, issues) && 0 < n < |ss| && OpensReconvergence(ss[0], issues[0])
    requires forall k | 0 < k <= n :: |ss[k]| > |ss[0]|
    ensures ss[n][|ss[0]|].kind.Normal? && ss[n][|ss[0]|].rpc == issues[0].recvg
  {
    DivergePaths(ss[0], issues[0]);
    RunKeepsRpc(ss, issues, |ss[0]|, 1, n);
  }

  /** An ordinary entry on top is dropped exactly when it has no lane left, or its lanes all reach its
      reconvergence counter by an instruction that is no call. */
  lemma DroppedIff(s: seq<Entry>, i: Issue)
    requires Asserts(s, i) && Top(s).kind.Normal?
    ensures |NextStack(s, i)| < |s| <==>
            Live(s, i) == {} || (!i.op.CallOp? && Paths(Live(s, i), i) == {Top(s).rpc})
    ensures |NextStack(s, i)| < |s| ==> NextStack(s, i) == Pop(s)
  {
    var live, paths := Live(s, i), Paths(Live(s, i), i);
    if live != {} {
      var l :| l in live;
      assert i.Target(l) in paths;
      var p := FirstPath(paths, i.pc + i.size);
      if |paths| == 1 {
        assert paths == {p} by {
          assert |paths - {p}| == 0;
        }
      } else {
        assert |{Top(s).rpc}| == 1;
        assert |paths - {p}| == |paths| - 1;
      }
    }
  }

  /** The exact step at which a divergence is resolved: one branch is left, and its lanes are all finished
      or all go to the reconvergence counter. */
  lemma ReconvergesIff(ss: seq<seq<Entry>>, issues: seq<Issue>, n: nat)
    requires IsStackRun(ss, issues) && 0 < n < |issues| && OpensReconvergence(ss[0], issues[0])
    requires forall k | 0 < k <= n :: |ss[k]| > |ss[0]|
    requires |ss[n]| == |ss[0]| + 1
    ensures ss[n + 1] == Reconverged(ss[0], issues[0]) <==>
            Live(ss[n], issues[n]) == {}
            || (!issues[n].op.CallOp? && Paths(Live(ss[n], issues[n]), issues[n]) == {issues[0].recvg})
  {
    hide NextStack, OpensReconvergence, Paths;
    BranchKeepsTarget(ss, issues, n);
    assert Asserts(ss[n], issues[n]) && ss[n + 1] == NextStack(ss[n], issues[n]);
    DroppedIff(ss[n], issues[n]);
    if |ss[n + 1]| <= |ss[0]| {
      ReconvergenceRestores(ss, issues, n + 1);
    }
  }

  // ---------- whole runs ----------

  /** Every branch has a reconvergence counter. */
  ghost predicate BranchesBound(s: seq<Entry>) {
    forall k | 0 < k < |s| && s[k].kind.Normal? :: s[k].rpc != NULL_PC
  }

  lemma UpdateKeepsBound(s: seq<Entry>, i: Issue)
    requires Asserts(s, i) && BranchesBound(s) && (|Paths(Live(s, i), i)| == 2 ==> i.recvg != NULL_PC)
    ensures BranchesBound(NextStack(s, i))
  {
    hide NextStack;
    var s' := NextStack(s, i);
    forall k | 0 < k < |s'| && s'[k].kind.Normal? ensures s'[k].rpc != NULL_PC {
      if k < |s| {
        UpdateKeepsRpc(s, i, k);
      } else {
        PushedAbove(s, i, k);
      }
    }
  }

  lemma PushedAbove(s: seq<Entry>, i: Issue, k: nat)
    requires Asserts(s, i) && |s| <= k < |NextStack(s, i)|
    ensures NextStack(s, i)[k].kind.Normal? ==> |Paths(Live(s, i), i)| == 2 && NextStack(s, i)[k].rpc == i.recvg
  {
    if |Paths(Live(s, i), i)| == 2 {
      DivergePaths(s, i);
    }
  }

  /** If every divergence names a reconvergence counter, then in every reachable state, calls and returns
      included, every branch above the bottom entry has a counter of its own to reach, and the nearest entry
      sharing lanes with it waits there with all of them. */
  lemma {:induction false} RunBranchesBound(prog: Program, ws: seq<Warp>, cs: seq<Choice>, n: nat)
    requires IsRun(prog, ws, cs) && StartsAtLaunch(ws) && n < |ws|
    requires forall k | 0 <= k < n ::
               var i := Issued(prog, ws, cs, k);
               |Paths(Live(ws[k].stack, i), i)| == 2 ==> cs[k].recvg != NULL_PC
    ensures BranchesBound(ws[n].stack)
    ensures forall k: nat | 0 < k < |ws[n].stack| && ws[n].stack[k].kind.Normal? ::
              exists j: nat :: Nearest(ws[n].stack, j, k) && ws[n].stack[j].pc == ws[n].stack[k].rpc
                               && ws[n].stack[k].mask <= ws[n].stack[j].mask
  {
    hide NextStack;
    if n > 0 {
      RunBranchesBound(prog, ws, cs, n - 1);
      assert StepOk(ws[n - 1], prog, cs[n - 1]) && ws[n - 1 + 1] == Step(ws[n - 1], prog, cs[n - 1]);
      UpdateKeepsBound(ws[n - 1].stack, Issued(prog, ws, cs, n - 1));
    }
    RunNestsAndMatches(prog, ws, cs, n);
    var s := ws[n].stack;
    forall k: nat | 0 < k < |s| && s[k].kind.Normal?
      ensures exists j: nat :: Nearest(s, j, k) && s[j].pc == s[k].rpc && s[k].mask <= s[j].mask
    {
      var j: nat :| Nearest(s, j, k);
    }
  }

  /** In a run that has emptied its stack every divergence was resolved: at some step the stack was the one
      before it, with the top at the reconvergence counter. */
  lemma DivergenceIsResolved(prog: Program, ws: seq<Warp>, cs: seq<Choice>, a: nat, n: nat) returns (m: nat)
    requires IsRun(prog, ws, cs) && a < n < |ws| && ws[n].stack == []
    requires OpensReconvergence(ws[a].stack, Issued(prog, ws, cs, a))
    ensures a < m <= n && ws[m].stack == Reconverged(ws[a].stack, Issued(prog, ws, cs, a))
  {
    hide IsRun, OpensReconvergence;
    m := a + 1;
    while |ws[m].stack| > |ws[a].stack|
      invariant a < m <= n && forall k | a < k < m :: |ws[k].stack| > |ws[a].stack|
      decreases n - m
    {
      m := m + 1;
    }
    RunStackReconverges(prog, ws, cs, a, m);
  }
}
