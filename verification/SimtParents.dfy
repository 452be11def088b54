/** How the entries of the stack lie in one another: any two masks are nested or disjoint, across
    calls as well, and a branch entry waits for the nearest entry below that shares a lane with it. */
module SimtParents {
  import opened SimtStack
  import opened SimtAgreement

  // ---------- masks nest ----------

  ghost predicate InsideOrApart(lower: set<nat>, higher: set<nat>) {
    lower !! higher || higher <= lower
  }

  ghost predicate MasksNest(s: seq<Entry>) {
    forall a: nat, b: nat | a < b < |s| :: InsideOrApart(s[a].mask, s[b].mask)
  }

  lemma PushNests(base: seq<Entry>, e: Entry)
    requires MasksNest(base) && forall a: nat | a < |base| :: InsideOrApart(base[a].mask, e.mask)
    ensures MasksNest(base + [e])
  {
  }

  /** An entry with part of the old top's lanes nests in everything below, and so do two that share none. */
  lemma PartNests(s: seq<Entry>, e: Entry)
    requires s != [] && MasksNest(s) && e.mask <= Top(s).mask
    ensures MasksNest(Pop(s)) && MasksNest(Pop(s) + [e]) && MasksNest(s + [e])
  {
    PushNests(Pop(s), e);
    PushNests(s, e);
  }

  lemma SiblingNests(s: seq<Entry>, first: Entry, e: Entry)
    requires s != [] && MasksNest(s) && first.mask <= Top(s).mask && e.mask <= Top(s).mask
    requires first.mask !! e.mask
    ensures MasksNest(Pop(s) + [first] + [e]) && MasksNest(s + [first] + [e])
  {
    PartNests(s, first);
    PartNests(s, e);
    assert forall a: nat | a < |s| :: s[a] == (s + [e])[a];
    PushNests(Pop(s) + [first], e);
    PushNests(s + [first], e);
  }

  /** Every update keeps the masks nested, whatever its arguments are. */
  lemma UpdateKeepsNesting(s: seq<Entry>, i: Issue)
    requires Asserts(s, i) && MasksNest(s)
    ensures MasksNest(NextStack(s, i))
  {
    hide MasksNest;
    var live := Live(s, i);
    var paths := Paths(live, i);
    PartNests(s, Top(s));
    if live != {} {
      var k :| k in live;
      assert i.Target(k) in paths;
      var p := FirstPath(paths, i.pc + i.size);
      if i.op.CallOp? {
        PartNests(s, Callee(p, live));
      } else if Returning(s, i) {
        PartNests(Pop(s), Top(Pop(s)).(pc := p));
      } else if |paths| == 1 {
        PartNests(s, Top(s).(pc := p, mask := live));
      } else {
        assert |paths - {p}| == |paths| - 1;
        DivergeNests(s, i, p, MinPath(paths - {p}));
      }
    }
  }

  lemma DivergeNests(s: seq<Entry>, i: Issue, p: nat, q: nat)
    requires Asserts(s, i) && |Paths(Live(s, i), i)| == 2 && MasksNest(s) && p != q
    requires p in Paths(Live(s, i), i) && q in Paths(Live(s, i), i)
    ensures MasksNest(Diverge(s, i, p, q))
  {
    hide MasksNest;
    var live, top := Live(s, i), Top(s);
    TwoPaths(live, i, p, q);
    var split := i.recvg != top.rpc;
    var waiter := top.(pc := i.recvg);
    PartNests(s, waiter);
    var s' := if split then Pop(s) + [waiter] else s;
    var slot := if split then FRESH_ENTRY else top;
    var eP, eQ := Branch(slot, p, LanesAt(live, i, p), i.recvg), Branch(FRESH_ENTRY, q, LanesAt(live, i, q), i.recvg);
    PartNests(s', eP);
    PartNests(s', eQ);
    PartNests(s', Branch(slot, q, LanesAt(live, i, q), i.recvg));
    SiblingNests(s', eP, eQ);
  }

  // ---------- matching parents ----------

  /** `j` is the nearest entry below `k` that shares a lane with it. */
  ghost predicate Nearest(s: seq<Entry>, j: nat, k: nat) {
    && j < k < |s| && !(s[j].mask !! s[k].mask)
    && forall m | j < m < k :: s[m].mask !! s[k].mask
  }

  ghost predicate Branches(e: Entry) {
    e.kind.Normal? && e.rpc != NULL_PC
  }

  /** Below an entry that will rejoin, the nearest entry that shares a lane with it holds all its lanes
      and waits at the point where it will rejoin. */
  ghost predicate Parented(s: seq<Entry>) {
    forall k: nat | k < |s| && Branches(s[k]) :: HasParent(s, k)
  }

  ghost predicate HasParent(s: seq<Entry>, k: nat)
    requires k < |s|
  {
    exists j: nat :: Nearest(s, j, k) && s[j].pc == s[k].rpc && s[k].mask <= s[j].mask
  }

  /** There is one such entry only. */
  lemma ParentMatches(s: seq<Entry>, j: nat, k: nat)
    requires Parented(s) && Nearest(s, j, k) && Branches(s[k])
    ensures s[j].pc == s[k].rpc && s[k].mask <= s[j].mask
  {
    var j': nat :| Nearest(s, j', k) && s[j'].pc == s[k].rpc && s[k].mask <= s[j'].mask;
    assert j == j';
  }

  lemma PushParented(base: seq<Entry>, e: Entry)
    requires Parented(base) && (Branches(e) ==> HasParent(base + [e], |base|))
    ensures Parented(base + [e])
  {
    var s := base + [e];
    forall k: nat | k < |s| && Branches(s[k]) ensures HasParent(s, k) {
      if k < |base| {
        assert s[k] == base[k];
        var j: nat :| Nearest(base, j, k) && base[j].pc == base[k].rpc && base[k].mask <= base[j].mask;
        assert Nearest(s, j, k);
      }
    }
  }

  lemma PrefixParented(s: seq<Entry>, n: nat)
    requires Parented(s) && n <= |s|
    ensures Parented(s[..n])
  {
    forall k: nat | k < n && Branches(s[..n][k]) ensures HasParent(s[..n], k) {
      var j: nat :| Nearest(s, j, k) && s[j].pc == s[k].rpc && s[k].mask <= s[j].mask;
      assert Nearest(s[..n], j, k);
    }
  }

  /** What replaces the top with part of its lanes and its own reconvergence point keeps its parent. */
  lemma ReplaceParented(s: seq<Entry>, e: Entry)
    requires s != [] && Parented(s) && {} < e.mask <= Top(s).mask
    requires Branches(e) ==> Branches(Top(s)) && e.rpc == Top(s).rpc
    ensures Parented(Pop(s) + [e])
  {
    var n, s' := |s| - 1, Pop(s) + [e];
    PrefixParented(s, n);
    if Branches(e) {
      assert Branches(s[n]);
      var j: nat :| Nearest(s, j, n) && s[j].pc == s[n].rpc && s[n].mask <= s[j].mask;
      assert Nearest(s', j, n);
    }
    PushParented(Pop(s), e);
  }

  /** A branch on top of the entry that waits for it. */
  lemma ChildParented(base: seq<Entry>, e: Entry)
    requires base != [] && Parented(base) && {} < e.mask <= Top(base).mask && e.rpc == Top(base).pc
    ensures Parented(base + [e])
  {
    assert Nearest(base + [e], |base| - 1, |base|);
    PushParented(base, e);
  }

  /** A second branch beside the first: its parent is that of the first. */
  lemma SiblingParented(base: seq<Entry>, first: Entry, e: Entry)
    requires Parented(base + [first]) && Parented(base + [e])
    requires first.mask !! e.mask
    ensures Parented(base + [first] + [e])
  {
    var n, s := |base|, base + [first] + [e];
    if Branches(e) {
      assert (base + [e])[n] == e;
      var j: nat :| Nearest(base + [e], j, n) && (base + [e])[j].pc == e.rpc && e.mask <= (base + [e])[j].mask;
      forall m | j < m < n + 1 ensures s[m].mask !! s[n + 1].mask {
        if m < n {
          assert s[m] == (base + [e])[m];
        }
      }
      assert Nearest(s, j, n + 1);
    }
    PushParented(base + [first], e);
  }

  lemma DivergeParented(s: seq<Entry>, i: Issue, p: nat, q: nat)
    requires Asserts(s, i) && |Paths(Live(s, i), i)| == 2 && p != q
    requires p in Paths(Live(s, i), i) && q in Paths(Live(s, i), i)
    requires Parented(s) && CallsNeverRejoin(s)
    ensures Parented(Diverge(s, i, p, q))
  {
    hide Parented;
    var live, top := Live(s, i), Top(s);
    TwoPaths(live, i, p, q);
    var split := i.recvg != top.rpc;
    var waiter := top.(pc := i.recvg);
    ReplaceParented(s, waiter);
    ReplaceParented(s, top);
    PrefixParented(s, |s| - 1);
    var base := if split then Pop(s) + [waiter] else Pop(s);
    var slot := if split then FRESH_ENTRY else top;
    var eP, eQ := Branch(slot, p, LanesAt(live, i, p), i.recvg), Branch(FRESH_ENTRY, q, LanesAt(live, i, q), i.recvg);
    var eQ' := Branch(slot, q, LanesAt(live, i, q), i.recvg);
    if split {
      ChildParented(base, eP);
      ChildParented(base, eQ);
    } else {
      assert top.kind.Call? ==> top.rpc == NULL_PC;
      ReplaceParented(s, eP);
      ReplaceParented(s, eQ);
      ReplaceParented(s, eQ');
    }
    SiblingParented(base, eP, eQ);
  }

  /** Every update keeps matching parents, calls and returns included. */
  lemma UpdateKeepsParents(s: seq<Entry>, i: Issue)
    requires Asserts(s, i) && Parented(s) && CallsNeverRejoin(s)
    requires forall k | 0 <= k < |s| :: s[k].mask != {}
    ensures Parented(NextStack(s, i))
  {
    hide Parented;
    var live := Live(s, i);
    var paths := Paths(live, i);
    PrefixParented(s, |s| - 1);
    if live != {} {
      var k :| k in live;
      assert i.Target(k) in paths;
      var p := FirstPath(paths, i.pc + i.size);
      if i.op.CallOp? {
        PushParented(s, Callee(p, live));
      } else if Returning(s, i) {
        PrefixParented(Pop(s), |s| - 2);
        ReplaceParented(Pop(s), Top(Pop(s)).(pc := p));
      } else if |paths| == 1 {
        ReplaceParented(s, Top(s).(pc := p, mask := live));
      } else {
        assert |paths - {p}| == |paths| - 1;
        DivergeParented(s, i, p, MinPath(paths - {p}));
      }
    }
  }
}
