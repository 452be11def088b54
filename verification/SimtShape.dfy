/** The shape of the stack: within one call frame the masks form a laminar family, no entry waits at
    its own reconvergence point, and the height is bounded. */
module SimtShape {
  import opened SimtStack
  import opened Words

  /** Entries `a` (lower) and `b` (higher) with no call entry between them or at `b`. */
  ghost predicate SameFrame(s: seq<Entry>, a: nat, b: nat) {
    a < b < |s| && forall k | a < k <= b :: s[k].kind.Normal?
  }

  ghost predicate Nested(lower: set<nat>, higher: set<nat>) {
    lower !! higher || higher < lower
  }

  ghost predicate Laminar(s: seq<Entry>) {
    forall a: nat, b: nat | SameFrame(s, a, b) :: Nested(s[a].mask, s[b].mask)
  }

  ghost predicate MasksWithin(s: seq<Entry>, lanes: set<nat>) {
    forall k | 0 <= k < |s| :: {} < s[k].mask <= lanes
  }

  /** No entry stands at the point where it would rejoin the entry below. */
  ghost predicate NeverAtOwnRpc(s: seq<Entry>) {
    forall k | 0 <= k < |s| :: s[k].kind.Normal? && s[k].rpc != NULL_PC ==> s[k].pc != s[k].rpc
  }

  ghost predicate Shape(s: seq<Entry>, lanes: set<nat>) {
    MasksWithin(s, lanes) && Laminar(s) && NeverAtOwnRpc(s)
  }

  lemma ShapeNonEmpty(s: seq<Entry>, lanes: set<nat>)
    requires Shape(s, lanes)
    ensures forall k | 0 <= k < |s| :: s[k].mask != {}
  {
  }

  lemma ShapeWithin(s: seq<Entry>, lanes: set<nat>)
    requires Shape(s, lanes)
    ensures forall k | 0 <= k < |s| :: s[k].mask <= lanes
  {
  }

  /** What a new entry `e` on top of `base` must satisfy. */
  ghost predicate Fits(base: seq<Entry>, e: Entry) {
    && e.mask != {}
    && (e.kind.Normal? && e.rpc != NULL_PC ==> e.pc != e.rpc)
    && (e.kind.Normal? && base != [] ==>
          && Nested(Top(base).mask, e.mask)
          && forall a: nat | SameFrame(base, a, |base| - 1) :: Nested(base[a].mask, e.mask))
  }

  lemma PushShape(base: seq<Entry>, e: Entry, lanes: set<nat>)
    requires Shape(base, lanes) && Fits(base, e) && e.mask <= lanes
    ensures Shape(base + [e], lanes)
  {
    var s := base + [e];
    forall a: nat, b: nat | SameFrame(s, a, b) ensures Nested(s[a].mask, s[b].mask) {
      if b < |base| {
        assert SameFrame(base, a, b) by {
          forall k | a < k <= b ensures base[k].kind.Normal? { assert s[k] == base[k]; }
        }
      } else if a < |base| - 1 {
        assert s[b].kind.Normal?;
        assert SameFrame(base, a, |base| - 1) by {
          forall k | a < k <= |base| - 1 ensures base[k].kind.Normal? { assert s[k] == base[k]; }
        }
      } else {
        assert s[b].kind.Normal?;
      }
    }
  }

  lemma PrefixShape(s: seq<Entry>, n: nat, lanes: set<nat>)
    requires Shape(s, lanes) && n <= |s|
    ensures Shape(s[..n], lanes)
  {
    forall a: nat, b: nat | SameFrame(s[..n], a, b) ensures Nested(s[a].mask, s[b].mask) {
      forall k | a < k <= b ensures s[k].kind.Normal? { assert s[k] == s[..n][k]; }
      assert SameFrame(s, a, b);
    }
  }

  /** An entry that replaces the top with a smaller mask, in the same frame, still fits. */
  lemma ReplacementFits(s: seq<Entry>, e: Entry, lanes: set<nat>)
    requires s != [] && Shape(s, lanes)
    requires {} < e.mask <= Top(s).mask && (e.kind.Normal? ==> Top(s).kind.Normal?)
    requires e.kind.Normal? && e.rpc != NULL_PC ==> e.pc != e.rpc
    ensures Fits(Pop(s), e)
  {
    if e.kind.Normal? {
      var n := |s| - 1;
      forall a: nat | a < n && (a == n - 1 || SameFrame(Pop(s), a, n - 1)) ensures Nested(s[a].mask, e.mask) {
        if a < n - 1 {
          forall k | a < k <= n ensures s[k].kind.Normal? { if k < n { assert s[k] == Pop(s)[k]; } }
        }
        assert SameFrame(s, a, n);
      }
    }
  }

  /** A strictly smaller entry fits on top of `top`, and beside it. */
  lemma ChildFits(s: seq<Entry>, top: Entry, e: Entry, lanes: set<nat>)
    requires s != [] && Shape(s, lanes)
    requires top.kind == Top(s).kind && top.mask <= Top(s).mask && Nested(top.mask, e.mask)
    requires {} < e.mask <= Top(s).mask && e.kind.Normal?
    requires e.rpc != NULL_PC ==> e.pc != e.rpc
    ensures Fits(Pop(s) + [top], e)
  {
    var base := Pop(s) + [top];
    var n := |base| - 1;
    forall a: nat | SameFrame(base, a, n) ensures Nested(base[a].mask, e.mask) {
      forall k | a < k <= n ensures s[k].kind.Normal? { assert base[k].kind == s[k].kind; }
      assert SameFrame(s, a, n) && base[a] == s[a];
    }
  }

  lemma SplitShape(s: seq<Entry>, i: Issue, p: nat, q: nat, lanes: set<nat>)
    requires Asserts(s, i) && Paths(Live(s, i), i) == {p, q} && p != q
    requires Shape(s, lanes) && i.recvg != Top(s).rpc
    ensures Shape(Diverge(s, i, p, q), lanes)
  {
    var live := Live(s, i);
    TwoPaths(live, i, p, q);
    var waiter := Top(s).(pc := i.recvg);
    var base := Pop(s) + [waiter];
    PrefixShape(s, |s| - 1, lanes);
    ReplacementFits(s, waiter, lanes);
    PushShape(Pop(s), waiter, lanes);
    var eP := Branch(FRESH_ENTRY, p, LanesAt(live, i, p), i.recvg);
    var eQ := Branch(FRESH_ENTRY, q, LanesAt(live, i, q), i.recvg);
    assert eP.mask < waiter.mask && eQ.mask < waiter.mask;
    if !Rejoins(Top(s), i.recvg, p) {
      ChildFits(s, waiter, eP, lanes);
      PushShape(base, eP, lanes);
    }
    if !Rejoins(Top(s), i.recvg, q) {
      ChildFits(s, waiter, eQ, lanes);
      if Rejoins(Top(s), i.recvg, p) {
        PushShape(base, eQ, lanes);
      } else {
        SiblingFits(base, eP, eQ);
        PushShape(base + [eP], eQ, lanes);
      }
    }
  }

  /** A second branch fits on top of the first when it fits below it and shares no lane with it. */
  lemma SiblingFits(base: seq<Entry>, first: Entry, e: Entry)
    requires Fits(base, e) && first.kind.Normal? && e.kind.Normal? && first.mask !! e.mask
    ensures Fits(base + [first], e)
  {
    var s := base + [first];
    forall a: nat | SameFrame(s, a, |s| - 1) ensures Nested(s[a].mask, e.mask) {
      if a < |base| - 1 {
        forall k | a < k <= |base| - 1 ensures base[k].kind.Normal? { assert s[k] == base[k]; }
        assert SameFrame(base, a, |base| - 1);
      }
    }
  }

  lemma ReplaceShape(s: seq<Entry>, i: Issue, p: nat, q: nat, lanes: set<nat>)
    requires Asserts(s, i) && Paths(Live(s, i), i) == {p, q} && p != q
    requires Shape(s, lanes) && i.recvg == Top(s).rpc
    ensures Shape(Diverge(s, i, p, q), lanes)
  {
    var live := Live(s, i);
    var top := Top(s);
    TwoPaths(live, i, p, q);
    PrefixShape(s, |s| - 1, lanes);
    var eP := Branch(top, p, LanesAt(live, i, p), i.recvg);
    if !Rejoins(top, i.recvg, p) {
      ReplacementFits(s, eP, lanes);
      PushShape(Pop(s), eP, lanes);
    }
    if !Rejoins(top, i.recvg, q) {
      if Rejoins(top, i.recvg, p) {
        var eQ := Branch(top, q, LanesAt(live, i, q), i.recvg);
        ReplacementFits(s, eQ, lanes);
        PushShape(Pop(s), eQ, lanes);
      } else {
        var eQ := Branch(FRESH_ENTRY, q, LanesAt(live, i, q), i.recvg);
        ChildFits(s, eP, eQ, lanes);
        PushShape(Pop(s) + [eP], eQ, lanes);
      }
    }
  }

  lemma ReturnShape(s: seq<Entry>, p: nat, lanes: set<nat>)
    requires |s| >= 2 && Shape(s, lanes) && p != NULL_PC
    ensures Shape(Return(s, p), lanes)
  {
    var callers := Pop(s);
    PrefixShape(s, |s| - 1, lanes);
    PrefixShape(callers, |callers| - 1, lanes);
    var caller := Top(callers);
    if !(caller.kind.Normal? && p == caller.rpc) {
      ReplacementFits(callers, caller.(pc := p), lanes);
      PushShape(Pop(callers), caller.(pc := p), lanes);
    }
  }

  lemma AdvanceShape(s: seq<Entry>, i: Issue, p: nat, lanes: set<nat>)
    requires Asserts(s, i) && Live(s, i) != {} && Shape(s, lanes) && p != NULL_PC
    ensures Shape(Advance(s, i, p), lanes)
  {
    var e := Top(s).(pc := p, mask := Live(s, i));
    PrefixShape(s, |s| - 1, lanes);
    if !(Top(s).kind.Normal? && p == Top(s).rpc) {
      ReplacementFits(s, e, lanes);
      PushShape(Pop(s), e, lanes);
    }
  }

  /** Every update keeps the shape, whatever the reconvergence argument is. */
  lemma UpdateKeepsShape(s: seq<Entry>, i: Issue, lanes: set<nat>)
    requires Asserts(s, i) && Shape(s, lanes)
    ensures Shape(NextStack(s, i), lanes)
  {
    hide Shape, Return, Diverge, Advance;
    var live := Live(s, i);
    var paths := Paths(live, i);
    if live == {} {
      PrefixShape(s, |s| - 1, lanes);
    } else {
      var k :| k in live;
      assert i.Target(k) in paths;
      var p := FirstPath(paths, i.pc + i.size);
      var l :| l in live && i.Target(l) == p;
      if i.op.CallOp? {
        CallShape(s, i, p, lanes);
      } else if Returning(s, i) {
        ReturnShape(s, p, lanes);
      } else if |paths| == 1 {
        AdvanceShape(s, i, p, lanes);
      } else {
        assert |paths - {p}| == |paths| - 1;
        var q := MinPath(paths - {p});
        TwoPaths(live, i, p, q);
        if i.recvg == Top(s).rpc {
          ReplaceShape(s, i, p, q, lanes);
        } else {
          SplitShape(s, i, p, q, lanes);
        }
      }
    }
  }

  lemma CallShape(s: seq<Entry>, i: Issue, p: nat, lanes: set<nat>)
    requires s != [] && Live(s, i) != {} && Shape(s, lanes)
    ensures Shape(s + [Callee(p, Live(s, i))], lanes)
  {
    PushShape(s, Callee(p, Live(s, i)), lanes);
  }

  // ---------- the height bound ----------

  /** A laminar list: each set is non-empty, and every later one is disjoint from it or strictly inside. */
  ghost predicate LaminarList(m: seq<set<nat>>) {
    m != [] ==> m[0] != {} && (forall x | x in m[1..] :: Nested(m[0], x)) && LaminarList(m[1..])
  }

  ghost function Keep(m: seq<set<nat>>, outer: set<nat>, inside: bool): (r: seq<set<nat>>)
    ensures forall x | x in r :: x in m && (x < outer <==> inside)
  {
    if m == [] then []
    else (if m[0] < outer <==> inside then [m[0]] else []) + Keep(m[1..], outer, inside)
  }

  lemma {:induction false} KeepLaminar(m: seq<set<nat>>, outer: set<nat>, inside: bool)
    requires LaminarList(m)
    ensures LaminarList(Keep(m, outer, inside))
  {
    if m != [] {
      KeepLaminar(m[1..], outer, inside);
      var r := Keep(m, outer, inside);
      var t := Keep(m[1..], outer, inside);
      assert r == t || r[1..] == t;
    }
  }

  lemma {:induction false} KeepSplits(m: seq<set<nat>>, outer: set<nat>)
    ensures |Keep(m, outer, true)| + |Keep(m, outer, false)| == |m|
  {
    if m != [] {
      KeepSplits(m[1..], outer);
    }
  }

  lemma {:induction false} StrictBound(m: seq<set<nat>>, u: set<nat>)
    requires LaminarList(m) && u != {} && forall x | x in m :: x < u
    ensures |m| <= 2 * |u| - 2
    decreases |m|, 0
  {
    if m != [] {
      var first, rest := m[0], m[1..];
      var inner, outer := Keep(rest, first, true), Keep(rest, first, false);
      KeepSplits(rest, first);
      KeepLaminar(rest, first, true);
      KeepLaminar(rest, first, false);
      StrictBound(inner, first);
      assert first in m;
      assert |u| == |first| + |u - first| by { assert u == first + (u - first); }
      assert u - first != {};
      forall x | x in outer ensures x <= u - first { assert x in m; assert Nested(first, x); }
      FullBound(outer, u - first);
    }
  }

  /** A laminar list of subsets of `u` has at most `2|u| - 1` members. */
  lemma {:induction false} FullBound(m: seq<set<nat>>, u: set<nat>)
    requires LaminarList(m) && u != {} && forall x | x in m :: x <= u
    ensures |m| <= 2 * |u| - 1
    decreases |m|, 1
  {
    if m != [] {
      var first, rest := m[0], m[1..];
      assert first in m;
      if first == u {
        LaminarNonEmpty(rest);
        forall x | x in rest ensures x < u { assert Nested(first, x); assert x in m; }
        StrictBound(rest, u);
      } else {
        forall x | x in m ensures x < u { if x != first { assert x in rest; assert Nested(first, x); } }
        StrictBound(m, u);
      }
    }
  }

  lemma {:induction false} LaminarNonEmpty(m: seq<set<nat>>)
    requires LaminarList(m)
    ensures forall x | x in m :: x != {}
  {
    if m != [] {
      LaminarNonEmpty(m[1..]);
      forall x | x in m ensures x != {} { if x != m[0] { assert x in m[1..]; } }
    }
  }

  function Masks(s: seq<Entry>): (r: seq<set<nat>>)
    ensures |r| == |s| && forall k | 0 <= k < |s| :: r[k] == s[k].mask
  {
    if s == [] then [] else [s[0].mask] + Masks(s[1..])
  }

  lemma {:induction false} FrameIsLaminar(s: seq<Entry>, from: nat, lanes: set<nat>)
    requires Shape(s, lanes) && from <= |s|
    requires forall k | from < k < |s| :: s[k].kind.Normal?
    ensures LaminarList(Masks(s[from..]))
    decreases |s| - from
  {
    if from < |s| {
      FrameIsLaminar(s, from + 1, lanes);
      var m := Masks(s[from..]);
      assert s[from..][1..] == s[from + 1..];
      assert m[1..] == Masks(s[from + 1..]);
      forall x | x in m[1..] ensures Nested(m[0], x) {
        var j :| 0 <= j < |m[1..]| && m[1..][j] == x;
        assert SameFrame(s, from, from + 1 + j);
        assert x == s[from + 1 + j].mask;
      }
    }
  }

  function CallDepth(s: seq<Entry>): nat {
    if s == [] then 0 else CallDepth(Pop(s)) + if Top(s).kind.Call? then 1 else 0
  }

  /** The start of the topmost frame: the last call entry, or the bottom. */
  function FrameStart(s: seq<Entry>, upTo: nat): (c: nat)
    requires upTo <= |s|
    ensures c <= upTo && (forall k | c < k < upTo :: s[k].kind.Normal?)
    ensures c == 0 || (c < upTo && s[c].kind.Call?)
  {
    if upTo == 0 then 0
    else if s[upTo - 1].kind.Call? then upTo - 1
    else FrameStart(s, upTo - 1)
  }

  lemma {:induction false} CallDepthPrefix(s: seq<Entry>, c: nat)
    requires c < |s| && s[c].kind.Call?
    ensures CallDepth(s) >= CallDepth(s[..c]) + 1
  {
    if c == |s| - 1 {
      assert Pop(s) == s[..c];
    } else {
      assert Pop(s)[..c] == s[..c];
      CallDepthPrefix(Pop(s), c);
    }
  }

  /** The stack holds at most `2 * lanes - 1` entries for the kernel and for every call in progress. */
  lemma {:induction false} HeightBound(s: seq<Entry>, lanes: set<nat>)
    requires Shape(s, lanes) && lanes != {}
    ensures |s| <= (CallDepth(s) + 1) * (2 * |lanes| - 1)
    decreases |s|
  {
    hide LaminarList, Shape;
    var c := FrameStart(s, |s|);
    FrameIsLaminar(s, c, lanes);
    ShapeWithin(s, lanes);
    forall x | x in Masks(s[c..]) ensures x <= lanes { }
    FullBound(Masks(s[c..]), lanes);
    assert |s| - c <= 2 * |lanes| - 1;
    if c > 0 {
      PrefixShape(s, c, lanes);
      HeightBound(s[..c], lanes);
      CallDepthPrefix(s, c);
      OneFrameMore(|s|, c, CallDepth(s), CallDepth(s[..c]), 2 * |lanes| - 1);
    } else {
      OneFrameMore(|s|, 0, CallDepth(s), -1, 2 * |lanes| - 1);
    }
  }

  lemma OneFrameMore(n: nat, c: nat, d: int, below: int, width: nat)
    requires n - c <= width && c <= (below + 1) * width && below + 1 <= d
    ensures n <= (d + 1) * width
  {
    var k := d - below;
    assert (d + 1) * width == (below + 1) * width + k * width;
    MulMonotone(1, k, width);
  }
}
