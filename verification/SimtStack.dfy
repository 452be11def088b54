/** The SIMT reconvergence stack of one warp (model/Warp.cpp, model/inc/Warp.h).

    `NextStack` is the meaning of one `Warp::update` in closed form; class `Warp`
    (Warp.dfy) is the loop-and-deque form of the source, proved equal to it.  The theorems
    about whole runs are stated over `NextStack`. */
module SimtStack {

  /** `(addr_t)-1`, the 64-bit null program counter. */
  const NULL_PC: nat := 0xFFFF_FFFF_FFFF_FFFF

  datatype EntryKind = Normal | Call

  /** `SimtStack_entry`; `m_branch_div_cycle` is never written and is left out. */
  datatype Entry = Entry(pc: nat, calldepth: nat, mask: set<nat>, rpc: nat, kind: EntryKind)

  /** The default-constructed entry. */
  const FRESH_ENTRY := Entry(NULL_PC, 0, {}, NULL_PC, Normal)

  datatype OpType = CallOp | RetOp | OtherOp

  /** The arguments of one `Warp::update` call. */
  datatype Issue = Issue(done: set<nat>, nextPc: seq<nat>, recvg: nat, op: OpType, size: nat, pc: nat) {
    function Target(l: nat): nat {
      if l < |nextPc| then nextPc[l] else NULL_PC
    }
  }

  function LaunchStack(startPc: nat, mask: set<nat>): seq<Entry> {
    [Entry(startPc, 1, mask, NULL_PC, Normal)]
  }

  function Top(s: seq<Entry>): Entry
    requires s != []
  {
    s[|s| - 1]
  }

  function Pop(s: seq<Entry>): seq<Entry>
    requires s != []
  {
    s[..|s| - 1]
  }

  // ---------- grouping of lanes by next program counter ----------

  function Live(s: seq<Entry>, i: Issue): set<nat>
    requires s != []
  {
    Top(s).mask - i.done
  }

  function Paths(live: set<nat>, i: Issue): set<nat> {
    set l | l in live :: i.Target(l)
  }

  function LanesAt(live: set<nat>, i: Issue, p: nat): set<nat> {
    set l | l in live && i.Target(l) == p
  }

  predicate IsMin(m: nat, paths: set<nat>) {
    m in paths && forall x | x in paths :: m <= x
  }

  lemma {:induction false} MinExists(paths: set<nat>)
    requires paths != {}
    ensures exists m :: IsMin(m, paths)
    decreases |paths|
  {
    var x :| x in paths;
    var rest := paths - {x};
    if rest != {} {
      MinExists(rest);
      var m :| IsMin(m, rest);
      assert paths == rest + {x};
      assert IsMin(if x < m then x else m, paths);
    } else {
      assert paths == {x};
      assert IsMin(x, paths);
    }
  }

  ghost function MinPath(paths: set<nat>): (m: nat)
    requires paths != {}
    ensures IsMin(m, paths)
  {
    MinExists(paths);
    var m :| IsMin(m, paths);
    m
  }

  /** The path handled next: the fall-through when some lane takes it, else the least. */
  ghost function FirstPath(paths: set<nat>, notTaken: nat): (p: nat)
    requires paths != {}
    ensures p in paths
  {
    if notTaken in paths then notTaken else MinPath(paths)
  }

  // ---------- the meaning of one update ----------

  /** A path that has reached the reconvergence point needs no entry of its own. */
  predicate Rejoins(top: Entry, recvg: nat, p: nat) {
    p == recvg || (top.kind.Normal? && p == top.rpc)
  }

  function Branch(slot: Entry, p: nat, lanes: set<nat>, recvg: nat): Entry {
    slot.(pc := p, calldepth := 0, mask := lanes, rpc := recvg)
  }

  function Callee(p: nat, lanes: set<nat>): Entry {
    FRESH_ENTRY.(pc := p, mask := lanes, kind := Call)
  }

  /** Two paths: `base` keeps the reconvergence entry, the kept paths go on top of it. */
  function Diverge(s: seq<Entry>, i: Issue, p: nat, q: nat): seq<Entry>
    requires s != []
  {
    var top := Top(s);
    var live := Live(s, i);
    var split := i.recvg != top.rpc;
    var base := if split then Pop(s) + [top.(pc := i.recvg)] else Pop(s);
    var slot := if split then FRESH_ENTRY else top;
    var keepP := !Rejoins(top, i.recvg, p);
    var keepQ := !Rejoins(top, i.recvg, q);
    var first := if keepP then base + [Branch(slot, p, LanesAt(live, i, p), i.recvg)] else base;
    if keepQ then first + [Branch(if keepP then FRESH_ENTRY else slot, q, LanesAt(live, i, q), i.recvg)] else first
  }

  /** One path: the top moves on, or is dropped at its reconvergence point. */
  function Advance(s: seq<Entry>, i: Issue, p: nat): seq<Entry>
    requires s != []
  {
    var top := Top(s);
    if top.kind.Normal? && p == top.rpc then Pop(s)
    else Pop(s) + [top.(pc := p, mask := Live(s, i))]
  }

  /** Return from a call: drop the call entry, resume the caller at `p`, drop it if it rejoins. */
  function Return(s: seq<Entry>, p: nat): seq<Entry>
    requires |s| >= 2
  {
    var callers := Pop(s);
    var caller := Top(callers);
    if caller.kind.Normal? && p == caller.rpc then Pop(callers)
    else Pop(callers) + [caller.(pc := p)]
  }

  predicate Returning(s: seq<Entry>, i: Issue)
    requires s != []
  {
    i.op.RetOp? && Top(s).kind.Call?
  }

  /** What `Warp::update` asserts of its caller. */
  ghost predicate Asserts(s: seq<Entry>, i: Issue) {
    && s != []
    && Top(s).pc == i.pc
    && Top(s).mask != {}
    && (forall l | l in Live(s, i) :: i.Target(l) != NULL_PC)
    && |Paths(Live(s, i), i)| <= 2
    && (i.op.CallOp? || Returning(s, i) ==> |Paths(Live(s, i), i)| <= 1)
    && (Returning(s, i) && Live(s, i) != {} ==> |s| >= 2)
  }

  ghost function NextStack(s: seq<Entry>, i: Issue): seq<Entry>
    requires Asserts(s, i)
  {
    var live := Live(s, i);
    var paths := Paths(live, i);
    if live == {} then Pop(s)
    else
      assert paths != {} by { var l :| l in live; assert i.Target(l) in paths; }
      var p := FirstPath(paths, i.pc + i.size);
      if i.op.CallOp? then s + [Callee(p, live)]
      else if Returning(s, i) then Return(s, p)
      else if |paths| == 1 then Advance(s, i, p)
      else
        assert |paths - {p}| == |paths| - 1;
        Diverge(s, i, p, MinPath(paths - {p}))
  }

  // ---------- facts about the groups ----------

  lemma OnePath(live: set<nat>, i: Issue, p: nat)
    requires |Paths(live, i)| <= 1 && p in Paths(live, i)
    ensures forall l | l in live :: i.Target(l) == p
    ensures LanesAt(live, i, p) == live
  {
    forall l | l in live ensures i.Target(l) == p {
      var paths := Paths(live, i);
      assert i.Target(l) in paths;
      if i.Target(l) != p {
        assert {p, i.Target(l)} <= paths;
        SubsetCard({p, i.Target(l)}, paths);
      }
    }
  }

  lemma TwoPaths(live: set<nat>, i: Issue, p: nat, q: nat)
    requires |Paths(live, i)| == 2 && p in Paths(live, i) && q in Paths(live, i) && p != q
    ensures Paths(live, i) == {p, q}
    ensures forall l | l in live :: l in LanesAt(live, i, p) || l in LanesAt(live, i, q)
    ensures LanesAt(live, i, p) != {} && LanesAt(live, i, q) != {}
    ensures LanesAt(live, i, p) !! LanesAt(live, i, q)
  {
    var paths := Paths(live, i);
    assert |paths - {p, q}| == 0;
    forall l | l in live ensures l in LanesAt(live, i, p) || l in LanesAt(live, i, q) {
      assert i.Target(l) in paths;
    }
    var a :| a in live && i.Target(a) == p;
    var b :| b in live && i.Target(b) == q;
    assert a in LanesAt(live, i, p) && b in LanesAt(live, i, q);
  }

  lemma SubsetCard<T>(a: set<T>, b: set<T>)
    requires a <= b
    ensures |a| <= |b|
  {
    assert b == a + (b - a);
  }
}
