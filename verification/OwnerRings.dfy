/** Rings of owners as values: what `smart_ptr` keeps true of all its links at once. */
module OwnerRings {

  /** A raw pointer to a managed object. */
  datatype Pointer = Null | Obj(id: nat)

  /** The two fields of an owner. */
  datatype Cell<N> = Cell(ptr: Pointer, next: Link<N>)
  datatype Link<N> = NoLink | To(owner: N)

  ghost predicate Distinct<N>(s: seq<N>) {
    forall i, j | 0 <= i < j < |s| :: s[i] != s[j]
  }

  ghost predicate SameMembers<N>(r: seq<N>, s: seq<N>) {
    (forall n | n in r :: n in s) && (forall n | n in s :: n in r)
  }

  /** The link of the `i`-th owner of ring `s`: to the next one, round to the first, none if alone. */
  function LinkAt<N>(s: seq<N>, i: nat): Link<N>
    requires i < |s|
  {
    if |s| == 1 then NoLink else if i + 1 < |s| then To(s[i + 1]) else To(s[0])
  }

  /** `s` is the whole ring of owners of `p`, in link order. */
  ghost predicate Ring<N>(h: map<N, Cell<N>>, s: seq<N>, p: Pointer) {
    && s != [] && Distinct(s)
    && (forall i | 0 <= i < |s| :: s[i] in h)
    && forall i {:trigger h[s[i]]} | 0 <= i < |s| :: h[s[i]] == Cell(p, LinkAt(s, i))
  }

  /** The owners of each object form exactly one ring; an owner of nothing is linked to nothing. */
  ghost predicate RingsOk<N>(h: map<N, Cell<N>>, rings: map<nat, seq<N>>) {
    && (forall o | o in rings :: Ring(h, rings[o], Obj(o)))
    && (forall n | n in h :: if h[n].ptr == Null then h[n].next == NoLink
                             else h[n].ptr.id in rings && n in rings[h[n].ptr.id])
  }

  /** Every object handed to an owner is owned, or has been deleted, and then exactly once. */
  ghost predicate LogOk(owned: set<nat>, created: set<nat>, deleted: seq<nat>) {
    && owned <= created && (forall o | o in deleted :: o in created)
    && (forall o | o in created :: o in owned <==> o !in deleted)
    && Distinct(deleted)
  }

  // ---------- looking at a ring from one of its owners ----------

  function Rotate<N>(s: seq<N>, i: nat): seq<N>
    requires i < |s|
  {
    s[i..] + s[..i]
  }

  lemma RotateRing<N>(h: map<N, Cell<N>>, s: seq<N>, i: nat, p: Pointer)
    requires Ring(h, s, p) && i < |s|
    ensures Ring(h, Rotate(s, i), p) && Rotate(s, i)[0] == s[i] && SameMembers(Rotate(s, i), s)
  {
    var r := Rotate(s, i);
    forall k | 0 <= k < |s| ensures r[k] == s[if k < |s| - i then i + k else k - (|s| - i)] { }
    forall n | n in s ensures n in r {
      var k :| 0 <= k < |s| && s[k] == n;
      assert r[if k >= i then k - i else k + |s| - i] == n;
    }
    forall k | 0 <= k < |s| ensures h[r[k]] == Cell(p, LinkAt(r, k)) {
      var j := if k < |s| - i then i + k else k - (|s| - i);
      assert h[s[j]] == Cell(p, LinkAt(s, j));
    }
  }

  lemma RingFrom<N>(h: map<N, Cell<N>>, rings: map<nat, seq<N>>, n: N) returns (r: seq<N>)
    requires RingsOk(h, rings) && n in h && h[n].ptr != Null
    ensures Ring(h, r, h[n].ptr) && r[0] == n && SameMembers(r, rings[h[n].ptr.id])
  {
    var s := rings[h[n].ptr.id];
    var i: nat :| i < |s| && s[i] == n;
    RotateRing(h, s, i, h[n].ptr);
    r := Rotate(s, i);
  }

  /** The members of an object's ring are exactly its owners. */
  lemma RingIsOwners<N>(h: map<N, Cell<N>>, rings: map<nat, seq<N>>, o: nat, r: seq<N>)
    requires RingsOk(h, rings) && o in rings && SameMembers(r, rings[o])
    ensures forall n | n in h :: n in r <==> h[n].ptr == Obj(o)
    ensures forall n | n in r :: n in h
  {
    var s := rings[o];
    forall n | n in s ensures n in h && h[n].ptr == Obj(o) {
      var k :| 0 <= k < |s| && s[k] == n;
      assert h[s[k]] == Cell(Obj(o), LinkAt(s, k));
    }
  }

  lemma OwnedHasOwner<N>(h: map<N, Cell<N>>, rings: map<nat, seq<N>>, o: nat)
    requires RingsOk(h, rings) && o in rings
    ensures exists n :: n in h && h[n].ptr == Obj(o)
  {
    RingIsOwners(h, rings, o, rings[o]);
    assert rings[o][0] in rings[o];
  }

  lemma {:induction false} DistinctCard<N>(s: seq<N>)
    requires Distinct(s)
    ensures |set n | n in s| == |s|
  {
    if s != [] {
      var t := s[..|s| - 1];
      DistinctCard(t);
      assert (set n | n in s) == (set n | n in t) + {s[|s| - 1]};
    }
  }

  // ---------- the four ways links change ----------

  /** Owner `r[0]` leaves its ring. */
  function Leave<N>(h: map<N, Cell<N>>, r: seq<N>, p: Pointer): map<N, Cell<N>>
    requires r != []
  {
    var last := r[|r| - 1];
    var rest := if |r| == 1 then h else h[last := Cell(p, if |r| == 2 then NoLink else To(r[1]))];
    rest[r[0] := Cell(Null, NoLink)]
  }

  lemma LeaveRing<N>(h: map<N, Cell<N>>, r: seq<N>, p: Pointer)
    requires Ring(h, r, p) && |r| > 1
    ensures Ring(Leave(h, r, p), r[1..], p)
  {
    var s, h' := r[1..], Leave(h, r, p);
    forall i | 0 <= i < |s| ensures s[i] in h' && h'[s[i]] == Cell(p, LinkAt(s, i)) {
      assert s[i] == r[i + 1] && h[r[i + 1]] == Cell(p, LinkAt(r, i + 1));
    }
  }

  /** A ring none of whose cells has changed. */
  lemma RingKept<N>(h: map<N, Cell<N>>, h': map<N, Cell<N>>, s: seq<N>, p: Pointer)
    requires Ring(h, s, p) && forall n | n in s :: n in h' && n in h && h'[n] == h[n]
    ensures Ring(h', s, p)
  {
    forall i | 0 <= i < |s| ensures s[i] in h' && h'[s[i]] == Cell(p, LinkAt(s, i)) {
      assert s[i] in s && h[s[i]] == Cell(p, LinkAt(s, i));
    }
  }

  /** The rings of the objects `gone` disappear, and `r'` becomes the ring of `o` unless it is empty;
      only their cells and those of nodes that own nothing change. */
  function NewRings<N>(rings: map<nat, seq<N>>, gone: set<nat>, o: nat, r': seq<N>): map<nat, seq<N>> {
    if r' == [] then rings - gone else (rings - gone)[o := r']
  }

  lemma ReplaceRings<N>(h: map<N, Cell<N>>, rings: map<nat, seq<N>>, h': map<N, Cell<N>>, gone: set<nat>, o: nat,
      r': seq<N>)
    requires RingsOk(h, rings) && h'.Keys >= h.Keys && (o in gone || o !in rings)
    requires r' != [] ==> Ring(h', r', Obj(o))
    requires forall n | n in h && h[n].ptr != Null && h[n].ptr.id !in gone :: h'[n] == h[n]
    requires forall n | n in h' && (n in h && h[n].ptr != Null ==> h[n].ptr.id in gone) ::
               if h'[n].ptr == Null then h'[n].next == NoLink else h'[n].ptr == Obj(o) && n in r'
    ensures RingsOk(h', NewRings(rings, gone, o, r'))
  {
    var rings' := NewRings(rings, gone, o, r');
    forall k | k in rings' ensures Ring(h', rings'[k], Obj(k)) {
      if k !in gone && k in rings {
        RingIsOwners(h, rings, k, rings[k]);
        RingKept(h, h', rings[k], Obj(k));
      }
    }
  }

  lemma LeaveOk<N>(h: map<N, Cell<N>>, rings: map<nat, seq<N>>, r: seq<N>, o: nat)
    requires RingsOk(h, rings) && o in rings && Ring(h, r, Obj(o)) && SameMembers(r, rings[o])
    ensures RingsOk(Leave(h, r, Obj(o)), NewRings(rings, {o}, o, r[1..]))
  {
    RingIsOwners(h, rings, o, r);
    if |r| > 1 {
      LeaveRing(h, r, Obj(o));
    }
    var h' := Leave(h, r, Obj(o));
    forall n | n in h' && (h[n].ptr == Obj(o) || h[n].ptr == Null)
      ensures if h'[n].ptr == Null then h'[n].next == NoLink else h'[n].ptr == Obj(o) && n in r[1..]
    {
      if n in r && n != r[0] {
        var k :| 0 <= k < |r| && r[k] == n;
        assert r[1..][k - 1] == n;
        assert h[r[k]] == Cell(Obj(o), LinkAt(r, k));
      }
    }
    ReplaceRings(h, rings, h', {o}, o, r[1..]);
  }

  /** Unowned node `n` joins the ring right after `r[0]`. */
  function Join<N>(h: map<N, Cell<N>>, r: seq<N>, n: N, p: Pointer): map<N, Cell<N>>
    requires r != []
  {
    h[r[0] := Cell(p, To(n))][n := Cell(p, To(if |r| == 1 then r[0] else r[1]))]
  }

  lemma JoinRing<N>(h: map<N, Cell<N>>, r: seq<N>, n: N, p: Pointer)
    requires Ring(h, r, p) && p != Null && n in h && h[n].ptr == Null
    ensures n !in r && Ring(Join(h, r, n, p), [r[0], n] + r[1..], p)
    ensures forall m | m in r || m == n :: m in [r[0], n] + r[1..]
  {
    var h', s := Join(h, r, n, p), [r[0], n] + r[1..];
    assert n !in r;
    forall i | 0 <= i < |s| ensures s[i] in h' && h'[s[i]] == Cell(p, LinkAt(s, i)) {
      if i > 1 {
        assert s[i] == r[i - 1] && h[r[i - 1]] == Cell(p, LinkAt(r, i - 1));
        assert r[i - 1] in r && r[i - 1] != r[0];
      }
    }
    forall i, j | 0 <= i < j < |s| ensures s[i] != s[j] {
      if j > 1 { assert s[j] == r[j - 1] && r[j - 1] in r; }
      if i > 1 { assert s[i] == r[i - 1]; }
    }
    assert s[1] == n;
    forall m | m in r ensures m in s {
      var k :| 0 <= k < |r| && r[k] == m;
      assert s[if k == 0 then 0 else k + 1] == m;
    }
  }

  lemma JoinOk<N>(h: map<N, Cell<N>>, rings: map<nat, seq<N>>, r: seq<N>, n: N, o: nat)
    requires RingsOk(h, rings) && o in rings && Ring(h, r, Obj(o)) && SameMembers(r, rings[o])
    requires n in h && h[n].ptr == Null
    ensures RingsOk(Join(h, r, n, Obj(o)), NewRings(rings, {o}, o, [r[0], n] + r[1..]))
  {
    RingIsOwners(h, rings, o, r);
    JoinRing(h, r, n, Obj(o));
    ReplaceRings(h, rings, Join(h, r, n, Obj(o)), {o}, o, [r[0], n] + r[1..]);
  }

  /** An owner of nothing takes a new object. */
  lemma StartOk<N>(h: map<N, Cell<N>>, rings: map<nat, seq<N>>, n: N, o: nat)
    requires RingsOk(h, rings) && o !in rings && (n in h ==> h[n].ptr == Null)
    ensures RingsOk(h[n := Cell(Obj(o), NoLink)], NewRings(rings, {}, o, [n]))
  {
    ReplaceRings(h, rings, h[n := Cell(Obj(o), NoLink)], {}, o, [n]);
  }

  /** All owners in ring `r` are pointed at `p`; links stay. */
  function Retarget<N>(h: map<N, Cell<N>>, r: seq<N>, p: Pointer): map<N, Cell<N>> {
    map n | n in h :: if n in r then Cell(p, h[n].next) else h[n]
  }

  lemma RetargetStep<N>(h: map<N, Cell<N>>, r: seq<N>, k: nat, p: Pointer)
    requires Distinct(r) && 1 <= k < |r| && r[k] in h
    ensures Retarget(h, r[1..k], p)[r[k] := Cell(p, h[r[k]].next)] == Retarget(h, r[1..k + 1], p)
    ensures Retarget(h, r[1..k], p)[r[k]] == h[r[k]]
  {
    assert r[1..k + 1] == r[1..k] + [r[k]];
  }

  lemma RetargetFirst<N>(h: map<N, Cell<N>>, r: seq<N>, p: Pointer)
    requires r != [] && r[0] in h && Distinct(r)
    ensures Retarget(h, r[1..], p)[r[0] := Cell(p, h[r[0]].next)] == Retarget(h, r, p)
    ensures Retarget(h, r[1..], p)[r[0]] == h[r[0]]
  {
    assert r == [r[0]] + r[1..];
  }

  lemma RetargetOk<N>(h: map<N, Cell<N>>, rings: map<nat, seq<N>>, r: seq<N>, o: nat, q: nat)
    requires RingsOk(h, rings) && o in rings && q !in rings && Ring(h, r, Obj(o)) && SameMembers(r, rings[o])
    ensures RingsOk(Retarget(h, r, Obj(q)), NewRings(rings, {o}, q, r))
  {
    RingIsOwners(h, rings, o, r);
    var h' := Retarget(h, r, Obj(q));
    forall i | 0 <= i < |r| ensures r[i] in h' && h'[r[i]] == Cell(Obj(q), LinkAt(r, i)) {
      assert r[i] in r && h[r[i]] == Cell(Obj(o), LinkAt(r, i));
    }
    ReplaceRings(h, rings, h', {o}, q, r);
  }

  /** The ring `r` is spliced into the ring `s` right after `s[0]`, and pointed at its object. */
  function Splice<N>(h: map<N, Cell<N>>, r: seq<N>, s: seq<N>, p: Pointer): map<N, Cell<N>>
    requires r != [] && s != []
  {
    map n | n in h ::
      if n == s[0] then Cell(p, To(r[0]))
      else if n == r[|r| - 1] then Cell(p, To(if |s| == 1 then s[0] else s[1]))
      else if n in r then Cell(p, h[n].next)
      else h[n]
  }

  lemma SpliceSteps<N>(h: map<N, Cell<N>>, r: seq<N>, s: seq<N>, p: Pointer)
    requires r != [] && s != [] && (forall n | n in r :: n in h && n !in s) && s[0] in h
    ensures Splice(h, r, s, p)
            == Retarget(h, r, p)[s[0] := Cell(p, To(r[0]))][r[|r| - 1] := Cell(p, To(if |s| == 1 then s[0] else s[1]))]
  {
    assert r[|r| - 1] in r && s[0] in s;
  }

  function Spliced<N>(r: seq<N>, s: seq<N>): seq<N>
    requires s != []
  {
    [s[0]] + r + s[1..]
  }

  lemma SplicedMembers<N>(r: seq<N>, s: seq<N>)
    requires r != [] && s != [] && Distinct(r) && Distinct(s) && forall n | n in r :: n !in s
    ensures Distinct(Spliced(r, s))
    ensures forall n :: n in Spliced(r, s) <==> n in r || n in s
  {
    var t := Spliced(r, s);
    assert forall k | 1 <= k < |r| + 1 :: t[k] == r[k - 1] && t[k] in r;
    assert forall k | |r| + 1 <= k < |t| :: t[k] == s[k - |r|] && t[k] in s;
    forall n | n in s ensures n in t {
      var k :| 0 <= k < |s| && s[k] == n;
      assert t[if k == 0 then 0 else k + |r|] == n;
    }
  }

  /** `r` is a chain of nodes: the whole ring of another object. */
  lemma SpliceOwnedOk<N>(h: map<N, Cell<N>>, rings: map<nat, seq<N>>, r: seq<N>, o: nat, s: seq<N>, q: nat)
    requires RingsOk(h, rings) && q in rings && Ring(h, s, Obj(q)) && SameMembers(s, rings[q])
    requires o in rings && o != q && Ring(h, r, Obj(o)) && SameMembers(r, rings[o])
    ensures RingsOk(Splice(h, r, s, Obj(q)), NewRings(rings, {o, q}, q, Spliced(r, s)))
    ensures forall n | n in r :: n !in s
  {
    RingIsOwners(h, rings, o, r);
    RingIsOwners(h, rings, q, s);
    forall n | n in r ensures n !in s { assert h[n].ptr == Obj(o); }
    SpliceOk(h, rings, r, {o}, s, q);
    assert {o} + {q} == {o, q};
  }

  /** `r` is a single node that owns nothing. */
  lemma SpliceFreeOk<N>(h: map<N, Cell<N>>, rings: map<nat, seq<N>>, n: N, s: seq<N>, q: nat)
    requires RingsOk(h, rings) && q in rings && Ring(h, s, Obj(q)) && SameMembers(s, rings[q])
    requires n in h && h[n].ptr == Null
    ensures RingsOk(Splice(h, [n], s, Obj(q)), NewRings(rings, {q}, q, Spliced([n], s)))
    ensures n !in s
  {
    RingIsOwners(h, rings, q, s);
    SpliceOk(h, rings, [n], {}, s, q);
    assert {} + {q} == {q};
  }

  lemma SpliceOk<N>(h: map<N, Cell<N>>, rings: map<nat, seq<N>>, r: seq<N>, gone: set<nat>, s: seq<N>, q: nat)
    requires RingsOk(h, rings) && q in rings && q !in gone && Ring(h, s, Obj(q)) && SameMembers(s, rings[q])
    requires r != [] && Distinct(r)
    requires forall n | n in r :: n in h && n !in s && (h[n].ptr == Null || h[n].ptr.id in gone)
    requires forall n | n in h && h[n].ptr != Null && h[n].ptr.id in gone :: n in r
    requires forall i {:trigger h[r[i]]} | 0 <= i < |r| - 1 :: h[r[i]].next == To(r[i + 1])
    ensures RingsOk(Splice(h, r, s, Obj(q)), NewRings(rings, gone + {q}, q, Spliced(r, s)))
  {
    hide Ring;
    RingIsOwners(h, rings, q, s);
    assert s != [] && Distinct(s) by { RingBasics(h, s, Obj(q)); }
    SplicedMembers(r, s);
    SpliceRing(h, r, s, Obj(q));
    var h', t := Splice(h, r, s, Obj(q)), Spliced(r, s);
    assert r[|r| - 1] in r && r[|r| - 1] != s[0];
    ReplaceRings(h, rings, h', gone + {q}, q, t);
  }

  lemma RingBasics<N>(h: map<N, Cell<N>>, s: seq<N>, p: Pointer)
    requires Ring(h, s, p)
    ensures s != [] && Distinct(s)
  {
  }

  lemma SpliceRing<N>(h: map<N, Cell<N>>, r: seq<N>, s: seq<N>, p: Pointer)
    requires r != [] && Ring(h, s, p) && Distinct(r) && (forall n | n in r :: n in h && n !in s)
    requires forall i {:trigger h[r[i]]} | 0 <= i < |r| - 1 :: h[r[i]].next == To(r[i + 1])
    requires Distinct(Spliced(r, s))
    ensures Ring(Splice(h, r, s, p), Spliced(r, s), p)
  {
    var h', t := Splice(h, r, s, p), Spliced(r, s);
    forall k | 0 <= k < |t| ensures t[k] in h' && h'[t[k]] == Cell(p, LinkAt(t, k)) {
      if 1 <= k <= |r| {
        assert t[k] == r[k - 1] && r[k - 1] in r;
        if k < |r| {
          assert h[r[k - 1]].next == To(r[k]) && t[k + 1] == r[k] && r[k - 1] != r[|r| - 1];
        }
      } else if k > |r| {
        var j := k - |r|;
        assert t[k] == s[j] && s[j] in s && h[s[j]] == Cell(p, LinkAt(s, j));
      }
    }
  }

  /** A ring is determined by its links and its first owner. */
  lemma RingUnique<N>(h: map<N, Cell<N>>, r: seq<N>, s: seq<N>, p: Pointer)
    requires Ring(h, r, p) && Ring(h, s, p) && r[0] == s[0]
    ensures r == s
  {
    if |r| <= |s| {
      RingPrefix(h, r, s, p, |r|);
      if |r| < |s| {
        RingEnds(h, r, s, p);
      }
    } else {
      RingPrefix(h, s, r, p, |s|);
      RingEnds(h, s, r, p);
    }
  }

  lemma {:induction false} RingPrefix<N>(h: map<N, Cell<N>>, r: seq<N>, s: seq<N>, p: Pointer, n: nat)
    requires Ring(h, r, p) && Ring(h, s, p) && r[0] == s[0] && 0 < n <= |r| <= |s|
    ensures r[..n] == s[..n]
  {
    if n > 1 {
      RingPrefix(h, r, s, p, n - 1);
      var k := n - 2;
      assert r[k] == r[..n - 1][k] == s[k];
      assert h[r[k]] == Cell(p, LinkAt(r, k)) && h[s[k]] == Cell(p, LinkAt(s, k));
      assert r[..n] == r[..n - 1] + [r[n - 1]] && s[..n] == s[..n - 1] + [s[n - 1]];
    }
  }

  lemma RingEnds<N>(h: map<N, Cell<N>>, r: seq<N>, s: seq<N>, p: Pointer)
    requires Ring(h, r, p) && Ring(h, s, p) && |r| <= |s| && r == s[..|r|]
    ensures |r| == |s|
  {
    var k := |r| - 1;
    assert r[k] == s[k] && r[0] == s[0];
    assert h[r[k]] == Cell(p, LinkAt(r, k)) && h[s[k]] == Cell(p, LinkAt(s, k));
  }

  /** When the owner after `r[0]` leaves, the ring seen from `r[0]` simply lacks it. */
  lemma NextLeaves<N>(h: map<N, Cell<N>>, r: seq<N>, s: seq<N>, p: Pointer)
    requires Ring(h, r, p) && |r| > 1 && Ring(h, s, p) && s[0] == r[1]
    ensures |s| == |r| && Rotate(s[1..], |s| - 2) == [r[0]] + r[2..]
    ensures SameMembers([r[0]] + r[2..], s[1..])
  {
    RotateRing(h, r, 1, p);
    RingUnique(h, Rotate(r, 1), s, p);
    assert s == r[1..] + [r[0]];
    assert s[1..] == r[2..] + [r[0]];
    var t := [r[0]] + r[2..];
    forall n | n in t ensures n in s[1..] {
      var k :| 0 <= k < |t| && t[k] == n;
      assert s[1..][if k == 0 then |t| - 1 else k - 1] == n;
    }
    forall n | n in s[1..] ensures n in t {
      var k :| 0 <= k < |s| - 1 && s[1..][k] == n;
      assert t[if k == |t| - 1 then 0 else k + 1] == n;
    }
  }

  lemma AddOk<N>(h: map<N, Cell<N>>, rings: map<nat, seq<N>>, n: N)
    requires RingsOk(h, rings) && n !in h
    ensures RingsOk(h[n := Cell(Null, NoLink)], rings)
  {
    forall o | o in rings ensures Ring(h[n := Cell(Null, NoLink)], rings[o], Obj(o)) {
      RingIsOwners(h, rings, o, rings[o]);
      RingKept(h, h[n := Cell(Null, NoLink)], rings[o], Obj(o));
    }
  }

  lemma DropOk<N>(h: map<N, Cell<N>>, rings: map<nat, seq<N>>, n: N)
    requires RingsOk(h, rings) && n in h && h[n].ptr == Null
    ensures RingsOk(h - {n}, rings)
  {
    forall o | o in rings ensures Ring(h - {n}, rings[o], Obj(o)) {
      RingIsOwners(h, rings, o, rings[o]);
      RingKept(h, h - {n}, rings[o], Obj(o));
    }
  }
}
