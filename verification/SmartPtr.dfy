/** `smart_ptr` of common/string_utils.h: shared ownership without a count.  The owners of one object
    are linked in a circle through `next_`; a lone owner has a null link. */
module SmartPointers {
  import opened OwnerRings

  /** The owners in existence, the objects ever handed to an owner, and the log of deletions. */
  class World {
    ghost var nodes: set<SmartPtr>
    ghost var rings: map<nat, seq<SmartPtr>>
    ghost var created: set<nat>
    var deleted: seq<nat>

    constructor ()
      ensures Valid() && nodes == {} && created == {} && deleted == []
    {
      nodes, rings, created, deleted := {}, map[], {}, [];
    }

    ghost function Cells(): (h: map<SmartPtr, Cell<SmartPtr>>)
      reads this`nodes, nodes
      ensures h.Keys == nodes && forall n | n in nodes :: h[n] == n.Fields()
    {
      map n | n in nodes :: n.Fields()
    }

    ghost predicate Valid()
      reads this, nodes
    {
      RingsOk(Cells(), rings) && LogOk(rings.Keys, created, deleted)
    }

    ghost method SetRings(rings': map<nat, seq<SmartPtr>>)
      requires RingsOk(Cells(), rings') && LogOk(rings'.Keys, created, deleted)
      modifies this`rings
      ensures Valid() && rings == rings'
    {
      rings := rings';
    }

    /** A null node is linked to something, or a deleted object still has an owner. */
    ghost predicate Broken()
      reads this`nodes, this`deleted, nodes
    {
      exists n | n in nodes :: if n.ptr == Null then n.next != null else n.ptr.id in deleted
    }

    /** No choice of rings makes a broken state a valid one. */
    lemma BrokenIsInvalid(rings: map<nat, seq<SmartPtr>>)
      requires Broken()
      ensures !(RingsOk(Cells(), rings) && LogOk(rings.Keys, created, deleted))
    {
      var n :| n in nodes && if n.ptr == Null then n.next != null else n.ptr.id in deleted;
      assert Cells()[n] == n.Fields();
    }

    /** What giving up `n` deletes: its object, if no one else owns it. */
    ghost function Dropped(n: SmartPtr): seq<nat>
      reads this`nodes, nodes, n
    {
      if n.ptr != Null && Owners(n.ptr) == {n} then [n.ptr.id] else []
    }

    static function Ids(p: Pointer): set<nat> {
      if p == Null then {} else {p.id}
    }

    /** A node comes into existence around `p`, null or an object no owner has had. */
    method Create(p: Pointer) returns (n: SmartPtr)
      requires Valid() && (p != Null ==> p.id !in created)
      modifies this
      ensures Valid() && fresh(n) && nodes == old(nodes) + {n} && created == old(created) + Ids(p)
      ensures n.ptr == p && deleted == old(deleted)
    {
      hide RingsOk, LogOk, NewRings;
      ghost var h := Cells();
      n := new SmartPtr(Null);
      nodes := nodes + {n};
      assert Cells() == h[n := Cell(Null, NoLink)];
      AddOk(h, rings, n);
      n.Take(this, p);
    }

    /** When every owner has let go, every object ever owned has been deleted, each exactly once. */
    lemma AllReleasedAllDeleted()
      requires Valid() && forall n | n in nodes :: n.ptr == Null
      ensures forall o :: o in created <==> o in deleted
      ensures Distinct(deleted)
    {
      if o :| o in rings {
        OwnedHasOwner(Cells(), rings, o);
      }
    }

    /** An object with two owners is not dropped by one of them. */
    lemma NotLast(n: SmartPtr, m: SmartPtr)
      requires n in nodes && m in nodes && n != m && n.ptr == m.ptr
      ensures Dropped(n) == []
    {
      assert m in Owners(n.ptr);
    }

    lemma LoneOwner(n: SmartPtr)
      requires n in nodes && n.ptr != Null && Owners(n.ptr) == {n}
      ensures Dropped(n) == [n.ptr.id]
    {
    }

    lemma NullHasNoLink(n: SmartPtr)
      requires Valid() && n in nodes && n.ptr == Null
      ensures n.next == null
    {
      assert Cells()[n].next == NoLink;
    }

    lemma SecondOwner(n: SmartPtr, r: seq<SmartPtr>)
      requires n in nodes && n.ptr != Null && Ring(Cells(), r, n.ptr) && r[0] == n
      ensures if |r| == 1 then n.next == null else n.next == r[1]
    {
      assert Cells()[r[0]] == Cell(n.ptr, LinkAt(r, 0));
    }

    lemma LastOwnerIff(n: SmartPtr, r: seq<SmartPtr>)
      requires Valid() && n in nodes && n.ptr != Null
      requires Ring(Cells(), r, n.ptr) && r[0] == n && SameMembers(r, rings[n.ptr.id])
      ensures Owners(n.ptr) == (set m | m in r) && |Owners(n.ptr)| == |r|
      ensures Owners(n.ptr) == {n} <==> |r| == 1
      ensures n.next == null <==> |r| == 1
      ensures n.ptr.id in rings
    {
      assert Cells()[r[0]] == Cell(n.ptr, LinkAt(r, 0));
      RingIsOwners(Cells(), rings, n.ptr.id, r);
      DistinctCard(r);
      assert Owners(n.ptr) == set m | m in r;
      if |r| == 1 {
        assert Owners(n.ptr) == {n};
      } else {
        assert r[1] in Owners(n.ptr);
      }
    }

    /** The owners of what `p` points to. */
    ghost function Owners(p: Pointer): set<SmartPtr>
      reads this`nodes, nodes
    {
      set n | n in nodes && n.ptr == p
    }
  }

  class SmartPtr {
    var ptr: Pointer
    var next: SmartPtr?

    ghost function Fields(): Cell<SmartPtr>
      reads this
    {
      Cell(ptr, if next == null then NoLink else var n: SmartPtr := next; To(n))
    }

    constructor (p: Pointer)
      ensures ptr == p && next == null
    {
      ptr, next := p, null;
    }

    ghost function AfterIn(c: seq<SmartPtr>, i: nat): SmartPtr
      requires i < |c|
    {
      if i + 1 < |c| then c[i + 1] else this
    }

    /** Following links from this node passes through `c` and comes back. */
    ghost predicate LeadsBack(c: seq<SmartPtr>)
      reads this, c
    {
      && c != [] && next == c[0]
      && forall i | 0 <= i < |c| :: c[i].next == AfterIn(c, i) && (AfterIn(c, i) == this ==> i + 1 == |c|)
    }

    /** The walk to the node whose link leads back here. */
    method LastBefore(ghost c: seq<SmartPtr>) returns (entry: SmartPtr)
      requires LeadsBack(c)
      ensures entry == c[|c| - 1]
    {
      entry := next;
      ghost var k := 0;
      while entry.next != this
        invariant 0 <= k < |c| && entry == c[k] && entry.next == AfterIn(c, k)
        decreases |c| - k
      {
        entry := entry.next;
        k := k + 1;
        assert c[k].next == AfterIn(c, k);
      }
      assert c[k].next == AfterIn(c, k);
    }

    /** In a ring it ends at the owner linked to this one. */
    method Predecessor(ghost w: World, ghost r: seq<SmartPtr>) returns (entry: SmartPtr)
      requires this in w.nodes && ptr != Null && Ring(w.Cells(), r, ptr) && |r| > 1 && r[0] == this
      ensures entry == r[|r| - 1]
    {
      ghost var h := w.Cells();
      assert h[r[0]] == Cell(ptr, LinkAt(r, 0));
      ghost var c := r[1..];
      forall i | 0 <= i < |c| ensures c[i].next == AfterIn(c, i) {
        assert h[r[i + 1]] == Cell(ptr, LinkAt(r, i + 1));
      }
      entry := LastBefore(c);
    }

    /** The unlinking part of `release`, for a ring of at least two owners. */
    method Unlink(ghost w: World, ghost r: seq<SmartPtr>)
      requires this in w.nodes && ptr != Null && Ring(w.Cells(), r, ptr) && |r| > 1 && r[0] == this
      modifies w.nodes
      ensures w.Cells() == Leave(old(w.Cells()), r, old(ptr))
    {
      ghost var h := w.Cells();
      var entry := Predecessor(w, r);
      assert h[r[0]] == Cell(ptr, LinkAt(r, 0)) && h[r[|r| - 1]] == Cell(ptr, LinkAt(r, |r| - 1));
      if entry == entry.next.next {
        entry.next := null;
      } else {
        entry.next := next;
      }
      next := null;
      ptr := Null;
    }

    /** `release`: gives up ownership, deleting the object exactly when this is its last owner. */
    method Release(w: World) returns (ghost left: seq<SmartPtr>)
      requires w.Valid() && this in w.nodes
      modifies w`rings, w`deleted, w.nodes
      ensures w.Valid()
      ensures old(ptr) != Null ==>
                && Ring(old(w.Cells()), left, old(ptr)) && left[0] == this
                && w.rings == NewRings(old(w.rings), {old(ptr).id}, old(ptr).id, left[1..])
                && w.Cells() == Leave(old(w.Cells()), left, old(ptr))
      ensures ptr == Null && next == null
      ensures forall n | n in w.nodes && n != this :: n.ptr == old(n.ptr)
      ensures w.deleted == old(w.deleted) + old(w.Dropped(this))
    {
      hide RingsOk, Ring, LogOk, Leave, SameMembers, NewRings;
      if ptr == Null {
        w.NullHasNoLink(this);
        left := [];
        return;
      }
      ghost var h, o := w.Cells(), ptr.id;
      left := RingFrom(h, w.rings, this);
      w.LastOwnerIff(this, left);
      LeaveValid(h, w.rings, w.created, w.deleted, left, o);
      LeaveFields(h, left, ptr);
      if next != null {
        Unlink(w, left);
      } else {
        GiveUp(w, left);
      }
      w.rings := NewRings(w.rings, {o}, o, left[1..]);
      assert this.Fields() == w.Cells()[this];
    }

    /** The part of `release` for a lone owner: the object is deleted. */
    method GiveUp(w: World, ghost r: seq<SmartPtr>)
      requires this in w.nodes && ptr != Null && next == null && r == [this]
      modifies w`deleted, this
      ensures w.deleted == old(w.deleted) + [old(ptr).id]
      ensures w.Cells() == Leave(old(w.Cells()), r, old(ptr))
    {
      w.deleted := w.deleted + [ptr.id];
      ptr := Null;
    }

    /** Assignment from another owner; from itself it only gives the object up. */
    method Assign(w: World, other: SmartPtr)
      requires w.Valid() && this in w.nodes && other in w.nodes
      modifies w`rings, w`deleted, w.nodes
      ensures w.Valid()
      ensures ptr == if other == this then Null else old(other.ptr)
      ensures forall n | n in w.nodes && n != this :: n.ptr == old(n.ptr)
      ensures w.deleted == old(w.deleted) + old(w.Dropped(this))
    {
      hide RingsOk, Ring, LogOk, Leave, SameMembers, NewRings, Join;
      ghost var left := Release(w);
      if other.ptr != Null {
        ghost var h, o := w.Cells(), other.ptr.id;
        ghost var r := RingFrom(h, w.rings, other);
        w.LastOwnerIff(other, r);
        JoinValid(h, w.rings, w.created, w.deleted, r, this, o);
        JoinFields(h, r, this, Obj(o));
        LinkAfter(w, other, r);
        w.rings := NewRings(w.rings, {o}, o, [r[0], this] + r[1..]);
      }
    }

    /** The linking part of assignment: this node enters `other`'s ring right after it. */
    method LinkAfter(ghost w: World, other: SmartPtr, ghost r: seq<SmartPtr>)
      requires this in w.nodes && other in w.nodes && ptr == Null && other.ptr != Null
      requires Ring(w.Cells(), r, other.ptr) && r[0] == other
      modifies this, other
      ensures w.Cells() == Join(old(w.Cells()), r, this, old(other.ptr))
    {
      hide Ring;
      w.SecondOwner(other, r);
      ptr := other.ptr;
      var otherNext := other.next;
      other.next := this;
      next := if otherNext != null then otherNext else other;
    }

    /** `reset(p)`: gives up the old object and takes `p`, null or an object no owner has had. */
    method Reset(w: World, p: Pointer)
      requires w.Valid() && this in w.nodes && (p != Null ==> p.id !in w.created)
      modifies w`rings, w`deleted, w`created, w.nodes
      ensures w.Valid() && ptr == p && w.created == old(w.created) + World.Ids(p)
      ensures forall n | n in w.nodes && n != this :: n.ptr == old(n.ptr)
      ensures w.deleted == old(w.deleted) + old(w.Dropped(this))
    {
      hide RingsOk, Ring, LogOk, Leave, SameMembers, NewRings;
      ghost var left := Release(w);
      Take(w, p);
    }

    /** An owner of nothing takes a raw pointer. */
    method Take(ghost w: World, p: Pointer)
      requires w.Valid() && this in w.nodes && ptr == Null && (p != Null ==> p.id !in w.created)
      modifies w`rings, w`created, this
      ensures w.Valid() && ptr == p && w.created == old(w.created) + World.Ids(p)
      ensures next == null
    {
      hide RingsOk, LogOk, NewRings;
      w.NullHasNoLink(this);
      if p != Null {
        StartValid(w.Cells(), w.rings, w.created, w.deleted, this, p.id);
        w.rings := NewRings(w.rings, {}, p.id, [this]);
        w.created := w.created + World.Ids(p);
        ghost var h := w.Cells();
        ptr := p;
        assert w.Cells() == h[this := Cell(p, NoLink)];
      }
    }

    /** `use_count`: the number of owners of this object. */
    method UseCount(ghost w: World) returns (count: nat)
      requires w.Valid() && this in w.nodes
      ensures count == if ptr == Null then 0 else |w.Owners(ptr)|
    {
      if ptr == Null {
        return 0;
      }
      ghost var h := w.Cells();
      ghost var r := RingFrom(h, w.rings, this);
      w.LastOwnerIff(this, r);
      if next == null {
        return 1;
      }
      assert h[r[0]] == Cell(ptr, LinkAt(r, 0));
      count := 1;
      var entry := next;
      while entry != this
        invariant 1 <= count <= |r|
        invariant entry == if count < |r| then r[count] else this
        decreases |r| - count
      {
        assert entry in w.nodes && h[r[count]] == Cell(ptr, LinkAt(r, count));
        count := count + 1;
        entry := entry.next;
      }
    }

    /** The walk of `reset_all(T*)` that points every other owner at `p`. */
    method PointOthers(ghost w: World, p: Pointer, ghost r: seq<SmartPtr>)
      requires this in w.nodes && ptr != Null && Ring(w.Cells(), r, ptr) && r[0] == this && |r| > 1
      modifies w.nodes
      ensures w.Cells() == Retarget(old(w.Cells()), r[1..], p)
    {
      ghost var h, k := w.Cells(), 1;
      RingCell(h, r, ptr, 0);
      var entry := next;
      assert w.Cells() == Retarget(h, r[1..1], p);
      while entry != this
        invariant 1 <= k <= |r|
        invariant entry == if k < |r| then r[k] else this
        invariant w.Cells() == Retarget(h, r[1..k], p)
        decreases |r| - k
      {
        hide Ring, Retarget;
        RingCell(h, r, old(ptr), k);
        RetargetStep(h, r, k, p);
        entry.SetPtr(w, p);
        entry := entry.next;
        k := k + 1;
      }
      assert r[1..k] == r[1..];
    }

    /** An assignment to `ptr_` alone. */
    method SetPtr(ghost w: World, p: Pointer)
      requires this in w.nodes
      modifies this`ptr
      ensures ptr == p && w.Cells() == old(w.Cells())[this := Cell(p, old(w.Cells())[this].next)]
    {
      ptr := p;
    }

    /** `reset_all(p)` for a non-null `p`, before any link changes: the old object is deleted. */
    method Redirect(w: World, p: Pointer, ghost r: seq<SmartPtr>)
      requires this in w.nodes && p != Null
      requires if ptr == Null then next == null && r == [this] else Ring(w.Cells(), r, ptr) && r[0] == this
      modifies w`deleted, w.nodes
      ensures w.Cells() == Retarget(old(w.Cells()), r, p)
      ensures w.deleted == old(w.deleted) + if old(ptr) == Null then [] else [old(ptr).id]
    {
      ghost var h := w.Cells();
      if ptr != Null {
        RingCell(h, r, ptr, 0);
      }
      RetargetFirst(h, r, p);
      hide Ring, Retarget;
      var entry := next;
      if entry != null {
        PointOthers(w, p, r);
      } else {
        RetargetNone(h, p);
        assert r[1..] == [];
      }
      if ptr != Null {
        w.deleted := w.deleted + [ptr.id];
      }
      SetPtr(w, p);
    }

    /** `reset_all(p)` for null or an object no owner has had: every owner of the old object now owns
        `p`, and the old object is deleted once. */
    method ResetAll(w: World, p: Pointer)
      requires w.Valid() && this in w.nodes && (p != Null ==> p.id !in w.created)
      modifies w`rings, w`deleted, w`created, w.nodes
      ensures w.Valid() && w.created == old(w.created) + World.Ids(p)
      ensures forall n | n in w.nodes ::
                n.ptr == if n == this || (old(ptr) != Null && old(n.ptr) == old(ptr)) then p else old(n.ptr)
      ensures w.deleted == old(w.deleted) + if old(ptr) == Null then [] else [old(ptr).id]
    {
      hide RingsOk, Ring, LogOk, Leave, SameMembers, NewRings;
      if ptr == Null {
        Take(w, p);
      } else if p == Null {
        ReleaseOthers(w);
        w.LoneOwner(this);
        ghost var left := Release(w);
      } else {
        ReplaceObject(w, p);
      }
    }

    /** `reset_all(p)` where both the old object and `p` exist. */
    method ReplaceObject(w: World, p: Pointer)
      requires w.Valid() && this in w.nodes && ptr != Null && p != Null && p.id !in w.created
      modifies w`rings, w`deleted, w`created, w.nodes
      ensures w.Valid() && w.created == old(w.created) + {p.id}
      ensures forall n | n in w.nodes :: n.ptr == if old(n.ptr) == old(ptr) then p else old(n.ptr)
      ensures w.deleted == old(w.deleted) + [old(ptr).id]
    {
      hide RingsOk, Ring, LogOk, SameMembers, NewRings;
      ghost var h, o := w.Cells(), ptr.id;
      ghost var r := RingFrom(h, w.rings, this);
      w.LastOwnerIff(this, r);
      RetargetValid(h, w.rings, w.created, w.deleted, r, o, p.id);
      Redirect(w, p, r);
      w.rings := NewRings(w.rings, {o}, p.id, r);
      w.created := w.created + {p.id};
      forall n | n in w.nodes ensures n.ptr == if h[n].ptr == Obj(o) then p else h[n].ptr {
        assert n.Fields() == w.Cells()[n];
      }
    }

    /** The walk of `reset_all(nullptr)`: every other owner is reset in turn. */
    method ReleaseOthers(w: World)
      requires w.Valid() && this in w.nodes && ptr != Null
      modifies w`rings, w`deleted, w.nodes
      ensures w.Valid() && ptr == old(ptr) && w.deleted == old(w.deleted)
      ensures w.Owners(ptr) == {this}
      ensures forall n | n in w.nodes && n != this :: n.ptr == if old(n.ptr) == old(ptr) then Null else old(n.ptr)
    {
      hide RingsOk, Ring, LogOk, SameMembers;
      ghost var p := ptr;
      ghost var ring := RingFrom(w.Cells(), w.rings, this);
      w.LastOwnerIff(this, ring);
      w.SecondOwner(this, ring);
      var entry := next;
      if entry == null {
        assert forall n | n in w.nodes && n.ptr == p :: n in w.Owners(p);
        return;
      }
      while entry != this
        invariant w.Valid() && ptr == p && w.deleted == old(w.deleted)
        invariant ring != [] && ring[0] == this && p.id in w.rings
        invariant Ring(w.Cells(), ring, p) && SameMembers(ring, w.rings[p.id])
        invariant entry == if |ring| > 1 then ring[1] else this
        invariant forall n | n in w.nodes :: n.ptr == old(n.ptr) || (n.ptr == Null && old(n.ptr) == p)
        decreases |ring|
      {
        RingCell(w.Cells(), ring, p, 1);
        ring, entry := ReleaseNext(w, entry, ring);
      }
      w.LastOwnerIff(this, ring);
      if |ring| > 1 {
        RingMore(w.Cells(), ring, p);
      }
      assert forall n | n in w.nodes && n.ptr == p :: n in w.Owners(p);
    }

    /** One round of that walk. */
    method ReleaseNext(w: World, entry: SmartPtr, ghost ring: seq<SmartPtr>)
      returns (ghost ring': seq<SmartPtr>, entry': SmartPtr)
      requires w.Valid() && this in w.nodes && ptr != Null
      requires Ring(w.Cells(), ring, ptr) && ring[0] == this && |ring| > 1 && ring[1] == entry
      requires SameMembers(ring, w.rings[ptr.id])
      modifies w`rings, w`deleted, w.nodes
      ensures w.Valid() && ptr == old(ptr) && w.deleted == old(w.deleted)
      ensures 0 < |ring'| < |ring| && ring'[0] == this && ptr.id in w.rings
      ensures Ring(w.Cells(), ring', ptr) && SameMembers(ring', w.rings[ptr.id])
      ensures entry' == if |ring'| > 1 then ring'[1] else this
      ensures entry.ptr == Null && forall n | n in w.nodes && n != entry :: n.ptr == old(n.ptr)
    {
      hide RingsOk, LogOk, SameMembers, Leave;
      ghost var h, p := w.Cells(), ptr;
      RingCell(h, ring, p, 1);
      RingCell(h, ring, p, 0);
      w.NotLast(entry, this);
      entry' := entry.next;
      ghost var left := entry.Release(w);
      NextLeaves(h, ring, left, p);
      LeaveRing(h, left, p);
      ring' := [ring[0]] + ring[2..];
      RotateRing(w.Cells(), left[1..], |left| - 2, p);
      assert w.rings[p.id] == left[1..];
    }

    /** The two nodes own, or can own, different objects. */
    ghost predicate Mergeable(other: SmartPtr)
      reads this`ptr, other`ptr
    {
      this != other && other.ptr != Null && other.ptr != ptr
    }

    /** `reset_all(other)`: all owners of this node's object, and this node, become owners of `other`'s
        object; the two rings become one, and the old object is deleted once.  That is so exactly when
        the nodes are mergeable; otherwise null nodes are left linked, or an object is deleted that
        still has owners. */
    method ResetAllFrom(w: World, other: SmartPtr)
      requires w.Valid() && this in w.nodes && other in w.nodes
      modifies w`rings, w`deleted, w`created, w.nodes
      ensures old(Mergeable(other)) ==> w.Valid()
      ensures !old(Mergeable(other)) ==> w.Broken()
      ensures w.created == old(w.created)
      ensures old(Mergeable(other)) ==> forall n | n in w.nodes ::
                n.ptr == if n == this || (old(ptr) != Null && old(n.ptr) == old(ptr)) then old(other.ptr)
                         else old(n.ptr)
      ensures w.deleted == old(w.deleted) + if old(ptr) == Null then [] else [old(ptr).id]
      ensures old(Mergeable(other)) ==>
                |w.Owners(ptr)| == old(|w.Owners(other.ptr)|) + if old(ptr) == Null then 1 else old(|w.Owners(ptr)|)
    {
      hide RingsOk, Ring, LogOk, SameMembers, NewRings, Retarget, Splice, World.Valid, World.Broken;
      ghost var mine, theirs, p := if ptr == Null then {this} else w.Owners(ptr), w.Owners(other.ptr), other.ptr;
      if other.ptr == Null {
        MergeNull(w, other);
      } else if other.ptr == ptr {
        MergeSame(w, other);
      } else if ptr == Null {
        MergeFree(w, other);
        assert w.Owners(p) == theirs + mine;
        assert theirs !! mine;
      } else {
        MergeOwned(w, other);
        assert w.Owners(p) == theirs + mine;
        assert theirs !! mine;
      }
    }

    /** From a null node: this node is emptied, and then the two null nodes are linked. */
    method MergeNull(w: World, other: SmartPtr)
      requires w.Valid() && this in w.nodes && other in w.nodes && other.ptr == Null
      modifies w`rings, w`deleted, w`created, w.nodes
      ensures w.Broken() && w.created == old(w.created)
      ensures w.deleted == old(w.deleted) + if old(ptr) == Null then [] else [old(ptr).id]
    {
      hide RingsOk, LogOk;
      ResetAll(w, Null);
      w.NullHasNoLink(this);
      w.NullHasNoLink(other);
      // The link of `other` is null, so the node to be linked last is `other` itself.
      var otherNext := other;
      other.SetNext(w, this);
      var entry := next;
      if entry != null {
        entry := LastBefore([this]);
        entry.SetNext(w, otherNext);
      } else {
        SetNext(w, otherNext);
      }
    }

    /** From an owner of the same object: the object is deleted, and its owners stay. */
    method MergeSame(w: World, other: SmartPtr)
      requires w.Valid() && this in w.nodes && other in w.nodes && ptr == other.ptr != Null
      modifies w`deleted, w.nodes
      ensures w.Broken() && w.created == old(w.created)
      ensures w.deleted == old(w.deleted) + [old(ptr).id]
    {
      hide RingsOk, Ring, LogOk, SameMembers, Retarget;
      ghost var h := w.Cells();
      ghost var r := RingFrom(h, w.rings, this);
      w.LastOwnerIff(this, r);
      assert other in w.Owners(ptr);
      ghost var k :| 0 <= k < |r| && r[k] == other;
      RetargetRing(h, r, ptr, ptr);
      Redirect(w, other.ptr, r);
      RingCell(w.Cells(), r, Obj(old(ptr).id), 0);
      assert this.Fields() == w.Cells()[this];
      Relink(w, other, r, k);
      assert w.deleted[|w.deleted| - 1] == ptr.id;
    }

    /** The link surgery of `reset_all(other)` within one ring moves no pointer. */
    method Relink(ghost w: World, other: SmartPtr, ghost r: seq<SmartPtr>, ghost k: nat)
      requires this in w.nodes && other in w.nodes && ptr != Null
      requires Ring(w.Cells(), r, ptr) && r[0] == this && k < |r| && r[k] == other
      modifies w.nodes
      ensures ptr == old(ptr)
    {
      ghost var h := w.Cells();
      forall i | 0 <= i < |r| ensures r[i] in w.nodes && r[i].Fields() == Cell(ptr, LinkAt(r, i)) {
        RingCell(h, r, ptr, i);
      }
      assert Distinct(r);
      hide Ring;
      var otherNext := if other.next != null then other.next else other;
      other.next := this;
      ghost var c := if k == 0 then [this] else r[1..k + 1];
      var entry := LastBefore(c);
      entry.next := otherNext;
    }

    method MergeFree(w: World, other: SmartPtr)
      requires w.Valid() && this in w.nodes && other in w.nodes && ptr == Null && other.ptr != Null
      modifies w`rings, w`deleted, w.nodes
      ensures w.Valid() && w.deleted == old(w.deleted)
      ensures forall n | n in w.nodes :: n.ptr == if n == this then old(other.ptr) else old(n.ptr)
    {
      hide RingsOk, Ring, LogOk, SameMembers, NewRings, Retarget, Splice;
      ghost var h, q := w.Cells(), other.ptr.id;
      ghost var s := RingFrom(h, w.rings, other);
      w.LastOwnerIff(other, s);
      w.NullHasNoLink(this);
      MergeFreeValid(h, w.rings, w.created, w.deleted, this, s, q);
      SpliceFields(h, [this], s, Obj(q));
      Merge(w, other, [this], s);
      assert w.deleted == old(w.deleted);
      forall n | n in w.nodes ensures n.ptr == if n == this then Obj(q) else h[n].ptr {
        assert n.Fields() == w.Cells()[n];
      }
      w.SetRings(NewRings(w.rings, {q}, q, Spliced([this], s)));
    }

    method MergeOwned(w: World, other: SmartPtr)
      requires w.Valid() && this in w.nodes && other in w.nodes && ptr != Null && other.ptr != Null && ptr != other.ptr
      modifies w`rings, w`deleted, w.nodes
      ensures w.Valid() && w.deleted == old(w.deleted) + [old(ptr).id]
      ensures forall n | n in w.nodes :: n.ptr == if old(n.ptr) == old(ptr) then old(other.ptr) else old(n.ptr)
    {
      hide RingsOk, Ring, LogOk, SameMembers, NewRings, Retarget, Splice;
      ghost var h, q, o := w.Cells(), other.ptr.id, ptr.id;
      ghost var s := RingFrom(h, w.rings, other);
      w.LastOwnerIff(other, s);
      ghost var r := RingFrom(h, w.rings, this);
      w.LastOwnerIff(this, r);
      MergeOwnedValid(h, w.rings, w.created, w.deleted, r, o, s, q);
      SpliceFields(h, r, s, Obj(q));
      Merge(w, other, r, s);
      forall n | n in w.nodes ensures n.ptr == if h[n].ptr == Obj(o) then Obj(q) else h[n].ptr {
        assert n.Fields() == w.Cells()[n];
      }
      w.SetRings(NewRings(w.rings, {o, q}, q, Spliced(r, s)));
    }

    /** The pointer work of `reset_all(other)`. */
    method Merge(w: World, other: SmartPtr, ghost r: seq<SmartPtr>, ghost s: seq<SmartPtr>)
      requires this in w.nodes && other in w.nodes && other.ptr != Null
      requires if ptr == Null then next == null && r == [this] else Ring(w.Cells(), r, ptr) && r[0] == this
      requires r != [] && Ring(w.Cells(), s, other.ptr) && s[0] == other
      requires forall n | n in r :: n in w.nodes && n !in s
      modifies w`deleted, w.nodes
      ensures w.Cells() == Splice(old(w.Cells()), r, s, old(other.ptr))
      ensures w.deleted == old(w.deleted) + if old(ptr) == Null then [] else [old(ptr).id]
    {
      ghost var h, p := w.Cells(), other.ptr;
      RingCell(h, s, p, 0);
      assert other in s;
      SpliceSteps(h, r, s, p);
      RetargetRing(h, r, ptr, p);
      RetargetOther(h, r, other, p);
      hide Ring, Retarget, Splice;
      Redirect(w, other.ptr, r);
      assert other.Fields() == w.Cells()[other] == h[other];
      assert this.Fields() == w.Cells()[this];
      var otherNext := if other.next != null then other.next else other;
      ghost var h1 := w.Cells();
      other.SetNext(w, this);
      RingKept(h1, w.Cells(), r, p);
      CloseRing(w, otherNext, r);
    }

    /** The last link of the old ring is led on to `n`. */
    method CloseRing(ghost w: World, n: SmartPtr, ghost r: seq<SmartPtr>)
      requires this in w.nodes && ptr != Null && Ring(w.Cells(), r, ptr) && r[0] == this
      modifies w.nodes
      ensures w.Cells() == old(w.Cells())[r[|r| - 1] := Cell(old(ptr), To(n))]
    {
      w.SecondOwner(this, r);
      RingCell(w.Cells(), r, ptr, |r| - 1);
      var entry := next;
      if entry != null {
        entry := Predecessor(w, r);
        entry.SetNext(w, n);
      } else {
        SetNext(w, n);
      }
    }

    /** An assignment to `next_` alone. */
    method SetNext(ghost w: World, n: SmartPtr)
      requires this in w.nodes
      modifies this`next
      ensures next == n && w.Cells() == old(w.Cells())[this := Cell(ptr, To(n))]
    {
      next := n;
    }

    /** The destructor. */
    method Destroy(w: World)
      requires w.Valid() && this in w.nodes
      modifies w, w.nodes
      ensures w.Valid() && w.nodes == old(w.nodes) - {this} && w.created == old(w.created)
      ensures forall n | n in w.nodes :: n.ptr == old(n.ptr)
      ensures w.deleted == old(w.deleted) + old(w.Dropped(this))
    {
      hide RingsOk, LogOk, Leave, NewRings;
      ghost var left := Release(w);
      DropOk(w.Cells(), w.rings, this);
      ghost var h := w.Cells();
      w.nodes := w.nodes - {this};
      assert w.Cells() == h - {this};
    }
  }

  lemma StartValid(h: map<SmartPtr, Cell<SmartPtr>>, rings: map<nat, seq<SmartPtr>>, created: set<nat>,
      deleted: seq<nat>, n: SmartPtr, o: nat)
    requires RingsOk(h, rings) && LogOk(rings.Keys, created, deleted)
    requires o !in created && n in h && h[n].ptr == Null
    ensures RingsOk(h[n := Cell(Obj(o), NoLink)], NewRings(rings, {}, o, [n]))
    ensures LogOk(NewRings(rings, {}, o, [n]).Keys, created + {o}, deleted)
  {
    hide RingsOk;
    NewRingsKeys(rings, {}, o, [n]);
    StartOk(h, rings, n, o);
  }

  lemma RingCell(h: map<SmartPtr, Cell<SmartPtr>>, r: seq<SmartPtr>, p: Pointer, k: nat)
    requires Ring(h, r, p) && k < |r|
    ensures r[k] in h && h[r[k]] == Cell(p, LinkAt(r, k)) && Distinct(r)
  {
    assert h[r[k]] == Cell(p, LinkAt(r, k));
  }

  lemma RingMore(h: map<SmartPtr, Cell<SmartPtr>>, r: seq<SmartPtr>, p: Pointer)
    requires Ring(h, r, p) && |r| > 1
    ensures r[1] != r[0]
  {
  }

  lemma RetargetNone(h: map<SmartPtr, Cell<SmartPtr>>, p: Pointer)
    ensures Retarget(h, [], p) == h
  {
  }

  /** A chain keeps its links when it is pointed at another object. */
  lemma RetargetRing(h: map<SmartPtr, Cell<SmartPtr>>, r: seq<SmartPtr>, before: Pointer, p: Pointer)
    requires if before == Null then |r| == 1 && r[0] in h && h[r[0]].next == NoLink else Ring(h, r, before)
    ensures Ring(Retarget(h, r, p), r, p)
  {
    forall i | 0 <= i < |r| ensures r[i] in h && Retarget(h, r, p)[r[i]] == Cell(p, LinkAt(r, i)) {
      if before != Null {
        assert h[r[i]] == Cell(before, LinkAt(r, i));
      }
    }
  }

  lemma RetargetOther(h: map<SmartPtr, Cell<SmartPtr>>, r: seq<SmartPtr>, n: SmartPtr, p: Pointer)
    requires n in h && n !in r
    ensures Retarget(h, r, p).Keys == h.Keys && Retarget(h, r, p)[n] == h[n]
  {
  }

  lemma SpliceFields(h: map<SmartPtr, Cell<SmartPtr>>, r: seq<SmartPtr>, s: seq<SmartPtr>, p: Pointer)
    requires r != [] && Ring(h, s, p) && forall n | n in r :: n in h && n !in s
    ensures Splice(h, r, s, p).Keys == h.Keys
    ensures forall n | n in h :: Splice(h, r, s, p)[n].ptr == if n in r then p else h[n].ptr
  {
    assert h[s[0]] == Cell(p, LinkAt(s, 0));
    assert r[|r| - 1] in r && s[0] in s;
  }

  lemma MergeOwnedValid(h: map<SmartPtr, Cell<SmartPtr>>, rings: map<nat, seq<SmartPtr>>, created: set<nat>,
      deleted: seq<nat>, r: seq<SmartPtr>, o: nat, s: seq<SmartPtr>, q: nat)
    requires RingsOk(h, rings) && LogOk(rings.Keys, created, deleted)
    requires q in rings && Ring(h, s, Obj(q)) && SameMembers(s, rings[q])
    requires o in rings && o != q && Ring(h, r, Obj(o)) && SameMembers(r, rings[o])
    ensures RingsOk(Splice(h, r, s, Obj(q)), NewRings(rings, {o, q}, q, Spliced(r, s)))
    ensures LogOk(NewRings(rings, {o, q}, q, Spliced(r, s)).Keys, created, deleted + [o])
    ensures forall n | n in r :: n in h && n !in s
    ensures forall n | n in h :: n in r <==> h[n].ptr == Obj(o)
  {
    hide RingsOk, LogOk;
    SpliceOwnedOk(h, rings, r, o, s, q);
    RingIsOwners(h, rings, o, r);
    NewRingsKeys(rings, {o, q}, q, Spliced(r, s));
    LogDelete(rings.Keys, created, deleted, o);
    assert rings.Keys - {o, q} + {q} == rings.Keys - {o};
  }

  lemma MergeFreeValid(h: map<SmartPtr, Cell<SmartPtr>>, rings: map<nat, seq<SmartPtr>>, created: set<nat>,
      deleted: seq<nat>, n: SmartPtr, s: seq<SmartPtr>, q: nat)
    requires RingsOk(h, rings) && LogOk(rings.Keys, created, deleted)
    requires q in rings && Ring(h, s, Obj(q)) && SameMembers(s, rings[q])
    requires n in h && h[n].ptr == Null
    ensures RingsOk(Splice(h, [n], s, Obj(q)), NewRings(rings, {q}, q, Spliced([n], s)))
    ensures LogOk(NewRings(rings, {q}, q, Spliced([n], s)).Keys, created, deleted)
    ensures n !in s
  {
    hide RingsOk, LogOk;
    SpliceFreeOk(h, rings, n, s, q);
    NewRingsKeys(rings, {q}, q, Spliced([n], s));
    assert rings.Keys - {q} + {q} == rings.Keys;
  }

  lemma RetargetValid(h: map<SmartPtr, Cell<SmartPtr>>, rings: map<nat, seq<SmartPtr>>, created: set<nat>,
      deleted: seq<nat>, r: seq<SmartPtr>, o: nat, q: nat)
    requires RingsOk(h, rings) && LogOk(rings.Keys, created, deleted)
    requires o in rings && q !in created && Ring(h, r, Obj(o)) && SameMembers(r, rings[o])
    ensures RingsOk(Retarget(h, r, Obj(q)), NewRings(rings, {o}, q, r))
    ensures LogOk(NewRings(rings, {o}, q, r).Keys, created + {q}, deleted + [o])
    ensures forall n | n in h :: n in r <==> h[n].ptr == Obj(o)
  {
    hide RingsOk;
    RetargetOk(h, rings, r, o, q);
    RingIsOwners(h, rings, o, r);
    NewRingsKeys(rings, {o}, q, r);
  }

  lemma LeaveValid(h: map<SmartPtr, Cell<SmartPtr>>, rings: map<nat, seq<SmartPtr>>, created: set<nat>,
      deleted: seq<nat>, r: seq<SmartPtr>, o: nat)
    requires RingsOk(h, rings) && LogOk(rings.Keys, created, deleted)
    requires o in rings && Ring(h, r, Obj(o)) && SameMembers(r, rings[o])
    ensures RingsOk(Leave(h, r, Obj(o)), NewRings(rings, {o}, o, r[1..]))
    ensures LogOk(NewRings(rings, {o}, o, r[1..]).Keys, created, if |r| == 1 then deleted + [o] else deleted)
  {
    hide RingsOk, LogOk;
    LeaveOk(h, rings, r, o);
    LogDelete(rings.Keys, created, deleted, o);
    NewRingsKeys(rings, {o}, o, r[1..]);
    assert rings.Keys - {o} + {o} == rings.Keys;
  }

  lemma JoinValid(h: map<SmartPtr, Cell<SmartPtr>>, rings: map<nat, seq<SmartPtr>>, created: set<nat>,
      deleted: seq<nat>, r: seq<SmartPtr>, n: SmartPtr, o: nat)
    requires RingsOk(h, rings) && LogOk(rings.Keys, created, deleted)
    requires o in rings && Ring(h, r, Obj(o)) && SameMembers(r, rings[o])
    requires n in h && h[n].ptr == Null
    ensures RingsOk(Join(h, r, n, Obj(o)), NewRings(rings, {o}, o, [r[0], n] + r[1..]))
    ensures LogOk(NewRings(rings, {o}, o, [r[0], n] + r[1..]).Keys, created, deleted)
  {
    hide RingsOk, LogOk;
    JoinOk(h, rings, r, n, o);
    NewRingsKeys(rings, {o}, o, [r[0], n] + r[1..]);
    assert rings.Keys - {o} + {o} == rings.Keys;
  }

  lemma JoinFields(h: map<SmartPtr, Cell<SmartPtr>>, r: seq<SmartPtr>, n: SmartPtr, p: Pointer)
    requires Ring(h, r, p) && n in h
    ensures Join(h, r, n, p).Keys == h.Keys && Join(h, r, n, p)[n].ptr == p
    ensures forall m | m in h && m != n :: Join(h, r, n, p)[m].ptr == h[m].ptr
  {
    assert h[r[0]] == Cell(p, LinkAt(r, 0));
  }

  lemma NewRingsKeys<N>(rings: map<nat, seq<N>>, gone: set<nat>, o: nat, r: seq<N>)
    ensures NewRings(rings, gone, o, r).Keys == rings.Keys - gone + if r == [] then {} else {o}
  {
  }

  lemma LogDelete(owned: set<nat>, created: set<nat>, deleted: seq<nat>, o: nat)
    requires LogOk(owned, created, deleted) && o in owned
    ensures LogOk(owned - {o}, created, deleted + [o])
  {
    assert o !in deleted;
  }

  lemma LeaveFields(h: map<SmartPtr, Cell<SmartPtr>>, r: seq<SmartPtr>, p: Pointer)
    requires Ring(h, r, p)
    ensures Leave(h, r, p).Keys == h.Keys
    ensures Leave(h, r, p)[r[0]] == Cell(Null, NoLink)
    ensures forall n | n in h && n != r[0] :: Leave(h, r, p)[n].ptr == h[n].ptr
  {
    assert h[r[|r| - 1]] == Cell(p, LinkAt(r, |r| - 1));
  }
}
