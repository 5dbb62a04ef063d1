/** vm_unmap: removing a page prunes exactly the tables on its path that become empty,
    and undoes vm_map.  The emptiness tests read the tables, as is meant; module Identity says
    when the code as written, which reads them through their physical addresses, agrees. */
module Unmapping {
  import opened Words
  import opened Frames
  import opened Translation
  import opened Mapping

  // Clears the entry of position c and hands its frame to pmem_free.
  function Remove(s: State, c: Path): State
    requires c.Sub?
  {
    var t := TableAt(s, c.up);
    Release(Drop(s, t, c.idx), At(s.mem, t, c.idx).frame)
  }

  // The three free_page_table tests of vm_unmap, from the table at p upwards.
  ghost function Prune(s: State, p: Path): State
    decreases p
  {
    if p.Root? then s
    else if EmptyTable(s.mem, TableAt(s, p)) then Prune(Remove(s, p), p.up)
    else Prune(s, p.up)
  }

  ghost function Unmap(s: State, v: Path): (State, bool)
    requires v.Sub?
  {
    match Lookup(s, v.up)
    case Inner(t, _) =>
      if At(s.mem, t, v.idx).present then (Prune(Remove(s, v), v.up), true) else (s, false)
    case _ => (s, false)
  }

  // c is the only thing its parent table points to.
  ghost predicate Lone(s: State, c: Path)
    requires c.Sub?
  {
    forall j: nat :: j < WORDS_PER_FRAME && j != c.idx ==> Lookup(s, Sub(c.up, j)) == Miss
  }

  // Removing p takes q with it: q is p, or lies above p and held nothing but the way to p.
  ghost predicate Pruned(s: State, p: Path, q: Path) {
    p.Sub? && (q == p || (Lone(s, p) && Pruned(s, p.up, q)))
  }

  lemma PrunedSelf(s: State, p: Path)
    requires p.Sub?
    ensures Pruned(s, p, p)
  {
  }

  // The tables Prune frees when the one at p is empty, in the order they end up on the list.
  ghost function Stack(s: State, p: Path): seq<nat> {
    if p.Root? then []
    else (if Lone(s, p) then Stack(s, p.up) else []) + [TableAt(s, p)]
  }

  // Frames of the tree of u were in the same place in s, and pages kept their contents.
  ghost predicate Shrinks(s: State, u: State) {
    && (forall f: nat :: RoleOf(u, f).Node? ==> RoleOf(s, f) == RoleOf(u, f))
    && (forall f: nat, i: nat :: RoleOf(u, f).Node? && !IsTable(RoleOf(u, f)) ==> At(u.mem, f, i) == At(s.mem, f, i))
  }

  lemma ShrinksTransitive(s: State, u: State, w: State)
    requires Shrinks(s, u) && Shrinks(u, w)
    ensures Shrinks(s, w)
  {
  }

  ghost predicate CanRemove(s: State, c: Path) {
    && Inv(s) && InRange(c) && c.Sub? && Lookup(s, c.up).Inner?
    && var e := At(s.mem, TableAt(s, c.up), c.idx);
       e.present && !MapsLarge(c, e) && Removable(s, c, e.frame)
  }

  lemma RemoveInv(s: State, c: Path)
    requires CanRemove(s, c)
    ensures var f := At(s.mem, TableAt(s, c.up), c.idx).frame;
      var u := Remove(s, c);
      && Inv(u) && u.root == s.root && u.cfg == s.cfg && Shrinks(s, u)
      && u.free == if s.cfg.guard == AsWritten || At(s.mem, f, 0) == SERIAL then s.free else [f] + s.free
  {
    DropInv(s, c);
    DropKeeps(s, c);
    var t := TableAt(s, c.up);
    var f := At(s.mem, t, c.idx).frame;
    var d := Drop(s, t, c.idx);
    ReleaseInv(d, f);
    ReleaseSound(d, f);
  }

  lemma RemoveWalk(s: State, c: Path, q: Path)
    requires CanRemove(s, c) && InRange(q)
    ensures Lookup(Remove(s, c), q) == if q == c then Miss else Lookup(s, q)
  {
    DropInv(s, c);
    DropKeeps(s, c);
    DropWalk(s, c, q);
    var t := TableAt(s, c.up);
    var f := At(s.mem, t, c.idx).frame;
    var d := Drop(s, t, c.idx);
    ReleaseSound(d, f);
    WalkSame(d, Release(d, f).mem, q);
  }

  // Emptiness of the table at p, seen through the walk.
  lemma EmptyIsChildless(s: State, p: Path)
    requires Depth(p) < 4 && Lookup(s, p).Inner?
    ensures EmptyTable(s.mem, TableAt(s, p)) <==> forall j: nat :: j < WORDS_PER_FRAME ==> Lookup(s, Sub(p, j)) == Miss
  {
    forall j: nat | j < WORDS_PER_FRAME
      ensures Lookup(s, Sub(p, j)) == Miss <==> !At(s.mem, TableAt(s, p), j).present
    {
      assert Lookup(s, Sub(p, j)) == Step(Sub(p, j), At(s.mem, TableAt(s, p), j), Lookup(s, p).rights);
    }
  }

  lemma {:induction false} InnerAbove(s: State, p: Path)
    requires p.Sub? && Lookup(s, p).Inner?
    ensures Lookup(s, p.up).Inner?
    ensures var e := At(s.mem, TableAt(s, p.up), p.idx); e.present && !MapsLarge(p, e) && e.frame == TableAt(s, p)
  {
  }

  // Nothing is pruned above a table that still points somewhere.
  lemma {:induction false} PruneNothing(s: State, p: Path)
    requires Lookup(s, p).Inner? && (p.Root? || !EmptyTable(s.mem, TableAt(s, p)))
    requires InRange(p)
    ensures Prune(s, p) == s
  {
    if p.Sub? {
      InnerAbove(s, p);
      PruneNothing(s, p.up);
    }
  }

  // Removing c leaves the tables further up as lone, and as prunable, as they were.
  lemma {:induction false} PrunedFrame(s: State, u: State, c: Path, p: Path, q: Path)
    requires forall x: Path :: InRange(x) && x != c ==> Lookup(u, x) == Lookup(s, x)
    requires Depth(p) < Depth(c) && InRange(p)
    ensures Pruned(u, p, q) == Pruned(s, p, q)
    ensures Stack(u, p) == Stack(s, p)
  {
    if p.Sub? {
      forall j: nat | j < WORDS_PER_FRAME ensures Lookup(u, Sub(p.up, j)) == Lookup(s, Sub(p.up, j)) {
        assert Depth(Sub(p.up, j)) == Depth(p);
      }
      PrunedFrame(s, u, c, p.up, q);
    }
  }

  lemma RemoveTableOk(s: State, p: Path)
    requires Inv(s) && InRange(p) && p.Sub? && Lookup(s, p).Inner? && EmptyTable(s.mem, TableAt(s, p))
    ensures CanRemove(s, p) && At(s.mem, TableAt(s, p.up), p.idx).frame == TableAt(s, p)
    ensures Lookup(Remove(s, p), p.up).Inner?
    ensures At(s.mem, TableAt(s, p), 0) != SERIAL
    ensures !p.up.Root? ==> (EmptyTable(Remove(s, p).mem, TableAt(Remove(s, p), p.up)) <==> Lone(s, p))
  {
    InnerAbove(s, p);
    WalkRole(s, p);
    BelowDepth(p.up, p);
    RemoveWalk(s, p, p.up);
    var u := Remove(s, p);
    EmptyIsChildless(u, p.up);
    forall j: nat | j < WORDS_PER_FRAME
      ensures Lookup(u, Sub(p.up, j)) == if j == p.idx then Miss else Lookup(s, Sub(p.up, j))
    {
      RemoveWalk(s, p, Sub(p.up, j));
    }
  }

  // What one pruning step leaves to the next.
  lemma PruneStep(s: State, p: Path, q: Path)
    requires Inv(s) && InRange(p) && p.Sub? && Lookup(s, p).Inner? && EmptyTable(s.mem, TableAt(s, p))
    ensures var u := Remove(s, p);
      && Inv(u) && u.root == s.root && u.cfg == s.cfg && Shrinks(s, u)
      && u.free == (if s.cfg.guard == AsWritten then [] else [TableAt(s, p)]) + s.free
      && Lookup(u, p.up).Inner?
      && Pruned(u, p.up, q) == Pruned(s, p.up, q) && Stack(u, p.up) == Stack(s, p.up)
      && Prune(s, p) == Prune(u, p.up)
      && (p.up.Sub? && Lone(s, p) ==> EmptyTable(u.mem, TableAt(u, p.up)))
      && (p.up.Root? || !Lone(s, p) ==> Prune(u, p.up) == u)
  {
    RemoveTableOk(s, p);
    RemoveInv(s, p);
    var u := Remove(s, p);
    forall x: Path | InRange(x) && x != p ensures Lookup(u, x) == Lookup(s, x) {
      RemoveWalk(s, p, x);
    }
    PrunedFrame(s, u, p, p.up, q);
    if p.up.Root? || !Lone(s, p) {
      PruneNothing(u, p.up);
    }
  }

  lemma {:induction false} PruneInv(s: State, p: Path)
    requires Inv(s) && InRange(p) && Lookup(s, p).Inner? && EmptyTable(s.mem, TableAt(s, p))
    ensures var u := Prune(s, p);
      Inv(u) && u.root == s.root && u.cfg == s.cfg && Shrinks(s, u)
    decreases p
  {
    if p.Sub? {
      PruneStep(s, p, p);
      var u := Remove(s, p);
      if p.up.Sub? && Lone(s, p) {
        PruneInv(u, p.up);
        ShrinksTransitive(s, u, Prune(s, p));
      }
    }
  }

  lemma Associative(a: seq<nat>, b: seq<nat>, c: seq<nat>)
    ensures a + (b + c) == a + b + c
    ensures [] + c == c
  {
  }

  lemma StackStep(s: State, u: State, p: Path)
    requires p.Sub? && Stack(u, p.up) == Stack(s, p.up) && u.free == [TableAt(s, p)] + s.free
    ensures (if Lone(s, p) then Stack(u, p.up) else []) + u.free == Stack(s, p) + s.free
  {
    hide Lone;
    var a := if Lone(s, p) then Stack(s, p.up) else [];
    assert Stack(s, p) == a + [TableAt(s, p)];
    Associative(a, [TableAt(s, p)], s.free);
  }

  lemma {:induction false} PruneFree(s: State, p: Path)
    requires Inv(s) && InRange(p) && Lookup(s, p).Inner? && EmptyTable(s.mem, TableAt(s, p))
    ensures Prune(s, p).free == if s.cfg.guard == AsWritten then s.free else Stack(s, p) + s.free
    decreases p
  {
    if p.Sub? {
      PruneStep(s, p, p);
      var u := Remove(s, p);
      if s.cfg.guard == AsDocumented { StackStep(s, u, p); }
      if p.up.Sub? && Lone(s, p) {
        PruneFree(u, p.up);
      }
    }
  }

  lemma {:induction false} PruneWalk(s: State, p: Path, q: Path)
    requires Inv(s) && InRange(p) && InRange(q) && Lookup(s, p).Inner? && EmptyTable(s.mem, TableAt(s, p))
    ensures Lookup(Prune(s, p), q) == if Pruned(s, p, q) then Miss else Lookup(s, q)
    decreases p
  {
    if p.Sub? {
      PruneStep(s, p, q);
      RemoveTableOk(s, p);
      RemoveWalk(s, p, q);
      if p.up.Sub? && Lone(s, p) {
        PruneWalk(Remove(s, p), p.up, q);
      }
    }
  }

  // The frame mapped at v is recorded for v.
  predicate Owned(s: State, v: Path) {
    Lookup(s, v).Leaf? ==> RoleOf(s, Lookup(s, v).frame) == Node(v)
  }

  // The free list after vm_unmap.
  ghost function UnmapFree(s: State, v: Path): seq<nat>
    requires v.Sub? && Lookup(s, v).Leaf?
  {
    if s.cfg.guard == AsWritten then s.free
    else
      (if Lone(s, v) then Stack(s, v.up) else [])
      + (if At(s.mem, Lookup(s, v).frame, 0) == SERIAL then [] else [Lookup(s, v).frame]) + s.free
  }

  lemma UnmapStep(s: State, v: Path, q: Path)
    requires Inv(s) && IsPage(v) && SmallPath(s, v) && Owned(s, v) && Lookup(s, v).Leaf?
    ensures CanRemove(s, v) && At(s.mem, TableAt(s, v.up), v.idx).frame == Lookup(s, v).frame
    ensures var u := Remove(s, v);
      && Inv(u) && u.root == s.root && u.cfg == s.cfg && Shrinks(s, u)
      && Lookup(u, v.up).Inner?
      && (EmptyTable(u.mem, TableAt(u, v.up)) <==> Lone(s, v))
      && Pruned(u, v.up, q) == Pruned(s, v.up, q) && Stack(u, v.up) == Stack(s, v.up)
  {
    hide Walk, Inv, CanRemove, Remove, Shrinks, Pruned, Stack, EmptyTable;
    PageRemovable(s, v);
    RemoveInv(s, v);
    BelowDepth(v.up, v);
    RemoveWalk(s, v, v.up);
    RemoveWalk(s, v, v);
    var u := Remove(s, v);
    forall x: Path | InRange(x) && x != v ensures Lookup(u, x) == Lookup(s, x) {
      RemoveWalk(s, v, x);
    }
    PrunedFrame(s, u, v, v.up, q);
    EmptyIsChildless(u, v.up);
    assert forall j: nat :: j < WORDS_PER_FRAME && j != v.idx ==> Lookup(u, Sub(v.up, j)) == Lookup(s, Sub(v.up, j));
    assert Sub(v.up, v.idx) == v;
  }

  lemma PageRemovable(s: State, v: Path)
    requires Inv(s) && IsPage(v) && SmallPath(s, v) && Owned(s, v) && Lookup(s, v).Leaf?
    ensures CanRemove(s, v) && At(s.mem, TableAt(s, v.up), v.idx).frame == Lookup(s, v).frame
    ensures Lookup(s, v.up).Inner? && InRange(v.up) && Depth(v.up) == 3 && v.Sub?
  {
    hide Inv;
    SmallNotLeaf(s, v.up);
  }

  // vm_unmap fails exactly on an unmapped page, and otherwise takes away the page
  // and the tables that held nothing but the way to it.
  lemma UnmapWalk(s: State, v: Path, q: Path)
    requires Inv(s) && IsPage(v) && SmallPath(s, v) && Owned(s, v) && InRange(q)
    ensures var (u, ok) := Unmap(s, v);
      && (ok <==> Lookup(s, v).Leaf?) && (!ok ==> u == s)
      && Lookup(u, q) == if ok && Pruned(s, v, q) then Miss else Lookup(s, q)
  {
    SmallNotLeaf(s, v.up);
    if Lookup(s, v).Leaf? {
      UnmapStep(s, v, q);
      RemoveWalk(s, v, q);
      var u := Remove(s, v);
      if Lone(s, v) {
        PruneWalk(u, v.up, q);
      } else {
        PruneNothing(u, v.up);
      }
    }
  }

  // Among pages, vm_unmap touches the one it is given.
  lemma UnmapRemovesOnePage(s: State, v: Path, q: Path)
    requires Inv(s) && IsPage(v) && SmallPath(s, v) && Owned(s, v) && IsPage(q)
    ensures var (u, ok) := Unmap(s, v);
      && (ok <==> Lookup(s, v).Leaf?)
      && Lookup(u, q) == if q == v && ok then Miss else Lookup(s, q)
  {
    UnmapWalk(s, v, q);
    if Pruned(s, v, q) {
      PrunedIsAbove(s, v, q);
      BelowDepth(q, v);
    }
  }

  lemma UnmapInv(s: State, v: Path)
    requires Inv(s) && IsPage(v) && SmallPath(s, v) && Owned(s, v)
    ensures var (u, ok) := Unmap(s, v);
      && Inv(u) && u.root == s.root && u.cfg == s.cfg && Shrinks(s, u)
      && u.free == if Lookup(s, v).Leaf? then UnmapFree(s, v) else s.free
  {
    SmallNotLeaf(s, v.up);
    if Lookup(s, v).Leaf? {
      UnmapStep(s, v, v);
      RemoveInv(s, v);
      var u := Remove(s, v);
      if Lone(s, v) {
        PruneInv(u, v.up);
        PruneFree(u, v.up);
        ShrinksTransitive(s, u, Prune(u, v.up));
      } else {
        PruneNothing(u, v.up);
      }
      if s.cfg.guard == AsDocumented {
        UnmapFreeShape(s, u, v);
      }
    }
  }

  lemma UnmapFreeShape(s: State, u: State, v: Path)
    requires v.Sub? && Lookup(s, v).Leaf? && s.cfg.guard == AsDocumented && Stack(u, v.up) == Stack(s, v.up)
    requires u.free == if At(s.mem, Lookup(s, v).frame, 0) == SERIAL then s.free else [Lookup(s, v).frame] + s.free
    ensures (if Lone(s, v) then Stack(u, v.up) else []) + u.free == UnmapFree(s, v)
  {
    var a := if Lone(s, v) then Stack(s, v.up) else [];
    var b := if At(s.mem, Lookup(s, v).frame, 0) == SERIAL then [] else [Lookup(s, v).frame];
    Associative(a, b, s.free);
    assert u.free == b + s.free;
  }

  lemma {:induction false} PrunedIsAbove(s: State, p: Path, q: Path)
    requires Pruned(s, p, q)
    ensures Below(q, p) && q.Sub?
  {
    if q != p {
      PrunedIsAbove(s, p.up, q);
    }
  }

  // ---- vm_unmap after vm_map ----

  // The deepest position on the way to v where a walk still finds something.
  function Attach(s: State, v: Path): Path {
    if v.Root? || Lookup(s, v) != Miss then v else Attach(s, v.up)
  }

  // The table the new entry is attached to already pointed somewhere.
  ghost predicate Tidy(s: State, v: Path) {
    var a := Attach(s, v);
    a.Root? || exists j: nat :: j < WORDS_PER_FRAME && Lookup(s, Sub(a, j)) != Miss
  }

  // u is what vm_map made of s; w is u after the page, or other data, was written.
  ghost predicate MappedThen(s: State, v: Path, r: Rights, w: State) {
    && v.Sub?
    && var (u, ok) := Map(s, v, r);
    && ok && Inv(w) && SameTables(u, w.mem)
    && w == u.(mem := w.mem)
  }

  lemma MappedWalk(s: State, v: Path, r: Rights, w: State, q: Path)
    requires Inv(s) && IsPage(v) && SmallPath(s, v) && MappedThen(s, v, r, w) && InRange(q)
    ensures Lookup(w, q) == WalkAfterMap(s, v, r, q)
  {
    MapInv(s, v, r);
    MapWalk(s, v, r, q);
    WalkSame(Map(s, v, r).0, w.mem, q);
  }

  // What vm_map took off the list.
  lemma MappedFree(s: State, v: Path, r: Rights, w: State)
    requires Inv(s) && IsPage(v) && SmallPath(s, v) && MappedThen(s, v, r, w)
    ensures w.cfg == s.cfg && Missing(s, v) <= |s.free| && w.free == s.free[Missing(s, v)..]
  {
    hide Inv, Walk, Map, Missing;
    MapInv(s, v, r);
  }

  // A position created by vm_map is lone unless it hangs in a table that pointed elsewhere too.
  lemma CreatedIsLone(s: State, v: Path, r: Rights, w: State, c: Path)
    requires Inv(s) && IsPage(v) && SmallPath(s, v) && MappedThen(s, v, r, w)
    requires c.Sub? && Below(c, v) && InRange(c) && Lookup(s, c) == Miss
    ensures Lone(w, c) <==>
      Lookup(s, c.up) == Miss || forall j: nat :: j < WORDS_PER_FRAME ==> Lookup(s, Sub(c.up, j)) == Miss
  {
    forall j: nat | j < WORDS_PER_FRAME && j != c.idx ensures Lookup(w, Sub(c.up, j)) == Lookup(s, Sub(c.up, j)) {
      var x := Sub(c.up, j);
      MappedWalk(s, v, r, w, x);
      if Below(x, v) { BelowSame(x, c, v); }
      if x.up == v.up && Below(x, v.up) { BelowDepth(x, v.up); }
      BelowUp(x, v);
    }
    if Lookup(s, c.up) == Miss {
      forall j: nat | j < WORDS_PER_FRAME ensures Lookup(s, Sub(c.up, j)) == Miss {
        BelowSelf(c.up, j);
        WalkBelowMiss(s.mem, s.root, c.up, Sub(c.up, j));
      }
    } else {
      assert Sub(c.up, c.idx) == c;
    }
  }

  lemma BelowSelf(p: Path, j: nat)
    ensures Below(p, Sub(p, j))
  {
  }

  lemma BelowUp(x: Path, v: Path)
    requires v.Sub?
    ensures Below(x, v.up) ==> Below(x, v)
  {
  }

  lemma {:induction false} BelowSame(a: Path, b: Path, p: Path)
    requires Below(a, p) && Below(b, p) && Depth(a) == Depth(b)
    ensures a == b
  {
    BelowDepth(a, p);
    BelowDepth(b, p);
    if a != p && b != p {
      BelowSame(a, b, p.up);
    }
  }

  lemma {:induction false} AttachIs(s: State, v: Path, p: Path)
    requires p.Sub? && Below(p, v) && Depth(v) <= 4 && Lookup(s, p) == Miss && Lookup(s, p.up) != Miss
    ensures Attach(s, v) == p.up
  {
    WalkBelowMiss(s.mem, s.root, p, v);
    if v != p {
      AttachIs(s, v.up, p);
    }
  }

  // Unmapping takes back exactly the positions that mapping created ...
  lemma {:induction false} PrunedCreated(s: State, v: Path, r: Rights, w: State, p: Path, q: Path)
    requires Inv(s) && IsPage(v) && SmallPath(s, v) && MappedThen(s, v, r, w)
    requires p.Sub? && Below(p, v) && InRange(p) && Lookup(s, p) == Miss && Tidy(s, v)
    ensures Pruned(w, p, q) <==> Below(q, p) && Lookup(s, q) == Miss
  {
    CreatedIsLone(s, v, r, w, p);
    BelowTransitive(p.up, p, v);
    if Lookup(s, p.up) == Miss {
      PrunedCreated(s, v, r, w, p.up, q);
    } else {
      AttachIs(s, v, p);
      if q != p && Below(q, p.up) && Lookup(s, q) == Miss {
        WalkBelowMiss(s.mem, s.root, q, p.up);
      }
    }
  }

  // ... unless the table they hang in was empty before: then that table goes as well.
  lemma {:induction false} PrunedUntidy(s: State, v: Path, r: Rights, w: State, p: Path)
    requires Inv(s) && IsPage(v) && SmallPath(s, v) && MappedThen(s, v, r, w)
    requires p.Sub? && Below(p, v) && InRange(p) && Lookup(s, p) == Miss && !Tidy(s, v)
    ensures Pruned(w, p, Attach(s, v))
  {
    CreatedIsLone(s, v, r, w, p);
    BelowTransitive(p.up, p, v);
    if Lookup(s, p.up) == Miss {
      PrunedUntidy(s, v, r, w, p.up);
    } else {
      AttachIs(s, v, p);
    }
  }

  lemma CreatedTable(s: State, v: Path, r: Rights, w: State, p: Path)
    requires Inv(s) && IsPage(v) && SmallPath(s, v) && MappedThen(s, v, r, w)
    requires p.Sub? && Below(p, v) && p != v && InRange(p) && Lookup(s, p) == Miss
    ensures 0 < Missing(s, p) <= |s.free| && TableAt(w, p) == s.free[Missing(s, p) - 1]
    ensures Missing(s, p) == 1 + Missing(s, p.up)
  {
    hide Inv, Walk, MappedThen, SmallPath, Missing;
    MappedFree(s, v, r, w);
    MissingBelow(s, p, v);
    MissingAbove(s, p);
    MappedWalk(s, v, r, w, p);
    BelowParent(p, v);
  }

  lemma StackIs(w: State, p: Path, fs: seq<nat>, k: nat)
    requires p.Sub? && 0 < k <= |fs| && TableAt(w, p) == fs[k - 1]
    requires (if Lone(w, p) then Stack(w, p.up) else []) == fs[..k - 1]
    ensures Stack(w, p) == fs[..k]
  {
    assert fs[..k] == fs[..k - 1] + [fs[k - 1]];
  }

  lemma {:induction false} StackCreated(s: State, v: Path, r: Rights, w: State, p: Path)
    requires Inv(s) && IsPage(v) && SmallPath(s, v) && MappedThen(s, v, r, w)
    requires p.Sub? && Below(p, v) && p != v && InRange(p) && Lookup(s, p) == Miss && Tidy(s, v)
    ensures Missing(s, p) <= |s.free| && Stack(w, p) == s.free[..Missing(s, p)]
    decreases p, 1
  {
    CreatedTable(s, v, r, w, p);
    LoneStack(s, v, r, w, p);
    StackIs(w, p, s.free, Missing(s, p));
  }

  lemma {:induction false} LoneStack(s: State, v: Path, r: Rights, w: State, c: Path)
    requires Inv(s) && IsPage(v) && SmallPath(s, v) && MappedThen(s, v, r, w)
    requires c.Sub? && Below(c, v) && InRange(c) && Lookup(s, c) == Miss && Tidy(s, v)
    ensures Missing(s, c.up) <= |s.free|
    ensures (if Lone(w, c) then Stack(w, c.up) else []) == s.free[..Missing(s, c.up)]
    decreases c, 0
  {
    CreatedIsLone(s, v, r, w, c);
    BelowSelf(c.up, c.idx);
    BelowTransitive(c.up, c, v);
    BelowDepth(c, v);
    if Lookup(s, c.up) == Miss {
      StackCreated(s, v, r, w, c.up);
    } else {
      AttachIs(s, v, c);
      MissingAllPresent(s, c.up);
    }
  }

  lemma BelowParent(p: Path, v: Path)
    requires Below(p, v) && p != v
    ensures v.Sub? && Below(p, v.up)
  {
  }

  lemma {:induction false} InnerIsSmall(s: State, p: Path)
    requires Lookup(s, p).Inner?
    ensures SmallPath(s, p)
  {
    if p.Sub? {
      InnerAbove(s, p);
      InnerIsSmall(s, p.up);
    }
  }

  lemma MappedIsRemovable(s: State, v: Path, r: Rights, w: State)
    requires Inv(s) && IsPage(v) && SmallPath(s, v) && MappedThen(s, v, r, w)
    ensures SmallPath(w, v) && Owned(w, v) && Lookup(w, v).Leaf? && Lookup(s, v) == Miss
    ensures 0 < Missing(s, v) <= |s.free| && Lookup(w, v).frame == s.free[Missing(s, v) - 1]
  {
    hide Inv;
    MapInv(s, v, r);
    MappedWalk(s, v, r, w, v);
    MappedWalk(s, v, r, w, v.up);
    SmallNotLeaf(s, v.up);
    InnerIsSmall(w, v.up);
  }

  lemma {:induction false} AttachPresent(s: State, v: Path)
    requires InRange(v)
    ensures Lookup(s, Attach(s, v)) != Miss && InRange(Attach(s, v))
  {
    if v.Sub? && Lookup(s, v) == Miss {
      AttachPresent(s, v.up);
    }
  }

  lemma UndoWalk(s: State, v: Path, r: Rights, w: State, q: Path)
    requires Inv(s) && IsPage(v) && SmallPath(s, v) && MappedThen(s, v, r, w) && InRange(q)
    ensures Lookup(Unmap(w, v).0, q) == if Pruned(w, v, q) then Miss else WalkAfterMap(s, v, r, q)
  {
    MappedIsRemovable(s, v, r, w);
    UnmapWalk(w, v, q);
    MappedWalk(s, v, r, w, q);
  }

  lemma UndoPage(s: State, v: Path, r: Rights, w: State, q: Path)
    requires Inv(s) && IsPage(v) && SmallPath(s, v) && MappedThen(s, v, r, w) && IsPage(q)
    ensures Lookup(Unmap(w, v).0, q) == Lookup(s, q)
  {
    MappedIsRemovable(s, v, r, w);
    UndoWalk(s, v, r, w, q);
    if Below(q, v) { BelowDepth(q, v); }
    if Pruned(w, v, q) { PrunedIsAbove(w, v, q); }
    if Below(q, v.up) { BelowDepth(q, v.up); }
  }

  lemma UndoTables(s: State, v: Path, r: Rights, w: State)
    requires Inv(s) && IsPage(v) && SmallPath(s, v) && MappedThen(s, v, r, w)
    ensures (forall q: Path :: InRange(q) ==> Lookup(Unmap(w, v).0, q) == Lookup(s, q)) <==> Tidy(s, v)
  {
    MappedIsRemovable(s, v, r, w);
    var x := Unmap(w, v).0;
    if Tidy(s, v) {
      forall q: Path | InRange(q) ensures Lookup(x, q) == Lookup(s, q) {
        UndoWalk(s, v, r, w, q);
        PrunedCreated(s, v, r, w, v, q);
        BelowUp(q, v);
      }
    } else {
      PrunedUntidy(s, v, r, w, v);
      AttachPresent(s, v);
      UndoWalk(s, v, r, w, Attach(s, v));
    }
  }

  lemma UndoFree(s: State, v: Path, r: Rights, w: State)
    requires Inv(s) && IsPage(v) && SmallPath(s, v) && MappedThen(s, v, r, w) && Tidy(s, v)
    requires s.cfg.guard == AsDocumented
    ensures Lookup(w, v).Leaf? && 0 < Missing(s, v) <= |s.free|
    ensures UnmapFree(w, v) ==
      if At(w.mem, Lookup(w, v).frame, 0) == SERIAL then s.free[..Missing(s, v) - 1] + s.free[Missing(s, v)..]
      else s.free
  {
    hide Inv, Stack, UnmapFree, Lone, Walk, Missing, SmallPath, Owned, Tidy, MappedThen;
    MappedIsRemovable(s, v, r, w);
    MappedFree(s, v, r, w);
    MissingAbove(s, v);
    LoneStack(s, v, r, w, v);
    UnmapFreeIs(w, v, s.free, Missing(s, v));
  }

  lemma UnmapFreeIs(w: State, v: Path, fs: seq<nat>, m: nat)
    requires v.Sub? && Lookup(w, v).Leaf? && w.cfg.guard == AsDocumented && 0 < m <= |fs|
    requires Lookup(w, v).frame == fs[m - 1] && w.free == fs[m..]
    requires (if Lone(w, v) then Stack(w, v.up) else []) == fs[..m - 1]
    ensures UnmapFree(w, v) == if At(w.mem, fs[m - 1], 0) == SERIAL then fs[..m - 1] + fs[m..] else fs
  {
    var a := if Lone(w, v) then Stack(w, v.up) else [];
    var b := if At(w.mem, fs[m - 1], 0) == SERIAL then [] else [fs[m - 1]];
    assert UnmapFree(w, v) == a + b + w.free;
    Recombine(fs, m, a, b, w.free);
  }

  lemma Recombine(fs: seq<nat>, m: nat, a: seq<nat>, b: seq<nat>, rest: seq<nat>)
    requires 0 < m <= |fs| && a == fs[..m - 1] && rest == fs[m..]
    ensures b == [fs[m - 1]] ==> a + b + rest == fs
    ensures b == [] ==> a + b + rest == a + rest
  {
  }

  /** vm_unmap undoes vm_map.  Whatever was written to memory in between, every page is
      translated as before the pair of calls, and every table is where it was exactly when
      the table the mapping was attached to was the root or not empty. */
  lemma UnmapUndoesMap(s: State, v: Path, r: Rights, w: State)
    requires Inv(s) && IsPage(v) && SmallPath(s, v) && MappedThen(s, v, r, w)
    ensures var (x, ok) := Unmap(w, v);
      && ok && Inv(x)
      && (forall q: Path :: IsPage(q) ==> Lookup(x, q) == Lookup(s, q))
      && ((forall q: Path :: InRange(q) ==> Lookup(x, q) == Lookup(s, q)) <==> Tidy(s, v))
  {
    MappedIsRemovable(s, v, r, w);
    UnmapWalk(w, v, v);
    UnmapInv(w, v);
    UndoTables(s, v, r, w);
    forall q: Path | IsPage(q) ensures Lookup(Unmap(w, v).0, q) == Lookup(s, q) {
      UndoPage(s, v, r, w, q);
    }
  }

  // The tables pruned above p are freed with it.
  lemma {:induction false} PrunedFreed(w: State, p: Path, q: Path)
    requires Pruned(w, p, q) && q != p && q.Sub?
    ensures TableAt(w, q) in if Lone(w, p) then Stack(w, p.up) else []
  {
    if p.up != q {
      PrunedFreed(w, p.up, q);
    }
  }

  // If the table the mapping hung in was empty, it is on the free list afterwards.
  lemma UntidyFreed(s: State, v: Path, r: Rights, w: State)
    requires Inv(s) && IsPage(v) && SmallPath(s, v) && MappedThen(s, v, r, w) && !Tidy(s, v)
    requires s.cfg.guard == AsDocumented
    ensures Lookup(w, v).Leaf? && exists f :: f in UnmapFree(w, v) && f !in s.free
  {
    hide Inv, Walk, Lone, Stack, Pruned, MappedThen, Tidy;
    MappedFree(s, v, r, w);
    MappedIsRemovable(s, v, r, w);
    PrunedUntidy(s, v, r, w, v);
    var a := Attach(s, v);
    AttachedTable(s, v);
    PrunedIsAbove(w, v, a);
    PrunedFreed(w, v, a);
    MappedWalk(s, v, r, w, a);
    assert TableAt(w, a) == TableAt(s, a) && TableAt(w, a) in UnmapFree(w, v);
    NotFree(s, a);
  }

  lemma {:induction false} AttachedTable(s: State, v: Path)
    requires Inv(s) && InRange(v) && Depth(v) <= 4 && SmallPath(s, v) && Lookup(s, v) == Miss
    ensures var a := Attach(s, v);
      Lookup(s, a).Inner? && Below(a, v) && a != v && InRange(a) && Depth(a) < 4
  {
    hide Inv, Walk;
    if v.Root? {
      RootFacts(s);
    } else {
      SmallUp(s, v);
      SmallNotLeaf(s, v.up);
      if Lookup(s, v.up) == Miss {
        AttachedTable(s, v.up);
        BelowUp(Attach(s, v.up), v);
        BelowDepth(Attach(s, v.up), v.up);
      } else {
        BelowSelf(v.up, v.idx);
      }
    }
  }

  lemma NotFree(s: State, p: Path)
    requires Inv(s) && InRange(p) && Lookup(s, p).Inner?
    ensures TableAt(s, p) !in s.free
  {
    InvTable(s, p);
    assert RoleOf(s, TableAt(s, p)) != Free;
  }

  /** The documented pmem_free then also gives back the free list itself, in its order, if and
      only if the table the mapping hung in was the root or not empty and the first word of
      the page is not the mark by chance.  As written nothing comes back. */
  lemma UnmapReturnsFrames(s: State, v: Path, r: Rights, w: State)
    requires Inv(s) && IsPage(v) && SmallPath(s, v) && MappedThen(s, v, r, w)
    ensures Lookup(w, v).Leaf? && 0 < Missing(s, v) <= |s.free|
    ensures var x := Unmap(w, v).0;
      && (s.cfg.guard == AsDocumented ==>
            (x.free == s.free <==> Tidy(s, v) && At(w.mem, Lookup(w, v).frame, 0) != SERIAL))
      && (s.cfg.guard == AsWritten ==> x.free == s.free[Missing(s, v)..])
  {
    hide Inv, Walk, Unmap, UnmapFree, Tidy, Map, KeepsPages, Blank, Missing;
    MappedIsRemovable(s, v, r, w);
    MappedFree(s, v, r, w);
    UnmapInv(w, v);
    if s.cfg.guard == AsDocumented {
      if Tidy(s, v) {
        UndoFree(s, v, r, w);
        var m := Missing(s, v);
        assert |s.free[..m - 1] + s.free[m..]| < |s.free|;
      } else {
        UntidyFreed(s, v, r, w);
      }
    } else {
      UnmapFreeAsWritten(w, v);
    }
  }

  lemma UnmapFreeAsWritten(w: State, v: Path)
    requires v.Sub? && Lookup(w, v).Leaf? && w.cfg.guard == AsWritten
    ensures UnmapFree(w, v) == w.free
  {
  }
}
