/** Every word of memory after vm_map, vm_protect, vm_unmap and unmap_lower_half: which entries they
    write, and that nothing else in use changes, tables, pages and frames held by others alike. */
module Changes {
  import opened Words
  import opened Frames
  import opened Translation
  import opened Mapping
  import opened Unmapping
  import opened LowerHalf

  // ---- vm_map ----

  // Entry i of table f is the first one missing on the way to p.
  predicate Attaches(s: State, p: Path, f: nat, i: nat) {
    && p.Sub? && Lookup(s, p) == Miss
    && if Lookup(s, p.up) == Miss then Attaches(s, p.up, f, i) else f == TableAt(s, p.up) && i == p.idx
  }

  lemma {:induction false} GrowChanges(s: State, p: Path, f: nat, i: nat)
    requires Inv(s) && InRange(p) && Depth(p) < 4 && SmallPath(s, p)
    requires RoleOf(s, f) != Free && (f != 0 || i != 0) && !Attaches(s, p, f, i)
    ensures At(Grow(s, p).0.mem, f, i) == At(s.mem, f, i)
  {
    hide Inv, Walk, WellFormed, KeepsPages, Blank, MallocPage;
    if p.Sub? {
      SmallUp(s, p);
      GrowInv(s, p.up);
      MissingAbove(s, p);
      var (u, ok) := Grow(s, p.up);
      if Lookup(s, p) != Miss {
        GrowInv(s, p);
      } else {
        GrowChanges(s, p.up, f, i);
        if ok {
          NextEntry(s, u, p);
          InUse(s, f);
          TableStep(u, p.up, p.idx, FULL, f, i);
        }
      }
    }
  }

  // What malloc_page leaves of the other words.
  lemma TableStep(u: State, p: Path, i: nat, r: Rights, f: nat, j: nat)
    requires Inv(u) && InRange(Sub(p, i)) && Depth(p) < 4 && Lookup(u, p).Inner?
    requires !At(u.mem, TableAt(u, p), i).present && !MapsLarge(Sub(p, i), At(u.mem, TableAt(u, p), i))
    requires f !in u.free && (f != 0 || j != 0) && (f != TableAt(u, p) || j != i)
    ensures At(MallocPage(u, TableAt(u, p), i, r).0.mem, f, j) == At(u.mem, f, j)
  {
    hide Walk, MallocPage, Blank;
    InvTable(u, p);
    MallocPageKeeps(u, TableAt(u, p), i, r);
    assert u.free != [] ==> u.free[0] in u.free;
  }

  // A frame in use is on no part of the free list.
  lemma InUse(s: State, f: nat)
    requires Inv(s) && RoleOf(s, f) != Free
    ensures f !in s.free && forall k: nat :: k <= |s.free| ==> f !in s.free[k..]
  {
  }

  /** vm_map writes one entry, the first missing on the way to the page, and the frames it takes
      off the list; it changes no other word, be it of a table, a page or a frame held by others.
      (A failing allocation clears the first word of physical page 0.) */
  lemma MapChanges(s: State, v: Path, r: Rights, f: nat, i: nat)
    requires Inv(s) && IsPage(v) && v.Sub? && SmallPath(s, v)
    requires RoleOf(s, f) != Free && (f != 0 || i != 0) && !Attaches(s, v, f, i)
    ensures At(Map(s, v, r).0.mem, f, i) == At(s.mem, f, i)
  {
    hide Inv, Walk, WellFormed, KeepsPages, Blank, MallocPage, Grow;
    SmallUp(s, v);
    GrowInv(s, v.up);
    MissingAbove(s, v);
    var (u, ok) := Grow(s, v.up);
    if Lookup(s, v) == Miss {
      GrowChanges(s, v.up, f, i);
      if ok {
        NextEntry(s, u, v);
        InUse(s, f);
        TableStep(u, v.up, v.idx, r, f, i);
      }
    } else {
      MapInv(s, v, r);
    }
  }

  lemma {:induction false} AttachesTable(s: State, p: Path, f: nat, i: nat)
    requires Inv(s) && InRange(p) && Depth(p) <= 4 && SmallPath(s, p) && Attaches(s, p, f, i)
    ensures RoleOf(s, f).Node?
  {
    hide Inv, Walk;
    SmallUp(s, p);
    SmallNotLeaf(s, p.up);
    if Lookup(s, p.up) == Miss {
      AttachesTable(s, p.up, f, i);
    } else {
      InvTable(s, p.up);
    }
  }

  lemma MapKeepsHeld(s: State, v: Path, r: Rights)
    requires Inv(s) && IsPage(v) && v.Sub? && SmallPath(s, v)
    ensures KeepsHeld(s, Map(s, v, r).0)
  {
    hide Inv, Walk, Map, SmallPath;
    var u := Map(s, v, r).0;
    MapInv(s, v, r);
    forall f: nat | RoleOf(s, f) == Held ensures RoleOf(u, f) == Held && SameFrame(s, u, f) {
      forall i: nat | f != 0 || i != 0 ensures At(u.mem, f, i) == At(s.mem, f, i) {
        if Attaches(s, v, f, i) { AttachesTable(s, v, f, i); }
        MapChanges(s, v, r, f, i);
      }
    }
  }

  // ---- vm_protect ----

  /** vm_protect writes three bits of the page's own entry and nothing else. */
  lemma ProtectChanges(s: State, v: Path, r: Rights)
    requires Inv(s) && IsPage(v) && v.Sub? && SmallPath(s, v)
    ensures var (u, ok) := Protect(s, v, r);
      var t := TableAt(s, v.up);
      && u.root == s.root && u.cfg == s.cfg && u.freelist == s.freelist && u.free == s.free && u.roles == s.roles
      && (forall f: nat, i: nat :: !ok || f != t || i != v.idx ==> At(u.mem, f, i) == At(s.mem, f, i))
      && (ok ==>
            At(u.mem, t, v.idx)
              == At(s.mem, t, v.idx).(user := r.user, writable := r.writable, noExecute := !r.executable))
      && KeepsHeld(s, u)
  {
    hide Walk;
    SmallNotLeaf(s, v.up);
    SmallUp(s, v);
    if Lookup(s, v.up).Inner? { InvTable(s, v.up); }
  }

  // ---- vm_unmap ----

  // Frame f goes with the positions that unmapping p prunes.
  ghost predicate GoesWith(s: State, p: Path, f: nat) {
    RoleOf(s, f).Node? && Pruned(s, p, RoleOf(s, f).path)
  }

  // What is left of word i of frame f: an entry of a pruned position is no longer present.
  ghost function LeftOf(s: State, p: Path, f: nat, i: nat): Word {
    var w := At(s.mem, f, i);
    if IsTable(RoleOf(s, f)) && Pruned(s, p, Sub(RoleOf(s, f).path, i)) then w.(present := false) else w
  }

  lemma RemoveChanges(s: State, c: Path, f: nat, i: nat)
    requires CanRemove(s, c) && RoleOf(s, f) != Node(c) && i < WORDS_PER_FRAME
    ensures var u := Remove(s, c);
      && RoleOf(u, f) == RoleOf(s, f)
      && At(u.mem, f, i) ==
           if RoleOf(s, f) == Node(c.up) && i == c.idx then At(s.mem, f, i).(present := false) else At(s.mem, f, i)
  {
    hide Walk, Release;
    DropInv(s, c);
    DropKeeps(s, c);
    InvTable(s, c.up);
    var t := TableAt(s, c.up);
    var d := Drop(s, t, c.idx);
    ReleaseSound(d, At(s.mem, t, c.idx).frame);
    if RoleOf(s, f) == Node(c.up) { OneTable(s, f, c.up); }
    InstalledTable(s, t);
  }

  lemma InstalledTable(s: State, t: nat)
    requires Inv(s) && t < |s.mem|
    ensures |s.mem[t]| == WORDS_PER_FRAME
  {
  }

  // One frame is recorded for a position that holds a table.
  lemma OneTable(s: State, f: nat, p: Path)
    requires Inv(s) && RoleOf(s, f) == Node(p) && Depth(p) < 4
    ensures Lookup(s, p).Inner? && TableAt(s, p) == f
  {
    hide Walk;
    InvFrame(s, f);
  }

  lemma {:induction false} PruneChanges(s: State, p: Path, f: nat, i: nat)
    requires Inv(s) && InRange(p) && Lookup(s, p).Inner? && EmptyTable(s.mem, TableAt(s, p))
    requires !GoesWith(s, p, f) && i < WORDS_PER_FRAME
    ensures RoleOf(Prune(s, p), f) == RoleOf(s, f) && At(Prune(s, p).mem, f, i) == LeftOf(s, p, f, i)
    decreases p
  {
    hide Inv, Walk, EmptyTable, Remove, CanRemove, Lone, Shrinks, Stack;
    if p.Sub? {
      InvTable(s, p);
      RemoveTableOk(s, p);
      PruneStep(s, p, p);
      PrunedSelf(s, p);
      RemoveChanges(s, p, f, i);
      var u := Remove(s, p);
      if RoleOf(s, f).Node? {
        var q := RoleOf(s, f).path;
        PruneStep(s, p, q);
        PruneStep(s, p, Sub(q, i));
      }
      InnerAbove(s, p);
      if p.up.Sub? && Lone(s, p) {
        PruneChanges(u, p.up, f, i);
      } else {
        NotAbovePruned(s, p, f, i);
      }
    } else {
      NothingPruned(s, f, i);
    }
  }

  lemma NothingPruned(s: State, f: nat, i: nat)
    ensures LeftOf(s, Root, f, i) == At(s.mem, f, i)
  {
  }

  // When nothing more goes, the only entry cleared is that of p.
  lemma NotAbovePruned(s: State, p: Path, f: nat, i: nat)
    requires p.Sub? && (p.up.Root? || !Lone(s, p)) && Depth(p) <= 4
    ensures LeftOf(s, p, f, i) ==
      if RoleOf(s, f) == Node(p.up) && i == p.idx then At(s.mem, f, i).(present := false) else At(s.mem, f, i)
  {
    hide Lone;
    assert forall q: Path :: Pruned(s, p, q) <==> q == p;
    assert Depth(p) == Depth(p.up) + 1 && p == Sub(p.up, p.idx);
  }

  /** vm_unmap, testing the tables themselves, clears the present bit of the entries of the page
      and of the tables that go with it; their frames apart, no other word changes. */
  lemma UnmapChanges(s: State, v: Path, f: nat, i: nat)
    requires Inv(s) && IsPage(v) && v.Sub? && SmallPath(s, v) && Owned(s, v) && Lookup(s, v).Leaf?
    requires !GoesWith(s, v, f) && i < WORDS_PER_FRAME
    ensures var u := Unmap(s, v).0;
      RoleOf(u, f) == RoleOf(s, f) && At(u.mem, f, i) == LeftOf(s, v, f, i)
  {
    hide Inv, Walk, EmptyTable, Remove, CanRemove, Lone, Shrinks, Stack, Prune;
    UnmapStep(s, v, v);
    PageRemovable(s, v);
    UnmapIs(s, v);
    PrunedSelf(s, v);
    RemoveChanges(s, v, f, i);
    var u := Remove(s, v);
    if RoleOf(s, f).Node? {
      var q := RoleOf(s, f).path;
      UnmapStep(s, v, q);
      UnmapStep(s, v, Sub(q, i));
    }
    if Lone(s, v) {
      PruneChanges(u, v.up, f, i);
    } else {
      PruneNothing(u, v.up);
      NotAbovePruned(s, v, f, i);
    }
  }

  lemma UnmapIs(s: State, v: Path)
    requires CanRemove(s, v)
    ensures Unmap(s, v) == (Prune(Remove(s, v), v.up), true)
  {
    hide Prune, Remove;
  }

  lemma UnmapKeepsHeld(s: State, v: Path)
    requires Inv(s) && IsPage(v) && v.Sub? && SmallPath(s, v) && Owned(s, v)
    ensures KeepsHeld(s, Unmap(s, v).0)
  {
    hide Inv, Walk, Unmap, SmallPath, Owned;
    var u := Unmap(s, v).0;
    UnmapWalk(s, v, v);
    if Lookup(s, v).Leaf? {
      UnmapInv(s, v);
      forall f: nat | RoleOf(s, f) == Held ensures RoleOf(u, f) == Held && SameFrame(s, u, f) {
        UnmapChanges(s, v, f, 0);
        forall i: nat ensures At(u.mem, f, i) == At(s.mem, f, i) {
          if i < WORDS_PER_FRAME { UnmapChanges(s, v, f, i); } else { BeyondFrame(s, u, f, i); }
        }
      }
    }
  }

  lemma BeyondFrame(s: State, u: State, f: nat, i: nat)
    requires Inv(s) && Inv(u) && i >= WORDS_PER_FRAME
    ensures At(u.mem, f, i) == At(s.mem, f, i) == ZERO
  {
  }

  // ---- unmap_lower_half ----

  lemma EmptyEntryChanges(s: State, n: nat, f: nat, i: nat)
    requires Inv(s) && n < WORDS_PER_FRAME && f !in Block(s.mem, At(s.mem, s.root, n), 0)
    ensures var u := EmptyEntry(s, n);
      && (RoleOf(s, f) == Held ==> RoleOf(u, f) == Held)
      && At(u.mem, f, i) ==
           if f == s.root && i == n then At(s.mem, f, i).(present := false) else At(s.mem, f, i)
  {
    hide Inv, Walk, Tables, Block, ReleaseAll;
    if At(s.mem, s.root, n).present {
      DetachInv(s, n);
      BlockReleasable(s, n);
      ReleaseAllInv(Detach(s, n), Block(s.mem, At(s.mem, s.root, n), 0));
      DetachRoles(s, n, f);
      RootInstalled(s);
    }
  }

  lemma RootInstalled(s: State)
    requires Inv(s)
    ensures s.root < |s.mem| && |s.mem[s.root]| == WORDS_PER_FRAME
  {
    FreeFacts(s);
  }

  lemma {:induction false} EmptyEntriesChange(s: State, n: nat, f: nat, i: nat)
    requires Inv(s) && n <= 256 && f !in Tables(s.mem, s.root, 0, n)
    ensures var u := EmptyEntries(s, n);
      && (RoleOf(s, f) == Held ==> RoleOf(u, f) == Held)
      && At(u.mem, f, i) ==
           if f == s.root && i < n then At(s.mem, f, i).(present := false) else At(s.mem, f, i)
  {
    hide Inv, Walk, Tables, Block, EmptyEntry;
    if n > 0 {
      TablesStep(s.mem, s.root, 0, n);
      EmptyEntriesChange(s, n - 1, f, i);
      EmptyEntriesInv(s, n - 1);
      UntouchedBlock(s, EmptyEntries(s, n - 1), n - 1);
      EmptyEntryChanges(EmptyEntries(s, n - 1), n - 1, f, i);
    }
  }

  /** unmap_lower_half clears the present bits of the lower half of the root table; the tables it
      frees apart, no other word changes. */
  lemma LowerHalfChanges(s: State, f: nat, i: nat)
    requires Inv(s) && f !in LowerTables(s)
    ensures At(UnmapLowerHalf(s).mem, f, i) ==
      if f == s.root && i < 256 then At(s.mem, f, i).(present := false) else At(s.mem, f, i)
  {
    hide EmptyEntries, Tables, Walk;
    EmptyEntriesChange(s, 256, f, i);
  }

  lemma LowerHalfKeepsHeld(s: State)
    requires Inv(s)
    ensures KeepsHeld(s, UnmapLowerHalf(s))
  {
    hide EmptyEntries, Tables, Walk, Inv;
    var u := UnmapLowerHalf(s);
    RootRole(s);
    forall f: nat | RoleOf(s, f) == Held ensures RoleOf(u, f) == Held && SameFrame(s, u, f) {
      if f in LowerTables(s) { ListedTable(s, f); }
      EmptyEntriesChange(s, 256, f, 0);
      forall i: nat ensures At(u.mem, f, i) == At(s.mem, f, i) {
        EmptyEntriesChange(s, 256, f, i);
      }
    }
  }

  lemma {:induction false} PageStays(s: State, n: nat, f: nat)
    requires Inv(s) && n <= 256 && RoleOf(s, f).Node?
    requires RoleOf(s, f).path.Sub? && Top(RoleOf(s, f).path) >= 256
    ensures RoleOf(EmptyEntries(s, n), f) == RoleOf(s, f)
  {
    hide EmptyEntry, Tables, Block, Walk, Inv;
    if n > 0 {
      PageStays(s, n - 1, f);
      EmptyEntriesInv(s, n - 1);
      EmptyEntryInv(EmptyEntries(s, n - 1), n - 1);
      assert Untouched(EmptyEntries(s, n - 1), EmptyEntries(s, n), f, n - 1, n);
    }
  }

  // Frames of the upper half stay where they are recorded.
  lemma UpperPageStays(s: State, f: nat)
    requires Inv(s) && RoleOf(s, f).Node? && RoleOf(s, f).path.Sub? && !Lower(RoleOf(s, f).path)
    ensures RoleOf(UnmapLowerHalf(s), f) == RoleOf(s, f)
  {
    hide EmptyEntries, Inv;
    PageStays(s, 256, f);
  }

  lemma RootRole(s: State)
    requires Inv(s)
    ensures RoleOf(s, s.root).Node?
  {
  }
}
