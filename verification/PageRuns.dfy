/** The address space, or its user half, as a partial map from pages to (frame, rights):
    every run of vm_map, vm_unmap and vm_protect refines the same run on the map. */
module PageRuns {
  import opened Words
  import opened Frames
  import opened Translation
  import opened Mapping
  import opened Unmapping
  import opened LowerHalf
  import opened Changes

  /** Which part of the address space is meant: what vm_map built there is all there is. */
  datatype Scope = UserHalf | Everywhere

  predicate InScope(c: Scope, p: Path) {
    p.Sub? && (c == Everywhere || Lower(p))
  }

  predicate PageIn(c: Scope, v: Path) {
    IsPage(v) && InScope(c, v)
  }

  // ---- intermediate entries grant everything ----

  predicate PlainEntry(c: Scope, child: Path, e: Word) {
    && (InScope(c, child) && (Depth(child) == 2 || Depth(child) == 3) ==> !e.pageSize)
    && (InScope(c, child) && Depth(child) < 4 && e.present ==> EntryRights(e) == FULL)
  }

  ghost predicate PlainTree(s: State, c: Scope) {
    forall t: nat, i: nat :: IsTable(RoleOf(s, t)) && i < WORDS_PER_FRAME ==>
      PlainEntry(c, Sub(RoleOf(s, t).path, i), At(s.mem, t, i))
  }

  // Every page leads to the frame recorded for it.
  ghost predicate PagesOwned(s: State, c: Scope) {
    forall v: Path :: PageIn(c, v) ==> Owned(s, v)
  }

  lemma ScopeUp(c: Scope, p: Path)
    requires InScope(c, p) && p.up.Sub?
    ensures InScope(c, p.up)
  {
  }

  lemma {:induction false} PlainPath(s: State, c: Scope, p: Path)
    requires Inv(s) && PlainTree(s, c) && InScope(c, p) && InRange(p) && Depth(p) <= 4
    ensures SmallPath(s, p)
    ensures Depth(p) < 4 && Lookup(s, p).Inner? ==> Lookup(s, p).rights == FULL
  {
    hide Inv;
    if p.up.Sub? {
      ScopeUp(c, p);
      PlainPath(s, c, p.up);
    }
    if Lookup(s, p.up).Inner? {
      InvTable(s, p.up);
      var t := Lookup(s, p.up).table;
      assert PlainEntry(c, Sub(p.up, p.idx), At(s.mem, t, p.idx));
    }
  }

  lemma {:induction false} PlainPathRights(s: State, c: Scope, p: Path)
    requires Inv(s) && PlainTree(s, c) && (p.Root? || InScope(c, p)) && InRange(p) && Depth(p) < 4
    ensures PathRights(s, p) == FULL
  {
    hide Inv, PlainTree;
    if p.Sub? {
      PlainPath(s, c, p);
      SmallNotLeaf(s, p);
      if p.up.Sub? { ScopeUp(c, p); }
      PlainPathRights(s, c, p.up);
      MissingAbove(s, p);
    }
  }

  /** The effective rights of a page are its own flags. */
  lemma LeafRights(s: State, c: Scope, v: Path)
    requires Inv(s) && PlainTree(s, c) && PageIn(c, v) && Lookup(s, v).Leaf?
    ensures Lookup(s, v.up).Inner?
    ensures var e := At(s.mem, TableAt(s, v.up), v.idx);
      Lookup(s, v).rights == Rights(e.user, e.writable, !e.noExecute)
  {
    hide Inv, PlainTree;
    PlainPath(s, c, v);
    ScopeUp(c, v);
    PlainPath(s, c, v.up);
    SmallNotLeaf(s, v.up);
  }

  lemma MallocPagePlain(s: State, c: Scope, t: nat, i: nat, r: Rights, p: Path)
    requires Inv(s) && PlainTree(s, c) && InRange(Sub(p, i)) && Depth(p) < 4
    requires !At(s.mem, t, i).present && !MapsLarge(Sub(p, i), At(s.mem, t, i))
    requires Lookup(s, p).Inner? && Lookup(s, p).table == t
    requires InScope(c, Sub(p, i)) && Depth(Sub(p, i)) < 4 ==> r == FULL
    ensures PlainTree(MallocPage(s, t, i, r).0, c)
  {
    hide Inv, WellFormed, MallocPage, Walk, Blank;
    InvTable(s, p);
    InvParts(s);
    MallocPageKeeps(s, t, i, r);
    var u := MallocPage(s, t, i, r).0;
    assert PlainEntry(c, Sub(p, i), At(s.mem, t, i));
    forall x: nat, j: nat | IsTable(RoleOf(u, x)) && j < WORDS_PER_FRAME
      ensures PlainEntry(c, Sub(RoleOf(u, x).path, j), At(u.mem, x, j))
    {
      if RoleOf(u, x) == RoleOf(s, x) {
        assert PlainEntry(c, Sub(RoleOf(s, x).path, j), At(s.mem, x, j));
      }
    }
  }

  lemma {:induction false} GrowPlain(s: State, c: Scope, p: Path)
    requires Inv(s) && PlainTree(s, c) && InRange(p) && Depth(p) < 4 && SmallPath(s, p)
    ensures PlainTree(Grow(s, p).0, c)
  {
    hide Inv, PlainTree, Walk, KeepsPages;
    if p.Sub? {
      SmallUp(s, p);
      GrowPlain(s, c, p.up);
      GrowInv(s, p.up);
      var (u, ok) := Grow(s, p.up);
      if ok && !At(u.mem, TableAt(u, p.up), p.idx).present {
        NextEntry(s, u, p);
        MallocPagePlain(u, c, TableAt(u, p.up), p.idx, FULL, p.up);
      }
    }
  }

  lemma MapPlain(s: State, c: Scope, v: Path, r: Rights)
    requires Inv(s) && PlainTree(s, c) && IsPage(v) && SmallPath(s, v)
    ensures PlainTree(Map(s, v, r).0, c)
  {
    hide Inv, PlainTree, Walk, KeepsPages, Grow;
    SmallUp(s, v);
    GrowPlain(s, c, v.up);
    GrowInv(s, v.up);
    var (u, ok) := Grow(s, v.up);
    if ok && !At(u.mem, TableAt(u, v.up), v.idx).present {
      NextEntry(s, u, v);
      MallocPagePlain(u, c, TableAt(u, v.up), v.idx, r, v.up);
    }
  }

  lemma ProtectPlain(s: State, c: Scope, v: Path, r: Rights)
    requires Inv(s) && PlainTree(s, c) && IsPage(v) && SmallPath(s, v)
    ensures PlainTree(Protect(s, v, r).0, c)
  {
    SmallNotLeaf(s, v.up);
    var u := Protect(s, v, r).0;
    if Lookup(s, v.up).Inner? { InvTable(s, v.up); }
    hide Inv, Walk;
    forall x: nat, j: nat | IsTable(RoleOf(u, x)) && j < WORDS_PER_FRAME
      ensures PlainEntry(c, Sub(RoleOf(u, x).path, j), At(u.mem, x, j))
    {
      assert PlainEntry(c, Sub(RoleOf(s, x).path, j), At(s.mem, x, j));
    }
  }

  // Removing position r leaves the frames of all other positions where they were recorded.
  lemma RemoveEntries(s: State, r: Path)
    requires CanRemove(s, r)
    ensures var u := Remove(s, r);
      && (forall g: nat :: RoleOf(s, g).Node? && RoleOf(s, g) != Node(r) ==> RoleOf(u, g) == RoleOf(s, g))
      && (forall g: nat :: RoleOf(u, g).Node? ==> RoleOf(u, g) == RoleOf(s, g))
      && (forall x: nat, j: nat :: IsTable(RoleOf(u, x)) ==>
            At(u.mem, x, j) == At(s.mem, x, j) || At(u.mem, x, j) == At(s.mem, x, j).(present := false))
  {
    DropInv(s, r);
    DropKeeps(s, r);
    var t := TableAt(s, r.up);
    var d := Drop(s, t, r.idx);
    ReleaseSound(d, At(s.mem, t, r.idx).frame);
  }

  lemma RemovePlain(s: State, c: Scope, r: Path)
    requires CanRemove(s, r) && PlainTree(s, c) && PagesOwned(s, c)
    ensures PlainTree(Remove(s, r), c) && PagesOwned(Remove(s, r), c)
  {
    RemoveEntries(s, r);
    hide Inv, CanRemove, Remove, Walk;
    var u := Remove(s, r);
    forall x: nat, j: nat | IsTable(RoleOf(u, x)) && j < WORDS_PER_FRAME
      ensures PlainEntry(c, Sub(RoleOf(u, x).path, j), At(u.mem, x, j))
    {
      assert PlainEntry(c, Sub(RoleOf(s, x).path, j), At(s.mem, x, j));
    }
    forall v: Path | PageIn(c, v) ensures Owned(u, v) {
      RemoveWalk(s, r, v);
      assert Owned(s, v);
    }
  }

  lemma {:induction false} PrunePlain(s: State, c: Scope, p: Path)
    requires Inv(s) && PlainTree(s, c) && PagesOwned(s, c)
    requires InRange(p) && Lookup(s, p).Inner? && EmptyTable(s.mem, TableAt(s, p))
    ensures PlainTree(Prune(s, p), c) && PagesOwned(Prune(s, p), c)
    decreases p
  {
    hide Inv, PlainTree, PagesOwned, Remove, Lone, Shrinks;
    if p.Sub? {
      PruneStep(s, p, p);
      RemoveTableOk(s, p);
      RemovePlain(s, c, p);
      if p.up.Sub? && Lone(s, p) {
        PrunePlain(Remove(s, p), c, p.up);
      }
    }
  }

  lemma UnmapPlain(s: State, c: Scope, v: Path)
    requires Inv(s) && PlainTree(s, c) && PagesOwned(s, c) && IsPage(v) && SmallPath(s, v) && Owned(s, v)
    ensures PlainTree(Unmap(s, v).0, c) && PagesOwned(Unmap(s, v).0, c)
  {
    hide Inv, PlainTree, PagesOwned, Remove, Lone, Shrinks, Prune;
    SmallNotLeaf(s, v.up);
    if Lookup(s, v).Leaf? {
      UnmapStep(s, v, v);
      RemovePlain(s, c, v);
      var u := Remove(s, v);
      if Lone(s, v) { PrunePlain(u, c, v.up); } else { PruneNothing(u, v.up); }
    }
  }

  lemma MapOwned(s: State, c: Scope, v: Path, r: Rights)
    requires Inv(s) && PagesOwned(s, c) && IsPage(v) && SmallPath(s, v)
    ensures PagesOwned(Map(s, v, r).0, c)
  {
    hide Inv, Map, Walk;
    var (u, ok) := Map(s, v, r);
    MapInsertsOnePage(s, v, r, v);
    forall q: Path | PageIn(c, q) ensures Owned(u, q) {
      MapInsertsOnePage(s, v, r, q);
      assert Owned(s, q);
    }
  }

  lemma ProtectOwned(s: State, c: Scope, v: Path, r: Rights)
    requires Inv(s) && PagesOwned(s, c) && IsPage(v) && SmallPath(s, v)
    ensures PagesOwned(Protect(s, v, r).0, c)
  {
    hide Inv, Protect, Walk;
    var u := Protect(s, v, r).0;
    ProtectInv(s, v, r);
    forall q: Path | PageIn(c, q) ensures Owned(u, q) {
      ProtectWalk(s, v, r, q);
      assert Owned(s, q);
    }
  }

  // ---- where runs start ----

  // After unmap_lower_half there is nothing left in the user half.
  lemma LowerHalfPlain(s: State)
    requires Inv(s)
    ensures PlainTree(UnmapLowerHalf(s), UserHalf) && PagesOwned(UnmapLowerHalf(s), UserHalf)
  {
    hide UnmapLowerHalf;
    var u := UnmapLowerHalf(s);
    LowerHalfUnmapped(s, Root);
    forall x: nat, j: nat | IsTable(RoleOf(u, x)) && j < WORDS_PER_FRAME
      ensures PlainEntry(UserHalf, Sub(RoleOf(u, x).path, j), At(u.mem, x, j))
    {
      var p := RoleOf(u, x).path;
      LowerHalfUnmapped(s, p);
      LowerHalfUnmapped(s, Sub(p, j));
      assert Found(u, RoleOf(u, x).path, x);
    }
    forall v: Path | PageIn(UserHalf, v) ensures Owned(u, v) {
      LowerHalfUnmapped(s, v);
    }
  }

  // Nothing is mapped anywhere: the only table is the root.
  ghost predicate NothingMapped(s: State) {
    forall q: Path :: q.Sub? && InRange(q) ==> Lookup(s, q) == Miss
  }

  lemma BlankPlain(s: State)
    requires Inv(s) && NothingMapped(s)
    ensures PlainTree(s, Everywhere) && PagesOwned(s, Everywhere)
  {
    forall x: nat, j: nat | IsTable(RoleOf(s, x)) && j < WORDS_PER_FRAME
      ensures PlainEntry(Everywhere, Sub(RoleOf(s, x).path, j), At(s.mem, x, j))
    {
      var p := RoleOf(s, x).path;
      InvFrame(s, x);
      assert p.Root?;
      assert Lookup(s, Sub(p, j)) == Miss;
    }
  }

  // ---- the partial map ----

  datatype PageOp = MapOp(v: Path, r: Rights) | UnmapOp(v: Path) | ProtectOp(v: Path, r: Rights)

  // What the map records for a page: its frame and rights, as the walk reports them.
  type PageMap = map<Path, Hit>

  ghost predicate Refines(s: State, c: Scope, a: PageMap) {
    && (forall v :: v in a ==> PageIn(c, v) && a[v].Leaf?)
    && (forall v :: PageIn(c, v) ==> Lookup(s, v) == if v in a then a[v] else Miss)
  }

  // Different pages of the map lie in different frames.
  ghost predicate FramesApart(a: PageMap) {
    forall v, w :: v in a && w in a && v != w && a[v].Leaf? && a[w].Leaf? ==> a[v].frame != a[w].frame
  }

  ghost function Exec(s: State, op: PageOp): (State, bool)
    requires op.v.Sub?
  {
    match op
    case MapOp(v, r) => Map(s, v, r)
    case UnmapOp(v) => Unmap(s, v)
    case ProtectOp(v, r) => Protect(s, v, r)
  }

  // The same operation on the map; the state only says which frame comes next, and whether there is one.
  function OnMap(s: State, a: PageMap, op: PageOp): PageMap {
    match op
    case MapOp(v, r) =>
      if v in a || !(0 < Missing(s, v) <= |s.free|) then a else a[v := Leaf(s.free[Missing(s, v) - 1], r)]
    case UnmapOp(v) => a - {v}
    case ProtectOp(v, r) => if v in a && a[v].Leaf? then a[v := Leaf(a[v].frame, r)] else a
  }

  // Page w is where it was, with the bytes it had.
  ghost predicate SamePage(s: State, t: State, a: PageMap, b: PageMap, w: Path) {
    && w in a && w in b && a[w].Leaf? && b[w].Leaf? && a[w].frame == b[w].frame
    && forall i: nat :: At(t.mem, b[w].frame, i) == At(s.mem, a[w].frame, i)
  }

  // Pages that were mapped and still are keep frame and contents; a new page is blank.
  ghost predicate DataKept(s: State, t: State, a: PageMap, b: PageMap) {
    forall w :: w in b && b[w].Leaf? ==>
      if w in a then SamePage(s, t, a, b, w) else Blank(t.mem, b[w].frame)
  }

  // What every operation keeps.
  ghost predicate Sound(s: State, c: Scope, a: PageMap) {
    Inv(s) && PlainTree(s, c) && PagesOwned(s, c) && Refines(s, c, a)
  }

  lemma RefinesApart(s: State, c: Scope, a: PageMap)
    requires PagesOwned(s, c) && Refines(s, c, a)
    ensures FramesApart(a)
    ensures forall v :: v in a ==> a[v].Leaf? && RoleOf(s, a[v].frame) == Node(v)
  {
    hide Walk;
    forall v | v in a ensures RoleOf(s, a[v].frame) == Node(v) {
      assert Owned(s, v);
    }
  }

  // Pages hold their contents across an operation that keeps pages.
  lemma KeptData(s: State, t: State, a: PageMap, w: Path)
    requires KeepsPages(s, t) && w in a && a[w].Leaf? && RoleOf(s, a[w].frame) == Node(w) && Depth(w) == 4
    ensures forall i: nat :: At(t.mem, a[w].frame, i) == At(s.mem, a[w].frame, i)
  {
  }

  lemma MapRefines(s: State, c: Scope, a: PageMap, v: Path, r: Rights)
    requires Sound(s, c, a) && PageIn(c, v)
    ensures var (t, ok) := Map(s, v, r);
      var b := OnMap(s, a, MapOp(v, r));
      && Refines(t, c, b) && (ok <==> v !in a && Missing(s, v) <= |s.free|) && DataKept(s, t, a, b)
  {
    hide Inv, PlainTree, Map, Walk, KeepsPages, PathRights, Missing, SmallPath, Blank;
    PlainPath(s, c, v);
    MapInv(s, v, r);
    ScopeUp(c, v);
    PlainPathRights(s, c, v.up);
    MissingAbove(s, v);
    var (t, ok) := Map(s, v, r);
    var b := OnMap(s, a, MapOp(v, r));
    forall q | PageIn(c, q) ensures Lookup(t, q) == if q in b then b[q] else Miss {
      MapWalk(s, v, r, q);
      if Below(q, v.up) { BelowDepth(q, v.up); }
    }
    RefinesApart(s, c, a);
    forall w | w in a ensures SamePage(s, t, a, b, w) { KeptData(s, t, a, w); }
  }

  lemma ProtectRefines(s: State, c: Scope, a: PageMap, v: Path, r: Rights)
    requires Sound(s, c, a) && PageIn(c, v)
    ensures var (t, ok) := Protect(s, v, r);
      var b := OnMap(s, a, ProtectOp(v, r));
      && Refines(t, c, b) && (ok <==> v in a) && DataKept(s, t, a, b)
  {
    hide Inv, PlainTree, Protect, Walk, KeepsPages, PathRights, SmallPath;
    PlainPath(s, c, v);
    ProtectInv(s, v, r);
    ScopeUp(c, v);
    PlainPathRights(s, c, v.up);
    var (t, ok) := Protect(s, v, r);
    var b := OnMap(s, a, ProtectOp(v, r));
    ProtectWalk(s, v, r, v);
    forall q | PageIn(c, q) ensures Lookup(t, q) == if q in b then b[q] else Miss {
      ProtectWalk(s, v, r, q);
    }
    RefinesApart(s, c, a);
    forall w | w in a ensures SamePage(s, t, a, b, w) { KeptData(s, t, a, w); }
  }

  lemma UnmapRefines(s: State, c: Scope, a: PageMap, v: Path)
    requires Sound(s, c, a) && PageIn(c, v)
    ensures var (t, ok) := Unmap(s, v);
      var b := OnMap(s, a, UnmapOp(v));
      && Refines(t, c, b) && (ok <==> v in a) && DataKept(s, t, a, b)
  {
    hide Inv, PlainTree, Unmap, Walk, SmallPath;
    PlainPath(s, c, v);
    assert Owned(s, v);
    UnmapInv(s, v);
    var (t, ok) := Unmap(s, v);
    var b := OnMap(s, a, UnmapOp(v));
    forall q | PageIn(c, q) ensures Lookup(t, q) == if q in b then b[q] else Miss {
      UnmapRemovesOnePage(s, v, q);
    }
    UnmapRemovesOnePage(s, v, v);
    UnmapPlain(s, c, v);
    RefinesApart(t, c, b);
    forall w | w in b ensures SamePage(s, t, a, b, w) {
      assert RoleOf(t, b[w].frame) == Node(w);
    }
  }

  /** One operation on the page tables is one operation on the map. */
  lemma StepRefines(s: State, c: Scope, a: PageMap, op: PageOp)
    requires Sound(s, c, a) && PageIn(c, op.v)
    ensures var (t, ok) := Exec(s, op);
      var b := OnMap(s, a, op);
      && Sound(t, c, b) && FramesApart(b) && DataKept(s, t, a, b) && KeepsHeld(s, t)
      && (ok <==> if op.MapOp? then op.v !in a && Missing(s, op.v) <= |s.free| else op.v in a)
  {
    hide Inv, PlainTree, Refines, DataKept, Unmap, Map, Protect, FramesApart, KeepsHeld;
    var v := op.v;
    PlainPath(s, c, v);
    match op {
      case MapOp(_, r) =>
        MapRefines(s, c, a, v, r);
        MapInv(s, v, r);
        MapPlain(s, c, v, r);
        MapOwned(s, c, v, r);
        MapKeepsHeld(s, v, r);
      case ProtectOp(_, r) =>
        ProtectRefines(s, c, a, v, r);
        ProtectInv(s, v, r);
        ProtectPlain(s, c, v, r);
        ProtectOwned(s, c, v, r);
        ProtectChanges(s, v, r);
      case UnmapOp(_) =>
        assert Owned(s, v);
        UnmapRefines(s, c, a, v);
        UnmapInv(s, v);
        UnmapPlain(s, c, v);
        UnmapKeepsHeld(s, v);
    }
    RefinesApart(Exec(s, op).0, c, OnMap(s, a, op));
  }

  // ---- runs ----

  ghost predicate OpsIn(c: Scope, ops: seq<PageOp>) {
    forall i: nat :: i < |ops| ==> PageIn(c, ops[i].v)
  }

  ghost function RunPages(s: State, ops: seq<PageOp>): State
    requires OpsIn(Everywhere, ops)
  {
    if ops == [] then s else Exec(RunPages(s, ops[..|ops| - 1]), ops[|ops| - 1]).0
  }

  ghost function RunMap(s: State, a: PageMap, ops: seq<PageOp>): PageMap
    requires OpsIn(Everywhere, ops)
  {
    if ops == [] then a
    else OnMap(RunPages(s, ops[..|ops| - 1]), RunMap(s, a, ops[..|ops| - 1]), ops[|ops| - 1])
  }

  // A page that is never unmapped stays where it is and keeps its bytes; one that is not
  // operated on at all keeps its rights too.
  ghost predicate RunKeeps(s: State, t: State, a: PageMap, b: PageMap, ops: seq<PageOp>) {
    && (forall w :: w in a && UnmapOp(w) !in ops ==> SamePage(s, t, a, b, w))
    && (forall w :: w in a && (forall op :: op in ops ==> op.v != w) ==> w in b && b[w] == a[w])
    && KeepsHeld(s, t)
  }

  lemma RunKeepsStep(s: State, u: State, t: State, a: PageMap, m: PageMap, b: PageMap, before: seq<PageOp>, op: PageOp)
    requires RunKeeps(s, u, a, m, before) && DataKept(u, t, m, b) && b == OnMap(u, m, op)
    requires KeepsHeld(u, t) && forall w :: w in b ==> b[w].Leaf?
    ensures RunKeeps(s, t, a, b, before + [op])
  {
    hide KeepsHeld;
    HeldTransitive(s, u, t);
    var ops := before + [op];
    assert op in ops && forall o :: o in before ==> o in ops;
    forall w | w in a && UnmapOp(w) !in ops ensures SamePage(s, t, a, b, w) {
      assert SamePage(s, u, a, m, w);
      assert w in b;
    }
  }

  /** Whole runs, in any order and with any failures: the page tables stay the map that the
      same operations make; every page has its own frame, the rights last asked for, and
      the bytes it had as long as it is not unmapped. */
  lemma {:induction false} RunRefines(s: State, c: Scope, a: PageMap, ops: seq<PageOp>)
    requires Sound(s, c, a) && OpsIn(c, ops)
    ensures OpsIn(Everywhere, ops)
    ensures var t := RunPages(s, ops);
      var b := RunMap(s, a, ops);
      && Sound(t, c, b) && FramesApart(b) && RunKeeps(s, t, a, b, ops)
  {
    hide Sound, FramesApart, Exec, OnMap, DataKept, RunKeeps, KeepsHeld;
    if ops == [] {
      NothingRun(s, c, a);
    } else {
      var before, op := ops[..|ops| - 1], ops[|ops| - 1];
      RunRefines(s, c, a, before);
      var u, m := RunPages(s, before), RunMap(s, a, before);
      StepRefines(u, c, m, op);
      SoundLeaves(Exec(u, op).0, c, OnMap(u, m, op));
      RunKeepsStep(s, u, Exec(u, op).0, a, m, OnMap(u, m, op), before, op);
      assert before + [op] == ops;
    }
  }

  lemma NothingRun(s: State, c: Scope, a: PageMap)
    requires Sound(s, c, a)
    ensures RunKeeps(s, s, a, a, []) && FramesApart(a)
  {
    hide Walk, Inv, PlainTree, FramesApart, KeepsHeld;
    HeldTransitive(s, s, s);
    RefinesApart(s, c, a);
  }

  lemma SoundLeaves(s: State, c: Scope, a: PageMap)
    requires Sound(s, c, a)
    ensures forall w :: w in a ==> a[w].Leaf?
  {
    hide Walk, Inv, PlainTree;
  }

  /** From an empty root, over the whole address space: whatever vm_map, vm_unmap and vm_protect
      do, the tree is the map they make, and the effective rights of every page, conjoined
      over four levels, are its own flags. */
  lemma RunFromBlank(s: State, ops: seq<PageOp>, v: Path)
    requires Inv(s) && NothingMapped(s) && OpsIn(Everywhere, ops) && IsPage(v)
    ensures var t := RunPages(s, ops);
      var b := RunMap(s, map[], ops);
      && Sound(t, Everywhere, b) && FramesApart(b)
      && (Lookup(t, v).Leaf? <==> v in b)
      && (v in b ==>
            && Lookup(t, v.up).Inner?
            && b[v] == Lookup(t, v)
            && var e := At(t.mem, TableAt(t, v.up), v.idx);
               b[v].rights == Rights(e.user, e.writable, !e.noExecute))
  {
    hide Inv, PlainTree, PagesOwned, FramesApart, RunPages, RunMap, RunKeeps, Walk;
    BlankPlain(s);
    RunRefines(s, Everywhere, map[], ops);
    var t := RunPages(s, ops);
    assert PageIn(Everywhere, v);
    if Lookup(t, v).Leaf? { LeafRights(t, Everywhere, v); }
  }

  /** The same for the user half after unmap_lower_half, whatever the upper half holds. */
  lemma RunFromEmptyHalf(s: State, ops: seq<PageOp>)
    requires Inv(s) && OpsIn(UserHalf, ops)
    ensures OpsIn(Everywhere, ops)
    ensures var u := UnmapLowerHalf(s);
      var b := RunMap(u, map[], ops);
      Sound(RunPages(u, ops), UserHalf, b) && FramesApart(b)
  {
    hide Inv, PlainTree, FramesApart, RunPages, RunMap, RunKeeps, UnmapLowerHalf, Walk;
    var u := UnmapLowerHalf(s);
    LowerHalfUnmapped(s, Root);
    LowerHalfPlain(s);
    forall v | PageIn(UserHalf, v) ensures Lookup(u, v) == Miss {
      LowerHalfUnmapped(s, v);
    }
    RunRefines(u, UserHalf, map[], ops);
  }
}
