/** Address translation: what a walk of the page tables finds, and what malloc_page,
    vm_map, vm_unmap and vm_protect do to the walk of every position of the tree. */
module Translation {
  import opened Words
  import opened Frames

  // ---- the walk (Intel SDM Vol. 3A, sections 4.5 and 4.6) ----

  datatype Rights = Rights(user: bool, writable: bool, executable: bool)

  const FULL := Rights(true, true, true)

  function Meet(a: Rights, b: Rights): Rights {
    Rights(a.user && b.user, a.writable && b.writable, a.executable && b.executable)
  }

  function EntryRights(e: Word): Rights {
    Rights(e.user, e.writable, !e.noExecute)
  }

  // Where a walk stands after reading the entries of a position: nowhere, at the table
  // of that position, or in a page; with the rights granted by every entry read.
  datatype Hit = Miss | Inner(table: nat, rights: Rights) | Leaf(frame: nat, rights: Rights)

  // Frames covered by one entry whose child lies at depth d.
  function Span(d: nat): nat {
    if d == 3 then 512 else 1
  }

  function Step(child: Path, e: Word, r: Rights): Hit {
    if !e.present then Miss
    else if Depth(child) == 4 || MapsLarge(child, e) then Leaf(e.frame, Meet(r, EntryRights(e)))
    else Inner(e.frame, Meet(r, EntryRights(e)))
  }

  function Walk(m: Memory, root: nat, p: Path): Hit {
    if p.Root? then Inner(root, FULL)
    else if Depth(p) > 4 then Miss
    else
      match Walk(m, root, p.up)
      case Miss => Miss
      case Leaf(f, r) => Leaf(f + p.idx * Span(Depth(p)), r)
      case Inner(t, r) => Step(p, At(m, t, p.idx), r)
  }

  function Lookup(s: State, p: Path): Hit {
    Walk(s.mem, s.root, p)
  }

  function TableAt(s: State, p: Path): nat {
    match Lookup(s, p)
    case Inner(t, _) => t
    case _ => 0
  }

  // Addresses the processor accepts: bits 47 to 63 are all alike.
  predicate Canonical(p: nat) {
    p < 0x8000_0000_0000 || 0xFFFF_8000_0000_0000 <= p < TWO_64
  }

  // What the processor finds at virtual address p.
  function AtAddress(s: State, p: nat): Hit {
    if Canonical(p) then Lookup(s, PathOf(p)) else Miss
  }

  lemma PathShape(p: nat)
    ensures var v := PathOf(p);
      && v.Sub? && v.up.Sub? && v.up.up.Sub? && v.up.up.up.Sub? && v.up.up.up.up.Root?
      && v.idx == p / 0x1000 % 512 && v.up.idx == p / 0x20_0000 % 512
      && v.up.up.idx == p / 0x4000_0000 % 512 && v.up.up.up.idx == p / 0x80_0000_0000 % 512
  {
  }

  lemma LookupStep(s: State, c: Path)
    requires c.Sub? && Depth(c) <= 4
    ensures Lookup(s, c) ==
      match Lookup(s, c.up)
      case Miss => Miss
      case Leaf(f, r) => Leaf(f + c.idx * Span(Depth(c)), r)
      case Inner(t, r) => Step(c, At(s.mem, t, c.idx), r)
  {
  }

  lemma RootStep(s: State)
    ensures Lookup(s, Root) == Inner(s.root, Rights(true, true, true))
  {
  }

  /** The walk for an address in numbers: the four indices, where it ends, large pages included,
      and the rights, which every entry read must grant. */
  lemma WalkInNumbers(s: State, p: nat)
    ensures var e4 := At(s.mem, s.root, p / 0x80_0000_0000 % 512);
      var e3 := At(s.mem, e4.frame, p / 0x4000_0000 % 512);
      var e2 := At(s.mem, e3.frame, p / 0x20_0000 % 512);
      var e1 := At(s.mem, e2.frame, p / 0x1000 % 512);
      var h := Lookup(s, PathOf(p));
      && !h.Inner?
      && (h.Leaf? <==> e4.present && e3.present && (e3.pageSize || (e2.present && (e2.pageSize || e1.present))))
      && (h.Leaf? && e3.pageSize ==>
            h.frame == e3.frame + p / 0x20_0000 % 512 * 512 + p / 0x1000 % 512)
      && (h.Leaf? && !e3.pageSize && e2.pageSize ==> h.frame == e2.frame + p / 0x1000 % 512)
      && (h.Leaf? && !e3.pageSize && !e2.pageSize ==>
            && h.frame == e1.frame
            && h.rights.user == (e4.user && e3.user && e2.user && e1.user)
            && h.rights.writable == (e4.writable && e3.writable && e2.writable && e1.writable)
            && h.rights.executable == (!e4.noExecute && !e3.noExecute && !e2.noExecute && !e1.noExecute))
  {
    hide Walk;
    PathShape(p);
    var v := PathOf(p);
    SubFacts(Root, v.up.up.up.idx);
    SubFacts(v.up.up.up, v.up.up.idx);
    SubFacts(v.up.up, v.up.idx);
    SubFacts(v.up, v.idx);
    RootStep(s);
    LookupStep(s, v.up.up.up);
    LookupStep(s, v.up.up);
    LookupStep(s, v.up);
    LookupStep(s, v);
  }

  // An Inner result is the table recorded for that position.
  lemma {:induction false} WalkRole(s: State, p: Path)
    requires TreeOk(s) && InRange(p)
    ensures Lookup(s, p).Inner? ==> RoleOf(s, Lookup(s, p).table) == Node(p) && Depth(p) < 4
  {
    if p.Sub? {
      WalkRole(s, p.up);
      if Lookup(s, p.up).Inner? {
        var t := Lookup(s, p.up).table;
        assert EntryOk(s, Sub(p.up, p.idx), At(s.mem, t, p.idx));
      }
    }
  }

  lemma {:induction false} WalkBelowMiss(m: Memory, root: nat, a: Path, p: Path)
    requires Below(a, p) && Walk(m, root, a) == Miss
    ensures Walk(m, root, p) == Miss
  {
    if p != a {
      WalkBelowMiss(m, root, a, p.up);
    }
  }

  // Nothing lies below a table without present entries.
  lemma {:induction false} WalkBelowEmpty(m: Memory, root: nat, a: Path, p: Path)
    requires Below(a, p) && p != a && InRange(p)
    requires Walk(m, root, a).Inner?
    requires forall i: nat :: i < WORDS_PER_FRAME ==> !At(m, Walk(m, root, a).table, i).present
    ensures Walk(m, root, p) == Miss
  {
    if p.up != a {
      WalkBelowEmpty(m, root, a, p.up);
    }
  }

  // Changing data, free frames and the one table entry at position `hole` changes
  // no walk that does not go through `hole`.
  lemma {:induction false} WalkLocal(s: State, m: Memory, hole: Path, p: Path)
    requires TreeOk(s) && InRange(p)
    requires forall t: nat, i: nat ::
      IsTable(RoleOf(s, t)) && i < WORDS_PER_FRAME && Sub(RoleOf(s, t).path, i) != hole
      ==> At(m, t, i) == At(s.mem, t, i)
    requires !Below(hole, p)
    ensures Walk(m, s.root, p) == Lookup(s, p)
  {
    if p.Sub? {
      WalkLocal(s, m, hole, p.up);
      WalkRole(s, p.up);
    }
  }

  lemma {:induction false} WalkSame(s: State, m: Memory, p: Path)
    requires TreeOk(s) && InRange(p) && SameTables(s, m)
    ensures Walk(m, s.root, p) == Lookup(s, p)
  {
    if p.Sub? {
      WalkSame(s, m, p.up);
      WalkRole(s, p.up);
    }
  }

  // ---- the invariant ----

  // The walk to p finds frame f: a table above depth 4, a page at depth 4.
  predicate Found(s: State, p: Path, f: nat) {
    if Depth(p) < 4 then Lookup(s, p).Inner? && Lookup(s, p).table == f
    else Lookup(s, p).Leaf? && Lookup(s, p).frame == f
  }

  // Every frame recorded for a position is what the walk to that position finds.
  ghost predicate Reached(s: State) {
    forall f: nat :: RoleOf(s, f).Node? ==> Found(s, RoleOf(s, f).path, f)
  }

  ghost predicate Inv(s: State) {
    WellFormed(s) && Reached(s)
  }

  // No large page is mapped, or left marked in an absent entry, on the way to p.
  predicate SmallPath(s: State, p: Path) {
    p.Sub? ==>
      && SmallPath(s, p.up)
      && (Lookup(s, p.up).Inner? ==> !MapsLarge(p, At(s.mem, Lookup(s, p.up).table, p.idx)))
  }

  // A walk that meets no large page ends in a page only at depth 4.
  lemma {:induction false} SmallNotLeaf(s: State, p: Path)
    requires SmallPath(s, p) && Depth(p) < 4
    ensures !Lookup(s, p).Leaf?
  {
    if p.Sub? {
      SmallNotLeaf(s, p.up);
    }
  }

  // ---- malloc_page ----

  function PathOfTable(s: State, t: nat): Path {
    match RoleOf(s, t)
    case Node(p) => p
    case _ => Root
  }

  function Grant(e: Word, f: nat, r: Rights): Word {
    e.(present := true, frame := Trunc40(f), user := r.user, writable := r.writable, noExecute := !r.executable)
  }

  // Entry i of table t gets a new zeroed frame; the result is true when there is none.
  function MallocPage(s: State, t: nat, i: nat, r: Rights): (State, bool) {
    var (a, f) := Alloc(s);
    if f == 0 then (a, true)
    else
      var m := Clear(Put(a.mem, t, i, Grant(At(a.mem, t, i), f, r)), f);
      (WithRole(a, f, Node(Sub(PathOfTable(s, t), i))).(mem := m), false)
  }

  ghost predicate Blank(m: Memory, f: nat) {
    forall i: nat :: At(m, f, i) == ZERO
  }

  lemma MallocPageEffect(s: State, t: nat, i: nat, r: Rights)
    requires WellFormed(s) && IsTable(RoleOf(s, t)) && i < WORDS_PER_FRAME
    ensures var (u, failed) := MallocPage(s, t, i, r);
      && u.root == s.root && u.cfg == s.cfg && Shape(u)
      && (failed <==> s.free == [])
      && (failed ==>
            && WellFormed(u) && u.free == [] && u.roles == s.roles && SameTables(s, u.mem)
            && forall g: nat, j: nat :: g != 0 || j != 0 ==> At(u.mem, g, j) == At(s.mem, g, j))
      && (!failed ==>
            var (a, f) := Alloc(s);
            && f == s.free[0] && WellFormed(a) && u.free == a.free == s.free[1..] && u.freelist == a.freelist
            && u.roles == WithRole(a, f, Node(Sub(RoleOf(s, t).path, i))).roles
            && u.roles == WithRole(s, f, Node(Sub(RoleOf(s, t).path, i))).roles
            && RoleOf(s, f) == Free && 0 < f < |s.mem| && Blank(u.mem, f)
            && At(u.mem, t, i) == Grant(At(s.mem, t, i), f, r)
            && forall g: nat, j: nat :: g != f && (g != t || j != i) ==> At(u.mem, g, j) == At(s.mem, g, j))
  {
    AllocSound(s);
    FreeFacts(s);
    var (a, f) := Alloc(s);
    if f != 0 {
      assert f in s.free;
      assert |a.mem[t]| == WORDS_PER_FRAME;
    }
  }

  lemma MallocPageTree(s: State, t: nat, i: nat, r: Rights)
    requires WellFormed(s) && IsTable(RoleOf(s, t)) && i < WORDS_PER_FRAME && s.free != []
    requires !At(s.mem, t, i).present
    requires !MapsLarge(Sub(RoleOf(s, t).path, i), At(s.mem, t, i))
    ensures TreeOk(MallocPage(s, t, i, r).0)
  {
    MallocPageEffect(s, t, i, r);
    var f := s.free[0];
    var u := MallocPage(s, t, i, r).0;
    assert EntryOk(s, Sub(RoleOf(s, t).path, i), At(s.mem, t, i));
    forall g: nat | RoleOf(u, g).Node? ensures Depth(RoleOf(u, g).path) <= 4 && InRange(RoleOf(u, g).path) {
      assert g == f || RoleOf(u, g) == RoleOf(s, g);
      assert InRange(RoleOf(s, t).path);
    }
    forall x: nat, j: nat | IsTable(RoleOf(u, x)) && j < WORDS_PER_FRAME
      ensures EntryOk(u, Sub(RoleOf(u, x).path, j), At(u.mem, x, j))
    {
      if x != f {
        assert EntryOk(s, Sub(RoleOf(s, x).path, j), At(s.mem, x, j));
      }
    }
  }

  lemma MallocPageKeeps(s: State, t: nat, i: nat, r: Rights)
    requires WellFormed(s) && IsTable(RoleOf(s, t)) && i < WORDS_PER_FRAME
    requires !At(s.mem, t, i).present
    requires !MapsLarge(Sub(RoleOf(s, t).path, i), At(s.mem, t, i))
    ensures var (u, failed) := MallocPage(s, t, i, r);
      && WellFormed(u) && u.root == s.root && u.cfg == s.cfg
      && (failed <==> s.free == [])
      && (failed ==>
            && u.free == [] && u.roles == s.roles && SameTables(s, u.mem)
            && forall g: nat, j: nat :: g != 0 || j != 0 ==> At(u.mem, g, j) == At(s.mem, g, j))
      && (!failed ==>
            var f := s.free[0];
            && u.free == s.free[1..] && u.roles == WithRole(s, f, Node(Sub(RoleOf(s, t).path, i))).roles
            && RoleOf(s, f) == Free && 0 < f < |s.mem| && Blank(u.mem, f)
            && At(u.mem, t, i) == Grant(At(s.mem, t, i), f, r)
            && forall g: nat, j: nat :: g != f && (g != t || j != i) ==> At(u.mem, g, j) == At(s.mem, g, j))
  {
    MallocPageEffect(s, t, i, r);
    var (u, failed) := MallocPage(s, t, i, r);
    if !failed {
      MallocPageTree(s, t, i, r);
      assert FreeListOk(u) by {
        var a := Alloc(s).0;
        assert forall g: nat :: RoleOf(a, g) == Free ==> g in a.free;
        FreeListFrame(a, u);
      }
    }
  }

  // Pointing an absent entry at a blank frame changes the walk of that position only.
  lemma FillWalk(s: State, m: Memory, p: Path, i: nat, f: nat, q: Path)
    requires TreeOk(s) && InRange(Sub(p, i)) && InRange(q) && Depth(p) < 4
    requires Lookup(s, p).Inner? && !IsTable(RoleOf(s, f)) && Blank(m, f)
    requires var t := Lookup(s, p).table;
      && !At(s.mem, t, i).present
      && At(m, t, i).present && At(m, t, i).frame == f && !MapsLarge(Sub(p, i), At(m, t, i))
      && forall g: nat, j: nat :: g != f && (g != t || j != i) ==> At(m, g, j) == At(s.mem, g, j)
    ensures Walk(m, s.root, q) ==
      if q == Sub(p, i) then Step(q, At(m, Lookup(s, p).table, i), Lookup(s, p).rights) else Lookup(s, q)
  {
    var child := Sub(p, i);
    WalkRole(s, p);
    if Below(child, p) { BelowDepth(child, p); }
    WalkLocal(s, m, child, p);
    if !Below(child, q) {
      WalkLocal(s, m, child, q);
    } else if q != child {
      WalkBelowMiss(s.mem, s.root, child, q);
      if Depth(child) < 4 {
        WalkBelowEmpty(m, s.root, child, q);
      } else {
        BelowDepth(child, q);
      }
    }
  }

  // malloc_page changes the walk of one position only: that of the entry it fills.
  lemma MallocPageWalk(s: State, t: nat, i: nat, r: Rights, p: Path, q: Path)
    requires WellFormed(s) && InRange(Sub(p, i)) && Depth(p) < 4
    requires !At(s.mem, t, i).present && !MapsLarge(Sub(p, i), At(s.mem, t, i))
    requires Lookup(s, p).Inner? && Lookup(s, p).table == t && InRange(q)
    ensures var (u, failed) := MallocPage(s, t, i, r);
      Lookup(u, q) ==
        if failed || q != Sub(p, i) then Lookup(s, q)
        else if Depth(q) == 4 then Leaf(s.free[0], Meet(Lookup(s, p).rights, r))
        else Inner(s.free[0], Meet(Lookup(s, p).rights, r))
  {
    WalkRole(s, p);
    MallocPageKeeps(s, t, i, r);
    var (u, failed) := MallocPage(s, t, i, r);
    if failed {
      WalkSame(s, u.mem, q);
    } else {
      FillWalk(s, u.mem, p, i, s.free[0], q);
    }
  }

  // Frames in use keep their role, and pages their contents.
  ghost predicate KeepsPages(s: State, u: State) {
    && (forall f: nat :: RoleOf(s, f) != Free ==> RoleOf(u, f) == RoleOf(s, f))
    && (forall f: nat, i: nat :: RoleOf(s, f).Node? && !IsTable(RoleOf(s, f)) ==> At(u.mem, f, i) == At(s.mem, f, i))
  }

  // Frames held by others keep their words; frame 0 may lose its first, to an allocation that fails.
  ghost predicate KeepsHeld(s: State, u: State) {
    forall f: nat :: RoleOf(s, f) == Held ==> RoleOf(u, f) == Held && SameFrame(s, u, f)
  }

  ghost predicate SameFrame(s: State, u: State, f: nat) {
    forall i: nat :: f != 0 || i != 0 ==> At(u.mem, f, i) == At(s.mem, f, i)
  }

  lemma HeldTransitive(s: State, u: State, w: State)
    ensures KeepsHeld(s, s)
    ensures KeepsHeld(s, u) && KeepsHeld(u, w) ==> KeepsHeld(s, w)
  {
    if KeepsHeld(s, u) && KeepsHeld(u, w) {
      forall f: nat | RoleOf(s, f) == Held ensures RoleOf(w, f) == Held && SameFrame(s, w, f) {
        assert SameFrame(s, u, f) && SameFrame(u, w, f);
      }
    }
  }

  lemma KeepsTransitive(s: State, u: State, w: State)
    requires KeepsPages(s, u) && KeepsPages(u, w)
    ensures KeepsPages(s, w)
  {
  }

  lemma MallocPageKeepsPages(s: State, t: nat, i: nat, r: Rights)
    requires WellFormed(s) && IsTable(RoleOf(s, t)) && i < WORDS_PER_FRAME
    requires !At(s.mem, t, i).present
    requires !MapsLarge(Sub(RoleOf(s, t).path, i), At(s.mem, t, i))
    ensures KeepsPages(s, MallocPage(s, t, i, r).0)
  {
    hide MallocPage, MapsLarge, TreeOk, Blank, Walk;
    assert RoleOf(s, 0) == Held;
    MallocPageKeeps(s, t, i, r);
    var (u, failed) := MallocPage(s, t, i, r);
    if failed {
      assert forall f: nat :: RoleOf(u, f) == RoleOf(s, f);
    } else {
      assert forall f: nat :: RoleOf(u, f) == if f == s.free[0] then RoleOf(u, f) else RoleOf(s, f);
    }
  }

  lemma InvTable(s: State, p: Path)
    requires Inv(s) && InRange(p) && Lookup(s, p).Inner?
    ensures RoleOf(s, Lookup(s, p).table) == Node(p) && Depth(p) < 4 && 0 < Lookup(s, p).table < |s.mem|
  {
    hide Walk, TreeOk, Reached;
    assert TreeOk(s) && Shape(s) && RoleOf(s, 0) == Held;
    WalkRole(s, p);
  }

  lemma InvFrame(s: State, f: nat)
    requires Inv(s) && RoleOf(s, f).Node?
    ensures Found(s, RoleOf(s, f).path, f) && InRange(RoleOf(s, f).path)
  {
  }

  lemma InvParts(s: State)
    requires Inv(s)
    ensures WellFormed(s) && Reached(s)
  {
  }

  lemma MallocPageInv(s: State, t: nat, i: nat, r: Rights, p: Path)
    requires Inv(s) && InRange(Sub(p, i)) && Depth(p) < 4
    requires !At(s.mem, t, i).present && !MapsLarge(Sub(p, i), At(s.mem, t, i))
    requires Lookup(s, p).Inner? && Lookup(s, p).table == t
    ensures var (u, failed) := MallocPage(s, t, i, r);
      && Inv(u) && u.root == s.root && u.cfg == s.cfg && KeepsPages(s, u)
      && (failed <==> s.free == [])
      && u.free == (if failed then [] else s.free[1..])
      && (!failed ==> Blank(u.mem, s.free[0]) && RoleOf(u, s.free[0]) == Node(Sub(p, i)))
  {
    hide WellFormed, Reached, KeepsPages;
    InvTable(s, p);
    MallocPageReached(s, t, i, r, p);
    MallocPageKeepsPages(s, t, i, r);
    MallocPageKeeps(s, t, i, r);
  }

  lemma MallocPageReached(s: State, t: nat, i: nat, r: Rights, p: Path)
    requires Inv(s) && InRange(Sub(p, i)) && Depth(p) < 4
    requires !At(s.mem, t, i).present && !MapsLarge(Sub(p, i), At(s.mem, t, i))
    requires Lookup(s, p).Inner? && Lookup(s, p).table == t
    ensures Reached(MallocPage(s, t, i, r).0)
  {
    var u := MallocPage(s, t, i, r).0;
    forall f: nat | RoleOf(u, f).Node? ensures Found(u, RoleOf(u, f).path, f) {
      MallocPageFound(s, t, i, r, p, f);
    }
  }

  lemma MallocPageFound(s: State, t: nat, i: nat, r: Rights, p: Path, f: nat)
    requires Inv(s) && InRange(Sub(p, i)) && Depth(p) < 4
    requires !At(s.mem, t, i).present && !MapsLarge(Sub(p, i), At(s.mem, t, i))
    requires Lookup(s, p).Inner? && Lookup(s, p).table == t
    requires RoleOf(MallocPage(s, t, i, r).0, f).Node?
    ensures var u := MallocPage(s, t, i, r).0; Found(u, RoleOf(u, f).path, f)
  {
    hide Walk, WellFormed, Reached, MallocPage, Blank;
    InvTable(s, p);
    InvParts(s);
    MallocPageKeeps(s, t, i, r);
    AbsentMisses(s, p, i);
    var (u, failed) := MallocPage(s, t, i, r);
    if !failed && f == s.free[0] {
      MallocPageWalk(s, t, i, r, p, Sub(p, i));
    } else {
      assert RoleOf(u, f) == RoleOf(s, f);
      InvFrame(s, f);
      MallocPageWalk(s, t, i, r, p, RoleOf(s, f).path);
    }
  }

  lemma AbsentMisses(s: State, p: Path, i: nat)
    requires Lookup(s, p).Inner? && !At(s.mem, Lookup(s, p).table, i).present && Depth(p) < 4
    ensures Lookup(s, Sub(p, i)) == Miss
  {
    assert Depth(Sub(p, i)) == Depth(p) + 1;
  }

  // What AllocSound and ReleaseSound leave to show: the walks are unchanged.
  lemma SameReached(s: State, t: State)
    requires Inv(s) && WellFormed(t) && t.root == s.root && SameTables(s, t.mem)
    requires forall f: nat :: RoleOf(t, f).Node? ==> RoleOf(t, f) == RoleOf(s, f)
    ensures Inv(t)
  {
    hide Walk;
    forall f: nat | RoleOf(t, f).Node? ensures Found(t, RoleOf(t, f).path, f) {
      InvFrame(s, f);
      WalkSame(s, t.mem, RoleOf(s, f).path);
    }
  }

  lemma AllocInv(s: State)
    requires Inv(s)
    ensures Inv(Alloc(s).0)
  {
    hide Inv, Alloc, WellFormed, SameTables;
    InvParts(s);
    AllocSound(s);
    SameReached(s, Alloc(s).0);
  }

  lemma ReleaseInv(s: State, f: nat)
    requires Inv(s)
    requires 0 < f < |s.mem| && !RoleOf(s, f).Node?
    ensures Inv(Release(s, f))
  {
    hide Inv, Release, WellFormed, SameTables;
    InvParts(s);
    ReleaseSound(s, f);
    SameReached(s, Release(s, f));
  }
}
