/** Two places where the kernel dereferences physical addresses as they are, without the offset of
    the direct map: the emptiness tests of vm_unmap, and the nodes add_memory writes.  Here
    they are modelled as written, through the page tables, and compared with what is meant. */
module Identity {
  import opened Words
  import opened Frames
  import opened Translation
  import opened Mapping
  import opened Unmapping
  import opened LowerHalf
  import opened FrameRuns
  import opened PageRuns

  // ---- the emptiness test as written ----

  /** free_page_table faults, or answers for whatever page its argument leads to. */
  datatype Answer = Fault | Empty | Full

  // free_page_table on the physical address of frame t, used as a virtual one.
  ghost function Test(s: State, t: nat): Answer {
    match AtAddress(s, Address(t))
    case Leaf(f, _) => if EmptyTable(s.mem, f) then Empty else Full
    case _ => Fault
  }

  // What it should answer.
  ghost function Truth(s: State, t: nat): Answer {
    if EmptyTable(s.mem, t) then Empty else Full
  }

  // Clears entry i of table t and hands the frame it pointed to to pmem_free.
  function RemoveAt(s: State, t: nat, i: nat): State {
    Release(Drop(s, t, i), At(s.mem, t, i).frame)
  }

  // The three tests of vm_unmap, from the table at p upwards; the tables were found in `base`.
  // The flag tells of a fault.
  ghost function PruneWritten(s: State, base: State, p: Path): (State, bool)
    decreases p
  {
    if p.Root? then (s, false)
    else
      match Test(s, TableAt(base, p))
      case Fault => (s, true)
      case Empty => PruneWritten(RemoveAt(s, TableAt(base, p.up), p.idx), base, p.up)
      case Full => PruneWritten(s, base, p.up)
  }

  datatype Outcome = Outcome(s: State, ok: bool, fault: bool)

  ghost function UnmapWritten(s: State, v: Path): Outcome
    requires v.Sub?
  {
    match Lookup(s, v.up)
    case Inner(t, _) =>
      if At(s.mem, t, v.idx).present then
        var (w, fault) := PruneWritten(Remove(s, v), s, v.up);
        Outcome(w, !fault, fault)
      else Outcome(s, false, false)
    case _ => Outcome(s, false, false)
  }

  // Each test, when its turn comes, gives the answer the table itself would give.
  ghost predicate RightAnswers(s: State, base: State, p: Path)
    decreases p
  {
    p.Root? ||
    (var t := TableAt(base, p);
     && Test(s, t) == Truth(s, t)
     && RightAnswers(if EmptyTable(s.mem, t) then RemoveAt(s, TableAt(base, p.up), p.idx) else s, base, p.up))
  }

  ghost predicate UnmapRight(s: State, v: Path)
    requires v.Sub?
  {
    Lookup(s, v).Leaf? ==> RightAnswers(Remove(s, v), s, v.up)
  }

  // ---- which frames it can touch ----

  lemma RemoveAtChanges(s: State, t: nat, i: nat)
    ensures var u := RemoveAt(s, t, i);
      var f := At(s.mem, t, i).frame;
      && (forall g: nat :: g != f ==> RoleOf(u, g) == RoleOf(s, g))
      && (forall g: nat, j: nat :: g != f && (g != t || j != i) ==> At(u.mem, g, j) == At(s.mem, g, j))
      && (RoleOf(s, f) == Node(Sub(PathOfTable(s, t), i)) && f < |s.roles| ==> !RoleOf(u, f).Node?)
  {
    hide FromNat, Address, SERIAL;
  }

  // The words of the tables above p are those of base.
  ghost predicate AboveSame(s: State, base: State, p: Path) {
    forall a: Path, i: nat :: Below(a, p) && a != p ==>
      At(s.mem, TableAt(base, a), i) == At(base.mem, TableAt(base, a), i)
  }

  // g is none of the tables on the way to p, the root excepted.
  ghost predicate NotAbove(base: State, p: Path, g: nat) {
    forall a: Path :: Below(a, p) && a.Sub? ==> TableAt(base, a) != g
  }

  // Tables at different positions are different frames.
  lemma TablesApart(s: State, a: Path, b: Path)
    requires Inv(s) && InRange(a) && InRange(b) && Lookup(s, a).Inner? && Lookup(s, b).Inner? && a != b
    ensures TableAt(s, a) != TableAt(s, b)
  {
    hide Inv, Walk;
    InvTable(s, a);
    InvTable(s, b);
  }

  lemma {:induction false} InnerChain(s: State, a: Path, p: Path)
    requires Below(a, p) && Lookup(s, p).Inner? && InRange(p)
    ensures Lookup(s, a).Inner? && InRange(a)
  {
    if a != p {
      InnerAbove(s, p);
      InnerChain(s, a, p.up);
    }
  }

  // Whatever the tests answer, frames off the path keep their roles.
  lemma {:induction false} WrittenKeeps(s: State, base: State, p: Path, g: nat)
    requires Inv(base) && InRange(p) && Lookup(base, p).Inner? && AboveSame(s, base, p) && NotAbove(base, p, g)
    ensures RoleOf(PruneWritten(s, base, p).0, g) == RoleOf(s, g)
    decreases p
  {
    hide Inv, Walk, RemoveAt, Test, EmptyTable;
    if p.Sub? {
      InnerAbove(base, p);
      SelfBelow(p);
      forall a: Path | Below(a, p.up) ensures Below(a, p) && a != p {
        BelowUp(a, p);
        BelowDepth(a, p.up);
      }
      if Test(s, TableAt(base, p)) == Empty {
        var u := RemoveAt(s, TableAt(base, p.up), p.idx);
        RemoveAtChanges(s, TableAt(base, p.up), p.idx);
        assert At(s.mem, TableAt(base, p.up), p.idx).frame == TableAt(base, p);
        forall a: Path, i: nat | Below(a, p.up) && a != p.up
          ensures At(u.mem, TableAt(base, a), i) == At(base.mem, TableAt(base, a), i)
        {
          InnerChain(base, a, p.up);
          TablesApart(base, a, p);
          TablesApart(base, a, p.up);
        }
        WrittenKeeps(u, base, p.up, g);
      } else if Test(s, TableAt(base, p)) == Full {
        WrittenKeeps(s, base, p.up, g);
      }
    }
  }

  lemma SelfBelow(p: Path)
    ensures Below(p, p)
    ensures p.Sub? ==> Below(p.up, p) && p.up != p
  {
    if p.Sub? {
      assert Depth(p.up) < Depth(p);
    }
  }

  // Only the tables of base on the way to p matter.
  lemma {:induction false} SameBase(s: State, base: State, other: State, p: Path)
    requires forall a: Path :: Below(a, p) ==> TableAt(base, a) == TableAt(other, a)
    ensures PruneWritten(s, base, p) == PruneWritten(s, other, p)
    decreases p
  {
    hide TableAt, Test, RemoveAt;
    if p.Sub? {
      SelfBelow(p);
      forall a: Path | Below(a, p.up) ensures Below(a, p) { BelowUp(a, p); }
      match Test(s, TableAt(base, p))
      case Fault =>
      case Empty => SameBase(RemoveAt(s, TableAt(base, p.up), p.idx), base, other, p.up);
      case Full => SameBase(s, base, other, p.up);
    }
  }

  // ---- when the answers are right ----

  // The state before the test of the table at p, in a run that has gone right so far.
  ghost predicate OnCourse(s: State, base: State, p: Path) {
    && Inv(s) && InRange(p) && Depth(p) < 4 && Lookup(s, p).Inner?
    && forall a: Path :: Below(a, p) ==> TableAt(s, a) == TableAt(base, a)
  }

  lemma CourseUp(s: State, base: State, p: Path)
    requires OnCourse(s, base, p) && p.Sub?
    ensures OnCourse(s, base, p.up)
    ensures EmptyTable(s.mem, TableAt(s, p)) ==>
      && RemoveAt(s, TableAt(base, p.up), p.idx) == Remove(s, p) && OnCourse(Remove(s, p), base, p.up)
  {
    hide Inv, Walk, EmptyTable, Remove, CanRemove;
    InnerAbove(s, p);
    SelfBelow(p);
    forall a: Path | Below(a, p.up) ensures Below(a, p) && a != p {
      BelowUp(a, p);
      BelowDepth(a, p.up);
    }
    RemoveIs(s, p);
    if EmptyTable(s.mem, TableAt(s, p)) {
      RemoveTableOk(s, p);
      RemoveInv(s, p);
      forall a: Path | Below(a, p.up) ensures Lookup(Remove(s, p), a) == Lookup(s, a) {
        InnerChain(s, a, p.up);
        RemoveWalk(s, p, a);
      }
    }
  }

  lemma RemoveIs(s: State, p: Path)
    requires p.Sub?
    ensures Remove(s, p) == RemoveAt(s, TableAt(s, p.up), p.idx)
  {
  }

  // What the right answer at p leaves of the table there.
  lemma PruneRole(s: State, p: Path)
    requires Inv(s) && InRange(p) && p.Sub? && Lookup(s, p).Inner?
    ensures RoleOf(Prune(s, p), TableAt(s, p)) == Node(p) <==> !EmptyTable(s.mem, TableAt(s, p))
  {
    hide Inv, Walk, EmptyTable, Prune, Pruned, Shrinks;
    InvTable(s, p);
    if EmptyTable(s.mem, TableAt(s, p)) {
      PruneInv(s, p);
      PruneWalk(s, p, p);
      PrunedSelf(s, p);
      if RoleOf(Prune(s, p), TableAt(s, p)) == Node(p) { InvFrame(Prune(s, p), TableAt(s, p)); }
    } else {
      PruneNothing(s, p);
    }
  }

  // What the answer given leaves of it, right or wrong.
  lemma WrittenRole(s: State, p: Path)
    requires Inv(s) && InRange(p) && p.Sub? && Lookup(s, p).Inner? && Test(s, TableAt(s, p)) != Fault
    ensures RoleOf(PruneWritten(s, s, p).0, TableAt(s, p)) == Node(p) <==> Test(s, TableAt(s, p)) == Full
  {
    hide Inv, Walk, RemoveAt, Test, EmptyTable;
    InnerAbove(s, p);
    InvTable(s, p);
    InvTable(s, p.up);
    SelfBelow(p);
    InRoles(s, TableAt(s, p));
    forall a: Path | Below(a, p.up) ensures Lookup(s, a).Inner? && InRange(a) && TableAt(s, a) != TableAt(s, p) {
      InnerChain(s, a, p.up);
      BelowDepth(a, p.up);
      TablesApart(s, a, p);
    }
    var u := if Test(s, TableAt(s, p)) == Empty then RemoveAt(s, TableAt(s, p.up), p.idx) else s;
    RemoveAtChanges(s, TableAt(s, p.up), p.idx);
    forall a: Path, i: nat | Below(a, p.up) && a != p.up
      ensures At(u.mem, TableAt(s, a), i) == At(s.mem, TableAt(s, a), i)
    {
      TablesApart(s, a, p.up);
    }
    WrittenKeeps(u, s, p.up, TableAt(s, p));
  }

  lemma InRoles(s: State, f: nat)
    requires Inv(s) && f < |s.mem|
    ensures f < |s.roles|
  {
  }

  lemma {:induction false} PruneExactly(s: State, base: State, p: Path)
    requires OnCourse(s, base, p)
    ensures PruneWritten(s, base, p) == (Prune(s, p), false) <==> RightAnswers(s, base, p)
    decreases p
  {
    hide OnCourse, Test, EmptyTable, RemoveAt, Remove, TableAt;
    if p.Sub? {
      CourseUp(s, base, p);
      var t := TableAt(base, p);
      SameTable(s, base, p);
      if Test(s, t) == Truth(s, t) {
        PruneExactly(if EmptyTable(s.mem, t) then Remove(s, p) else s, base, p.up);
      } else if Test(s, t) != Fault {
        WrongAnswer(s, base, p);
      }
    }
  }

  lemma SameTable(s: State, base: State, p: Path)
    requires OnCourse(s, base, p)
    ensures TableAt(s, p) == TableAt(base, p)
  {
    SelfBelow(p);
  }

  lemma WrongAnswer(s: State, base: State, p: Path)
    requires OnCourse(s, base, p) && p.Sub?
    requires Test(s, TableAt(s, p)) != Truth(s, TableAt(s, p)) && Test(s, TableAt(s, p)) != Fault
    ensures PruneWritten(s, base, p).0 != Prune(s, p)
  {
    hide Inv, Walk, Test, EmptyTable, Prune, PruneWritten, TableAt;
    SameBase(s, base, s, p);
    WrittenRole(s, p);
    PruneRole(s, p);
  }

  /** vm_unmap as written does what it should, without a fault, if and only if each of the physical
      addresses it tests leads, at that moment, to a page whose words give the same answer as
      the table. */
  lemma UnmapWrittenExactly(s: State, v: Path)
    requires Inv(s) && IsPage(v) && v.Sub? && SmallPath(s, v) && Owned(s, v)
    ensures UnmapWritten(s, v) == Outcome(Unmap(s, v).0, Unmap(s, v).1, false) <==> UnmapRight(s, v)
  {
    hide Walk, PruneWritten, Prune, RightAnswers, Remove, Inv, Owned, SmallPath;
    SmallUp(s, v);
    SmallNotLeaf(s, v.up);
    UnmapLeaf(s, v);
    if Lookup(s, v).Leaf? {
      AfterRemove(s, v);
      PruneExactly(Remove(s, v), s, v.up);
    }
  }

  lemma UnmapLeaf(s: State, v: Path)
    requires IsPage(v) && v.Sub? && !Lookup(s, v.up).Leaf?
    ensures Lookup(s, v).Leaf? <==> Lookup(s, v.up).Inner? && At(s.mem, TableAt(s, v.up), v.idx).present
  {
  }

  lemma AfterRemove(s: State, v: Path)
    requires Inv(s) && IsPage(v) && v.Sub? && SmallPath(s, v) && Owned(s, v) && Lookup(s, v).Leaf?
    ensures OnCourse(Remove(s, v), s, v.up) && CanRemove(s, v)
  {
    hide Walk, Remove, Inv, Pruned, Stack, Shrinks, CanRemove, SmallPath;
    SmallUp(s, v);
    UnmapStep(s, v, v);
    SmallNotLeaf(s, v.up);
    UnmapLeaf(s, v);
    forall a: Path | Below(a, v.up) ensures TableAt(Remove(s, v), a) == TableAt(s, a) {
      BelowDepth(a, v.up);
      InnerChain(s, a, v.up);
      RemoveWalk(s, v, a);
    }
  }

  // ---- where the condition holds ----

  // The physical address of every table on the way to v leads, as a virtual one, to that table.
  ghost predicate IdentityMapped(s: State, v: Path)
    requires v.Sub?
  {
    forall c: Path :: Below(c, v.up) && c.Sub? ==>
      var p := Address(TableAt(s, c));
      PathOf(p) != v && AtAddress(s, p).Leaf? && AtAddress(s, p).frame == TableAt(s, c)
  }

  /** With the tables identity-mapped, and not through the page itself, the answers are right. */
  lemma IdentityIsRight(s: State, v: Path)
    requires Inv(s) && IsPage(v) && v.Sub? && SmallPath(s, v) && Owned(s, v) && IdentityMapped(s, v)
    ensures UnmapRight(s, v)
  {
    hide Walk, Inv, Owned, SmallPath, Remove, RightAnswers, AtAddress, Address, CanRemove;
    if Lookup(s, v).Leaf? {
      AfterRemove(s, v);
      var u := Remove(s, v);
      forall q: Path | IsPage(q) && q != v ensures Lookup(u, q) == Lookup(s, q) { RemoveWalk(s, v, q); }
      IdentityAnswers(u, s, v, v.up);
    }
  }

  lemma {:induction false} IdentityAnswers(s: State, base: State, v: Path, p: Path)
    requires v.Sub? && OnCourse(s, base, p) && IdentityMapped(base, v) && Below(p, v.up)
    requires forall q: Path :: IsPage(q) && q != v ==> Lookup(s, q) == Lookup(base, q)
    ensures RightAnswers(s, base, p)
    decreases p
  {
    hide OnCourse, Walk, Remove, RemoveAt, EmptyTable, IsPage;
    if p.Sub? {
      CourseUp(s, base, p);
      SameTable(s, base, p);
      SelfBelow(p);
      BelowTransitive(p.up, p, v.up);
      if EmptyTable(s.mem, TableAt(base, p)) {
        KeptByPrune(s, base, p);
        IdentityAnswers(Remove(s, p), base, v, p.up);
      } else {
        IdentityAnswers(s, base, v, p.up);
      }
    }
  }

  // Removing an empty table changes no page.
  lemma KeptByPrune(s: State, base: State, p: Path)
    requires OnCourse(s, base, p) && p.Sub? && EmptyTable(s.mem, TableAt(s, p))
    ensures forall q: Path :: IsPage(q) ==> Lookup(Remove(s, p), q) == Lookup(s, q)
  {
    hide Walk, Inv, Remove, EmptyTable, CanRemove;
    RemoveTableOk(s, p);
    forall q: Path | IsPage(q) ensures Lookup(Remove(s, p), q) == Lookup(s, q) {
      RemoveWalk(s, p, q);
    }
  }

  // ---- where it does not ----

  /** In a user half that vm_map built, the test never reads the table it is meant for: the
      address of a table leads nowhere, or to some page of data. */
  lemma NeverTheTable(s: State, t: nat)
    requires Inv(s) && PagesOwned(s, UserHalf) && IsTable(RoleOf(s, t)) && t < MAX_FRAMES
    ensures var h := AtAddress(s, Address(t));
      h.Leaf? ==> h.frame != t && RoleOf(s, h.frame) == Node(PathOf(Address(t)))
  {
    hide Inv, Walk;
    if Canonical(Address(t)) {
      LowAddress(t);
      assert Owned(s, PathOf(Address(t)));
    }
  }

  // Physical addresses that the processor accepts as virtual ones lie in the lower half.
  lemma LowAddress(t: nat)
    requires t < MAX_FRAMES && Canonical(Address(t))
    ensures PageIn(UserHalf, PathOf(Address(t)))
  {
    assert Address(t) / 0x80_0000_0000 < 256;
  }

  /** The code contradicts its own start: once unmap_lower_half has run, mapping a user page and
      unmapping it again faults at the first test, where it should succeed. */
  lemma UnmapFaults(s0: State, v: Path, r: Rights)
    requires Inv(s0) && PageIn(UserHalf, v) && Map(UnmapLowerHalf(s0), v, r).1
    ensures var t := Map(UnmapLowerHalf(s0), v, r).0;
      && Inv(t) && SmallPath(t, v) && Owned(t, v)
      && Unmap(t, v).1 && UnmapWritten(t, v).fault
  {
    hide Walk, Inv, UnmapLowerHalf, Map, PlainTree, Prune, PruneWritten, Remove;
    hide CanRemove, RightAnswers, KeepsPages, Blank;
    var s := UnmapLowerHalf(s0);
    LowerHalfUnmapped(s0, v);
    LowerHalfPlain(s0);
    PlainPath(s, UserHalf, v);
    MapInv(s, v, r);
    MapPlain(s, UserHalf, v, r);
    var t := Map(s, v, r).0;
    PlainPath(t, UserHalf, v);
    MapInsertsOnePage(s, v, r, v);
    SmallNotLeaf(t, v.up);
    UnmapLeaf(t, v);
    AfterRemove(t, v);
    UnmapInv(t, v);
    UnmapRemovesOnePage(t, v, v);
    var u := Remove(t, v);
    forall q: Path | PageIn(UserHalf, q) ensures Lookup(u, q) == Miss {
      RemoveWalk(t, v, q);
      MapInsertsOnePage(s, v, r, q);
      LowerHalfUnmapped(s0, q);
    }
    FirstTestFaults(t, u, v.up);
  }

  lemma FirstTestFaults(t: State, u: State, p: Path)
    requires Inv(t) && p.Sub? && InRange(p) && Lookup(t, p).Inner?
    requires forall q: Path :: PageIn(UserHalf, q) ==> Lookup(u, q) == Miss
    ensures PruneWritten(u, t, p).1
  {
    hide Walk, Inv;
    InvTable(t, p);
    SmallMemory(t);
    if Canonical(Address(TableAt(t, p))) { LowAddress(TableAt(t, p)); }
  }

  lemma SmallMemory(s: State)
    requires Inv(s)
    ensures |s.mem| <= MAX_FRAMES
  {
  }

  // ---- whole runs as written ----

  ghost function ExecWritten(s: State, op: PageOp): Outcome
    requires op.v.Sub?
  {
    if op.UnmapOp? then UnmapWritten(s, op.v) else Outcome(Exec(s, op).0, Exec(s, op).1, false)
  }

  // Every operation of the run does, as written, what it should.
  ghost predicate RunAgrees(s: State, ops: seq<PageOp>)
    requires OpsIn(Everywhere, ops)
  {
    ops == [] ||
    (var u, op := RunPages(s, ops[..|ops| - 1]), ops[|ops| - 1];
     RunAgrees(s, ops[..|ops| - 1]) && ExecWritten(u, op) == Outcome(Exec(u, op).0, Exec(u, op).1, false))
  }

  // Every vm_unmap of the run gets the right answers.
  ghost predicate RunRight(s: State, ops: seq<PageOp>)
    requires OpsIn(Everywhere, ops)
  {
    ops == [] ||
    (var u, op := RunPages(s, ops[..|ops| - 1]), ops[|ops| - 1];
     RunRight(s, ops[..|ops| - 1]) && (op.UnmapOp? ==> UnmapRight(u, op.v)))
  }

  /** A run of vm_map, vm_unmap and vm_protect as written is, step by step, the run that refines
      the map, if and only if every vm_unmap in it gets the right answers. */
  lemma {:induction false} RunWrittenExactly(s: State, c: Scope, a: PageMap, ops: seq<PageOp>)
    requires Sound(s, c, a) && OpsIn(c, ops)
    ensures OpsIn(Everywhere, ops)
    ensures RunAgrees(s, ops) <==> RunRight(s, ops)
  {
    hide Sound, Exec, UnmapWritten, UnmapRight, RunPages;
    if ops != [] {
      var before, op := ops[..|ops| - 1], ops[|ops| - 1];
      RunWrittenExactly(s, c, a, before);
      RunRefines(s, c, a, before);
      StepWritten(RunPages(s, before), c, RunMap(s, a, before), op);
    }
  }

  lemma StepWritten(s: State, c: Scope, a: PageMap, op: PageOp)
    requires Sound(s, c, a) && PageIn(c, op.v)
    ensures ExecWritten(s, op) == Outcome(Exec(s, op).0, Exec(s, op).1, false)
      <==> (op.UnmapOp? ==> UnmapRight(s, op.v))
  {
    hide Walk, Inv, PlainTree, UnmapWritten, UnmapRight, Unmap, Map, Protect, Refines;
    if op.UnmapOp? {
      PlainPath(s, c, op.v);
      assert Owned(s, op.v);
      UnmapWrittenExactly(s, op.v);
    }
  }

  // ---- add_memory as written ----

  // Marks and links whatever page the physical address of frame f leads to; the flag tells of a fault.
  function DonateWritten(s: State, f: nat): (State, bool) {
    match AtAddress(s, Address(f))
    case Leaf(g, r) =>
      if r.writable then
        (WithRole(s, f, Free).(mem := Put(Put(s.mem, g, 0, SERIAL), g, 1, FromNat(s.freelist)),
                               freelist := Address(f), free := [f] + s.free), false)
      else (s, true)
    case _ => (s, true)
  }

  function DonateAllWritten(s: State, fs: seq<nat>): (State, bool) {
    if fs == [] then (s, false)
    else
      var (u, fault) := DonateAllWritten(s, fs[..|fs| - 1]);
      if fault then (u, true) else DonateWritten(u, fs[|fs| - 1])
  }

  /** While the bootloader's identity map covers the usable frames for writing, add_memory as written
      fills the list as it should, and leaves the identity map in place. */
  lemma {:induction false} DonateThroughIdentity(s: State, fs: seq<nat>)
    requires Inv(s) && Donatable(s, fs)
    requires forall f :: f in fs ==> AtAddress(s, Address(f)).Leaf? && AtAddress(s, Address(f)).frame == f
                                       && AtAddress(s, Address(f)).rights.writable
    ensures DonateAllWritten(s, fs) == (DonateAll(s, fs), false)
    ensures forall p: nat :: AtAddress(DonateAll(s, fs), p) == AtAddress(s, p)
  {
    hide Inv, Walk, FromNat, Address, PathOf;
    DonateAllInv(s, fs);
    if fs != [] {
      var a, f := fs[..|fs| - 1], fs[|fs| - 1];
      assert fs == a + [f];
      DonatablePart(s, a, [f]);
      assert forall x :: x in a ==> x in fs;
      DonateThroughIdentity(s, a);
      assert AtAddress(DonateAll(s, a), Address(f)) == AtAddress(s, Address(f));
    }
  }
}
