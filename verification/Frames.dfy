/** Physical memory, the free list threaded through its free frames, and the
    invariant that keeps free frames, page tables and data apart. */
module Frames {
  import opened Words

  // ---- physical memory as a value ----

  type Memory = seq<seq<Word>>

  // Word i of frame f; memory that is not installed reads as zero.
  function At(m: Memory, f: nat, i: nat): Word {
    if f < |m| && i < |m[f]| then m[f][i] else ZERO
  }

  function Put(m: Memory, f: nat, i: nat, w: Word): (r: Memory)
    ensures |r| == |m| && forall g: nat :: g < |m| ==> |r[g]| == |m[g]|
    ensures forall g: nat, j: nat ::
      At(r, g, j) == (if g == f && j == i && f < |m| && i < |m[f]| then w else At(m, g, j))
  {
    if f < |m| && i < |m[f]| then m[f := m[f][i := w]] else m
  }

  function Clear(m: Memory, f: nat): (r: Memory)
    ensures |r| == |m| && forall g: nat :: g < |m| ==> |r[g]| == |m[g]|
    ensures forall g: nat, j: nat :: At(r, g, j) == if g == f then ZERO else At(m, g, j)
  {
    if f < |m| then m[f := seq(|m[f]|, _ => ZERO)] else m
  }

  // ---- positions in the tree of page tables ----

  // Root is the level 4 table; Sub(p, i) is what entry i of the table at p points to.
  datatype Path = Root | Sub(up: Path, idx: nat)

  function Depth(p: Path): nat {
    if p.Root? then 0 else Depth(p.up) + 1
  }

  // The level 4 index a position goes through.
  function Top(p: Path): nat {
    if p.Root? then 0 else if p.up.Root? then p.idx else Top(p.up)
  }

  predicate Below(a: Path, p: Path) {
    a == p || (p.Sub? && Below(a, p.up))
  }

  predicate InRange(p: Path) {
    p.Sub? ==> p.idx < WORDS_PER_FRAME && InRange(p.up)
  }

  predicate IsPage(v: Path) {
    Depth(v) == 4 && InRange(v)
  }

  lemma SubFacts(p: Path, i: nat)
    ensures Depth(Sub(p, i)) == Depth(p) + 1
    ensures InRange(Sub(p, i)) <==> i < WORDS_PER_FRAME && InRange(p)
    ensures Top(Sub(p, i)) == if p.Root? then i else Top(p)
  {
  }

  function Page(l4: nat, l3: nat, l2: nat, l1: nat): (v: Path)
    requires l4 < WORDS_PER_FRAME && l3 < WORDS_PER_FRAME && l2 < WORDS_PER_FRAME && l1 < WORDS_PER_FRAME
    ensures IsPage(v) && v.Sub? && Top(v) == l4
  {
    var p1 := Sub(Root, l4);
    var p2 := Sub(p1, l3);
    var p3 := Sub(p2, l2);
    SubFacts(Root, l4);
    SubFacts(p1, l3);
    SubFacts(p2, l2);
    SubFacts(p3, l1);
    Sub(p3, l1)
  }

  // The position of the page that holds virtual address a.
  function PathOf(a: nat): (v: Path)
    ensures IsPage(v) && v.Sub?
  {
    Page(a / 0x80_0000_0000 % 512, a / 0x4000_0000 % 512, a / 0x20_0000 % 512, a / 0x1000 % 512)
  }

  // The lower half of the address space belongs to user programs.
  predicate Lower(p: Path) {
    p.Sub? && Top(p) < 256
  }

  lemma {:induction false} BelowDepth(a: Path, p: Path)
    requires Below(a, p)
    ensures Depth(a) <= Depth(p)
    ensures Depth(a) == Depth(p) ==> a == p
    ensures a.Sub? ==> p.Sub? && Top(a) == Top(p)
  {
    if a != p {
      BelowDepth(a, p.up);
    }
  }

  lemma {:induction false} BelowTransitive(a: Path, b: Path, c: Path)
    requires Below(a, b) && Below(b, c)
    ensures Below(a, c)
  {
    if b != c {
      BelowTransitive(a, b, c.up);
    }
  }

  // ---- the machine state ----

  /** pmem_free tests the alignment of its argument the wrong way round (mem.c:194):
      AsWritten is that test, AsDocumented the one its comment asks for. */
  datatype FreeGuard = AsWritten | AsDocumented

  datatype Config = Config(hhdm: nat, guard: FreeGuard)

  /** What a frame is used for: on the free list, the table or page at a position of
      the tree, or held by somebody else (the kernel image, leaked frames, frame 0). */
  datatype Role = Free | Node(path: Path) | Held

  /** `mem` and `freelist` (a physical address, 0 for NULL) are what the kernel stores; `free`
      and `roles` record what the invariant says about them. */
  datatype State = State(cfg: Config, root: nat, mem: Memory, freelist: nat, free: seq<nat>, roles: seq<Role>)

  function RoleOf(s: State, f: nat): Role {
    if f < |s.roles| then s.roles[f] else Held
  }

  function WithRole(s: State, f: nat, r: Role): (t: State)
    ensures t == s.(roles := t.roles) && |t.roles| == |s.roles|
    ensures forall g: nat :: RoleOf(t, g) == if g == f && f < |s.roles| then r else RoleOf(s, g)
  {
    if f < |s.roles| then s.(roles := s.roles[f := r]) else s
  }

  predicate IsTable(r: Role) {
    r.Node? && Depth(r.path) < 4
  }

  // ---- physical addresses ----

  function Address(f: nat): nat {
    f * PAGE_SIZE
  }

  function FrameAt(p: nat): nat {
    p / PAGE_SIZE
  }

  // The link word of a free frame is the physical address of the next.
  lemma LinkAddress(f: nat)
    requires f < MAX_FRAMES
    ensures ToNat(Pointer(f)) == Address(f) && FromNat(Address(f)) == Pointer(f)
    ensures FrameAt(Address(f)) == f && Address(0) == 0 && Pointer(0) == ZERO
  {
    hide ToNat, FromNat;
    MarkAndPointers(f);
    WordIsUint64(Pointer(f), 0);
  }

  // ---- the invariant ----

  ghost predicate Shape(s: State) {
    && 0 < |s.mem| == |s.roles| <= MAX_FRAMES
    && forall f: nat :: f < |s.mem| ==> |s.mem[f]| == WORDS_PER_FRAME
  }

  function Head(free: seq<nat>): nat {
    if free == [] then 0 else free[0]
  }

  // Free frame number k carries the mark and the address of the next one.
  predicate Linked(m: Memory, free: seq<nat>, k: nat)
    requires k < |free|
  {
    && At(m, free[k], 0) == SERIAL
    && At(m, free[k], 1) == Pointer(if k + 1 < |free| then free[k + 1] else 0)
  }

  ghost predicate Distinct(fs: seq<nat>) {
    forall j: nat, k: nat :: j < k < |fs| ==> fs[j] != fs[k]
  }

  ghost predicate FreeListOk(s: State) {
    && s.freelist == Address(Head(s.free))
    && Distinct(s.free)
    && (forall f: nat :: RoleOf(s, f) == Free <==> f in s.free)
    && (forall k: nat :: k < |s.free| ==> Linked(s.mem, s.free, k))
    // an allocation from the empty list reads and writes frame 0
    && RoleOf(s, 0) == Held && At(s.mem, 0, 1) == ZERO
  }

  // An entry that maps a large page stops the walk at a level 3 or level 2 table.
  predicate MapsLarge(child: Path, e: Word) {
    e.pageSize && (Depth(child) == 2 || Depth(child) == 3)
  }

  // A present entry at position `child` points to the one table recorded for that position.
  // What pages lead to is left open: the bootloader maps free frames and tables as pages, too.
  predicate EntryOk(s: State, child: Path, e: Word) {
    && e.unused0 != 0xF
    && (e.present && !MapsLarge(child, e) && Depth(child) < 4 ==> RoleOf(s, e.frame) == Node(child))
  }

  ghost predicate TreeOk(s: State) {
    && RoleOf(s, s.root) == Node(Root)
    && (forall f: nat :: RoleOf(s, f).Node? ==> Depth(RoleOf(s, f).path) <= 4 && InRange(RoleOf(s, f).path))
    && (forall t: nat, i: nat :: IsTable(RoleOf(s, t)) && i < WORDS_PER_FRAME ==>
          EntryOk(s, Sub(RoleOf(s, t).path, i), At(s.mem, t, i)))
  }

  ghost predicate WellFormed(s: State) {
    Shape(s) && FreeListOk(s) && TreeOk(s)
  }

  // The words of every page table are the same in m as in s.
  ghost predicate SameTables(s: State, m: Memory) {
    forall t: nat, i: nat :: IsTable(RoleOf(s, t)) ==> At(m, t, i) == At(s.mem, t, i)
  }

  // The free list survives any change that leaves its frames alone.
  lemma FreeListFrame(s: State, u: State)
    requires FreeListOk(s) && u.free == s.free && u.freelist == s.freelist
    requires forall f: nat :: RoleOf(u, f) == Free <==> RoleOf(s, f) == Free
    requires forall f: nat, i: nat :: RoleOf(s, f) == Free ==> At(u.mem, f, i) == At(s.mem, f, i)
    requires RoleOf(u, 0) == Held && At(u.mem, 0, 1) == ZERO
    ensures FreeListOk(u)
  {
    forall k: nat | k < |u.free| ensures Linked(u.mem, u.free, k) {
      assert Linked(s.mem, s.free, k);
      assert RoleOf(s, s.free[k]) == Free by { assert s.free[k] in s.free; }
    }
  }

  // ---- pmem_alloc ----

  // Takes the first free frame and wipes its mark; 0 when there is none.
  function Alloc(s: State): (State, nat) {
    if s.freelist + s.cfg.hhdm != 0 then
      var f := FrameAt(s.freelist);
      var t := s.(mem := Put(s.mem, f, 0, ZERO), freelist := ToNat(At(s.mem, f, 1)),
                  free := if s.free == [] then [] else s.free[1..]);
      (WithRole(t, f, Held), f)
    else
      (s, 0)
  }

  lemma FreeFacts(s: State)
    requires WellFormed(s)
    ensures forall f :: f in s.free ==> 0 < f < |s.mem| && RoleOf(s, f) == Free
    ensures s.root < |s.mem| && 0 < s.root && s.root !in s.free
  {
    assert RoleOf(s, s.root) != Held && RoleOf(s, s.root) != Free;
    forall f | f in s.free ensures 0 < f < |s.mem| {
      assert RoleOf(s, f) == Free;
    }
  }

  // What it takes, in a state that satisfies the invariant.
  lemma AllocTakes(s: State)
    requires WellFormed(s)
    ensures var (t, f) := Alloc(s);
      && f == Head(s.free) && t.roles == WithRole(s, f, Held).roles
      && t == s.(mem := t.mem, freelist := t.freelist, free := t.free, roles := t.roles)
      && t.free == (if s.free == [] then [] else s.free[1..]) && t.freelist == Address(Head(t.free))
      && (t.mem == s.mem || t.mem == Put(s.mem, f, 0, ZERO)) && (s.free != [] ==> t.mem == Put(s.mem, f, 0, ZERO))
  {
    hide ToNat, TreeOk, Put;
    FreeFacts(s);
    LinkAddress(0);
    if s.free != [] {
      assert s.free[0] in s.free;
      LinkAddress(s.free[0]);
      assert Linked(s.mem, s.free, 0);
      if |s.free| > 1 {
        assert s.free[1] in s.free;
        LinkAddress(s.free[1]);
      }
      assert Address(s.free[0]) > 0;
    } else {
      assert WithRole(s, 0, Held).roles == s.roles;
    }
  }

  lemma AllocSound(s: State)
    requires WellFormed(s)
    ensures var (t, f) := Alloc(s);
      && WellFormed(t) && SameTables(s, t.mem)
      && (s.free == [] ==> f == 0 && t.free == [] && t.roles == s.roles)
      && (s.free != [] ==>
            && f == s.free[0] && t.free == s.free[1..] && 0 < f < |s.mem|
            && t == WithRole(s, f, Held).(mem := t.mem, freelist := t.freelist, free := t.free))
      && t.root == s.root && t.cfg == s.cfg
      && (s.free != [] ==> At(t.mem, f, 0) == ZERO)
      && (forall g: nat, i: nat :: g != f || i != 0 ==> At(t.mem, g, i) == At(s.mem, g, i))
  {
    hide Alloc, Address;
    FreeFacts(s);
    AllocTakes(s);
    var (t, f) := Alloc(s);
    assert s.free != [] ==> s.free[0] in s.free;
    assert s.free == [] ==> t.roles == s.roles;
    assert FreeListOk(t) by { AllocList(s); }
    assert forall g: nat :: RoleOf(t, g).Node? ==> RoleOf(t, g) == RoleOf(s, g);
    forall u: nat, i: nat | IsTable(RoleOf(t, u)) && i < WORDS_PER_FRAME
      ensures EntryOk(t, Sub(RoleOf(t, u).path, i), At(t.mem, u, i))
    {
      assert EntryOk(s, Sub(RoleOf(s, u).path, i), At(s.mem, u, i));
    }
  }

  lemma AllocList(s: State)
    requires WellFormed(s)
    ensures FreeListOk(Alloc(s).0)
  {
    hide Alloc, Address, TreeOk;
    AllocTakes(s);
    FreeFacts(s);
    var (t, f) := Alloc(s);
    if s.free != [] {
      assert forall k: nat :: k < |t.free| ==> t.free[k] == s.free[k + 1];
      forall k: nat | k < |t.free| ensures Linked(t.mem, t.free, k) {
        assert Linked(s.mem, s.free, k + 1);
        if k + 1 < |t.free| { assert t.free[k + 1] == s.free[k + 2]; }
      }
      forall g: nat ensures RoleOf(t, g) == Free <==> g in t.free {
        assert g in s.free <==> g == s.free[0] || g in s.free[1..];
        if g in t.free {
          var k: nat :| k < |t.free| && t.free[k] == g;
          assert s.free[k + 1] == g && s.free[0] != g;
        }
      }
    }
  }

  // ---- pmem_free ----

  function Skips(cfg: Config, p: nat): bool {
    if cfg.guard == AsWritten then p % PAGE_SIZE == 0 else p % PAGE_SIZE != 0
  }

  // Puts frame f at the front of the list unless it already carries the mark.
  function Release(s: State, f: nat): State {
    if Skips(s.cfg, Address(f)) || At(s.mem, f, 0) == SERIAL then s
    else
      WithRole(s, f, Free).(mem := Put(Put(s.mem, f, 0, SERIAL), f, 1, FromNat(s.freelist)),
                            freelist := Address(f), free := [f] + s.free)
  }

  lemma ReleaseSound(s: State, f: nat)
    requires WellFormed(s)
    requires 0 < f < |s.mem| && !RoleOf(s, f).Node?
    ensures var t := Release(s, f);
      && WellFormed(t) && SameTables(s, t.mem) && t.root == s.root && t.cfg == s.cfg
      && (s.cfg.guard == AsWritten || At(s.mem, f, 0) == SERIAL ==> t == s)
      && (RoleOf(s, f) == Free ==> t == s)
      && (s.cfg.guard == AsDocumented && At(s.mem, f, 0) != SERIAL ==>
            && t.free == [f] + s.free
            && t == WithRole(s, f, Free).(mem := t.mem, freelist := Address(f), free := t.free))
      && (forall g: nat, i: nat :: g != f ==> At(t.mem, g, i) == At(s.mem, g, i))
  {
    hide Address, FromNat;
    FreeFacts(s);
    var t := Release(s, f);
    Aligned(s.cfg, f);
    if RoleOf(s, f) == Free {
      var k: nat :| k < |s.free| && s.free[k] == f;
      assert Linked(s.mem, s.free, k);
    } else if t != s {
      assert FreeListOk(t) by { ReleaseList(s, f); }
      forall u: nat, i: nat | IsTable(RoleOf(t, u)) && i < WORDS_PER_FRAME
        ensures EntryOk(t, Sub(RoleOf(t, u).path, i), At(t.mem, u, i))
      {
        assert EntryOk(s, Sub(RoleOf(s, u).path, i), At(s.mem, u, i));
      }
    }
  }

  /** What pmem_free writes into the frame: the mark and the address of the frame that was first
      on the list, and no other word. */
  lemma ReleaseWords(s: State, f: nat)
    requires WellFormed(s) && 0 < f < |s.mem| && s.cfg.guard == AsDocumented && At(s.mem, f, 0) != SERIAL
    ensures var t := Release(s, f);
      && At(t.mem, f, 0) == SERIAL && ToNat(At(t.mem, f, 1)) == Head(s.free) * PAGE_SIZE
      && t.freelist == f * PAGE_SIZE
      && forall g: nat, i: nat :: g != f || i > 1 ==> At(t.mem, g, i) == At(s.mem, g, i)
  {
    hide FromNat, ToNat, SERIAL;
    HeadInMemory(s);
    LinkAddress(Head(s.free));
    Aligned(s.cfg, f);
  }

  lemma Aligned(cfg: Config, f: nat)
    ensures Skips(cfg, Address(f)) <==> cfg.guard == AsWritten
  {
    assert Address(f) % PAGE_SIZE == 0;
  }

  lemma ReleaseList(s: State, f: nat)
    requires WellFormed(s) && 0 < f < |s.mem| && RoleOf(s, f) == Held && Release(s, f) != s
    ensures FreeListOk(Release(s, f))
  {
    hide Address, FromNat, TreeOk, FreeListOk;
    FreeFacts(s);
    HeadInMemory(s);
    LinkAddress(Head(s.free));
    PushList(s, Release(s, f), f);
  }

  lemma HeadInMemory(s: State)
    requires WellFormed(s)
    ensures Head(s.free) < |s.mem| && s.freelist == Address(Head(s.free))
  {
    FreeFacts(s);
    assert s.free != [] ==> s.free[0] in s.free;
  }

  // A marked and linked frame can be put in front of the list.
  lemma PushList(s: State, t: State, f: nat)
    requires FreeListOk(s) && 0 < f && RoleOf(s, f) == Held
    requires t.free == [f] + s.free && t.freelist == Address(f)
    requires forall g: nat :: RoleOf(t, g) == if g == f then Free else RoleOf(s, g)
    requires At(t.mem, f, 0) == SERIAL && At(t.mem, f, 1) == Pointer(Head(s.free))
    requires forall g: nat, i: nat :: g != f ==> At(t.mem, g, i) == At(s.mem, g, i)
    ensures FreeListOk(t)
  {
    hide Address;
    assert f !in s.free;
    forall k: nat | k < |t.free| ensures Linked(t.mem, t.free, k) {
      if k > 0 {
        assert t.free[k] == s.free[k - 1];
        assert Linked(s.mem, s.free, k - 1);
        assert s.free[k - 1] in s.free;
      } else if s.free != [] {
        assert t.free[1] == s.free[0];
      }
    }
    assert Distinct(t.free);
    forall g: nat ensures RoleOf(t, g) == Free <==> g in t.free {
      assert g in t.free <==> g == f || g in s.free;
    }
  }
}
