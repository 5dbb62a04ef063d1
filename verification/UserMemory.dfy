/** Memory as a user program sees it: bytes at virtual addresses of the lower half. */
module UserMemory {
  import opened Words
  import opened Frames
  import opened Translation
  import opened Mapping
  import opened Unmapping
  import opened LowerHalf
  import opened Changes
  import opened PageRuns

  const USER_PAGES := 0x8_0000_0000 // 2^47 bytes

  // Page number n of the address space.
  function VPage(n: nat): (v: Path)
    ensures IsPage(v) && v.Sub?
  {
    Page(n / 0x800_0000 % 512, n / 0x4_0000 % 512, n / 0x200 % 512, n % 512)
  }

  lemma PathOfPage(a: nat)
    ensures PathOf(a) == VPage(a / PAGE_SIZE)
  {
    var n := a / PAGE_SIZE;
    assert a / 0x80_0000_0000 == n / 0x800_0000;
    assert a / 0x4000_0000 == n / 0x4_0000;
    assert a / 0x20_0000 == n / 0x200;
  }

  lemma VPageUser(n: nat)
    requires n < USER_PAGES
    ensures PageIn(UserHalf, VPage(n))
  {
    assert n / 0x800_0000 < 256;
  }

  // The number spelled by the four indices of a page.
  function PageNumber(v: Path): nat
    requires IsPage(v)
  {
    UnrollPage(v);
    v.up.up.up.idx * 0x800_0000 + v.up.up.idx * 0x4_0000 + v.up.idx * 0x200 + v.idx
  }

  lemma UnrollPage(v: Path)
    requires IsPage(v)
    ensures v.Sub? && v.up.Sub? && v.up.up.Sub? && v.up.up.up.Sub? && v.up.up.up.up.Root?
    ensures v.idx < 512 && v.up.idx < 512 && v.up.up.idx < 512 && v.up.up.up.idx < 512
    ensures Lower(v) <==> v.up.up.up.idx < 256
  {
    assert Depth(v.up) == 3 && Depth(v.up.up) == 2 && Depth(v.up.up.up) == 1;
    assert InRange(v.up) && InRange(v.up.up) && InRange(v.up.up.up);
    assert Depth(v.up.up.up.up) == 0;
    assert Top(v.up.up.up) == v.up.up.up.idx;
    assert Top(v.up.up) == Top(v.up.up.up);
    assert Top(v.up) == Top(v.up.up) && Top(v) == Top(v.up);
  }

  lemma PageNumberOf(n: nat)
    requires n < USER_PAGES
    ensures PageNumber(VPage(n)) == n
  {
    var a := n / 0x200;
    var b := n / 0x4_0000;
    assert b == a / 512 && n / 0x800_0000 == b / 512;
    assert n / 0x800_0000 < 256;
  }

  lemma VPageInjective(a: nat, b: nat)
    requires a < USER_PAGES && b < USER_PAGES && VPage(a) == VPage(b)
    ensures a == b
  {
    PageNumberOf(a);
    PageNumberOf(b);
  }

  // What the walk finds for page n.
  function Seen(s: State, n: nat): Hit {
    Lookup(s, VPage(n))
  }

  // No walk has changed.
  ghost predicate SameWalks(s: State, t: State) {
    forall q: Path :: InRange(q) ==> Lookup(t, q) == Lookup(s, q)
  }

  lemma SameWalksSeen(s: State, t: State, x: nat)
    requires SameWalks(s, t)
    ensures Seen(t, x / PAGE_SIZE) == Seen(s, x / PAGE_SIZE)
    ensures Mapped(t, x) == Mapped(s, x) && Writable(t, x) == Writable(s, x)
  {
  }

  lemma SameWalksSelf(s: State)
    ensures SameWalks(s, s)
  {
  }

  lemma SameWalksTransitive(s: State, u: State, t: State)
    requires SameWalks(s, u) && SameWalks(u, t)
    ensures SameWalks(s, t)
  {
  }

  // The upper half is translated as before.
  ghost predicate SameUpper(s: State, t: State) {
    forall q: Path :: IsPage(q) && !Lower(q) ==> Lookup(t, q) == Lookup(s, q)
  }

  // ---- what is not the user's ----

  // A frame held by others, or a page of the upper half.
  predicate Kernels(r: Role) {
    r == Held || (r.Node? && Depth(r.path) == 4 && !Lower(r.path))
  }

  ghost predicate KeepsKernel(s: State, u: State) {
    forall f: nat :: Kernels(RoleOf(s, f)) ==> RoleOf(u, f) == RoleOf(s, f) && SameFrame(s, u, f)
  }

  lemma KernelTransitive(s: State, u: State, w: State)
    ensures KeepsKernel(s, s)
    ensures KeepsKernel(s, u) && KeepsKernel(u, w) ==> KeepsKernel(s, w)
  {
    if KeepsKernel(s, u) && KeepsKernel(u, w) {
      forall f: nat | Kernels(RoleOf(s, f)) ensures RoleOf(w, f) == RoleOf(s, f) && SameFrame(s, w, f) {
        assert SameFrame(s, u, f) && SameFrame(u, w, f);
      }
    }
  }

  lemma HeldAndPages(s: State, u: State)
    requires KeepsHeld(s, u) && KeepsPages(s, u)
    ensures KeepsKernel(s, u)
  {
    forall f: nat | Kernels(RoleOf(s, f)) ensures RoleOf(u, f) == RoleOf(s, f) && SameFrame(s, u, f) {
      assert RoleOf(s, f) == Held ==> SameFrame(s, u, f);
    }
  }

  lemma MapKeepsKernel(s: State, v: Path, r: Rights)
    requires Inv(s) && IsPage(v) && v.Sub? && SmallPath(s, v)
    ensures KeepsKernel(s, Map(s, v, r).0)
  {
    hide Inv, Map, KeepsHeld, KeepsPages, KeepsKernel, Walk, Blank;
    MapInv(s, v, r);
    MapKeepsHeld(s, v, r);
    HeldAndPages(s, Map(s, v, r).0);
  }

  lemma ProtectKeepsKernel(s: State, v: Path, r: Rights)
    requires Inv(s) && IsPage(v) && v.Sub? && SmallPath(s, v)
    ensures KeepsKernel(s, Protect(s, v, r).0)
  {
    hide Inv, Protect, KeepsHeld, KeepsPages, KeepsKernel, Walk;
    ProtectInv(s, v, r);
    ProtectChanges(s, v, r);
    HeldAndPages(s, Protect(s, v, r).0);
  }

  lemma LowerHalfKeepsKernel(s: State)
    requires Inv(s)
    ensures KeepsKernel(s, UnmapLowerHalf(s))
  {
    hide Inv, UnmapLowerHalf, Walk, KeepsHeld;
    var u := UnmapLowerHalf(s);
    LowerHalfKeepsHeld(s);
    forall f: nat | Kernels(RoleOf(s, f)) ensures RoleOf(u, f) == RoleOf(s, f) && SameFrame(s, u, f) {
      if RoleOf(s, f) == Held {
        HeldFrame(s, u, f);
      } else {
        if f in LowerTables(s) { ListedTable(s, f); }
        UpperPageStays(s, f);
        RootRole(s);
        RootTable(s);
        forall i: nat ensures At(u.mem, f, i) == At(s.mem, f, i) { LowerHalfChanges(s, f, i); }
      }
    }
  }

  lemma HeldFrame(s: State, u: State, f: nat)
    requires KeepsHeld(s, u) && RoleOf(s, f) == Held
    ensures RoleOf(u, f) == Held && SameFrame(s, u, f)
  {
  }

  lemma RootTable(s: State)
    requires Inv(s)
    ensures IsTable(RoleOf(s, s.root))
  {
  }

  // ---- bytes ----

  function ByteAt(m: Memory, f: nat, o: nat): Byte {
    GetByte(At(m, f, o / 8), o % 8)
  }

  // The byte a program reads at virtual address a.
  function VByte(s: State, a: nat): Byte {
    match Seen(s, a / PAGE_SIZE)
    case Leaf(f, _) => ByteAt(s.mem, f, a % PAGE_SIZE)
    case _ => 0
  }

  // A store through the page tables; it faults, and stores nothing, unless the page can be
  // written (freelist_init makes that hold for the kernel too).
  function StoreByte(s: State, a: nat, b: Byte): State {
    match Seen(s, a / PAGE_SIZE)
    case Leaf(f, r) =>
      var o := a % PAGE_SIZE;
      if r.writable then s.(mem := Put(s.mem, f, o / 8, SetByte(At(s.mem, f, o / 8), o % 8, b))) else s
    case _ => s
  }

  ghost predicate User(s: State) {
    Inv(s) && PlainTree(s, UserHalf) && PagesOwned(s, UserHalf)
  }

  predicate Mapped(s: State, a: nat) {
    a / PAGE_SIZE < USER_PAGES && Seen(s, a / PAGE_SIZE).Leaf?
  }

  predicate Writable(s: State, a: nat) {
    Mapped(s, a) && Seen(s, a / PAGE_SIZE).rights.writable
  }

  lemma UserFrame(s: State, n: nat)
    requires User(s) && n < USER_PAGES && Seen(s, n).Leaf?
    ensures var f := Seen(s, n).frame;
      RoleOf(s, f) == Node(VPage(n)) && 0 < f < |s.mem| && |s.mem[f]| == WORDS_PER_FRAME
  {
    var v := VPage(n);
    VPageUser(n);
    assert Owned(s, v);
  }

  // Writing to a page changes no table, no free frame and no translation.
  lemma PageWrite(s: State, n: nat, i: nat, w: Word)
    requires User(s) && n < USER_PAGES && Seen(s, n).Leaf?
    ensures var t := s.(mem := Put(s.mem, Seen(s, n).frame, i, w));
      && User(t) && KeepsKernel(s, t)
      && forall q: Path :: InRange(q) ==> Lookup(t, q) == Lookup(s, q)
  {
    UserFrame(s, n);
    var f := Seen(s, n).frame;
    var t := s.(mem := Put(s.mem, f, i, w));
    assert FreeListOk(t) by { FreeListFrame(s, t); }
    assert TreeOk(t) && PlainTree(t, UserHalf) by {
      forall x: nat, j: nat | IsTable(RoleOf(t, x)) && j < WORDS_PER_FRAME
        ensures EntryOk(t, Sub(RoleOf(t, x).path, j), At(t.mem, x, j))
        ensures PlainEntry(UserHalf, Sub(RoleOf(t, x).path, j), At(t.mem, x, j))
      {
        assert EntryOk(s, Sub(RoleOf(s, x).path, j), At(s.mem, x, j));
        assert PlainEntry(UserHalf, Sub(RoleOf(s, x).path, j), At(s.mem, x, j));
      }
    }
    forall q: Path | InRange(q) ensures Lookup(t, q) == Lookup(s, q) {
      WalkSame(s, t.mem, q);
    }
    forall g: nat | RoleOf(t, g).Node? ensures Found(t, RoleOf(t, g).path, g) {
      assert Found(s, RoleOf(s, g).path, g);
    }
    forall v: Path | PageIn(UserHalf, v) ensures Owned(t, v) {
      assert Owned(s, v);
    }
  }

  /** A store is seen at its own address and nowhere else. */
  lemma StoreByteEffect(s: State, a: nat, b: Byte, x: nat)
    requires User(s) && a / PAGE_SIZE < USER_PAGES
    ensures var t := StoreByte(s, a, b);
      && User(t) && t == s.(mem := t.mem) && KeepsKernel(s, t)
      && SameWalks(s, t)
      && (Mapped(s, x) ==> VByte(t, x) == if x == a && Writable(s, a) then b else VByte(s, x))
      && (forall f: nat, i: nat :: !Mapped(s, a) || f != Seen(s, a / PAGE_SIZE).frame ==>
            At(t.mem, f, i) == At(s.mem, f, i))
  {
    hide User, SetByte, GetByte, Walk, VPage, Put, At, KeepsKernel;
    if !Writable(s, a) {
      SameWalksSelf(s);
      KernelTransitive(s, s, s);
    } else {
      var n, o := a / PAGE_SIZE, a % PAGE_SIZE;
      var f := Seen(s, n).frame;
      PageWrite(s, n, o / 8, SetByte(At(s.mem, f, o / 8), o % 8, b));
      if Mapped(s, x) { StoredAt(s, a, b, x); }
    }
  }

  lemma StoredAt(s: State, a: nat, b: Byte, x: nat)
    requires User(s) && Writable(s, a) && Mapped(s, x)
    requires Seen(StoreByte(s, a, b), x / PAGE_SIZE) == Seen(s, x / PAGE_SIZE)
    ensures VByte(StoreByte(s, a, b), x) == if x == a then b else VByte(s, x)
  {
    hide User, SetByte, GetByte, Walk, VPage, Seen;
    var n, o := a / PAGE_SIZE, a % PAGE_SIZE;
    UserFrame(s, n);
    UserFrame(s, x / PAGE_SIZE);
    var f, g := Seen(s, n).frame, Seen(s, x / PAGE_SIZE).frame;
    assert |s.mem[f]| == WORDS_PER_FRAME;
    if g == f {
      VPageInjective(n, x / PAGE_SIZE);
      StoredByte(At(s.mem, f, o / 8), o, b, x % PAGE_SIZE);
    }
  }

  lemma StoredByte(w: Word, o: nat, b: Byte, y: nat)
    ensures y / 8 == o / 8 ==> GetByte(SetByte(w, o % 8, b), y % 8) == if y == o then b else GetByte(w, y % 8)
  {
  }

  // ---- vm_map, vm_protect over ranges of pages ----

  // Maps pages first .. first + k; the result tells whether every vm_map succeeded.
  function MapPages(s: State, first: nat, k: nat, r: Rights): (State, bool) {
    if k == 0 then (s, true)
    else
      var (u, all) := MapPages(s, first, k - 1, r);
      var (t, ok) := Map(u, VPage(first + k - 1), r);
      (t, all && ok)
  }

  function ProtectPages(s: State, first: nat, k: nat, r: Rights): State {
    if k == 0 then s else Protect(ProtectPages(s, first, k - 1, r), VPage(first + k - 1), r).0
  }

  // The bytes of page n are as they were, or as they should be.
  ghost predicate SameBytes(s: State, t: State, n: nat) {
    forall a: nat :: a / PAGE_SIZE == n ==> VByte(t, a) == VByte(s, a)
  }

  ghost predicate ZeroPage(t: State, n: nat) {
    forall a: nat :: a / PAGE_SIZE == n ==> VByte(t, a) == 0
  }

  lemma BlankBytes(k: nat)
    ensures GetByte(ZERO, k) == 0
  {
    assert Flags(ZERO) == [false, false, false, false, false, false, false, false];
    assert FromBits([false, false, false, false]) == 0;
    assert ToNat(ZERO) == 0;
    ZeroBytes(k);
  }

  lemma {:induction false} ZeroBytes(k: nat)
    ensures NatByte(0, k) == 0
  {
    if k > 0 { ZeroBytes(k - 1); }
  }

  // One vm_map of a user page.
  lemma MapUserPage(s: State, n: nat, r: Rights, m: nat)
    requires User(s) && n < USER_PAGES && m < USER_PAGES
    ensures var (t, ok) := Map(s, VPage(n), r);
      && User(t) && t.root == s.root && t.cfg == s.cfg && SameUpper(s, t) && KeepsKernel(s, t)
      && (!ok || m != n ==> Seen(t, m) == Seen(s, m) && SameBytes(s, t, m))
      && (ok ==> Seen(s, n) == Miss && Seen(t, n).Leaf? && Seen(t, n).rights == r && ZeroPage(t, n))
  {
    hide Inv, PlainTree, PagesOwned, Map, KeepsPages, KeepsKernel, Blank, Lower, Walk, VPage;
    var v := VPage(n);
    VPageUser(n);
    PlainPath(s, UserHalf, v);
    MapPlain(s, UserHalf, v, r);
    MapOwned(s, UserHalf, v, r);
    MapKeepsKernel(s, v, r);
    MapInv(s, v, r);
    UserUp(s, v);
    var (t, ok) := Map(s, v, r);
    forall q: Path | IsPage(q) && !Lower(q) ensures Lookup(t, q) == Lookup(s, q) {
      MapInsertsOnePage(s, v, r, q);
    }
    if ok {
      MapInsertsOnePage(s, v, r, v);
      BlankPage(t, n);
    }
    if !ok || m != n {
      if m != n && VPage(m) == v { VPageInjective(m, n); }
      MapInsertsOnePage(s, v, r, VPage(m));
      KeptBytes(s, t, m);
    }
  }

  lemma UserUp(s: State, v: Path)
    requires User(s) && PageIn(UserHalf, v)
    ensures PathRights(s, v.up) == FULL
    ensures forall r: Rights :: Meet(FULL, r) == r
  {
    ScopeUp(UserHalf, v);
    PlainPathRights(s, UserHalf, v.up);
  }

  lemma BlankPage(t: State, n: nat)
    requires Seen(t, n).Leaf? && Blank(t.mem, Seen(t, n).frame)
    ensures ZeroPage(t, n)
  {
    forall a: nat | a / PAGE_SIZE == n ensures VByte(t, a) == 0 {
      BlankBytes(a % PAGE_SIZE % 8);
    }
  }

  lemma KeptBytes(s: State, t: State, n: nat)
    requires User(s) && n < USER_PAGES && KeepsPages(s, t) && Seen(t, n) == Seen(s, n)
    ensures SameBytes(s, t, n)
  {
    if Seen(s, n).Leaf? {
      UserFrame(s, n);
    }
  }

  // A range of pages, all freshly mapped.
  lemma {:induction false} MapPagesEffect(s: State, first: nat, k: nat, r: Rights, m: nat)
    requires User(s) && first + k <= USER_PAGES && m < USER_PAGES
    ensures var (t, all) := MapPages(s, first, k, r);
      && User(t) && t.root == s.root && t.cfg == s.cfg && SameUpper(s, t) && KeepsKernel(s, t)
      && (!(first <= m < first + k) ==> Seen(t, m) == Seen(s, m) && SameBytes(s, t, m))
      && (all && first <= m < first + k ==>
            Seen(s, m) == Miss && Seen(t, m).Leaf? && Seen(t, m).rights == r && ZeroPage(t, m))
  {
    hide User, Map, ZeroPage, Seen, VPage, KeepsKernel;
    KernelTransitive(s, MapPages(s, first, if k > 0 then k - 1 else 0, r).0, MapPages(s, first, k, r).0);
    if k > 0 {
      MapPagesEffect(s, first, k - 1, r, m);
      MapUserPage(MapPages(s, first, k - 1, r).0, first + k - 1, r, m);
      SameZero(MapPages(s, first, k - 1, r).0, MapPages(s, first, k, r).0, m);
    }
  }

  lemma SameZero(s: State, t: State, m: nat)
    ensures SameBytes(s, t, m) && ZeroPage(s, m) ==> ZeroPage(t, m)
  {
  }

  lemma ProtectUserPage(s: State, n: nat, r: Rights, m: nat)
    requires User(s) && n < USER_PAGES && m < USER_PAGES
    ensures var (t, ok) := Protect(s, VPage(n), r);
      && User(t) && t == s.(mem := t.mem) && SameUpper(s, t) && KeepsKernel(s, t)
      && (ok <==> Seen(s, n).Leaf?)
      && Seen(t, m) == (if m == n && ok then Leaf(Seen(s, m).frame, r) else Seen(s, m))
      && SameBytes(s, t, m)
  {
    hide Inv, PlainTree, PagesOwned, Protect, KeepsPages, KeepsKernel, Lower, Walk, VPage;
    var v := VPage(n);
    VPageUser(n);
    PlainPath(s, UserHalf, v);
    ProtectPlain(s, UserHalf, v, r);
    ProtectOwned(s, UserHalf, v, r);
    ProtectKeepsKernel(s, v, r);
    ProtectInv(s, v, r);
    UserUp(s, v);
    var t := Protect(s, v, r).0;
    forall q: Path | IsPage(q) && !Lower(q) ensures Lookup(t, q) == Lookup(s, q) {
      ProtectWalk(s, v, r, q);
    }
    ProtectWalk(s, v, r, VPage(m));
    if m != n && VPage(m) == v { VPageInjective(m, n); }
    ProtectedBytes(s, t, m);
  }

  lemma ProtectedBytes(s: State, t: State, n: nat)
    requires User(s) && n < USER_PAGES && KeepsPages(s, t)
    requires var h, g := Seen(s, n), Seen(t, n); h == g || (h.Leaf? && g.Leaf? && h.frame == g.frame)
    ensures SameBytes(s, t, n)
  {
    if Seen(s, n).Leaf? {
      UserFrame(s, n);
    }
  }

  lemma {:induction false} ProtectPagesEffect(s: State, first: nat, k: nat, r: Rights, m: nat)
    requires User(s) && first + k <= USER_PAGES && m < USER_PAGES
    ensures var t := ProtectPages(s, first, k, r);
      && User(t) && t == s.(mem := t.mem) && SameUpper(s, t) && KeepsKernel(s, t)
      && Seen(t, m) == (if first <= m < first + k && Seen(s, m).Leaf? then Leaf(Seen(s, m).frame, r) else Seen(s, m))
      && SameBytes(s, t, m)
  {
    hide User, Protect, Seen, VPage, KeepsKernel;
    KernelTransitive(s, ProtectPages(s, first, if k > 0 then k - 1 else 0, r), ProtectPages(s, first, k, r));
    if k > 0 {
      ProtectPagesEffect(s, first, k - 1, r, m);
      ProtectUserPage(ProtectPages(s, first, k - 1, r), first + k - 1, r, m);
    }
  }

  // ---- memcpy to user memory ----

  // The first k bytes copied to address a and on.
  function CopyBytes(s: State, a: nat, bytes: seq<Byte>, k: nat): State
    requires k <= |bytes|
  {
    if k == 0 then s else StoreByte(CopyBytes(s, a, bytes, k - 1), a + k - 1, bytes[k - 1])
  }

  lemma {:induction false} CopyBytesEffect(s: State, a: nat, bytes: seq<Byte>, k: nat, x: nat)
    requires User(s) && k <= |bytes| && a + k <= USER_PAGES * PAGE_SIZE
    ensures var t := CopyBytes(s, a, bytes, k);
      && User(t) && t == s.(mem := t.mem) && KeepsKernel(s, t)
      && SameWalks(s, t)
      && (Mapped(s, x) ==> VByte(t, x) == if a <= x < a + k && Writable(s, x) then bytes[x - a] else VByte(s, x))
  {
    hide User, StoreByte, VByte, Walk, Seen, SameWalks, Mapped, Writable, KeepsKernel;
    SameWalksSelf(s);
    KernelTransitive(s, CopyBytes(s, a, bytes, if k > 0 then k - 1 else 0), CopyBytes(s, a, bytes, k));
    if k > 0 {
      CopyBytesEffect(s, a, bytes, k - 1, x);
      var u := CopyBytes(s, a, bytes, k - 1);
      SameWalksSeen(s, u, a + k - 1);
      SameWalksSeen(s, u, x);
      StoreByteEffect(u, a + k - 1, bytes[k - 1], x);
      SameWalksTransitive(s, u, CopyBytes(s, a, bytes, k));
    }
  }
}
