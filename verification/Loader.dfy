/** Loading a program: sys_exec empties the user half and run_program maps, fills and
    protects the segments of an ELF file and a stack. */
module Loader {
  import opened Words
  import opened Frames
  import opened Translation
  import opened Mapping
  import opened LowerHalf
  import opened PageRuns
  import opened UserMemory
  import opened Machine

  const PT_LOAD := 1
  const USER_STACK := 0x700_0000_0000
  const STACK_PAGES := 8
  const RW := Rights(true, true, false)

  // A program header; run_program does not read filesz.
  datatype Phdr = Phdr(ptype: nat, flags: nat, offset: nat, vaddr: nat, filesz: nat, memsz: nat)

  predicate Loadable(h: Phdr) {
    h.ptype == PT_LOAD && h.memsz != 0
  }

  function First(h: Phdr): nat {
    h.vaddr / PAGE_SIZE
  }

  // One page more than the bytes need when they end on a page boundary.
  function Count(h: Phdr): nat {
    (h.vaddr + h.memsz - h.vaddr / PAGE_SIZE * PAGE_SIZE) / PAGE_SIZE + 1
  }

  predicate Covers(h: Phdr, m: nat) {
    Loadable(h) && First(h) <= m < First(h) + Count(h)
  }

  function SegmentRights(h: Phdr): Rights {
    Rights(h.flags / 4 % 2 == 1, h.flags / 2 % 2 == 1, h.flags % 2 == 1)
  }

  // The header lies in the user half, j*PAGE_SIZE fits an int, and its bytes are readable
  // where the file is in memory.
  predicate Fits(h: Phdr, file: seq<Byte>) {
    Loadable(h) ==>
      First(h) + Count(h) <= USER_PAGES && Count(h) <= 0x8_0000 && h.offset + h.memsz <= |file|
  }

  predicate AllFit(hs: seq<Phdr>, file: seq<Byte>) {
    forall i: nat :: i < |hs| ==> Fits(hs[i], file)
  }

  function Bytes(h: Phdr, file: seq<Byte>): seq<Byte>
    requires Fits(h, file) && Loadable(h)
  {
    file[h.offset..h.offset + h.memsz]
  }

  // ---- as functions on states; the flag tells whether every vm_map succeeded ----

  function LoadSegment(s: State, file: seq<Byte>, h: Phdr): (State, bool)
    requires Fits(h, file)
  {
    if !Loadable(h) then (s, true)
    else
      var (u, all) := MapPages(s, First(h), Count(h), RW);
      (ProtectPages(CopyBytes(u, h.vaddr, Bytes(h, file), h.memsz), First(h), Count(h), SegmentRights(h)), all)
  }

  function LoadSegments(s: State, file: seq<Byte>, hs: seq<Phdr>, n: nat): (State, bool)
    requires n <= |hs| && AllFit(hs, file)
  {
    if n == 0 then (s, true)
    else
      var (u, all) := LoadSegments(s, file, hs, n - 1);
      var (t, ok) := LoadSegment(u, file, hs[n - 1]);
      (t, all && ok)
  }

  function Load(s: State, file: seq<Byte>, hs: seq<Phdr>): (State, bool)
    requires AllFit(hs, file)
  {
    var (u, all) := LoadSegments(s, file, hs, |hs|);
    var (t, ok) := MapPages(u, USER_STACK / PAGE_SIZE, STACK_PAGES, RW);
    (t, all && ok)
  }

  // ---- what they do ----

  // The bytes of a segment lie in its pages.
  lemma BytesCovered(h: Phdr, x: nat)
    requires Loadable(h) && h.vaddr <= x < h.vaddr + h.memsz
    ensures Covers(h, x / PAGE_SIZE)
  {
    assert x / PAGE_SIZE >= h.vaddr / PAGE_SIZE;
    var base := h.vaddr / PAGE_SIZE * PAGE_SIZE;
    assert (x - base) / PAGE_SIZE == x / PAGE_SIZE - h.vaddr / PAGE_SIZE;
  }

  // The byte that belongs at address a of a segment's pages.
  function SegmentByte(h: Phdr, file: seq<Byte>, a: nat): Byte
    requires Fits(h, file) && Loadable(h)
  {
    if h.vaddr <= a < h.vaddr + h.memsz then file[h.offset + (a - h.vaddr)] else 0
  }

  // Page m is mapped with the rights of the header (bit 2 of its flags gives the user access, bit
  // 1 writing, bit 0 execution) and holds its bytes, with zeros around them.
  ghost predicate HoldsSegment(t: State, h: Phdr, file: seq<Byte>, m: nat)
    requires Fits(h, file) && Loadable(h)
  {
    && Seen(t, m).Leaf?
    && (Seen(t, m).rights.user <==> h.flags % 8 in {4, 5, 6, 7})
    && (Seen(t, m).rights.writable <==> h.flags % 8 in {2, 3, 6, 7})
    && (Seen(t, m).rights.executable <==> h.flags % 8 in {1, 3, 5, 7})
    && forall a: nat :: a / PAGE_SIZE == m ==>
         VByte(t, a) == if h.vaddr <= a < h.vaddr + h.memsz then file[h.offset + (a - h.vaddr)] else 0
  }

  lemma RightsOfFlags(h: Phdr)
    ensures var r := SegmentRights(h);
      && (r.user <==> h.flags % 8 in {4, 5, 6, 7}) && (r.writable <==> h.flags % 8 in {2, 3, 6, 7})
      && (r.executable <==> h.flags % 8 in {1, 3, 5, 7})
  {
    var f := h.flags % 8;
    assert h.flags == h.flags / 8 * 8 + f;
    assert h.flags / 4 % 2 == f / 4 && h.flags / 2 % 2 == f / 2 % 2 && h.flags % 2 == f % 2;
  }

  // When all pages of a segment are mapped for writing, so is every byte of it.
  ghost predicate SegmentWritable(u: State, h: Phdr) {
    forall m: nat :: First(h) <= m < First(h) + Count(h) ==> Seen(u, m).Leaf? && Seen(u, m).rights.writable
  }

  lemma ByteWritable(u: State, h: Phdr, x: nat)
    requires Loadable(h) && First(h) + Count(h) <= USER_PAGES && SegmentWritable(u, h)
    requires h.vaddr <= x < h.vaddr + h.memsz
    ensures Writable(u, x)
  {
    hide Seen;
    BytesCovered(h, x);
  }

  lemma LoadSegmentEffect(s: State, file: seq<Byte>, h: Phdr, m: nat)
    requires User(s) && Fits(h, file) && m < USER_PAGES
    ensures var (t, all) := LoadSegment(s, file, h);
      && User(t) && t.root == s.root && t.cfg == s.cfg && SameUpper(s, t) && KeepsKernel(s, t)
      && (all ==>
            && (Covers(h, m) ==> Seen(s, m) == Miss && HoldsSegment(t, h, file, m))
            && (!Covers(h, m) ==> Seen(t, m) == Seen(s, m) && SameBytes(s, t, m)))
  {
    hide User, Seen, VPage, MapPages, CopyBytes, ProtectPages, KeepsKernel, HoldsSegment, SegmentRights;
    if Loadable(h) {
      var (u, all) := MapPages(s, First(h), Count(h), RW);
      MapPagesEffect(s, First(h), Count(h), RW, m);
      SegmentEnd(h);
      CopyBytesEffect(u, h.vaddr, Bytes(h, file), h.memsz, 0);
      var v := CopyBytes(u, h.vaddr, Bytes(h, file), h.memsz);
      ProtectPagesEffect(v, First(h), Count(h), SegmentRights(h), m);
      var t := ProtectPages(v, First(h), Count(h), SegmentRights(h));
      SameUpperTransitive(s, u, v);
      SameUpperTransitive(s, v, t);
      KernelTransitive(s, u, v);
      KernelTransitive(s, v, t);
      if all {
        assert SegmentWritable(u, h) by { MappedWritable(s, h); }
        FilledPage(u, h, file, m);
        FinishedPage(u, v, t, h, file, m);
      }
    } else {
      SameUpperTransitive(s, s, s);
      KernelTransitive(s, s, s);
    }
  }

  lemma MappedWritable(s: State, h: Phdr)
    requires User(s) && First(h) + Count(h) <= USER_PAGES && MapPages(s, First(h), Count(h), RW).1
    ensures SegmentWritable(MapPages(s, First(h), Count(h), RW).0, h)
  {
    hide User, Seen, MapPages;
    var u := MapPages(s, First(h), Count(h), RW).0;
    forall m: nat | First(h) <= m < First(h) + Count(h) ensures Seen(u, m).Leaf? && Seen(u, m).rights.writable {
      MapPagesEffect(s, First(h), Count(h), RW, m);
    }
  }

  lemma SameUpperTransitive(s: State, u: State, t: State)
    ensures SameUpper(s, s)
    ensures SameUpper(s, u) && SameUpper(u, t) ==> SameUpper(s, t)
    ensures SameWalks(s, u) ==> SameUpper(s, u)
    ensures SameUpper(s, u) && SameWalks(u, t) ==> SameUpper(s, t)
  {
  }

  // After the copy.
  lemma FilledPage(u: State, h: Phdr, file: seq<Byte>, m: nat)
    requires User(u) && Fits(h, file) && Loadable(h) && SegmentWritable(u, h) && m < USER_PAGES
    ensures var v := CopyBytes(u, h.vaddr, Bytes(h, file), h.memsz);
      && User(v) && v == u.(mem := v.mem) && SameWalks(u, v) && Seen(v, m) == Seen(u, m)
      && (Seen(u, m).Leaf? ==> forall a: nat :: a / PAGE_SIZE == m ==>
            VByte(v, a) == if h.vaddr <= a < h.vaddr + h.memsz then SegmentByte(h, file, a) else VByte(u, a))
  {
    hide User, Seen, VPage, CopyBytes, VByte, SegmentWritable;
    var v := CopyBytes(u, h.vaddr, Bytes(h, file), h.memsz);
    SegmentEnd(h);
    CopyBytesEffect(u, h.vaddr, Bytes(h, file), h.memsz, 0);
    assert m * PAGE_SIZE / PAGE_SIZE == m;
    SameWalksSeen(u, v, m * PAGE_SIZE);
    if Seen(u, m).Leaf? {
      forall a: nat | a / PAGE_SIZE == m
        ensures VByte(v, a) == if h.vaddr <= a < h.vaddr + h.memsz then SegmentByte(h, file, a) else VByte(u, a)
      {
        CopyBytesEffect(u, h.vaddr, Bytes(h, file), h.memsz, a);
        if h.vaddr <= a < h.vaddr + h.memsz { ByteWritable(u, h, a); }
      }
    }
  }

  lemma FinishedPage(u: State, v: State, t: State, h: Phdr, file: seq<Byte>, m: nat)
    requires Fits(h, file) && Loadable(h) && Seen(v, m) == Seen(u, m) && SameBytes(v, t, m)
    requires Seen(u, m).Leaf? ==> forall a: nat :: a / PAGE_SIZE == m ==>
      VByte(v, a) == if h.vaddr <= a < h.vaddr + h.memsz then SegmentByte(h, file, a) else VByte(u, a)
    requires Seen(t, m) ==
      if Covers(h, m) && Seen(v, m).Leaf? then Leaf(Seen(v, m).frame, SegmentRights(h)) else Seen(v, m)
    ensures Covers(h, m) && Seen(u, m).Leaf? && ZeroPage(u, m) ==> HoldsSegment(t, h, file, m)
    ensures !Covers(h, m) ==> SameBytes(u, t, m)
  {
    hide Seen, SegmentRights;
    RightsOfFlags(h);
    if !Covers(h, m) {
      forall a: nat | a / PAGE_SIZE == m ensures VByte(t, a) == VByte(u, a) {
        if h.vaddr <= a < h.vaddr + h.memsz { BytesCovered(h, a); }
        if !Seen(u, m).Leaf? { NoBytes(u, a); NoBytes(t, a); }
      }
    }
  }

  lemma NoBytes(s: State, a: nat)
    requires !Seen(s, a / PAGE_SIZE).Leaf?
    ensures VByte(s, a) == 0
  {
  }

  predicate CoveredBy(hs: seq<Phdr>, n: nat, m: nat)
    requires n <= |hs|
  {
    n > 0 && (Covers(hs[n - 1], m) || CoveredBy(hs, n - 1, m))
  }

  // Page m holds what the header that covers it asks for.
  ghost predicate Loaded(t: State, file: seq<Byte>, hs: seq<Phdr>, n: nat, m: nat)
    requires n <= |hs| && AllFit(hs, file)
  {
    forall j: nat :: j < n && Covers(hs[j], m) ==> HoldsSegment(t, hs[j], file, m)
  }

  lemma {:induction false} LoadSegmentsEffect(s: State, file: seq<Byte>, hs: seq<Phdr>, n: nat, m: nat)
    requires User(s) && n <= |hs| && AllFit(hs, file) && m < USER_PAGES
    ensures var (t, all) := LoadSegments(s, file, hs, n);
      && User(t) && t.root == s.root && t.cfg == s.cfg && SameUpper(s, t) && KeepsKernel(s, t)
      && (all ==>
            && Loaded(t, file, hs, n, m)
            && (CoveredBy(hs, n, m) ==> Seen(s, m) == Miss && Seen(t, m).Leaf?)
            && (!CoveredBy(hs, n, m) ==> Seen(t, m) == Seen(s, m) && SameBytes(s, t, m)))
  {
    hide User, Seen, LoadSegment, HoldsSegment, SameUpper, SameBytes, KeepsKernel;
    SameUpperTransitive(s, s, s);
    KernelTransitive(s, s, s);
    SameBytesSelf(s, m);
    if n > 0 {
      LoadSegmentsEffect(s, file, hs, n - 1, m);
      var (u, all) := LoadSegments(s, file, hs, n - 1);
      var h := hs[n - 1];
      LoadSegmentEffect(u, file, h, m);
      var (t, ok) := LoadSegment(u, file, h);
      SameUpperTransitive(s, u, t);
      KernelTransitive(s, u, t);
      if all && ok {
        if Covers(h, m) {
          SegmentLeaf(t, h, file, m);
        } else {
          forall j: nat | j < n && Covers(hs[j], m) ensures HoldsSegment(t, hs[j], file, m) {
            HoldsStays(u, t, hs[j], file, m);
          }
          SameBytesTransitive(s, u, t, m);
        }
        CoveredSome(hs, n - 1, m);
      }
    }
  }

  lemma SameBytesSelf(s: State, m: nat)
    ensures SameBytes(s, s, m)
  {
  }

  lemma SameBytesTransitive(s: State, u: State, t: State, m: nat)
    requires SameBytes(u, t, m)
    ensures SameBytes(s, u, m) ==> SameBytes(s, t, m)
  {
  }

  lemma SegmentLeaf(t: State, h: Phdr, file: seq<Byte>, m: nat)
    requires Fits(h, file) && Loadable(h) && HoldsSegment(t, h, file, m)
    ensures Seen(t, m).Leaf?
  {
  }

  lemma HoldsStays(u: State, t: State, h: Phdr, file: seq<Byte>, m: nat)
    requires Fits(h, file) && Loadable(h) && HoldsSegment(u, h, file, m)
    requires Seen(t, m) == Seen(u, m) && SameBytes(u, t, m)
    ensures HoldsSegment(t, h, file, m)
  {
  }

  lemma {:induction false} CoveredSome(hs: seq<Phdr>, n: nat, m: nat)
    requires n <= |hs|
    ensures CoveredBy(hs, n, m) <==> exists j: nat :: j < n && Covers(hs[j], m)
  {
    if n > 0 {
      CoveredSome(hs, n - 1, m);
    }
  }

  predicate OnStack(m: nat) {
    USER_STACK / PAGE_SIZE <= m < USER_STACK / PAGE_SIZE + STACK_PAGES
  }

  /** What a program finds when it starts.  From any state of the machine, if every vm_map
      succeeds: the user half consists of exactly the pages of the loadable segments, with
      the rights of their headers and the bytes of the file (zero around them), and eight
      zeroed stack pages.  Whatever fails, the upper half is translated as it was, and its
      pages and the frames held by others keep their words. */
  lemma ExecImage(s0: State, file: seq<Byte>, hs: seq<Phdr>, m: nat)
    requires Inv(s0) && AllFit(hs, file) && m < USER_PAGES
    ensures var (t, all) := Load(UnmapLowerHalf(s0), file, hs);
      && User(t) && SameUpper(s0, t) && KeepsKernel(s0, t)
      && (all ==>
            && (Seen(t, m).Leaf? <==> CoveredBy(hs, |hs|, m) || OnStack(m))
            && !(CoveredBy(hs, |hs|, m) && OnStack(m))
            && Loaded(t, file, hs, |hs|, m)
            && (OnStack(m) ==> Seen(t, m).rights == RW && ZeroPage(t, m)))
  {
    hide User, Seen, HoldsSegment, SameUpper, SameBytes, KeepsKernel, UnmapLowerHalf, MapPages, LoadSegments;
    var s := UnmapLowerHalf(s0);
    Emptied(s0, m);
    LowerHalfKeepsKernel(s0);
    LoadSegmentsEffect(s, file, hs, |hs|, m);
    var (u, all) := LoadSegments(s, file, hs, |hs|);
    MapPagesEffect(u, USER_STACK / PAGE_SIZE, STACK_PAGES, RW, m);
    var (t, ok) := MapPages(u, USER_STACK / PAGE_SIZE, STACK_PAGES, RW);
    SameUpperTransitive(s0, s, u);
    SameUpperTransitive(s0, u, t);
    KernelTransitive(s0, s, u);
    KernelTransitive(s0, u, t);
    if all && ok {
      CoveredSome(hs, |hs|, m);
      if !OnStack(m) {
        forall j: nat | j < |hs| && Covers(hs[j], m) ensures HoldsSegment(t, hs[j], file, m) {
          HoldsStays(u, t, hs[j], file, m);
        }
      }
    }
  }

  // Header h asks for page m, and page m belongs to the stack, in numbers.
  lemma PagesInNumbers(h: Phdr, m: nat)
    ensures Covers(h, m) <==>
      h.ptype == 1 && h.memsz != 0 && h.vaddr / 4096 <= m <= (h.vaddr + h.memsz) / 4096
    ensures OnStack(m) <==> 0x7000_0000 <= m < 0x7000_0008
  {
    SegmentEnd(h);
    assert Count(h) == (h.vaddr + h.memsz) / PAGE_SIZE - First(h) + 1 by {
      var base := h.vaddr / PAGE_SIZE * PAGE_SIZE;
      assert (h.vaddr + h.memsz - base) / PAGE_SIZE == (h.vaddr + h.memsz) / PAGE_SIZE - h.vaddr / PAGE_SIZE;
    }
  }

  /** The image in numbers: which pages are mapped, with which rights, and every byte of them. */
  lemma ImageInNumbers(s0: State, file: seq<Byte>, hs: seq<Phdr>, j: nat, a: nat)
    requires Inv(s0) && AllFit(hs, file) && Load(UnmapLowerHalf(s0), file, hs).1 && j < |hs| && a / 4096 < USER_PAGES
    ensures var t := Load(UnmapLowerHalf(s0), file, hs).0;
      var h := hs[j];
      var page := Seen(t, a / 4096);
      && (h.ptype == 1 && h.memsz != 0 && h.vaddr / 4096 <= a / 4096 <= (h.vaddr + h.memsz) / 4096 ==>
            && page.Leaf?
            && (page.rights.user <==> h.flags % 8 in {4, 5, 6, 7})
            && (page.rights.writable <==> h.flags % 8 in {2, 3, 6, 7})
            && (page.rights.executable <==> h.flags % 8 in {1, 3, 5, 7})
            && VByte(t, a) == if h.vaddr <= a < h.vaddr + h.memsz then file[h.offset + (a - h.vaddr)] else 0)
      && (0x700_0000_0000 <= a < 0x700_0000_8000 ==>
            page.Leaf? && page.rights == Rights(true, true, false) && VByte(t, a) == 0)
  {
    hide Inv, UnmapLowerHalf, Load, User, Seen, SameUpper, KeepsKernel, VByte, Covers, OnStack;
    PagesInNumbers(hs[j], a / PAGE_SIZE);
    ExecImage(s0, file, hs, a / PAGE_SIZE);
    var t := Load(UnmapLowerHalf(s0), file, hs).0;
    if Covers(hs[j], a / PAGE_SIZE) {
      CoversLoadable(hs[j], a / PAGE_SIZE);
      assert HoldsSegment(t, hs[j], file, a / PAGE_SIZE);
    }
  }

  lemma CoversLoadable(h: Phdr, m: nat)
    requires Covers(h, m)
    ensures Loadable(h)
  {
  }

  lemma Emptied(s0: State, m: nat)
    requires Inv(s0) && m < USER_PAGES
    ensures var s := UnmapLowerHalf(s0);
      User(s) && SameUpper(s0, s) && Seen(s, m) == Miss
  {
    hide UnmapLowerHalf;
    LowerHalfPlain(s0);
    VPageUser(m);
    LowerHalfUnmapped(s0, VPage(m));
    forall q: Path | IsPage(q) && !Lower(q) ensures Lookup(UnmapLowerHalf(s0), q) == Lookup(s0, q) {
      LowerHalfUnmapped(s0, q);
    }
  }

  // ---- as the kernel runs it ----

  // The processor's walk for address a: whether it ends in a page, in which one, and whether
  // all four entries allow writing.
  method WalkTables(k: Kernel, a: nat) returns (found: bool, page: nat, writable: bool)
    requires k.Valid() && User(k.st) && a / PAGE_SIZE < USER_PAGES
    ensures found <==> Mapped(k.st, a)
    ensures found ==> page == Seen(k.st, a / PAGE_SIZE).frame && page < k.frames && (writable <==> Writable(k.st, a))
  {
    hide Inv, PlainTree, PagesOwned, Walk, VPage, PathOf;
    var level1 := a / 0x1000 % 512;
    var level2 := a / 0x20_0000 % 512;
    var level3 := a / 0x4000_0000 % 512;
    var level4 := a / 0x80_0000_0000 % 512;
    ghost var v := PathOf(a);
    UserPath(k.st, a);
    Descend(k.st, v);
    var e4 := k.mem[k.root, level4];
    if !e4.present { return false, 0, false; }
    var table3: nat := e4.frame;
    var e3 := k.mem[table3, level3];
    if !e3.present { return false, 0, false; }
    var table2: nat := e3.frame;
    var e2 := k.mem[table2, level2];
    if !e2.present { return false, 0, false; }
    var table1: nat := e2.frame;
    var e1 := k.mem[table1, level1];
    if !e1.present { return false, 0, false; }
    RootRights(k.st);
    RightsStep(k.st, v.up.up.up);
    RightsStep(k.st, v.up.up);
    RightsStep(k.st, v.up);
    RightsStep(k.st, v);
    UserFrame(k.st, a / PAGE_SIZE);
    return true, e1.frame, e4.writable && e3.writable && e2.writable && e1.writable;
  }

  lemma UserPath(s: State, a: nat)
    requires User(s) && a / PAGE_SIZE < USER_PAGES
    ensures PathOf(a) == VPage(a / PAGE_SIZE) && SmallPath(s, PathOf(a)) && IsPage(PathOf(a))
    ensures var v := PathOf(a);
      && v.Sub? && v.up.Sub? && v.up.up.Sub? && v.up.up.up.Sub? && v.up.up.up.up.Root?
      && v.idx == a / 0x1000 % 512 && v.up.idx == a / 0x20_0000 % 512
      && v.up.up.idx == a / 0x4000_0000 % 512 && v.up.up.up.idx == a / 0x80_0000_0000 % 512
  {
    PathOfPage(a);
    VPageUser(a / PAGE_SIZE);
    PlainPath(s, UserHalf, PathOf(a));
  }

  lemma RootRights(s: State)
    ensures Lookup(s, Root) == Inner(s.root, FULL)
  {
  }

  // The rights after one more present entry, and where a page's own entry leads.
  lemma RightsStep(s: State, c: Path)
    requires c.Sub? && Depth(c) <= 4 && Lookup(s, c.up).Inner? && At(s.mem, TableAt(s, c.up), c.idx).present
    ensures var e := At(s.mem, TableAt(s, c.up), c.idx);
      && !Lookup(s, c).Miss? && Lookup(s, c).rights == Meet(Lookup(s, c.up).rights, EntryRights(e))
      && (Depth(c) == 4 ==> Lookup(s, c).Leaf? && Lookup(s, c).frame == e.frame)
  {
  }

  // A store by the processor: it faults unless the page is mapped and can be written.
  method UserStore(k: Kernel, a: nat, b: Byte) returns (fault: bool)
    requires k.Valid() && User(k.st) && a / PAGE_SIZE < USER_PAGES
    modifies k.mem, k`st
    ensures k.Valid() && User(k.st) && k.st == StoreByte(old(k.st), a, b)
    ensures fault <==> !Writable(old(k.st), a)
  {
    hide Inv, PlainTree, PagesOwned, Walk, SetByte, VPage;
    var found, page, writable := WalkTables(k, a);
    if !found || !writable { return true; }
    StoreByteEffect(k.st, a, b, a);
    var o := a % PAGE_SIZE;
    k.Store(page, o / 8, SetByte(k.mem[page, o / 8], o % 8, b));
    return false;
  }

  // The page at which vm_map is called in round j.
  lemma RoundAddress(a: nat, j: nat)
    ensures PathOf(a / PAGE_SIZE * PAGE_SIZE + j * PAGE_SIZE) == VPage(a / PAGE_SIZE + j)
  {
    PathOfPage(a / PAGE_SIZE * PAGE_SIZE + j * PAGE_SIZE);
    assert (a / PAGE_SIZE * PAGE_SIZE + j * PAGE_SIZE) / PAGE_SIZE == a / PAGE_SIZE + j;
  }

  lemma UserPagePlain(s: State, n: nat)
    requires User(s) && n < USER_PAGES
    ensures SmallPath(s, VPage(n))
  {
    VPageUser(n);
    PlainPath(s, UserHalf, VPage(n));
  }

  // Maps n pages from the one holding address a; false if some page could not be mapped.
  method MapRange(k: Kernel, a: nat, n: nat, r: Rights) returns (all: bool)
    requires k.Valid() && User(k.st) && a / PAGE_SIZE + n <= USER_PAGES
    modifies k`freelist, k.mem, k`st
    ensures k.Valid() && User(k.st) && (k.st, all) == MapPages(old(k.st), a / PAGE_SIZE, n, r)
  {
    hide User, Map, VPage, PathOf, Inv, SmallPath, SameUpper, SameBytes, Seen, ZeroPage, Shape;
    all := true;
    for j := 0 to n
      invariant k.Valid() && User(k.st) && (k.st, all) == MapPages(old(k.st), a / PAGE_SIZE, j, r)
    {
      RoundAddress(a, j);
      UserPagePlain(k.st, a / PAGE_SIZE + j);
      MapUserPage(k.st, a / PAGE_SIZE + j, r, 0);
      var ok := k.VmMap(a / PAGE_SIZE * PAGE_SIZE + j * PAGE_SIZE, r.user, r.writable, r.executable);
      if !ok {
        all := false; // the kernel prints "mem map failed" and goes on
      }
    }
  }

  method ProtectRange(k: Kernel, a: nat, n: nat, r: Rights)
    requires k.Valid() && User(k.st) && a / PAGE_SIZE + n <= USER_PAGES
    modifies k.mem, k`st
    ensures k.Valid() && User(k.st) && k.st == ProtectPages(old(k.st), a / PAGE_SIZE, n, r)
  {
    hide User, Protect, VPage, PathOf, Inv, SmallPath, SameUpper, SameBytes, Seen, Shape;
    for j := 0 to n
      invariant k.Valid() && User(k.st) && k.st == ProtectPages(old(k.st), a / PAGE_SIZE, j, r)
    {
      RoundAddress(a, j);
      UserPagePlain(k.st, a / PAGE_SIZE + j);
      ProtectUserPage(k.st, a / PAGE_SIZE + j, r, 0);
      var ok := k.VmProtect(a / PAGE_SIZE * PAGE_SIZE + j * PAGE_SIZE, r.user, r.writable, r.executable);
    }
  }

  // memcpy to user memory; a fault tells that some byte cannot be written.
  method CopyToUser(k: Kernel, a: nat, bytes: seq<Byte>) returns (fault: bool)
    requires k.Valid() && User(k.st) && a + |bytes| <= USER_PAGES * PAGE_SIZE
    modifies k.mem, k`st
    ensures k.Valid() && User(k.st) && k.st == CopyBytes(old(k.st), a, bytes, |bytes|)
    ensures fault <==> exists x: nat :: a <= x < a + |bytes| && !Writable(old(k.st), x)
  {
    hide User, StoreByte, Writable, Inv, Shape, Seen, Mapped, SameWalks, VByte;
    ghost var s := k.st;
    fault := false;
    for i := 0 to |bytes|
      invariant k.Valid() && User(k.st) && k.st == CopyBytes(s, a, bytes, i)
      invariant fault <==> exists x: nat :: a <= x < a + i && !Writable(s, x)
    {
      assert (a + i) / PAGE_SIZE < USER_PAGES;
      CopyBytesEffect(s, a, bytes, i, 0);
      SameWalksSeen(s, k.st, a + i);
      var bad := UserStore(k, a + i, bytes[i]);
      fault := fault || bad;
    }
  }

  /** run_program up to the jump to user mode.  No store faults in a run in which every vm_map
      succeeds. */
  method RunProgram(k: Kernel, file: seq<Byte>, hs: seq<Phdr>) returns (all: bool, fault: bool)
    requires k.Valid() && User(k.st) && AllFit(hs, file)
    modifies k`freelist, k.mem, k`st
    ensures k.Valid() && User(k.st) && (k.st, all) == Load(old(k.st), file, hs)
    ensures all ==> !fault
  {
    hide User, MapPages, ProtectPages, CopyBytes, Writable;
    all, fault := true, false;
    for i := 0 to |hs|
      invariant k.Valid() && User(k.st) && (k.st, all) == LoadSegments(old(k.st), file, hs, i)
      invariant all ==> !fault
    {
      var h := hs[i];
      assert Fits(h, file);
      if Loadable(h) {
        var ok, bad := RunSegment(k, file, h);
        all, fault := all && ok, fault || bad;
      }
    }
    var ok := MapRange(k, USER_STACK, STACK_PAGES, RW);
    all := all && ok;
  }

  // One loadable segment: map, copy, protect.
  method RunSegment(k: Kernel, file: seq<Byte>, h: Phdr) returns (ok: bool, fault: bool)
    requires k.Valid() && User(k.st) && Fits(h, file) && Loadable(h)
    modifies k`freelist, k.mem, k`st
    ensures k.Valid() && User(k.st) && (k.st, ok) == LoadSegment(old(k.st), file, h)
    ensures ok ==> !fault
  {
    hide User, MapPages, ProtectPages, CopyBytes, Writable;
    ghost var s := k.st;
    SegmentEnd(h);
    ok := MapRange(k, h.vaddr, Count(h), RW);
    if ok {
      MappedWritable(s, h);
      forall x: nat | h.vaddr <= x < h.vaddr + h.memsz ensures Writable(k.st, x) { ByteWritable(k.st, h, x); }
    }
    fault := CopyToUser(k, h.vaddr, file[h.offset..h.offset + h.memsz]);
    ProtectRange(k, h.vaddr, Count(h), SegmentRights(h));
  }

  lemma SegmentEnd(h: Phdr)
    ensures (h.vaddr + h.memsz) / PAGE_SIZE < First(h) + Count(h)
    ensures First(h) + Count(h) <= USER_PAGES ==> h.vaddr + h.memsz <= USER_PAGES * PAGE_SIZE
  {
    var base := h.vaddr / PAGE_SIZE * PAGE_SIZE;
    assert (h.vaddr + h.memsz - base) / PAGE_SIZE == (h.vaddr + h.memsz) / PAGE_SIZE - h.vaddr / PAGE_SIZE;
  }

  // sys_exec once the module holding the program has been found.
  method SysExec(k: Kernel, file: seq<Byte>, hs: seq<Phdr>) returns (all: bool, fault: bool)
    requires k.Valid() && AllFit(hs, file)
    modifies k`freelist, k.mem, k`st
    ensures k.Valid() && (k.st, all) == Load(UnmapLowerHalf(old(k.st)), file, hs)
    ensures all ==> !fault
  {
    hide LowerHalf.UnmapLowerHalf, Load, User;
    Emptied(k.st, 0);
    ghost var trace := k.UnmapLowerHalf();
    all, fault := RunProgram(k, file, hs);
  }
}
