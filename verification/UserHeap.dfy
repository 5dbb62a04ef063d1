/** sys_mmap and the bump allocator malloc on top of it, down to the physical bytes. */
module UserHeap {
  import opened Words
  import opened Frames
  import opened Translation
  import opened Mapping
  import opened UserMemory
  import opened Machine
  import opened Loader
  import opened Images

  const MMAP_START := 0x6000_0000
  const TWO_31 := 0x8000_0000
  const TWO_32 := 0x1_0000_0000
  const PROT_READ := 1
  const PROT_WRITE := 2

  function RoundUp(x: nat, y: nat): (r: nat)
    requires y > 0
    ensures r % y == 0 && x <= r < x + y
  {
    RoundUpFacts(x, y);
    if x % y == 0 then x else x + (y - x % y)
  }

  lemma RoundUpFacts(x: nat, y: nat)
    requires y > 0
    ensures x % y != 0 ==> (x + (y - x % y)) % y == 0
  {
    assert x == x / y * y + x % y;
    if x % y != 0 {
      assert x + (y - x % y) == (x / y + 1) * y;
      MultipleMod(x / y + 1, y);
    }
  }

  lemma MultipleMod(k: nat, y: nat)
    requires y > 0
    ensures (k * y) % y == 0
  {
    var q, r := (k * y) / y, (k * y) % y;
    assert r == (k - q) * y;
    if k > q { AtLeast(k - q, y); }
    if q > k { AtLeast(q - k, y); }
  }

  lemma AtLeast(d: int, y: int)
    requires d >= 1 && y >= 0
    ensures d * y >= y && (-d) * y <= -y
  {
  }

  // The result of a system call passes through an int.
  function ThroughInt(a: nat): nat {
    var low := a % TWO_32;
    if low < TWO_31 then low else TWO_64 - TWO_32 + low
  }

  /** A user address survives the int exactly when it lies below 2^31. */
  lemma AddressSurvives(a: nat)
    requires a < USER_PAGES * PAGE_SIZE
    ensures ThroughInt(a) == a <==> a < TWO_31
  {
  }

  // The rights sys_mmap reads off prot, and those its comment describes (0x10 and 0x100).
  function Granted(prot: nat): Rights {
    Rights(true, prot / 2 % 2 == 1, prot / 4 % 2 == 1)
  }

  function Documented(prot: nat): Rights {
    Rights(true, prot / 0x10 % 2 == 1, prot / 0x100 % 2 == 1)
  }

  /** The protections of the C library are read as its header means them; by the comment they
      would all mean read-only. */
  lemma ProtBits(prot: nat)
    requires prot < 8
    ensures Granted(prot) == Rights(true, prot in {2, 3, 6, 7}, prot in {4, 5, 6, 7})
    ensures Granted(prot) == Documented(prot) <==> prot <= 1
  {
  }

  // ---- as functions ----

  datatype Heap = Heap(st: State, addre: nat, bump: nat, space: nat)

  // The number of pages sys_mmap maps for len bytes at an address of its choice.
  function MmapPages(len: nat): nat {
    len / PAGE_SIZE + 1
  }

  // Room for the region in the user half, j*PAGE_SIZE within an int.
  predicate RoomFor(h: Heap, len: nat) {
    && h.addre % PAGE_SIZE == 0 && MmapPages(len) <= 0x8_0000
    && h.addre / PAGE_SIZE + MmapPages(len) <= USER_PAGES
  }

  // The start of the region survives the system call, too.
  predicate RegionFits(h: Heap, len: nat) {
    RoomFor(h, len) && h.addre < TWO_31
  }

  // sys_mmap(NULL, len, ...) and what the C library makes of its result.
  function Mmap(h: Heap, len: nat): (Heap, nat, bool) {
    var (t, all) := MapPages(h.st, h.addre / PAGE_SIZE, MmapPages(len), RW);
    (h.(st := t, addre := h.addre + MmapPages(len) * PAGE_SIZE), ThroughInt(h.addre), all)
  }

  // The block returned, and whether every vm_map on the way succeeded.
  function Allocate(h: Heap, size: nat): (Heap, nat, bool) {
    var sz := RoundUp(size, 16);
    if h.space < sz then
      var len := RoundUp(sz, PAGE_SIZE);
      var (g, mem, all) := Mmap(h, len);
      if mem == 0 then (g, 0, all) else (g.(bump := mem + sz, space := len - sz), mem, all)
    else
      (h.(bump := h.bump + sz, space := h.space - sz), h.bump, true)
  }

  predicate CanServe(h: Heap, size: nat) {
    var sz := RoundUp(size, 16);
    h.space < sz ==> RegionFits(h, RoundUp(sz, PAGE_SIZE))
  }

  /** A block from a new region is the start of that region exactly while the cursor of sys_mmap
      is below 2^31; beyond it malloc hands out some other address, or NULL. */
  lemma MallocAddress(h: Heap, size: nat)
    requires h.space < RoundUp(size, 16) && RoomFor(h, RoundUp(RoundUp(size, 16), PAGE_SIZE))
    ensures Allocate(h, size).1 == h.addre <==> h.addre < TWO_31
  {
    hide MapPages, RoundUp;
    AddressSurvives(h.addre);
  }

  // ---- what the blocks are ----

  datatype Block = Block(start: nat, len: nat)

  predicate Inside(b: Block, a: nat) {
    b.start <= a < b.start + b.len
  }

  // Every byte is user memory that can be written and not executed.
  ghost predicate Usable(s: State, b: Block) {
    forall a: nat :: Inside(b, a) ==> Mapped(s, a) && Seen(s, a / PAGE_SIZE).rights == RW
  }

  predicate Apart(b: Block, c: Block) {
    b.start + b.len <= c.start || c.start + c.len <= b.start || b.len == 0 || c.len == 0
  }

  ghost predicate HeapOk(h: Heap, blocks: seq<Block>) {
    && User(h.st) && h.addre % PAGE_SIZE == 0
    && h.bump % 16 == 0 && h.space % 16 == 0
    && BlockOk(h, Block(h.bump, h.space))
    && (forall i: nat :: i < |blocks| ==>
          blocks[i].start % 16 == 0 && BlockOk(h, blocks[i]) && Apart(blocks[i], Block(h.bump, h.space)))
    && (forall i: nat, j: nat :: i < j < |blocks| ==> Apart(blocks[i], blocks[j]))
  }

  ghost predicate BlockOk(h: Heap, b: Block) {
    Usable(h.st, b) && (b.len > 0 ==> b.start + b.len <= h.addre)
  }

  // A new region is usable, above everything handed out before, and disturbs none of it.
  lemma MmapFresh(h: Heap, len: nat, b: Block)
    requires User(h.st) && RegionFits(h, len)
    ensures var (g, mem, all) := Mmap(h, len);
      && mem == h.addre && User(g.st) && g.addre % PAGE_SIZE == 0 && h.addre + len <= g.addre
      && (all ==> Usable(g.st, Block(mem, len)))
      && (BlockOk(h, b) ==> BlockOk(g, b))
  {
    hide User, MapPages, Seen;
    var (g, mem, all) := Mmap(h, len);
    AddressSurvives(h.addre);
    var first, n := h.addre / PAGE_SIZE, MmapPages(len);
    MapPagesEffect(h.st, first, n, RW, 0);
    assert len < n * PAGE_SIZE;
    if all {
      forall a: nat | Inside(Block(mem, len), a) ensures Mapped(g.st, a) && Seen(g.st, a / PAGE_SIZE).rights == RW {
        PageInRange(h.addre, n, a);
        MapPagesEffect(h.st, first, n, RW, a / PAGE_SIZE);
      }
    }
    if BlockOk(h, b) {
      forall a: nat | Inside(b, a) ensures Mapped(g.st, a) && Seen(g.st, a / PAGE_SIZE).rights == RW {
        assert Mapped(h.st, a);
        MapPagesEffect(h.st, first, n, RW, a / PAGE_SIZE);
        assert a / PAGE_SIZE < first;
      }
    }
  }

  lemma PageInRange(start: nat, n: nat, a: nat)
    requires start % PAGE_SIZE == 0 && start <= a < start + n * PAGE_SIZE
    ensures start / PAGE_SIZE <= a / PAGE_SIZE < start / PAGE_SIZE + n
  {
    assert start == start / PAGE_SIZE * PAGE_SIZE;
  }

  /** One call: the new block joins the others without touching them. */
  lemma MallocStep(h: Heap, blocks: seq<Block>, size: nat)
    requires HeapOk(h, blocks) && CanServe(h, size) && h.addre >= MMAP_START
    ensures var (g, p, all) := Allocate(h, size);
      all ==> HeapOk(g, blocks + [Block(p, size)]) && g.addre >= MMAP_START
  {
    var sz := RoundUp(size, 16);
    var (g, p, all) := Allocate(h, size);
    if all {
      if h.space < sz {
        NewRegion(h, blocks, size);
      } else {
        OldRegion(h, blocks, size);
      }
    }
  }

  lemma OldRegion(h: Heap, blocks: seq<Block>, size: nat)
    requires HeapOk(h, blocks) && RoundUp(size, 16) <= h.space
    ensures var (g, p, all) := Allocate(h, size); HeapOk(g, blocks + [Block(p, size)])
  {
    hide User, Usable, RoundUp;
    var sz := RoundUp(size, 16);
    var (g, p, all) := Allocate(h, size);
    SixteensApart(h.bump, sz);
    SixteensApart(h.space, sz);
    var rest := Block(h.bump, h.space);
    UsablePart(h.st, rest, Block(p, size));
    UsablePart(h.st, rest, Block(g.bump, g.space));
    Joined(g, blocks, Block(p, size), rest);
  }

  lemma RoundFacts(size: nat, start: nat)
    requires start % PAGE_SIZE == 0
    ensures var sz := RoundUp(size, 16);
      var len := RoundUp(sz, PAGE_SIZE);
      && size <= sz <= len && start % 16 == 0 && (start + sz) % 16 == 0 && (len - sz) % 16 == 0
  {
    hide RoundUp;
    var sz := RoundUp(size, 16);
    var len := RoundUp(sz, PAGE_SIZE);
    Sixteens(start);
    Sixteens(len);
    SixteensApart(start, sz);
    SixteensApart(len, sz);
  }

  lemma SixteensApart(a: nat, b: nat)
    requires a % 16 == 0 && b % 16 == 0
    ensures (a + b) % 16 == 0 && (a - b) % 16 == 0
  {
  }

  lemma Sixteens(n: nat)
    requires n % PAGE_SIZE == 0
    ensures n % 16 == 0
  {
    assert n == 16 * (256 * (n / PAGE_SIZE));
  }

  lemma NewRegion(h: Heap, blocks: seq<Block>, size: nat)
    requires HeapOk(h, blocks) && CanServe(h, size) && h.addre >= MMAP_START
    requires h.space < RoundUp(size, 16) && Allocate(h, size).2
    ensures var (g, p, all) := Allocate(h, size);
      HeapOk(g, blocks + [Block(p, size)]) && g.addre >= MMAP_START
  {
    hide User, Usable, Mmap, RoundUp, RegionFits;
    var sz := RoundUp(size, 16);
    var len := RoundUp(sz, PAGE_SIZE);
    RoundFacts(size, h.addre);
    var (m, start, _) := Mmap(h, len);
    var region := Block(start, len);
    MmapFresh(h, len, region);
    var (g, p, _) := Allocate(h, size);
    assert g == m.(bump := start + sz, space := len - sz) && p == start == h.addre;
    UsablePart(m.st, region, Block(p, size));
    UsablePart(m.st, region, Block(g.bump, g.space));
    forall i: nat | i < |blocks|
      ensures blocks[i].start % 16 == 0 && BlockOk(g, blocks[i]) && Apart(blocks[i], region)
    {
      MmapFresh(h, len, blocks[i]);
    }
    Joined(g, blocks, Block(p, size), region);
  }

  // Blocks that are apart from a region stay apart from both parts it is cut into.
  lemma Joined(g: Heap, blocks: seq<Block>, b: Block, region: Block)
    requires forall i: nat :: i < |blocks| ==>
      blocks[i].start % 16 == 0 && BlockOk(g, blocks[i]) && Apart(blocks[i], region)
    requires forall i: nat, j: nat :: i < j < |blocks| ==> Apart(blocks[i], blocks[j])
    requires User(g.st) && g.addre % PAGE_SIZE == 0 && g.bump % 16 == 0 && g.space % 16 == 0
    requires b.start % 16 == 0 && BlockOk(g, b) && BlockOk(g, Block(g.bump, g.space))
    requires region.start == b.start && b.start + b.len <= g.bump && g.bump + g.space <= region.start + region.len
    requires region.start + region.len <= g.bump + g.space && g.bump <= region.start + region.len
    ensures HeapOk(g, blocks + [b])
  {
    hide User, BlockOk;
  }

  lemma UsablePart(s: State, b: Block, c: Block)
    requires Usable(s, b) && b.start <= c.start && c.start + c.len <= b.start + b.len
    ensures Usable(s, c)
  {
    assert forall a: nat :: Inside(c, a) ==> Inside(b, a);
  }

  // ---- whole runs ----

  function MallocRun(h: Heap, sizes: seq<nat>): (Heap, seq<Block>, bool) {
    if sizes == [] then (h, [], true)
    else
      var (g, blocks, all) := MallocRun(h, sizes[..|sizes| - 1]);
      var (r, p, ok) := Allocate(g, sizes[|sizes| - 1]);
      (r, blocks + [Block(p, sizes[|sizes| - 1])], all && ok)
  }

  predicate CanServeAll(h: Heap, sizes: seq<nat>) {
    sizes == [] || (CanServeAll(h, sizes[..|sizes| - 1])
                    && CanServe(MallocRun(h, sizes[..|sizes| - 1]).0, sizes[|sizes| - 1]))
  }

  lemma {:induction false} MallocRunOk(h: Heap, sizes: seq<nat>)
    requires User(h.st) && h.addre >= MMAP_START && h.addre % PAGE_SIZE == 0 && h.bump == h.space == 0
    requires CanServeAll(h, sizes)
    ensures var (g, blocks, all) := MallocRun(h, sizes);
      all ==> HeapOk(g, blocks) && g.addre >= MMAP_START
  {
    hide User, Allocate, CanServe;
    if sizes != [] {
      var before := sizes[..|sizes| - 1];
      MallocRunOk(h, before);
      var (g, blocks, all) := MallocRun(h, before);
      if all { MallocStep(g, blocks, sizes[|sizes| - 1]); }
    } else {
      assert Usable(h.st, Block(0, 0));
    }
  }

  // ---- when it succeeds ----

  // The pages one malloc asks sys_mmap for, and where it leaves the cursor and the space.
  function PlanPages(addre: nat, space: nat, size: nat): seq<nat> {
    var sz := RoundUp(size, 16);
    if space < sz then PagesFrom(addre / PAGE_SIZE, MmapPages(RoundUp(sz, PAGE_SIZE))) else []
  }

  function PlanNext(addre: nat, space: nat, size: nat): (nat, nat) {
    var sz := RoundUp(size, 16);
    if space < sz then
      var len := RoundUp(sz, PAGE_SIZE);
      (addre + MmapPages(len) * PAGE_SIZE, len - sz)
    else (addre, space - sz)
  }

  // The same for a sequence of calls, from the sizes alone.
  function RunPlan(addre: nat, sizes: seq<nat>): (nat, nat, seq<nat>) {
    if sizes == [] then (addre, 0, [])
    else
      var (a, space, pages) := RunPlan(addre, sizes[..|sizes| - 1]);
      var (b, rest) := PlanNext(a, space, sizes[|sizes| - 1]);
      (b, rest, pages + PlanPages(a, space, sizes[|sizes| - 1]))
  }

  lemma AllocateTakes(h: Heap, size: nat, pages: seq<nat>, frames: nat)
    requires Loading(h.st, pages, frames) && CanServe(h, size) && h.addre >= MMAP_START
    ensures var (g, p, all) := Allocate(h, size);
      var more := pages + PlanPages(h.addre, h.space, size);
      && (g.addre, g.space) == PlanNext(h.addre, h.space, size)
      && (all <==> CanMap(more, frames)) && (all ==> Loading(g.st, more, frames))
  {
    hide Loading, CanMap, MapPages, RoundUp;
    var sz := RoundUp(size, 16);
    if h.space < sz {
      AddressSurvives(h.addre);
      MapPagesTakes(h.st, pages, frames, h.addre / PAGE_SIZE, MmapPages(RoundUp(sz, PAGE_SIZE)), RW);
    } else {
      assert pages + [] == pages;
      LoadingCanMap(h.st, pages, frames);
    }
  }

  /** Every vm_map of a heap run succeeds if and only if none of the pages it asks for is mapped
      already and there is a free frame for each of them and each table on the way. */
  lemma {:induction false} MallocSucceeds(h: Heap, sizes: seq<nat>, pages: seq<nat>, frames: nat)
    requires Loading(h.st, pages, frames) && h.addre >= MMAP_START && h.addre % PAGE_SIZE == 0 && h.bump == h.space == 0
    requires CanServeAll(h, sizes)
    ensures var (g, _, all) := MallocRun(h, sizes);
      var (addre, space, more) := RunPlan(h.addre, sizes);
      && (g.addre, g.space) == (addre, space) && addre >= MMAP_START
      && (all <==> CanMap(pages + more, frames)) && (all ==> Loading(g.st, pages + more, frames))
  {
    hide Loading, CanMap, Allocate, CanServe, PlanPages, PlanNext;
    if sizes == [] {
      assert pages + [] == pages;
      LoadingCanMap(h.st, pages, frames);
    } else {
      var before, size := sizes[..|sizes| - 1], sizes[|sizes| - 1];
      MallocSucceeds(h, before, pages, frames);
      var (g, _, all) := MallocRun(h, before);
      var (addre, space, more) := RunPlan(h.addre, before);
      var last := PlanPages(addre, space, size);
      assert pages + (more + last) == (pages + more) + last;
      CursorGrows(addre, space, size);
      if all {
        AllocateTakes(g, size, pages + more, frames);
      } else {
        AllocateMoves(g, size);
        if CanMap((pages + more) + last, frames) { CanMapPrefix(pages + more, last, frames); }
      }
    }
  }

  lemma CursorGrows(addre: nat, space: nat, size: nat)
    ensures PlanNext(addre, space, size).0 >= addre
  {
    hide RoundUp;
  }

  /** malloc never returns NULL: whether or not its pages could be mapped, the block is the next
      bytes of the old region or the start of a new one. */
  lemma AllocateMoves(h: Heap, size: nat)
    requires CanServe(h, size) && h.addre >= MMAP_START
    ensures var (g, p, _) := Allocate(h, size);
      && (g.addre, g.space) == PlanNext(h.addre, h.space, size)
      && p == if h.space < RoundUp(size, 16) then h.addre else h.bump
  {
    hide RoundUp, MapPages;
    if h.space < RoundUp(size, 16) { AddressSurvives(h.addre); }
  }

  /** ... so when a vm_map fails in a region that was free, the block is returned although some
      page of its region is not mapped. */
  lemma FailedRegion(h: Heap, size: nat)
    requires User(h.st) && CanServe(h, size) && h.addre >= MMAP_START && !Allocate(h, size).2
    requires forall m :: m in PlanPages(h.addre, h.space, size) ==> Seen(h.st, m) == Miss
    ensures var (g, p, _) := Allocate(h, size);
      p == h.addre && exists m :: m in PlanPages(h.addre, h.space, size) && Seen(g.st, m) == Miss
  {
    hide User, Seen, MapPages, RoundUp;
    AllocateMoves(h, size);
    var n := MmapPages(RoundUp(RoundUp(size, 16), PAGE_SIZE));
    var first := h.addre / PAGE_SIZE;
    forall m: nat | first <= m < first + n ensures m in PagesFrom(first, n) {
      assert PagesFrom(first, n)[m - first] == m;
    }
    var m := FailedPage(h.st, first, n);
  }

  lemma {:induction false} FailedPage(s: State, first: nat, k: nat) returns (m: nat)
    requires User(s) && first + k <= USER_PAGES && !MapPages(s, first, k, RW).1
    requires forall n: nat :: first <= n < first + k ==> Seen(s, n) == Miss
    ensures first <= m < first + k && Seen(MapPages(s, first, k, RW).0, m) == Miss
  {
    hide User, Seen, Map, VPage, ZeroPage, SameBytes, SameUpper;
    assert k > 0;
    MapPagesEffect(s, first, k - 1, RW, 0);
    var (u, all) := MapPages(s, first, k - 1, RW);
    if all {
      m := first + k - 1;
      MapPagesEffect(s, first, k - 1, RW, m);
    } else {
      m := FailedPage(s, first, k - 1);
    }
    MapUserPage(u, first + k - 1, RW, m);
  }

  // The physical address of a byte of user memory.
  function Physical(s: State, a: nat): nat {
    match Seen(s, a / PAGE_SIZE)
    case Leaf(f, _) => f * PAGE_SIZE + a % PAGE_SIZE
    case _ => 0
  }

  lemma PhysicalInjective(s: State, a: nat, b: nat)
    requires User(s) && Mapped(s, a) && Mapped(s, b) && Physical(s, a) == Physical(s, b)
    ensures a == b
  {
    hide User, Seen, VPage;
    UserFrame(s, a / PAGE_SIZE);
    UserFrame(s, b / PAGE_SIZE);
    var f, g := Seen(s, a / PAGE_SIZE).frame, Seen(s, b / PAGE_SIZE).frame;
    assert (f * PAGE_SIZE + a % PAGE_SIZE) / PAGE_SIZE == f;
    assert (g * PAGE_SIZE + b % PAGE_SIZE) / PAGE_SIZE == g;
    VPageInjective(a / PAGE_SIZE, b / PAGE_SIZE);
  }

  // ---- what the heap leaves alone ----

  // Pages mapped in s are mapped in t to the same frames, with the same rights and bytes, and what
  // is not the user's is untouched.
  ghost predicate StillThere(s: State, t: State) {
    && KeepsKernel(s, t)
    && forall m: nat :: m < USER_PAGES ==> Seen(s, m) == Miss || (Seen(t, m) == Seen(s, m) && SameBytes(s, t, m))
  }

  // No byte of the block was mapped in s.
  ghost predicate NewIn(s: State, b: Block) {
    forall a: nat :: Inside(b, a) ==> a / PAGE_SIZE < USER_PAGES && Seen(s, a / PAGE_SIZE) == Miss
  }

  lemma NewPart(s: State, b: Block, c: Block)
    requires NewIn(s, b) && b.start <= c.start && c.start + c.len <= b.start + b.len
    ensures NewIn(s, c)
  {
    assert forall a: nat :: Inside(c, a) ==> Inside(b, a);
  }

  lemma MmapNew(s: State, h: Heap, len: nat)
    requires User(h.st) && RegionFits(h, len) && StillThere(s, h.st) && Mmap(h, len).2
    ensures var (g, start, _) := Mmap(h, len);
      User(g.st) && start == h.addre && StillThere(s, g.st) && NewIn(s, Block(start, len))
  {
    hide User, MapPages, Seen, SameBytes, KeepsKernel;
    AddressSurvives(h.addre);
    var g := Mmap(h, len).0;
    KernelTransitive(s, h.st, g.st);
    var first, n := h.addre / PAGE_SIZE, MmapPages(len);
    MapPagesEffect(h.st, first, n, RW, 0);
    forall m: nat | m < USER_PAGES
      ensures Seen(s, m) == Miss || (Seen(g.st, m) == Seen(s, m) && SameBytes(s, g.st, m))
    {
      MapPagesEffect(h.st, first, n, RW, m);
      if Seen(s, m) != Miss && !(first <= m < first + n) { SameBytesTransitive(s, h.st, g.st, m); }
    }
    assert len < n * PAGE_SIZE;
    forall a: nat | Inside(Block(h.addre, len), a)
      ensures a / PAGE_SIZE < USER_PAGES && Seen(s, a / PAGE_SIZE) == Miss
    {
      PageInRange(h.addre, n, a);
      MapPagesEffect(h.st, first, n, RW, a / PAGE_SIZE);
    }
  }

  lemma AllocateNew(s: State, h: Heap, size: nat)
    requires User(h.st) && CanServe(h, size) && StillThere(s, h.st) && NewIn(s, Block(h.bump, h.space))
    requires h.addre >= MMAP_START && Allocate(h, size).2
    ensures var (g, p, _) := Allocate(h, size);
      && User(g.st) && StillThere(s, g.st) && NewIn(s, Block(p, size)) && NewIn(s, Block(g.bump, g.space))
  {
    hide User, StillThere, NewIn, RoundUp, Mmap, RegionFits;
    var (g, p, _) := Allocate(h, size);
    var sz := RoundUp(size, 16);
    var region := Block(h.bump, h.space);
    if h.space < sz {
      var len := RoundUp(sz, PAGE_SIZE);
      MmapNew(s, h, len);
      region := Block(h.addre, len);
    }
    NewPart(s, region, Block(p, size));
    NewPart(s, region, Block(g.bump, g.space));
  }

  /** While every vm_map succeeds, blocks lie in pages that were not mapped before the run, so
      apart from the program and its stack; and what was mapped keeps its frames, rights and bytes. */
  lemma {:induction false} MallocRunNew(h: Heap, sizes: seq<nat>)
    requires User(h.st) && h.addre >= MMAP_START && h.addre % PAGE_SIZE == 0 && h.bump == h.space == 0
    requires CanServeAll(h, sizes)
    ensures var (g, blocks, all) := MallocRun(h, sizes);
      all ==>
        && StillThere(h.st, g.st) && NewIn(h.st, Block(g.bump, g.space))
        && forall i: nat :: i < |blocks| ==> NewIn(h.st, blocks[i])
  {
    hide User, Allocate, CanServe, StillThere, NewIn;
    if sizes != [] {
      var before := sizes[..|sizes| - 1];
      MallocRunNew(h, before);
      MallocRunOk(h, before);
      var (g, blocks, all) := MallocRun(h, before);
      if MallocRun(h, sizes).2 { AllocateNew(h.st, g, sizes[|sizes| - 1]); }
    } else {
      NothingNew(h);
    }
  }

  lemma NothingNew(h: Heap)
    ensures StillThere(h.st, h.st) && NewIn(h.st, Block(0, 0))
  {
    hide Seen, KeepsKernel;
    KernelTransitive(h.st, h.st, h.st);
  }

  /** End to end: while regions start below 2^31 and every vm_map succeeds, the blocks of any
      sequence of calls are 16-byte aligned, made of user memory that can be written and not
      executed and that was not mapped before, and no byte of physical memory serves two of them. */
  lemma MallocBlocks(h: Heap, sizes: seq<nat>, i: nat, j: nat, a: nat, b: nat)
    requires User(h.st) && h.addre >= MMAP_START && h.addre % PAGE_SIZE == 0 && h.bump == h.space == 0
    requires CanServeAll(h, sizes) && i < |sizes| && j < |sizes|
    ensures |MallocRun(h, sizes).1| == |sizes|
    ensures var (g, blocks, all) := MallocRun(h, sizes);
      all && Inside(blocks[i], a) && Inside(blocks[j], b) ==>
        && blocks[i].start % 16 == 0 && blocks[i].len == sizes[i]
        && Mapped(g.st, a) && Seen(g.st, a / PAGE_SIZE).rights == Rights(true, true, false)
        && Seen(h.st, a / PAGE_SIZE) == Miss
        && (i != j || a != b ==> a != b && Physical(g.st, a) != Physical(g.st, b))
  {
    hide User, Allocate, CanServe, Seen, StillThere;
    MallocRunOk(h, sizes);
    MallocRunNew(h, sizes);
    RunLength(h, sizes, i);
    RunLength(h, sizes, j);
    var (g, blocks, all) := MallocRun(h, sizes);
    if all && Inside(blocks[i], a) && Inside(blocks[j], b) {
      assert BlockOk(g, blocks[i]) && BlockOk(g, blocks[j]) && NewIn(h.st, blocks[i]);
      assert i < j ==> Apart(blocks[i], blocks[j]);
      assert j < i ==> Apart(blocks[j], blocks[i]);
      if Physical(g.st, a) == Physical(g.st, b) { PhysicalInjective(g.st, a, b); }
    }
  }

  lemma {:induction false} RunLength(h: Heap, sizes: seq<nat>, i: nat)
    requires i < |sizes|
    ensures |MallocRun(h, sizes).1| == |sizes| && MallocRun(h, sizes).1[i].len == sizes[i]
  {
    hide Allocate;
    var before := sizes[..|sizes| - 1];
    if i < |before| {
      RunLength(h, before, i);
    } else if before != [] {
      RunLength(h, before, 0);
    }
  }

  // ---- as it runs ----

  class Process {
    const kernel: Kernel
    var addre: nat
    var bump: nat
    var space: nat

    ghost function Value(): Heap
      reads this, kernel
    {
      Heap(kernel.st, addre, bump, space)
    }

    ghost predicate Valid()
      reads this, kernel, kernel.mem
    {
      kernel.Valid() && User(kernel.st) && addre % PAGE_SIZE == 0
    }

    constructor (kernel: Kernel)
      requires kernel.Valid() && User(kernel.st)
      ensures Valid() && this.kernel == kernel && Value() == Heap(kernel.st, MMAP_START, 0, 0)
    {
      this.kernel := kernel;
      addre := MMAP_START;
      bump := 0;
      space := 0;
    }

    // sys_mmap; address 0 lets the kernel choose, bits 1 and 2 of prot ask for writing and execution.
    method SysMmap(address: nat, len: nat, prot: nat) returns (start: nat, ghost all: bool)
      requires Valid()
      requires var a := if address == 0 then addre else address;
        && a / PAGE_SIZE + (a % PAGE_SIZE + len) / PAGE_SIZE + 1 <= USER_PAGES
        && (a % PAGE_SIZE + len) / PAGE_SIZE + 1 <= 0x8_0000 // j*PAGE_SIZE is computed in an int
      modifies this`addre, kernel`freelist, kernel.mem, kernel`st
      ensures Valid()
      ensures addre == if address == 0 then old(addre) + MmapPages(len) * PAGE_SIZE else old(addre)
      ensures var a := if address == 0 then old(addre) else address;
        && start == a / PAGE_SIZE * PAGE_SIZE
        && (kernel.st, all) == MapPages(old(kernel.st), a / PAGE_SIZE, (a % PAGE_SIZE + len) / PAGE_SIZE + 1,
                                        Granted(prot))
    {
      hide User, MapPages;
      var a := address;
      if a == 0 {
        a := addre;
        addre := addre + (len / PAGE_SIZE + 1) * PAGE_SIZE;
      }
      start := a / PAGE_SIZE * PAGE_SIZE;
      var pages := (a + len - start) / PAGE_SIZE + 1;
      assert a + len - start == a % PAGE_SIZE + len;
      var write, exec := prot / 2 % 2 == 1, prot / 4 % 2 == 1;
      var mapped := MapRange(kernel, a, pages, Rights(true, write, exec));
      all := mapped;
    }

    method Malloc(size: nat) returns (result: nat, ghost all: bool)
      requires Valid()
      requires space < RoundUp(size, 16) ==> RoomFor(Value(), RoundUp(RoundUp(size, 16), PAGE_SIZE))
      modifies this, kernel`freelist, kernel.mem, kernel`st
      ensures Valid() && (Value(), result, all) == Allocate(old(Value()), size)
    {
      hide User, MapPages;
      var sz := RoundUp(size, 16);
      all := true;
      if space < sz {
        var roundedUp := RoundUp(sz, PAGE_SIZE);
        var newmem;
        newmem, all := SysMmap(0, roundedUp, PROT_READ + PROT_WRITE);
        newmem := ThroughInt(newmem);
        if newmem == 0 { return 0, all; }
        bump := newmem;
        space := roundedUp;
      }
      result := bump;
      bump := bump + sz;
      space := space - sz;
    }
  }
}
