/** Exactly when loading a program succeeds, and exactly when the image it leaves is the one
    the System V gABI asks for. */
module Images {
  import opened Words
  import opened Frames
  import opened Translation
  import opened Mapping
  import opened LowerHalf
  import opened PageRuns
  import opened UserMemory
  import opened Loader

  // ---- positions a set of pages needs ----

  // The page and the tables on the way to position p, the root excepted.
  function Spine(p: Path): set<Path> {
    if p.Root? then {} else {p} + Spine(p.up)
  }

  // The positions that mapping these pages, and no others, takes: one frame each.
  function Cells(pages: seq<nat>): set<Path> {
    if pages == [] then {} else Cells(pages[..|pages| - 1]) + Spine(VPage(pages[|pages| - 1]))
  }

  lemma {:induction false} SpineHolds(p: Path, q: Path)
    ensures q in Spine(p) <==> q.Sub? && Below(q, p)
  {
    if p.Sub? { SpineHolds(p.up, q); }
  }

  lemma {:induction false} SpineSize(p: Path)
    ensures |Spine(p)| <= Depth(p)
  {
    if p.Sub? { SpineSize(p.up); }
  }

  lemma {:induction false} CellsSize(pages: seq<nat>)
    ensures |Cells(pages)| <= 4 * |pages|
  {
    if pages != [] {
      CellsSize(pages[..|pages| - 1]);
      SpineSize(VPage(pages[|pages| - 1]));
    }
  }

  // Among pages, the positions needed are the pages themselves.
  lemma {:induction false} CellsPages(pages: seq<nat>, n: nat)
    requires n < USER_PAGES && forall m :: m in pages ==> m < USER_PAGES
    ensures VPage(n) in Cells(pages) <==> n in pages
  {
    hide VPage;
    if pages != [] {
      var a, m := pages[..|pages| - 1], pages[|pages| - 1];
      assert m in pages && forall x :: x in pages <==> x in a || x == m;
      CellsPages(a, n);
      SpineHolds(VPage(m), VPage(n));
      if Below(VPage(n), VPage(m)) {
        BelowDepth(VPage(n), VPage(m));
        VPageInjective(n, m);
      }
    }
  }

  lemma CellsSnoc(pages: seq<nat>, n: nat)
    ensures Cells(pages + [n]) == Cells(pages) + Spine(VPage(n))
  {
    assert (pages + [n])[..|pages|] == pages;
  }

  lemma {:induction false} CellsGrow(a: seq<nat>, b: seq<nat>)
    ensures Cells(a) <= Cells(a + b)
  {
    if b == [] {
      assert a + b == a;
    } else {
      CellsGrow(a, b[..|b| - 1]);
      assert a + b == (a + b[..|b| - 1]) + [b[|b| - 1]];
      CellsSnoc(a + b[..|b| - 1], b[|b| - 1]);
    }
  }

  lemma Subset(a: set<Path>, b: set<Path>)
    requires a <= b
    ensures |a| <= |b|
  {
    assert b == a + (b - a);
  }

  // ---- states in which exactly some positions are taken ----

  // The walk finds something at exactly these positions of the user half.
  ghost predicate Taken(s: State, cells: set<Path>) {
    forall p: Path :: Lower(p) && InRange(p) && Depth(p) <= 4 ==> (Lookup(s, p) != Miss <==> p in cells)
  }

  // How many frames the walk to p lacks, counted in positions.
  lemma {:induction false} MissingIs(s: State, cells: set<Path>, p: Path)
    requires Taken(s, cells) && InRange(p) && Depth(p) <= 4 && (p.Sub? ==> Lower(p))
    ensures |cells + Spine(p)| == |cells| + Missing(s, p)
  {
    hide Walk;
    if p.Root? {
      assert cells + {} == cells;
      MissingRoot(s);
    } else {
      MissingAbove(s, p);
      if p.up.Sub? { ScopeUp(UserHalf, p); }
      MissingIs(s, cells, p.up);
      var rest := cells + Spine(p.up);
      assert cells + Spine(p) == rest + {p};
      if p in cells {
        assert rest + {p} == rest;
      } else {
        SpineHolds(p.up, p);
        if Below(p, p.up) { BelowDepth(p, p.up); }
        assert p !in rest;
      }
    }
  }

  lemma MissingRoot(s: State)
    ensures Missing(s, Root) == 0
  {
  }

  // vm_map of page n: it succeeds exactly when the page is not taken and its missing
  // positions can be paid for with free frames, which it then does.
  lemma MapTakes(s: State, cells: set<Path>, n: nat, r: Rights)
    requires User(s) && Taken(s, cells) && n < USER_PAGES
    ensures var (t, ok) := Map(s, VPage(n), r);
      && (ok <==> VPage(n) !in cells && |cells + Spine(VPage(n))| <= |s.free| + |cells|)
      && (ok ==> Taken(t, cells + Spine(VPage(n))) && |t.free| + |cells + Spine(VPage(n))| == |s.free| + |cells|)
  {
    hide Map, VPage, Walk, PlainTree, Inv, KeepsPages;
    var v := VPage(n);
    VPageUser(n);
    PlainPath(s, UserHalf, v);
    MapInv(s, v, r);
    MissingIs(s, cells, v);
    var (t, ok) := Map(s, v, r);
    if ok {
      forall q: Path | Lower(q) && InRange(q) && Depth(q) <= 4
        ensures Lookup(t, q) != Miss <==> q in cells + Spine(v)
      {
        MapWalk(s, v, r, q);
        SpineHolds(v, q);
        NewlyFound(s, v, r, q);
      }
    }
  }

  lemma NewlyFound(s: State, v: Path, r: Rights, q: Path)
    requires v.Sub? && Depth(v) == 4 && q.Sub? && Lookup(s, v) == Miss && Missing(s, v) <= |s.free|
    ensures WalkAfterMap(s, v, r, q) != Miss <==> Lookup(s, q) != Miss || Below(q, v)
  {
    hide Walk;
    MissingAbove(s, v);
    MissingAbove(s, q);
    if Below(q, v) && q != v { MissingBelow(s, q, v); }
    if Below(v, v.up) { BelowDepth(v, v.up); }
  }

  // ---- ranges and segments ----

  function PagesFrom(first: nat, k: nat): seq<nat> {
    seq(k, i requires 0 <= i < k => first + i)
  }

  ghost predicate AllUser(pages: seq<nat>) {
    forall m :: m in pages ==> m < USER_PAGES
  }

  // The pages can be mapped one after the other: no repetition, and a frame for each position.
  ghost predicate CanMap(pages: seq<nat>, frames: nat) {
    Distinct(pages) && |Cells(pages)| <= frames
  }

  // Exactly the given pages are mapped, and `frames` counts free frames and taken positions.
  ghost predicate Loading(s: State, pages: seq<nat>, frames: nat) {
    User(s) && Taken(s, Cells(pages)) && CanMap(pages, frames) && AllUser(pages)
    && |s.free| + |Cells(pages)| == frames
  }

  lemma CanMapOneMore(pages: seq<nat>, n: nat, frames: nat)
    requires AllUser(pages) && n < USER_PAGES
    ensures CanMap(pages + [n], frames) <==>
      CanMap(pages, frames) && VPage(n) !in Cells(pages) && |Cells(pages) + Spine(VPage(n))| <= frames
  {
    hide VPage;
    CellsSnoc(pages, n);
    CellsPages(pages, n);
    Subset(Cells(pages), Cells(pages) + Spine(VPage(n)));
    DistinctSnoc(pages, n);
  }

  lemma DistinctSnoc(pages: seq<nat>, n: nat)
    ensures Distinct(pages + [n]) <==> Distinct(pages) && n !in pages
  {
    var all := pages + [n];
    if Distinct(all) {
      forall j: nat, k: nat | j < k < |pages| ensures pages[j] != pages[k] {
        assert all[j] == pages[j] && all[k] == pages[k];
      }
      forall j: nat | j < |pages| ensures pages[j] != n {
        assert all[j] == pages[j] && all[|pages|] == n;
      }
    }
  }

  lemma {:induction false} MapPagesTakes(s: State, pages: seq<nat>, frames: nat, first: nat, k: nat, r: Rights)
    requires Loading(s, pages, frames) && first + k <= USER_PAGES
    ensures var (t, all) := MapPages(s, first, k, r);
      && (all <==> CanMap(pages + PagesFrom(first, k), frames))
      && (all ==> Loading(t, pages + PagesFrom(first, k), frames))
  {
    hide User, Map, VPage, Taken, CanMap, Cells;
    if k == 0 {
      assert pages + PagesFrom(first, 0) == pages;
    } else {
      MapPagesTakes(s, pages, frames, first, k - 1, r);
      MapPagesEffect(s, first, k - 1, r, 0);
      var (u, all) := MapPages(s, first, k - 1, r);
      var before, n := pages + PagesFrom(first, k - 1), first + k - 1;
      assert before + [n] == pages + PagesFrom(first, k);
      assert AllUser(before) && AllUser(before + [n]);
      CanMapOneMore(before, n, frames);
      if all {
        MapTakes(u, Cells(before), n, r);
        MapUserPage(u, n, r, 0);
        CellsSnoc(before, n);
      }
    }
  }

  // Writing bytes and changing rights leaves the same positions taken.
  lemma {:induction false} ProtectPagesWalks(s: State, first: nat, k: nat, r: Rights, q: Path)
    requires User(s) && first + k <= USER_PAGES && InRange(q)
    ensures Lookup(ProtectPages(s, first, k, r), q) == Miss <==> Lookup(s, q) == Miss
  {
    hide User, Protect, VPage, Walk;
    if k > 0 {
      ProtectPagesWalks(s, first, k - 1, r, q);
      var u := ProtectPages(s, first, k - 1, r);
      ProtectPagesEffect(s, first, k - 1, r, 0);
      UserPagePlain(u, first + k - 1);
      ProtectUserWalk(u, VPage(first + k - 1), r, q);
    }
  }

  lemma ProtectUserWalk(u: State, v: Path, r: Rights, q: Path)
    requires User(u) && IsPage(v) && v.Sub? && SmallPath(u, v) && InRange(q)
    ensures Lookup(Protect(u, v, r).0, q) == Miss <==> Lookup(u, q) == Miss
  {
    hide Protect, Walk;
    ProtectWalk(u, v, r, q);
  }

  function SegmentPages(h: Phdr): seq<nat> {
    if Loadable(h) then PagesFrom(First(h), Count(h)) else []
  }

  function ProgramPages(hs: seq<Phdr>, n: nat): seq<nat>
    requires n <= |hs|
  {
    if n == 0 then [] else ProgramPages(hs, n - 1) + SegmentPages(hs[n - 1])
  }

  // Every page the loader asks for, the stack last.
  function ImagePages(hs: seq<Phdr>): seq<nat> {
    ProgramPages(hs, |hs|) + PagesFrom(USER_STACK / PAGE_SIZE, STACK_PAGES)
  }

  lemma SegmentTakes(s: State, pages: seq<nat>, frames: nat, file: seq<Byte>, h: Phdr)
    requires Loading(s, pages, frames) && Fits(h, file)
    ensures var (t, all) := LoadSegment(s, file, h);
      && (all <==> CanMap(pages + SegmentPages(h), frames))
      && (all ==> Loading(t, pages + SegmentPages(h), frames))
  {
    hide User, Taken, CanMap, Cells, MapPages, CopyBytes, ProtectPages, Walk, AllUser;
    if Loadable(h) {
      MapPagesTakes(s, pages, frames, First(h), Count(h), RW);
      MapPagesEffect(s, First(h), Count(h), RW, 0);
      var (u, all) := MapPages(s, First(h), Count(h), RW);
      SegmentEnd(h);
      CopyBytesEffect(u, h.vaddr, Bytes(h, file), h.memsz, 0);
      var v := CopyBytes(u, h.vaddr, Bytes(h, file), h.memsz);
      ProtectPagesEffect(v, First(h), Count(h), SegmentRights(h), 0);
      if all { TakenStays(u, v, h, Cells(pages + SegmentPages(h))); }
    } else {
      assert pages + [] == pages;
    }
  }

  lemma TakenStays(u: State, v: State, h: Phdr, cells: set<Path>)
    requires Taken(u, cells) && SameWalks(u, v) && User(v) && First(h) + Count(h) <= USER_PAGES
    ensures Taken(ProtectPages(v, First(h), Count(h), SegmentRights(h)), cells)
  {
    hide User, ProtectPages, Walk;
    forall p: Path | Lower(p) && InRange(p) && Depth(p) <= 4
      ensures Lookup(ProtectPages(v, First(h), Count(h), SegmentRights(h)), p) != Miss <==> p in cells
    {
      ProtectPagesWalks(v, First(h), Count(h), SegmentRights(h), p);
      assert Lookup(v, p) == Lookup(u, p);
    }
  }

  // What cannot be mapped cannot be mapped with more pages behind it.
  lemma {:induction false} CanMapPrefix(a: seq<nat>, b: seq<nat>, frames: nat)
    requires CanMap(a + b, frames)
    ensures CanMap(a, frames)
  {
    CellsGrow(a, b);
    Subset(Cells(a), Cells(a + b));
    forall j: nat, k: nat | j < k < |a| ensures a[j] != a[k] {
      assert (a + b)[j] == a[j] && (a + b)[k] == a[k];
    }
  }

  lemma {:induction false} SegmentsTake(s: State, frames: nat, file: seq<Byte>, hs: seq<Phdr>, n: nat)
    requires Loading(s, [], frames) && n <= |hs| && AllFit(hs, file)
    ensures var (t, all) := LoadSegments(s, file, hs, n);
      && (all <==> CanMap(ProgramPages(hs, n), frames))
      && (all ==> Loading(t, ProgramPages(hs, n), frames))
  {
    hide Loading, CanMap, LoadSegment, SegmentPages;
    if n == 0 {
      LoadingCanMap(s, [], frames);
    } else {
      SegmentsTake(s, frames, file, hs, n - 1);
      var (u, all) := LoadSegments(s, file, hs, n - 1);
      if all {
        SegmentTakes(u, ProgramPages(hs, n - 1), frames, file, hs[n - 1]);
      } else if CanMap(ProgramPages(hs, n), frames) {
        CanMapPrefix(ProgramPages(hs, n - 1), SegmentPages(hs[n - 1]), frames);
      }
    }
  }

  /** Loading succeeds, every vm_map of it, if and only if no page is asked for twice (by two
      segments, or by a segment and the stack) and there is a free frame for each page and each
      table on the way to one.  Four frames a page are always enough. */
  lemma ExecSucceeds(s0: State, file: seq<Byte>, hs: seq<Phdr>)
    requires Inv(s0) && AllFit(hs, file)
    ensures var s := UnmapLowerHalf(s0);
      var pages := ImagePages(hs);
      && (Load(s, file, hs).1 <==> Distinct(pages) && |Cells(pages)| <= |s.free|)
      && (Load(s, file, hs).1 ==> |Load(s, file, hs).0.free| == |s.free| - |Cells(pages)|)
      && |Cells(pages)| <= 4 * |pages|
  {
    hide Inv, PlainTree, PagesOwned, UnmapLowerHalf, LoadSegments, MapPages, Walk, ProgramPages, Cells, Taken;
    var s := UnmapLowerHalf(s0);
    StartsEmpty(s0);
    var frames := |s.free|;
    SegmentsTake(s, frames, file, hs, |hs|);
    CellsSize(ImagePages(hs));
    var (u, all) := LoadSegments(s, file, hs, |hs|);
    if all {
      MapPagesTakes(u, ProgramPages(hs, |hs|), frames, USER_STACK / PAGE_SIZE, STACK_PAGES, RW);
    } else if CanMap(ImagePages(hs), frames) {
      CanMapPrefix(ProgramPages(hs, |hs|), PagesFrom(USER_STACK / PAGE_SIZE, STACK_PAGES), frames);
    }
  }

  // A loaded program is where a heap run can start from.
  lemma ExecLoading(s0: State, file: seq<Byte>, hs: seq<Phdr>)
    requires Inv(s0) && AllFit(hs, file) && Load(UnmapLowerHalf(s0), file, hs).1
    ensures Loading(Load(UnmapLowerHalf(s0), file, hs).0, ImagePages(hs), |UnmapLowerHalf(s0).free|)
  {
    hide Inv, PlainTree, UnmapLowerHalf, LoadSegments, MapPages, Walk, ProgramPages, Cells, Taken;
    var s := UnmapLowerHalf(s0);
    StartsEmpty(s0);
    SegmentsTake(s, |s.free|, file, hs, |hs|);
    var u := LoadSegments(s, file, hs, |hs|).0;
    MapPagesTakes(u, ProgramPages(hs, |hs|), |s.free|, USER_STACK / PAGE_SIZE, STACK_PAGES, RW);
  }

  lemma LoadingCanMap(s: State, pages: seq<nat>, frames: nat)
    requires Loading(s, pages, frames)
    ensures CanMap(pages, frames)
  {
  }

  lemma StartsEmpty(s0: State)
    requires Inv(s0)
    ensures Loading(UnmapLowerHalf(s0), [], |UnmapLowerHalf(s0).free|)
  {
    hide UnmapLowerHalf, Walk;
    var s := UnmapLowerHalf(s0);
    Emptied(s0, 0);
    forall p: Path | Lower(p) && InRange(p) && Depth(p) <= 4 ensures Lookup(s, p) == Miss {
      LowerHalfUnmapped(s0, p);
    }
  }

  // ---- the image the gABI asks for ----

  // Chapter 5, "Program Header": the first filesz bytes come from the file, the rest of the
  // segment is zero.
  function GabiByte(h: Phdr, file: seq<Byte>, a: nat): Byte
    requires Fits(h, file) && Loadable(h) && h.filesz <= h.memsz
  {
    if h.vaddr <= a < h.vaddr + h.filesz then file[h.offset + (a - h.vaddr)] else 0
  }

  ghost predicate GabiImage(t: State, h: Phdr, file: seq<Byte>)
    requires Fits(h, file) && Loadable(h) && h.filesz <= h.memsz
  {
    forall a: nat :: Covers(h, a / PAGE_SIZE) ==> VByte(t, a) == GabiByte(h, file, a)
  }

  /** run_program copies memsz bytes where filesz are asked for: the image is right if and only
      if the file happens to hold zeros behind the segment's own bytes. */
  lemma GabiExactly(s0: State, file: seq<Byte>, hs: seq<Phdr>, j: nat)
    requires Inv(s0) && AllFit(hs, file) && Load(UnmapLowerHalf(s0), file, hs).1
    requires j < |hs| && Loadable(hs[j]) && hs[j].filesz <= hs[j].memsz
    ensures GabiImage(Load(UnmapLowerHalf(s0), file, hs).0, hs[j], file) <==>
      forall i: nat :: hs[j].filesz <= i < hs[j].memsz ==> Bytes(hs[j], file)[i] == 0
  {
    hide Inv, UnmapLowerHalf, Load, VByte, Covers;
    var h := hs[j];
    var t := Load(UnmapLowerHalf(s0), file, hs).0;
    forall a: nat | Covers(h, a / PAGE_SIZE) ensures VByte(t, a) == SegmentByte(h, file, a) {
      LoadedByte(s0, file, hs, j, a);
    }
    forall a: nat | h.vaddr <= a < h.vaddr + h.memsz ensures Covers(h, a / PAGE_SIZE) { BytesCovered(h, a); }
    if GabiImage(t, h, file) {
      forall i: nat | h.filesz <= i < h.memsz ensures Bytes(h, file)[i] == 0 {
        var a := h.vaddr + i;
        assert Covers(h, a / PAGE_SIZE);
      }
    } else {
      var a: nat :| Covers(h, a / PAGE_SIZE) && VByte(t, a) != GabiByte(h, file, a);
      assert Bytes(h, file)[a - h.vaddr] != 0;
    }
  }

  lemma LoadedByte(s0: State, file: seq<Byte>, hs: seq<Phdr>, j: nat, a: nat)
    requires Inv(s0) && AllFit(hs, file) && Load(UnmapLowerHalf(s0), file, hs).1
    requires j < |hs| && Covers(hs[j], a / PAGE_SIZE)
    ensures VByte(Load(UnmapLowerHalf(s0), file, hs).0, a) == SegmentByte(hs[j], file, a)
  {
    hide Inv, UnmapLowerHalf, Load, VByte, User, Seen, SameUpper;
    assert Fits(hs[j], file);
    ExecImage(s0, file, hs, a / PAGE_SIZE);
    assert HoldsSegment(Load(UnmapLowerHalf(s0), file, hs).0, hs[j], file, a / PAGE_SIZE);
  }

  /** A header it fails at: one byte of memory, none of it from the file, and a file whose byte at
      that offset is 1.  With 36 free frames the program loads, and its zero byte is 1. */
  lemma OneByteOfBss(s0: State)
    requires Inv(s0) && 36 <= |UnmapLowerHalf(s0).free|
    ensures var h := Phdr(PT_LOAD, 6, 0, 0x40_0000, 0, 1);
      && AllFit([h], [1]) && Loadable(h)
      && Load(UnmapLowerHalf(s0), [1], [h]).1
      && !GabiImage(Load(UnmapLowerHalf(s0), [1], [h]).0, h, [1])
  {
    hide Inv, UnmapLowerHalf, Load, GabiImage, Cells, VPage;
    var h := Phdr(PT_LOAD, 6, 0, 0x40_0000, 0, 1);
    ExecSucceeds(s0, [1], [h]);
    assert ProgramPages([h], 1) == ProgramPages([h], 0) + SegmentPages(h);
    assert ImagePages([h]) == [0x400] + PagesFrom(USER_STACK / PAGE_SIZE, STACK_PAGES);
    GabiExactly(s0, [1], [h], 0);
    assert Bytes(h, [1])[0] == 1;
  }
}
