/** Filling the free list at boot, and what any run of allocations, frees and writes does
    to the frames that were put on it. */
module FrameRuns {
  import opened Words
  import opened Frames
  import opened Translation
  import opened LowerHalf

  // ---- add_memory ----

  // add_memory marks a frame and puts it in front of the list without looking at it.
  function Donate(s: State, f: nat): State {
    WithRole(s, f, Free).(mem := Put(Put(s.mem, f, 0, SERIAL), f, 1, FromNat(s.freelist)),
                          freelist := Address(f), free := [f] + s.free)
  }

  function DonateAll(s: State, fs: seq<nat>): State {
    if fs == [] then s else Donate(DonateAll(s, fs[..|fs| - 1]), fs[|fs| - 1])
  }

  ghost predicate Donatable(s: State, fs: seq<nat>) {
    Distinct(fs) && forall f :: f in fs ==> 0 < f < |s.mem| && RoleOf(s, f) == Held
  }

  lemma DonateInv(s: State, f: nat)
    requires Inv(s) && 0 < f < |s.mem| && RoleOf(s, f) == Held
    ensures var t := Donate(s, f);
      && Inv(t) && t.root == s.root && t.cfg == s.cfg && |t.mem| == |s.mem| && t.free == [f] + s.free
      && (forall g: nat :: RoleOf(t, g) == if g == f then Free else RoleOf(s, g))
      && SameTables(s, t.mem)
  {
    hide Address, FromNat, Walk;
    FreeFacts(s);
    HeadInMemory(s);
    LinkAddress(Head(s.free));
    var t := Donate(s, f);
    PushList(s, t, f);
    forall x: nat, j: nat | IsTable(RoleOf(t, x)) && j < WORDS_PER_FRAME
      ensures EntryOk(t, Sub(RoleOf(t, x).path, j), At(t.mem, x, j))
    {
      assert EntryOk(s, Sub(RoleOf(s, x).path, j), At(s.mem, x, j));
    }
    forall g: nat | RoleOf(t, g).Node? ensures Found(t, RoleOf(t, g).path, g) {
      assert Found(s, RoleOf(s, g).path, g);
      WalkSame(s, t.mem, RoleOf(s, g).path);
    }
  }

  // The frames end up on the list in reverse order, in front of what was there.
  lemma {:induction false} DonateAllInv(s: State, fs: seq<nat>)
    requires Inv(s) && Donatable(s, fs)
    ensures var t := DonateAll(s, fs);
      && Inv(t) && t.root == s.root && t.cfg == s.cfg && |t.mem| == |s.mem|
      && t.free == Reverse(fs) + s.free
      && (forall g: nat :: RoleOf(t, g) == if g in fs then Free else RoleOf(s, g))
      && (forall q: Path :: InRange(q) ==> Lookup(t, q) == Lookup(s, q))
  {
    hide Inv, Donate, WellFormed, Walk, SameTables;
    if fs == [] {
      assert Reverse(fs) + s.free == s.free;
    } else {
      var a, f := fs[..|fs| - 1], fs[|fs| - 1];
      assert forall g :: g in fs <==> g in a || g == f;
      assert f !in a;
      DonateAllInv(s, a);
      var u := DonateAll(s, a);
      DonateInv(u, f);
      assert [f] + (Reverse(a) + s.free) == ([f] + Reverse(a)) + s.free;
      forall q: Path | InRange(q) ensures Lookup(Donate(u, f), q) == Lookup(u, q) {
        InvTree(u);
        WalkSame(u, Donate(u, f).mem, q);
      }
    }
  }

  lemma InvTree(s: State)
    requires Inv(s)
    ensures TreeOk(s)
  {
  }

  lemma {:induction false} DonateAllConcat(s: State, a: seq<nat>, b: seq<nat>)
    ensures DonateAll(s, a + b) == DonateAll(DonateAll(s, a), b)
  {
    hide Donate;
    if b == [] {
      assert a + b == a;
    } else {
      var c := b[..|b| - 1];
      DonateAllConcat(s, a, c);
      assert (a + b)[..|a + b| - 1] == a + c;
    }
  }

  // ---- which pages a region holds ----

  // The number of pages a 64-bit address can tell apart.
  const ADDRESS_PAGES := 0x10_0000_0000_0000

  // A 64-bit subtraction.
  function Minus64(a: nat, b: nat): nat
    requires a < TWO_64 && b < TWO_64
  {
    if b <= a then a - b else TWO_64 + a - b
  }

  function Gap(base: nat): nat {
    if base % PAGE_SIZE == 0 then 0 else PAGE_SIZE - base % PAGE_SIZE
  }

  // The page add_memory starts with; the sum is computed in 64 bits.
  function FirstPage(base: nat): nat {
    (base + Gap(base)) % TWO_64 / PAGE_SIZE
  }

  function PageCount(base: nat, length: nat): nat
    requires length < TWO_64
  {
    Minus64(length, Gap(base)) / PAGE_SIZE
  }

  // The counter is an int: after 2^31 rounds it turns negative, and the comparison with the
  // unsigned count ends the loop.
  function Rounds(n: nat): nat {
    if n <= 0x8000_0000 then n else 0x8000_0000
  }

  // PAGE_SIZE*i as an int, overflow wrapping around.
  function Product(i: nat): int {
    var low := PAGE_SIZE * i % 0x1_0000_0000;
    if low < 0x8000_0000 then low else low - 0x1_0000_0000
  }

  // The page of round i: Product(i) bytes from the first, around the end of the address space.
  function PageAt(first: nat, i: nat): nat {
    (first + Product(i) / PAGE_SIZE) % ADDRESS_PAGES
  }

  // Until the product overflows that is the page i places after the first.
  lemma ProductIs(i: nat)
    ensures -0x8_0000 <= Product(i) / PAGE_SIZE < 0x8_0000
    ensures Product(i) == Product(i) / PAGE_SIZE * PAGE_SIZE
    ensures i < 0x8_0000 ==> Product(i) / PAGE_SIZE == i
  {
    LowProduct(i);
    var k := i % 0x10_0000;
    var signed := if k < 0x8_0000 then k else k - 0x10_0000;
    assert Product(i) == PAGE_SIZE * signed;
    assert PAGE_SIZE * signed / PAGE_SIZE == signed;
  }

  lemma LowProduct(i: nat)
    ensures PAGE_SIZE * i % 0x1_0000_0000 == PAGE_SIZE * (i % 0x10_0000)
  {
    var q, k := i / 0x10_0000, i % 0x10_0000;
    assert PAGE_SIZE * i == q * 0x1_0000_0000 + PAGE_SIZE * k;
  }

  function Range(first: nat, n: nat): seq<nat> {
    if n == 0 then [] else Range(first, n - 1) + [PageAt(first, n - 1)]
  }

  // The pages add_memory puts on the list, in order.
  function PagesTaken(base: nat, length: nat): seq<nat>
    requires length < TWO_64
  {
    Range(FirstPage(base), Rounds(PageCount(base, length)))
  }

  lemma {:induction false} RangeIs(first: nat, n: nat)
    ensures |Range(first, n)| == n
    ensures forall i: nat :: i < n ==> Range(first, n)[i] == PageAt(first, i)
  {
    if n > 0 {
      RangeIs(first, n - 1);
    }
  }

  lemma RangeHolds(first: nat, n: nat)
    requires first + n <= ADDRESS_PAGES && n <= 0x8_0000
    ensures forall f :: f in Range(first, n) <==> first <= f < first + n
    ensures Distinct(Range(first, n))
  {
    hide Range, PageAt;
    RangeIs(first, n);
    forall i: nat | i < n ensures Range(first, n)[i] == first + i { NoWrap(first, i); }
    forall f | first <= f < first + n ensures f in Range(first, n) {
      assert Range(first, n)[f - first] == f;
    }
  }

  lemma NoWrap(first: nat, i: nat)
    requires first + i < ADDRESS_PAGES && i < 0x8_0000
    ensures PageAt(first, i) == first + i
  {
    hide Product;
    ProductIs(i);
  }

  // The region reaches its first page boundary, no page of it lies beyond the last address,
  // and it is no larger than 2 GiB.
  predicate Manageable(base: nat, length: nat)
    requires length < TWO_64
  {
    length >= Gap(base) && base + length < TWO_64 + PAGE_SIZE && PageCount(base, length) <= 0x8_0000
  }

  // All of page f lies in [base, base + length).
  predicate Within(base: nat, length: nat, f: nat) {
    base <= f * PAGE_SIZE && (f + 1) * PAGE_SIZE <= base + length
  }

  /** add_memory takes exactly the whole pages of [base, base + length) if and only if the
      region reaches the first page boundary, no whole page of it lies beyond the 64-bit
      addresses, and it holds at most 2^19 pages; otherwise the length, the address or the
      product PAGE_SIZE*i wraps around. */
  lemma PagesAreWhole(base: nat, length: nat)
    requires base < TWO_64 && length < TWO_64
    ensures Manageable(base, length) <==>
      forall f: nat :: f in PagesTaken(base, length) <==> Within(base, length, f)
    ensures Manageable(base, length) ==> FirstPage(base) + PageCount(base, length) <= ADDRESS_PAGES
  {
    hide PagesTaken;
    if Manageable(base, length) {
      WholePages(base, length);
    } else if length < Gap(base) || base + length >= TWO_64 + PAGE_SIZE {
      OtherPages(base, length);
    } else {
      TooManyPages(base, length);
    }
  }

  lemma WholePages(base: nat, length: nat)
    requires base < TWO_64 && length < TWO_64 && Manageable(base, length)
    ensures FirstPage(base) + PageCount(base, length) <= ADDRESS_PAGES
    ensures forall f: nat :: f in PagesTaken(base, length) <==> Within(base, length, f)
  {
    hide Range;
    var first, n := FirstPage(base), PageCount(base, length);
    RangeIs(first, n);
    assert (base + Gap(base)) % PAGE_SIZE == 0;
    if n > 0 {
      assert first * PAGE_SIZE == base + Gap(base);
      RangeHolds(first, n);
    }
  }

  // A page that is taken and is not whole, or the other way round.
  lemma OtherPages(base: nat, length: nat)
    requires base < TWO_64 && length < TWO_64 && (length < Gap(base) || base + length >= TWO_64 + PAGE_SIZE)
    ensures exists f: nat :: Within(base, length, f) <==> f !in PagesTaken(base, length)
  {
    hide Range, Product;
    var first, n := FirstPage(base), Rounds(PageCount(base, length));
    RangeIs(first, n);
    assert (base + Gap(base)) % PAGE_SIZE == 0;
    if length < Gap(base) {
      assert n > 0 && first < ADDRESS_PAGES;
      NoWrap(first, 0);
      assert Range(first, n)[0] == first;
      assert first in Range(first, n);
      if base + Gap(base) < TWO_64 {
        assert first * PAGE_SIZE == base + Gap(base);
      } else {
        assert base + Gap(base) == TWO_64 && first == 0;
      }
      assert !Within(base, length, first);
    } else {
      assert ADDRESS_PAGES !in Range(first, n) && Within(base, length, ADDRESS_PAGES);
    }
  }

  // Page 2^19 of a larger region is never reached.
  lemma TooManyPages(base: nat, length: nat)
    requires base < TWO_64 && length < TWO_64 && Gap(base) <= length && base + length < TWO_64 + PAGE_SIZE
    requires PageCount(base, length) > 0x8_0000
    ensures var f := FirstPage(base) + 0x8_0000;
      Within(base, length, f) && f !in PagesTaken(base, length)
  {
    hide Range, Product, PageAt;
    var first, n := FirstPage(base), PageCount(base, length);
    assert (base + Gap(base)) % PAGE_SIZE == 0;
    assert base + Gap(base) < TWO_64;
    assert first * PAGE_SIZE == base + Gap(base);
    RangeIs(first, Rounds(n));
    forall i: nat | i < Rounds(n) ensures PageAt(first, i) != first + 0x8_0000 {
      NotReached(first, i);
    }
  }

  lemma NotReached(first: nat, i: nat)
    requires first + 0x8_0000 < ADDRESS_PAGES
    ensures PageAt(first, i) != first + 0x8_0000
  {
    hide Product;
    ProductIs(i);
    var k := Product(i) / PAGE_SIZE;
    if first + k < 0 {
      assert PageAt(first, i) == first + k + ADDRESS_PAGES;
    }
  }

  /** An ordinary region it fails at: 3 GiB from 1 MiB on.  From round 2^19 on the product is
      negative and the node lands 2 GiB below the region, here at the end of the address space. */
  lemma ThreeGigabytes()
    ensures var first := FirstPage(0x10_0000);
      && 0x10_0000 + 0xC000_0000 < TWO_64 && !Manageable(0x10_0000, 0xC000_0000)
      && Within(0x10_0000, 0xC000_0000, first + 0x8_0000)
      && first + 0x8_0000 !in PagesTaken(0x10_0000, 0xC000_0000)
      && PageAt(first, 0x8_0000) in PagesTaken(0x10_0000, 0xC000_0000)
      && PageAt(first, 0x8_0000) == ADDRESS_PAGES + 0x100 - 0x8_0000
  {
    hide Range;
    TooManyPages(0x10_0000, 0xC000_0000);
    var n := Rounds(PageCount(0x10_0000, 0xC000_0000));
    RangeIs(0x100, n);
    assert Range(0x100, n)[0x8_0000] == PageAt(0x100, 0x8_0000);
  }

  datatype Region = Region(base: nat, length: nat, usable: bool)

  predicate Is64(regions: seq<Region>) {
    forall i: nat :: i < |regions| ==> regions[i].base < TWO_64 && regions[i].length < TWO_64
  }

  function PagesOf(r: Region): seq<nat>
    requires r.length < TWO_64
  {
    if r.usable then PagesTaken(r.base, r.length) else []
  }

  function AllPages(regions: seq<Region>): seq<nat>
    requires Is64(regions)
  {
    if regions == [] then []
    else AllPages(regions[..|regions| - 1]) + PagesOf(regions[|regions| - 1])
  }

  function TotalPages(regions: seq<Region>): nat
    requires Is64(regions)
  {
    if regions == [] then 0
    else
      var r := regions[|regions| - 1];
      TotalPages(regions[..|regions| - 1]) + if r.usable then Rounds(PageCount(r.base, r.length)) else 0
  }

  lemma {:induction false} ReverseLength(fs: seq<nat>)
    ensures |Reverse(fs)| == |fs|
  {
    if fs != [] { ReverseLength(fs[..|fs| - 1]); }
  }

  lemma {:induction false} AllPagesLength(regions: seq<Region>)
    requires Is64(regions)
    ensures |AllPages(regions)| == TotalPages(regions)
  {
    if regions != [] {
      AllPagesLength(regions[..|regions| - 1]);
      var r := regions[|regions| - 1];
      if r.usable { RangeIs(FirstPage(r.base), Rounds(PageCount(r.base, r.length))); }
    }
  }

  // Usable regions hold the pages they should and do not overlap.
  ghost predicate Apart(regions: seq<Region>)
    requires Is64(regions)
  {
    && (forall i: nat :: i < |regions| && regions[i].usable ==> Manageable(regions[i].base, regions[i].length))
    && forall i: nat, j: nat :: i < j < |regions| && regions[i].usable && regions[j].usable ==>
         || regions[i].base + regions[i].length <= regions[j].base
         || regions[j].base + regions[j].length <= regions[i].base
  }

  // All of page f lies in region r.
  predicate Holds(r: Region, f: nat) {
    r.usable && Within(r.base, r.length, f)
  }

  lemma PagesHold(r: Region, f: nat)
    requires r.base < TWO_64 && r.length < TWO_64 && (r.usable ==> Manageable(r.base, r.length))
    ensures f in PagesOf(r) <==> Holds(r, f)
    ensures Distinct(PagesOf(r))
  {
    if r.usable {
      PagesAreWhole(r.base, r.length);
      RangeHolds(FirstPage(r.base), PageCount(r.base, r.length));
      assert f in PagesTaken(r.base, r.length) <==> Holds(r, f);
    }
  }

  lemma {:induction false} PagesAreHeld(regions: seq<Region>, f: nat)
    requires Is64(regions) && Apart(regions)
    ensures f in AllPages(regions) <==> exists i: nat :: i < |regions| && Holds(regions[i], f)
  {
    hide PagesOf, Holds;
    if regions != [] {
      var n := |regions| - 1;
      PagesAreHeld(regions[..n], f);
      PagesHold(regions[n], f);
      assert forall i: nat :: i < n ==> regions[..n][i] == regions[i];
    }
  }

  lemma {:induction false} PagesDistinct(regions: seq<Region>)
    requires Is64(regions) && Apart(regions)
    ensures Distinct(AllPages(regions))
  {
    if regions != [] {
      hide PagesOf, Distinct;
      var n := |regions| - 1;
      PagesDistinct(regions[..n]);
      var a, b := AllPages(regions[..n]), PagesOf(regions[n]);
      PagesHold(regions[n], 0);
      forall f | f in a ensures f !in b {
        PagesAreHeld(regions[..n], f);
        PagesHold(regions[n], f);
      }
      DistinctJoin(a, b);
    } else {
      assert AllPages(regions) == [];
    }
  }

  lemma DistinctJoin(a: seq<nat>, b: seq<nat>)
    requires Distinct(a) && Distinct(b) && forall f :: f in a ==> f !in b
    ensures Distinct(a + b)
  {
    forall j: nat, k: nat | j < k < |a + b| ensures (a + b)[j] != (a + b)[k] {
      if j < |a| <= k {
        assert (a + b)[j] in a && (a + b)[k] in b;
      }
    }
  }

  /** freelist_init over disjoint usable regions: a duplicate-free list of exactly the whole
      pages inside them, as long as the per-region counts add up to; the address space is
      not touched. */
  lemma FreelistInitFills(s: State, regions: seq<Region>)
    requires Inv(s) && s.free == [] && Is64(regions) && Apart(regions)
    requires forall f: nat, i: nat :: i < |regions| && Holds(regions[i], f) ==> 0 < f < |s.mem| && RoleOf(s, f) == Held
    ensures Donatable(s, AllPages(regions))
    ensures var t := DonateAll(s, AllPages(regions));
      && Inv(t) && Distinct(t.free) && |t.free| == TotalPages(regions)
      && (forall f: nat :: f in t.free <==> exists i: nat :: i < |regions| && Holds(regions[i], f))
      && (forall q: Path :: InRange(q) ==> Lookup(t, q) == Lookup(s, q))
  {
    var fs := AllPages(regions);
    PagesDistinct(regions);
    forall f: nat ensures f in fs <==> exists i: nat :: i < |regions| && Holds(regions[i], f) {
      PagesAreHeld(regions, f);
    }
    DonateAllInv(s, fs);
    ReverseLength(fs);
    AllPagesLength(regions);
  }

  // ---- runs ----

  datatype Op = Take | Give(f: nat) | Write(f: nat, i: nat, w: Word)

  /** The books of a run: frames handed out and not given back, and frames given back
      that did not make it onto the list. */
  datatype Books = Books(out: set<nat>, lost: set<nat>)

  // Clients give back frames that came from the list, and write to frames they hold.
  predicate Allowed(b: Books, s: State, op: Op) {
    match op
    case Take => true
    case Give(f) => f in b.out || f in b.lost || f in s.free
    case Write(f, i, _) => f in b.out && i < WORDS_PER_FRAME
  }

  function Apply(s: State, op: Op): State {
    match op
    case Take => Alloc(s).0
    case Give(f) => Release(s, f)
    case Write(f, i, w) => s.(mem := Put(s.mem, f, i, w))
  }

  function Note(b: Books, s: State, op: Op): Books {
    match op
    case Take => if s.free == [] then b else b.(out := b.out + {s.free[0]})
    case Give(f) =>
      if f !in b.out then b
      else if s.cfg.guard == AsWritten || At(s.mem, f, 0) == SERIAL then Books(b.out - {f}, b.lost + {f})
      else b.(out := b.out - {f})
    case Write(_, _, _) => b
  }

  // Every frame of the pool is on the list, handed out, or lost; never two of these.
  ghost predicate Balanced(s: State, b: Books, pool: set<nat>) {
    && Inv(s)
    && (forall f: nat :: f in pool <==> f in s.free || f in b.out || f in b.lost)
    && (forall f: nat :: f in b.out || f in b.lost ==> 0 < f < |s.mem| && RoleOf(s, f) == Held)
    && b.out !! b.lost
    && (s.cfg.guard == AsDocumented ==> forall f: nat :: f in b.lost ==> At(s.mem, f, 0) == SERIAL)
  }

  lemma WriteInv(s: State, f: nat, i: nat, w: Word)
    requires Inv(s) && 0 < f < |s.mem| && RoleOf(s, f) == Held
    ensures Inv(s.(mem := Put(s.mem, f, i, w)))
  {
    var t := s.(mem := Put(s.mem, f, i, w));
    assert FreeListOk(t) by { FreeListFrame(s, t); }
    assert TreeOk(t) by {
      forall x: nat, j: nat | IsTable(RoleOf(t, x)) && j < WORDS_PER_FRAME
        ensures EntryOk(t, Sub(RoleOf(t, x).path, j), At(t.mem, x, j))
      {
        assert EntryOk(s, Sub(RoleOf(s, x).path, j), At(s.mem, x, j));
      }
    }
    forall g: nat | RoleOf(t, g).Node? ensures Found(t, RoleOf(t, g).path, g) {
      assert Found(s, RoleOf(s, g).path, g);
      WalkSame(s, t.mem, RoleOf(s, g).path);
    }
  }

  lemma StepBalanced(s: State, b: Books, pool: set<nat>, op: Op)
    requires Balanced(s, b, pool) && Allowed(b, s, op)
    ensures Balanced(Apply(s, op), Note(b, s, op), pool) && Apply(s, op).cfg == s.cfg
  {
    match op
    case Take => TakeBalanced(s, b, pool);
    case Give(f) => GiveBalanced(s, b, pool, f);
    case Write(f, i, w) => WriteInv(s, f, i, w);
  }

  lemma TakeBalanced(s: State, b: Books, pool: set<nat>)
    requires Balanced(s, b, pool)
    ensures Balanced(Alloc(s).0, Note(b, s, Take), pool) && Alloc(s).0.cfg == s.cfg
  {
    AllocSound(s);
    AllocInv(s);
    FreeFacts(s);
    var (t, f) := Alloc(s);
    if s.free != [] {
      assert f in s.free;
      assert forall g: nat :: g in s.free <==> g == f || g in t.free;
    }
  }

  lemma GiveBalanced(s: State, b: Books, pool: set<nat>, f: nat)
    requires Balanced(s, b, pool) && Allowed(b, s, Give(f))
    ensures Balanced(Release(s, f), Note(b, s, Give(f)), pool) && Release(s, f).cfg == s.cfg
  {
    FreeFacts(s);
    ReleaseSound(s, f);
    ReleaseInv(s, f);
    var t := Release(s, f);
    assert f in b.lost && s.cfg.guard == AsDocumented ==> t == s;
    assert forall g: nat :: g in t.free <==> g in s.free || (t != s && g == f);
  }

  function Run(s: State, ops: seq<Op>): State {
    if ops == [] then s else Apply(Run(s, ops[..|ops| - 1]), ops[|ops| - 1])
  }

  function NoteRun(b: Books, s: State, ops: seq<Op>): Books {
    if ops == [] then b
    else Note(NoteRun(b, s, ops[..|ops| - 1]), Run(s, ops[..|ops| - 1]), ops[|ops| - 1])
  }

  predicate AllowedRun(b: Books, s: State, ops: seq<Op>) {
    ops == [] ||
    (var a := ops[..|ops| - 1];
     AllowedRun(b, s, a) && Allowed(NoteRun(b, s, a), Run(s, a), ops[|ops| - 1]))
  }

  /** In every run the frames first put on the list are neither duplicated nor mixed up:
      each stays on the list, with one client, or lost. */
  lemma {:induction false} RunBalanced(s: State, b: Books, pool: set<nat>, ops: seq<Op>)
    requires Balanced(s, b, pool) && AllowedRun(b, s, ops)
    ensures Balanced(Run(s, ops), NoteRun(b, s, ops), pool) && Run(s, ops).cfg == s.cfg
  {
    if ops != [] {
      var a := ops[..|ops| - 1];
      RunBalanced(s, b, pool, a);
      StepBalanced(Run(s, a), NoteRun(b, s, a), pool, ops[|ops| - 1]);
    }
  }

  // A second pmem_free of a frame that is already on the list changes nothing.
  lemma DoubleFree(s: State, f: nat)
    requires Inv(s) && f in s.free
    ensures Release(s, f) == s
  {
    FreeFacts(s);
    ReleaseSound(s, f);
  }

  // The frames handed out by a run, in order.
  function Issued(s: State, ops: seq<Op>): seq<nat> {
    if ops == [] then []
    else
      var u := Run(s, ops[..|ops| - 1]);
      Issued(s, ops[..|ops| - 1]) + if ops[|ops| - 1].Take? && u.free != [] then [u.free[0]] else []
  }

  /** As written the list only shrinks: a run hands out the initial list from the front, so
      no frame is ever handed out twice, however many are given back. */
  lemma {:induction false} AsWrittenOnlyShrinks(s: State, b: Books, pool: set<nat>, ops: seq<Op>)
    requires Balanced(s, b, pool) && AllowedRun(b, s, ops) && s.cfg.guard == AsWritten
    ensures s.free == Issued(s, ops) + Run(s, ops).free
    ensures Distinct(Issued(s, ops))
  {
    if ops != [] {
      hide Balanced, Inv, Distinct, NoteRun, Allowed, Apply;
      var a, op := ops[..|ops| - 1], ops[|ops| - 1];
      AsWrittenOnlyShrinks(s, b, pool, a);
      RunBalanced(s, b, pool, a);
      AsWrittenStep(Run(s, a), NoteRun(b, s, a), pool, op);
      DistinctInitially(s, b, pool);
      var u := Run(s, a);
      HeadMoves(Issued(s, a), u.free);
      PrefixDistinct(Issued(s, ops), Run(s, ops).free);
    } else {
      assert [] + s.free == s.free;
    }
  }

  lemma HeadMoves(a: seq<nat>, c: seq<nat>)
    ensures c != [] ==> a + [c[0]] + c[1..] == a + c
    ensures a + [] + c == a + c
  {
  }

  /** From boot on: whatever clients take, give back and write, the frames of the usable
      regions are all accounted for and the list stays duplicate-free. */
  lemma BootedRun(s: State, regions: seq<Region>, ops: seq<Op>)
    requires Inv(s) && s.free == [] && Is64(regions) && Donatable(s, AllPages(regions))
    requires AllowedRun(Books({}, {}), DonateAll(s, AllPages(regions)), ops)
    ensures var t := DonateAll(s, AllPages(regions));
      var u := Run(t, ops);
      && Balanced(u, NoteRun(Books({}, {}), t, ops), set f | f in AllPages(regions))
      && Distinct(u.free) && u.freelist == Address(Head(u.free))
      && forall k: nat :: k < |u.free| ==> Linked(u.mem, u.free, k)
  {
    hide Run, NoteRun, AllowedRun, DonateAll, AllPages;
    var fs := AllPages(regions);
    DonateAllInv(s, fs);
    var t := DonateAll(s, fs);
    assert forall f: nat :: f in t.free <==> f in fs;
    RunBalanced(t, Books({}, {}), (set f | f in fs), ops);
  }

  lemma DistinctInitially(s: State, b: Books, pool: set<nat>)
    requires Balanced(s, b, pool)
    ensures Distinct(s.free)
  {
  }

  lemma PrefixDistinct(a: seq<nat>, c: seq<nat>)
    ensures Distinct(a + c) ==> Distinct(a)
  {
    if Distinct(a + c) {
      forall j: nat, k: nat | j < k < |a| ensures a[j] != a[k] {
        assert (a + c)[j] == a[j] && (a + c)[k] == a[k];
      }
    }
  }

  lemma AsWrittenStep(u: State, b: Books, pool: set<nat>, op: Op)
    requires Balanced(u, b, pool) && Allowed(b, u, op) && u.cfg.guard == AsWritten
    ensures Apply(u, op).free == if op.Take? && u.free != [] then u.free[1..] else u.free
  {
    AllocSound(u);
    FreeFacts(u);
    if op.Give? { ReleaseSound(u, op.f); }
  }

  /** An allocation from an empty list fails.  The list stays empty exactly when there is no
      offset, so that the test sees NULL, or the second word of physical page 0 is zero. */
  lemma EmptyAlloc(s: State)
    requires s.freelist == 0
    ensures Alloc(s).1 == 0
    ensures Alloc(s).0.freelist == 0 <==> s.cfg.hhdm == 0 || At(s.mem, 0, 1) == ZERO
  {
    hide ToNat, FromNat;
    LinkAddress(0);
    WordIsUint64(At(s.mem, 0, 1), 0);
    assert FrameAt(0) == 0;
  }

  /** What happens otherwise: any other word becomes the list.  The word 8 is a head that is
      neither NULL nor a frame; after a link to frame g the next allocation hands out g,
      whatever g is used for. */
  lemma EmptyAllocRunsAway(s: State, g: nat)
    requires s.freelist == 0 && s.cfg.hhdm > 0 && 0 < g < MAX_FRAMES
    ensures At(s.mem, 0, 1) == FromNat(8) ==> Alloc(s).0.freelist == 8
    ensures At(s.mem, 0, 1) == Pointer(g) ==> Alloc(Alloc(s).0).1 == g
  {
    hide ToNat, FromNat;
    WordIsUint64(ZERO, 8);
    LinkAddress(g);
    assert FrameAt(0) == 0;
  }

  // A part of a donatable list that has not been donated yet still can be.
  lemma DonatablePart(s: State, a: seq<nat>, b: seq<nat>)
    requires Inv(s) && Donatable(s, a + b)
    ensures Donatable(s, a) && Donatable(DonateAll(s, a), b) && Inv(DonateAll(s, a))
  {
    PrefixDistinct(a, b);
    assert forall f :: f in a ==> f in a + b;
    DonateAllInv(s, a);
    forall j: nat, k: nat | j < k < |b| ensures b[j] != b[k] {
      assert (a + b)[|a| + j] == b[j] && (a + b)[|a| + k] == b[k];
    }
    forall f | f in b ensures f !in a && f in a + b {
      var k: nat :| k < |b| && b[k] == f;
      assert (a + b)[|a| + k] == f;
      forall j: nat | j < |a| ensures a[j] != f {
        assert (a + b)[j] == a[j];
      }
    }
  }

  lemma {:induction false} AllPagesPrefix(regions: seq<Region>, n: nat)
    requires Is64(regions) && n <= |regions|
    ensures AllPages(regions[..n]) <= AllPages(regions)
    decreases |regions|
  {
    if n < |regions| {
      AllPagesPrefix(regions[..|regions| - 1], n);
      assert regions[..|regions| - 1][..n] == regions[..n];
    } else {
      assert regions[..n] == regions;
    }
  }

  // What freelist_init needs to know before it handles region n.
  lemma RegionReady(s: State, regions: seq<Region>, n: nat)
    requires Inv(s) && Is64(regions) && n < |regions| && Donatable(s, AllPages(regions))
    ensures var u := DonateAll(s, AllPages(regions[..n]));
      && Inv(u) && |u.mem| == |s.mem| && Donatable(u, PagesOf(regions[n]))
      && DonateAll(u, PagesOf(regions[n])) == DonateAll(s, AllPages(regions[..n + 1]))
  {
    assert regions[..n + 1][..n] == regions[..n];
    var a, b := AllPages(regions[..n]), PagesOf(regions[n]);
    AllPagesPrefix(regions, n + 1);
    assert a + b <= AllPages(regions);
    var rest := AllPages(regions)[|a + b|..];
    assert AllPages(regions) == (a + b) + rest;
    DonatablePart(s, a + b, rest);
    DonatablePart(s, a, b);
    DonateAllInv(s, a);
    DonateAllConcat(s, a, b);
  }
}
