/** The kernel's memory manager as it runs: one array of physical frames and the head of
    the free list, both changed in place.  Every method is proved to do what the function
    of the same name does to the abstract state. */
module Machine {
  import opened Words
  import opened Frames
  import opened Translation
  import opened Mapping
  import opened Unmapping
  import opened LowerHalf
  import opened FrameRuns
  import opened Identity

  // Two memories of the same shape with the same words are the same.
  lemma SameMemory(m: Memory, n: Memory)
    requires |m| == |n| && forall f: nat :: f < |m| ==> |m[f]| == |n[f]|
    requires forall f: nat, i: nat :: At(m, f, i) == At(n, f, i)
    ensures m == n
  {
    forall f: nat | f < |m| ensures m[f] == n[f] {
      forall i: nat | i < |m[f]| ensures m[f][i] == n[f][i] {
        assert At(m, f, i) == At(n, f, i);
      }
    }
  }

  class Kernel {
    const cfg: Config
    const frames: nat
    const root: nat
    const mem: array2<Word>
    var freelist: nat
    ghost var st: State

    // The array holds the memory of the abstract state.
    ghost predicate Tied()
      reads this, mem
    {
      && mem.Length0 == frames == |st.mem| && mem.Length1 == WORDS_PER_FRAME
      && st.root == root && st.cfg == cfg && Shape(st)
      && forall f: nat, i: nat :: f < frames && i < WORDS_PER_FRAME ==> mem[f, i] == st.mem[f][i]
    }

    ghost predicate Valid()
      reads this, mem
    {
      Stored() && Inv(st)
    }

    // The same without the invariant: what is stored is the abstract state.
    ghost predicate Stored()
      reads this, mem
    {
      Tied() && freelist == st.freelist
    }

    // A machine whose root table is blank and whose frames are all held.
    constructor (cfg: Config, frames: nat, root: nat)
      requires 0 < root < frames <= MAX_FRAMES
      ensures Valid() && this.cfg == cfg && this.frames == frames && this.root == root
      ensures fresh(mem) && st.free == []
      ensures forall f: nat :: RoleOf(st, f) == if f == root then Node(Root) else Held
      ensures forall q: Path :: q.Sub? ==> Lookup(st, q) == Miss
    {
      this.cfg := cfg;
      this.frames := frames;
      this.root := root;
      mem := new Word[frames, WORDS_PER_FRAME]((f, i) => ZERO);
      freelist := 0;
      st := State(cfg, root, seq(frames, f => seq(WORDS_PER_FRAME, i => ZERO)), 0, [],
                  seq(frames, f => if f == root then Node(Root) else Held));
      new;
      BlankInv(st);
    }

    method Store(f: nat, i: nat, w: Word)
      requires Tied() && f < frames && i < WORDS_PER_FRAME
      modifies mem, `st
      ensures Tied() && st == old(st).(mem := Put(old(st).mem, f, i, w))
    {
      mem[f, i] := w;
      st := st.(mem := Put(st.mem, f, i, w));
    }

    // Fills the frame at physical address p with zeros, one word at a time.
    method Memset(p: nat)
      requires Tied() && p % PAGE_SIZE == 0 && p / PAGE_SIZE < frames
      modifies mem, `st
      ensures Tied() && st == old(st).(mem := Clear(old(st).mem, p / PAGE_SIZE))
    {
      var f := p / PAGE_SIZE;
      ghost var m := st.mem;
      for i := 0 to WORDS_PER_FRAME
        invariant Tied() && st == old(st).(mem := st.mem)
        invariant forall g: nat, j: nat :: At(st.mem, g, j) == if g == f && j < i then ZERO else At(m, g, j)
      {
        Store(f, i, ZERO);
      }
      SameMemory(st.mem, Clear(m, f));
    }

    // Returns the physical address of the frame, or 0.
    method PmemAlloc() returns (p: nat)
      requires Valid()
      modifies this`freelist, mem, `st
      ensures Valid() && p % PAGE_SIZE == 0 && (st, p / PAGE_SIZE) == Alloc(old(st))
    {
      hide Inv, Alloc, ToNat, Put;
      AllocStep(st);
      var temp := freelist + cfg.hhdm;
      if temp != 0 {
        ghost var s := st;
        var f := FrameAt(freelist);
        freelist := ToNat(mem[f, 1]);
        Store(f, 0, ZERO);
        st := Alloc(s).0;
        p := temp - cfg.hhdm;
      } else {
        p := 0;
      }
    }

    method PmemFree(p: nat)
      requires Valid() && p % PAGE_SIZE == 0 && 0 < p / PAGE_SIZE < frames
      requires !RoleOf(st, p / PAGE_SIZE).Node?
      modifies this`freelist, mem, `st
      ensures Valid() && st == Release(old(st), p / PAGE_SIZE)
    {
      ReleaseInv(st, p / PAGE_SIZE);
      PutBack(p);
    }

    // pmem_free itself, which looks at nothing but the frame.
    method PutBack(p: nat)
      requires Stored() && p % PAGE_SIZE == 0 && p / PAGE_SIZE < frames
      modifies this`freelist, mem, `st
      ensures Stored() && st == Release(old(st), p / PAGE_SIZE)
    {
      hide FromNat, Put, WithRole;
      ghost var s := st;
      var f := p / PAGE_SIZE;
      if Skips(cfg, p) {
        return;
      }
      if mem[f, 0] != SERIAL {
        Store(f, 0, SERIAL);
        Store(f, 1, FromNat(freelist));
        freelist := p;
        st := Release(s, f);
      }
    }

    // Entry i of table t gets a new zeroed frame; true when there is none.
    method MallocPage(t: nat, i: nat, user: bool, writable: bool, executable: bool, ghost p: Path)
      returns (failed: bool)
      requires Valid() && InRange(Sub(p, i)) && Depth(p) < 4
      requires Lookup(st, p).Inner? && Lookup(st, p).table == t
      requires !At(st.mem, t, i).present && !MapsLarge(Sub(p, i), At(st.mem, t, i))
      modifies this`freelist, mem, `st
      ensures Valid() && t < frames
      ensures (st, failed) == Translation.MallocPage(old(st), t, i, Rights(user, writable, executable))
    {
      hide Inv, Alloc, Walk, Put, Clear, Blank, KeepsPages, MapsLarge;
      ghost var s := st;
      ghost var r := Rights(user, writable, executable);
      InvTable(s, p);
      MallocPageInv(s, t, i, r, p);
      AllocFrame(s);
      var newPage := PmemAlloc();
      if newPage == 0 {
        return true;
      }
      var f := newPage / PAGE_SIZE;
      var e := mem[t, i];
      Store(t, i, e.(present := true, frame := Trunc40(f),
                     user := user, writable := writable, noExecute := !executable));
      Memset(newPage);
      st := WithRole(st, f, Node(Sub(PathOfTable(s, t), i)));
      InvShape(Translation.MallocPage(s, t, i, r).0);
      return false;
    }

    // One level of vm_map: the table below entry i of table t, made if it is missing.
    method NextTable(t: nat, i: nat, ghost s: State, ghost c: Path) returns (ok: bool, next: nat)
      requires Valid() && Inv(s) && c.Sub? && c.idx == i && InRange(c) && Depth(c) < 4 && SmallPath(s, c)
      requires (st, true) == Grow(s, c.up) && TableAt(st, c.up) == t
      modifies this`freelist, mem, `st
      ensures Valid() && (st, ok) == Grow(s, c) && (ok ==> TableAt(st, c) == next)
    {
      GrowStage(s, c);
      if !mem[t, i].present {
        var failed := MallocPage(t, i, true, true, true, c.up);
        if failed { return false, 0; }
      }
      return true, mem[t, i].frame;
    }

    method VmMap(address: nat, user: bool, writable: bool, executable: bool) returns (ok: bool)
      requires Valid() && SmallPath(st, PathOf(address))
      modifies this`freelist, mem, `st
      ensures Valid()
      ensures (st, ok) == Map(old(st), PathOf(address), Rights(user, writable, executable))
    {
      hide Grow, Walk, Inv, SmallPath, Translation.MallocPage;
      var level1 := address / 0x1000 % 512;
      var level2 := address / 0x20_0000 % 512;
      var level3 := address / 0x4000_0000 % 512;
      var level4 := address / 0x80_0000_0000 % 512;
      ghost var s := st;
      ghost var v := PathOf(address);
      ghost var p1, p2, p3 := v.up.up.up, v.up.up, v.up;
      SmallUp(s, v);
      SmallUp(s, p3);
      SmallUp(s, p2);
      GrowRoot(s);
      MapStage(s, v);

      var more, table3 := NextTable(root, level4, s, p1);
      if !more { MapFails(s, v, p1, Rights(user, writable, executable)); return false; }
      var table2;
      more, table2 := NextTable(table3, level3, s, p2);
      if !more { MapFails(s, v, p2, Rights(user, writable, executable)); return false; }
      var table1;
      more, table1 := NextTable(table2, level2, s, p3);
      if !more { return false; }
      if !mem[table1, level1].present {
        var failed := MallocPage(table1, level1, user, writable, executable, p3);
        return !failed;
      } else {
        // There was already a page mapped at that address.
        return false;
      }
    }

    method VmProtect(address: nat, user: bool, writable: bool, executable: bool) returns (ok: bool)
      requires Valid() && SmallPath(st, PathOf(address))
      modifies mem, `st
      ensures Valid()
      ensures (st, ok) == Protect(old(st), PathOf(address), Rights(user, writable, executable))
    {
      hide Walk, Inv, SmallPath;
      var level1 := address / 0x1000 % 512;
      var level2 := address / 0x20_0000 % 512;
      var level3 := address / 0x4000_0000 % 512;
      var level4 := address / 0x80_0000_0000 % 512;
      ghost var s := st;
      ghost var v := PathOf(address);
      SmallUp(s, v);
      SmallUp(s, v.up);
      SmallUp(s, v.up.up);
      ProtectInv(s, v, Rights(user, writable, executable));
      Descend(s, v);
      if !mem[root, level4].present { return false; }
      var table3: nat := mem[root, level4].frame;
      if !mem[table3, level3].present { return false; }
      var table2: nat := mem[table3, level3].frame;
      if !mem[table2, level2].present { return false; }
      var table1: nat := mem[table2, level2].frame;
      if !mem[table1, level1].present { return false; }
      Store(table1, level1, mem[table1, level1].(user := user, writable := writable, noExecute := !executable));
      return true;
    }

    // Whether no entry of the table is present.
    method FreePageTable(t: nat) returns (empty: bool)
      requires Tied() && t < frames
      ensures empty <==> EmptyTable(st.mem, t)
    {
      for i := 0 to WORDS_PER_FRAME
        invariant forall j: nat :: j < i ==> !At(st.mem, t, j).present
      {
        if mem[t, i].present {
          assert At(st.mem, t, i).present;
          return false;
        }
      }
      return true;
    }

    // Clears entry i of table t and frees the frame it pointed to.
    method Discard(t: nat, i: nat, ghost c: Path)
      requires Valid() && CanRemove(st, c) && TableAt(st, c.up) == t && c.idx == i
      modifies this`freelist, mem, `st
      ensures Valid() && st == Remove(old(st), c)
    {
      hide Inv, CanRemove, Walk;
      ghost var s := st;
      Dropped(s, c);
      var e := mem[t, i];
      Store(t, i, e.(present := false));
      st := Drop(s, t, i);
      PmemFree(e.frame * PAGE_SIZE);
    }

    // vm_unmap as it is meant, its tests reading the tables themselves.
    method VmUnmap(address: nat) returns (ok: bool)
      requires Valid() && SmallPath(st, PathOf(address)) && Owned(st, PathOf(address))
      modifies this`freelist, mem, `st
      ensures Valid() && (st, ok) == Unmap(old(st), PathOf(address))
    {
      hide Walk, Inv, SmallPath, Prune, Remove, EmptyTable, Owned, CanRemove;
      var level1 := address / 0x1000 % 512;
      var level2 := address / 0x20_0000 % 512;
      var level3 := address / 0x4000_0000 % 512;
      var level4 := address / 0x80_0000_0000 % 512;
      ghost var s := st;
      ghost var v := PathOf(address);
      ghost var p1, p2, p3 := v.up.up.up, v.up.up, v.up;
      SmallUp(s, v);
      SmallUp(s, p3);
      SmallUp(s, p2);
      Descend(s, v);
      if !mem[root, level4].present { return false; }
      var table3: nat := mem[root, level4].frame;
      if !mem[table3, level3].present { return false; }
      var table2: nat := mem[table3, level3].frame;
      if !mem[table2, level2].present { return false; }
      var table1: nat := mem[table2, level2].frame;
      if !mem[table1, level1].present { return false; }
      UnmapStart(s, v);
      RemoveAbove(s, v);
      Discard(table1, level1, v);
      BelowChain(p1, p2, p3);
      PruneIfEmpty(table1, table2, level2, p3);
      PruneIfEmpty(table2, table3, level3, p2);
      PruneIfEmpty(table3, root, level4, p1);
      PruneRoot(st);
      return true;
    }

    // If table t is empty, clears the entry of its parent that points to it and frees it.
    method PruneIfEmpty(t: nat, parent: nat, i: nat, ghost p: Path)
      requires Valid() && p.Sub? && p.idx == i && InRange(p) && Depth(p) < 4
      requires Lookup(st, p).Inner? && TableAt(st, p) == t && TableAt(st, p.up) == parent
      modifies this`freelist, mem, `st
      ensures Valid() && Prune(old(st), p) == Prune(st, p.up)
      ensures forall a: Path :: Below(a, p.up) ==> Lookup(st, a) == Lookup(old(st), a)
    {
      hide Walk, Inv, Prune, Remove, EmptyTable, CanRemove;
      PruneCase(st, p);
      var empty := FreePageTable(t);
      if empty {
        Discard(parent, i, p);
      }
    }

    // ---- vm_unmap as it stands ----

    // Word i of frame f; memory that is not installed reads as zero.
    method Entry(f: nat, i: nat) returns (w: Word)
      requires Tied() && i < WORDS_PER_FRAME
      ensures w == At(st.mem, f, i)
    {
      if f < frames { w := mem[f, i]; } else { w := ZERO; }
    }

    // The processor's walk for virtual address p, large pages included.
    method WalkAddress(p: nat) returns (found: bool, frame: nat)
      requires Tied()
      ensures found <==> AtAddress(st, p).Leaf?
      ensures found ==> frame == AtAddress(st, p).frame
    {
      hide Walk, Shape;
      if !(p < 0x8000_0000_0000 || 0xFFFF_8000_0000_0000 <= p < TWO_64) { return false, 0; }
      var level1 := p / 0x1000 % 512;
      var level2 := p / 0x20_0000 % 512;
      var level3 := p / 0x4000_0000 % 512;
      var level4 := p / 0x80_0000_0000 % 512;
      WalkInNumbers(st, p);
      var e4 := Entry(root, level4);
      if !e4.present { return false, 0; }
      var e3 := Entry(e4.frame, level3);
      if !e3.present { return false, 0; }
      if e3.pageSize { return true, e3.frame + level2 * 512 + level1; }
      var e2 := Entry(e3.frame, level2);
      if !e2.present { return false, 0; }
      if e2.pageSize { return true, e2.frame + level1; }
      var e1 := Entry(e2.frame, level1);
      return e1.present, e1.frame;
    }

    // free_page_table: reads the entries of the page at the address it is given.
    method FreePageTableAsWritten(p: nat) returns (fault: bool, empty: bool)
      requires Tied() && p % PAGE_SIZE == 0
      ensures Test(st, p / PAGE_SIZE) == if fault then Fault else if empty then Empty else Full
    {
      hide AtAddress;
      assert Address(p / PAGE_SIZE) == p;
      var found, f := WalkAddress(p);
      if !found { return true, false; }
      for i := 0 to WORDS_PER_FRAME
        invariant forall j: nat :: j < i ==> !At(st.mem, f, j).present
      {
        var e := Entry(f, i);
        if e.present { return false, false; }
      }
      return false, true;
    }

    // One test, and what follows from its answer; the tables were found in `base`.
    method TestAndDiscard(t: nat, parent: nat, i: nat, ghost base: State, ghost c: Path) returns (fault: bool)
      requires Stored() && c.Sub? && c.idx == i < WORDS_PER_FRAME && parent < frames && t < frames
      requires TableAt(base, c) == t && TableAt(base, c.up) == parent && At(st.mem, parent, i).frame == t
      modifies this`freelist, mem, `st
      ensures Stored()
      ensures fault ==> st == old(st) && PruneWritten(old(st), base, c) == (st, true)
      ensures !fault ==> PruneWritten(old(st), base, c) == PruneWritten(st, base, c.up)
      ensures forall f: nat, j: nat :: f != parent && f != t ==> At(st.mem, f, j) == At(old(st).mem, f, j)
    {
      hide TableAt, Test, Release, Drop, Put, Walk;
      ghost var s := st;
      WrittenStep(s, base, c);
      RemoveAtChanges(s, parent, i);
      var empty;
      Aligned(cfg, t);
      fault, empty := FreePageTableAsWritten(t * PAGE_SIZE);
      if fault || !empty { return; }
      var e := mem[parent, i];
      DropStores(s, parent, i);
      Store(parent, i, e.(present := false));
      st := Drop(s, parent, i);
      PutBack(e.frame * PAGE_SIZE);
    }

    /** vm_unmap as it stands: its three emptiness tests go through the physical addresses of
        the tables.  It may end in a fault, or in a state that breaks the invariant. */
    method VmUnmapAsWritten(address: nat) returns (ok: bool, fault: bool)
      requires Valid() && SmallPath(st, PathOf(address)) && Owned(st, PathOf(address))
      modifies this`freelist, mem, `st
      ensures Stored() && Outcome(st, ok, fault) == UnmapWritten(old(st), PathOf(address))
    {
      hide Walk, Inv, SmallPath, PruneWritten, Remove, RemoveAt, Owned, CanRemove;
      var level1 := address / 0x1000 % 512;
      var level2 := address / 0x20_0000 % 512;
      var level3 := address / 0x4000_0000 % 512;
      var level4 := address / 0x80_0000_0000 % 512;
      ghost var s := st;
      ghost var v := PathOf(address);
      ghost var p1, p2, p3 := v.up.up.up, v.up.up, v.up;
      SmallUp(s, v);
      SmallUp(s, p3);
      SmallUp(s, p2);
      Descend(s, v);
      if !mem[root, level4].present { return false, false; }
      var table3: nat := mem[root, level4].frame;
      if !mem[table3, level3].present { return false, false; }
      var table2: nat := mem[table3, level3].frame;
      if !mem[table2, level2].present { return false, false; }
      var table1: nat := mem[table2, level2].frame;
      if !mem[table1, level1].present { return false, false; }
      UnmapStart(s, v);
      PathTables(s, v);
      Discard(table1, level1, v);
      fault := TestAndDiscard(table1, table2, level2, s, p3);
      if fault { return false, true; }
      fault := TestAndDiscard(table2, table3, level3, s, p2);
      if fault { return false, true; }
      fault := TestAndDiscard(table3, root, level4, s, p1);
      if fault { return false, true; }
      WrittenRoot(st, s);
      return true, false;
    }

    // Reads one entry of a table that has not been freed: of the root or of one of the tables b.
    method ReadEntry(t: nat, i: nat, ghost b: seq<nat>, ghost trace: seq<Access>)
      returns (e: Word, ghost more: seq<Access>)
      requires Tied() && t < frames && i < WORDS_PER_FRAME
      requires ReadsFirst(trace) && ReadsOnly(trace, root, b) && t !in FreedIn(trace) && (t == root || t in b)
      ensures e == mem[t, i] == At(st.mem, t, i)
      ensures more == trace + [Read(t)] && ReadsFirst(more) && ReadsOnly(more, root, b)
      ensures FreedIn(more) == FreedIn(trace)
    {
      OneMore(trace, Read(t));
      more := trace + [Read(t)];
      e := mem[t, i];
    }

    method FreeTable(f: nat, ghost b: seq<nat>, ghost trace: seq<Access>) returns (ghost more: seq<Access>)
      requires Valid() && 0 < f < frames && !RoleOf(st, f).Node? && ReadsFirst(trace) && ReadsOnly(trace, root, b)
      modifies this`freelist, mem, `st
      ensures Valid() && st == Release(old(st), f)
      ensures more == trace + [Freed(f)] && ReadsFirst(more) && ReadsOnly(more, root, b)
      ensures FreedIn(more) == FreedIn(trace) + [f]
    {
      OneMore(trace, Freed(f));
      more := trace + [Freed(f)];
      PmemFree(f * PAGE_SIZE);
    }

    /** Unmaps everything in the lower half.  The trace tells in which order tables are read
        and freed: none is read once it has been freed, and the frees are the list of the
        lower-half tables. */
    method UnmapLowerHalf() returns (ghost trace: seq<Access>)
      requires Valid()
      modifies this`freelist, mem, `st
      ensures Valid() && st == LowerHalf.UnmapLowerHalf(old(st))
      ensures ReadsFirst(trace) && FreedIn(trace) == LowerTables(old(st))
    {
      hide EmptyEntry, Inv, Tables, Block, ReadsFirst, FreedIn;
      FreeFactsOf(st);
      ghost var s := st;
      NothingYet(s);
      trace := [];
      for index4 := 0 to 256
        invariant Valid() && st == EmptyEntries(s, index4)
        invariant ReadsFirst(trace) && FreedIn(trace) == Tables(s.mem, s.root, 0, index4)
      {
        LaterBlock(s, index4);
        SameBlock(s, index4);
        ghost var more := UnmapEntry(index4);
        TracesJoin(trace, more, root, Block(s.mem, At(s.mem, s.root, index4), 0));
        FreedInConcat(trace, more);
        trace := trace + more;
      }
    }

    // The body of the outer loop.
    method UnmapEntry(index4: nat) returns (ghost trace: seq<Access>)
      requires Valid() && index4 < WORDS_PER_FRAME
      modifies this`freelist, mem, `st
      ensures Valid() && st == EmptyEntry(old(st), index4)
      ensures var b := Block(old(st).mem, At(old(st).mem, root, index4), 0);
        ReadsFirst(trace) && ReadsOnly(trace, root, b) && FreedIn(trace) == b
    {
      hide Inv, Tables, Block, ReleaseAll, Detach, Release, EmptyEntry;
      hide ReadsFirst, ReadsOnly, FreedIn, Put, Address, Shape;
      ghost var s := st;
      FreeFactsOf(s);
      NothingYet(s);
      ghost var b := Block(s.mem, At(s.mem, root, index4), 0);
      var e4;
      e4, trace := ReadEntry(root, index4, b, []);
      if !e4.present {
        BlockOfAbsent(s.mem, e4);
        EntryAbsent(s, index4);
        return;
      }
      EntryCleared(s, index4);
      Store(root, index4, e4.(present := false));
      st := Detach(s, index4);
      // Now free the tables below it.
      var table3: nat := e4.frame;
      PassLevel3(s, index4, 0);
      for index3 := 0 to WORDS_PER_FRAME
        invariant Valid() && st == ReleaseAll(Detach(s, index4), Tables(s.mem, table3, 1, index3))
        invariant ReadsFirst(trace) && ReadsOnly(trace, root, b) && FreedIn(trace) == Tables(s.mem, table3, 1, index3)
      {
        ghost var before := Tables(s.mem, table3, 1, index3);
        PassLevel3(s, index4, index3);
        var e3;
        e3, trace := ReadEntry(table3, index3, b, trace);
        if e3.present && !e3.pageSize {
          var table2: nat := e3.frame;
          PassLevel2(s, index4, index3, 0);
          for index2 := 0 to WORDS_PER_FRAME
            invariant Valid() && st == ReleaseAll(Detach(s, index4), before + Tables(s.mem, table2, 2, index2))
            invariant ReadsFirst(trace) && ReadsOnly(trace, root, b)
            invariant FreedIn(trace) == before + Tables(s.mem, table2, 2, index2)
          {
            PassLevel2(s, index4, index3, index2);
            var e2;
            e2, trace := ReadEntry(table2, index2, b, trace);
            if e2.present && !e2.pageSize {
              PassLevel1(s, index4, index3, index2);
              trace := FreeTable(e2.frame, b, trace);
            } else {
              NoLevel1(s, table2, index2, before);
            }
          }
          PassLevel2(s, index4, index3, WORDS_PER_FRAME);
          Level2Done(s, index4, index3);
          trace := FreeTable(table2, b, trace);
        } else {
          NoLevel2(s, table3, index3);
        }
      }
      PassLevel3(s, index4, WORDS_PER_FRAME);
      Level3Done(s, index4);
      trace := FreeTable(table3, b, trace);
    }

    // Breaks up a large piece of memory and adds it to the free list.
    method AddMemory(base: nat, length: nat)
      requires Valid() && base < TWO_64 && length < TWO_64
      requires Donatable(st, PagesTaken(base, length))
      modifies this`freelist, mem, `st
      ensures Valid() && st == DonateAll(old(st), PagesTaken(base, length))
    {
      hide Inv, DonateAll, Donatable, PageAt, FromNat, Address, FirstPage, PageCount, Range, Put, Product, Rounds;
      ghost var s := st;
      DonateNone(s);
      InvShape(s);
      ghost var first, n := FirstPage(base), Rounds(PageCount(base, length));
      var start, rest := base, length;
      if start % PAGE_SIZE != 0 {
        rest := Minus64(rest, PAGE_SIZE - start % PAGE_SIZE);
        start := (start + (PAGE_SIZE - start % PAGE_SIZE)) % TWO_64;
      }
      RoundedUp(base, length);
      var prev := freelist;
      for i := 0 to Rounds(rest / PAGE_SIZE)
        invariant Tied() && Inv(st) && st == DonateAll(s, Range(first, i)) && prev == st.freelist
      {
        var newNode := (start + Product(i)) % TWO_64;
        NodeAt(first, i);
        DonationReady(s, first, n, i);
        Store(newNode / PAGE_SIZE, 0, SERIAL);
        Store(newNode / PAGE_SIZE, 1, FromNat(prev));
        prev := newNode;
        st := DonateAll(s, Range(first, i + 1));
      }
      freelist := prev;
    }

    // Puts all memory reported as usable on the free list.
    method FreelistInit(regions: seq<Region>)
      requires Valid() && Is64(regions) && Donatable(st, AllPages(regions))
      modifies this`freelist, mem, `st
      ensures Valid() && st == DonateAll(old(st), AllPages(regions))
    {
      hide DonateAll, Inv, Donatable;
      ghost var s := st;
      DonateNone(s);
      for i := 0 to |regions|
        invariant Valid() && st == DonateAll(s, AllPages(regions[..i]))
      {
        RegionReady(s, regions, i);
        if regions[i].usable {
          AddMemory(regions[i].base, regions[i].length);
        } else {
          DonateNone(st);
        }
      }
      assert regions[..|regions|] == regions;
    }
  }

  lemma DonateNone(s: State)
    ensures DonateAll(s, []) == s && forall first: nat :: Range(first, 0) == []
  {
  }

  // The region after rounding.
  lemma RoundedUp(base: nat, length: nat)
    requires base < TWO_64 && length < TWO_64
    ensures base % PAGE_SIZE != 0 ==>
      && (base + (PAGE_SIZE - base % PAGE_SIZE)) % TWO_64 == FirstPage(base) * PAGE_SIZE
      && Minus64(length, PAGE_SIZE - base % PAGE_SIZE) / PAGE_SIZE == PageCount(base, length)
    ensures base % PAGE_SIZE == 0 ==>
      base == FirstPage(base) * PAGE_SIZE && length / PAGE_SIZE == PageCount(base, length)
  {
    assert (base + Gap(base)) % PAGE_SIZE == 0;
  }

  // The address of round i, and the frame it lies in.
  lemma NodeAt(first: nat, i: nat)
    ensures (first * PAGE_SIZE + Product(i)) % TWO_64 == Address(PageAt(first, i))
    ensures Address(PageAt(first, i)) / PAGE_SIZE == PageAt(first, i)
  {
    hide Product;
    ProductIs(i);
    var n := first + Product(i) / PAGE_SIZE;
    assert n == n / ADDRESS_PAGES * ADDRESS_PAGES + n % ADDRESS_PAGES;
    assert n * PAGE_SIZE == n / ADDRESS_PAGES * TWO_64 + n % ADDRESS_PAGES * PAGE_SIZE;
  }

  // The head of the list is stored as the address of a frame.
  lemma AllocStep(s: State)
    requires Inv(s)
    ensures FrameAt(s.freelist) < |s.mem| && s.freelist % PAGE_SIZE == 0
    ensures FrameAt(s.freelist) == s.freelist / PAGE_SIZE
    ensures var (t, f) := Alloc(s);
      && Inv(t) && Shape(t) && Shape(s) && t.root == s.root && t.cfg == s.cfg && f == FrameAt(s.freelist)
      && if s.freelist + s.cfg.hhdm != 0 then
           t.mem == Put(s.mem, f, 0, ZERO) && t.freelist == ToNat(At(s.mem, f, 1))
         else t == s && s.freelist == 0
  {
    hide ToNat, Put;
    AllocSound(s);
    AllocInv(s);
    HeadInMemory(s);
    LinkAddress(Head(s.free));
    assert FrameAt(0) == 0;
  }

  lemma AllocFrame(s: State)
    requires Inv(s)
    ensures Alloc(s).1 < |s.mem|
  {
    AllocSound(s);
  }

  lemma DonationReady(s: State, first: nat, n: nat, i: nat)
    requires Inv(s) && i < n && Donatable(s, Range(first, n))
    ensures var u := DonateAll(s, Range(first, i));
      var t := DonateAll(s, Range(first, i + 1));
      var f := PageAt(first, i);
      && Inv(t) && Shape(t) && 0 < f < |u.mem| && t.freelist == Address(f)
      && t.root == u.root && t.cfg == u.cfg
      && t.mem == Put(Put(u.mem, f, 0, SERIAL), f, 1, FromNat(u.freelist))
  {
    hide Inv, Donatable, Range, WithRole, PageAt, FromNat, Address;
    RangeStep(first, n, i);
    var a, f := Range(first, i), PageAt(first, i);
    DonatablePart(s, a + [f], Range(first, n)[i + 1..]);
    DonateAllInv(s, a + [f]);
    DonatablePart(s, a, [f]);
    DonatableOne(DonateAll(s, a), f);
    assert (a + [f])[..i] == a;
    InvShape(DonateAll(s, a + [f]));
  }

  lemma InvShape(s: State)
    requires Inv(s)
    ensures Shape(s)
  {
  }

  lemma DonatableOne(s: State, f: nat)
    requires Donatable(s, [f])
    ensures 0 < f < |s.mem|
  {
    assert f in [f];
  }

  lemma RangeStep(first: nat, n: nat, i: nat)
    requires i < n
    ensures |Range(first, i)| == i && |Range(first, n)| == n
    ensures Range(first, i + 1) == Range(first, i) + [PageAt(first, i)]
    ensures Range(first, n) == (Range(first, i) + [PageAt(first, i)]) + Range(first, n)[i + 1..]
  {
    hide PageAt;
    RangeIs(first, i);
    RangeIs(first, n);
  }

  lemma FreeFactsOf(s: State)
    requires Inv(s)
    ensures 0 < s.root < |s.mem|
  {
    FreeFacts(s);
  }

  // ---- steps of vm_unmap as it stands ----

  lemma WrittenStep(s: State, base: State, c: Path)
    requires c.Sub?
    ensures PruneWritten(s, base, c) ==
      match Test(s, TableAt(base, c))
      case Fault => (s, true)
      case Empty => PruneWritten(RemoveAt(s, TableAt(base, c.up), c.idx), base, c.up)
      case Full => PruneWritten(s, base, c.up)
  {
  }

  lemma WrittenRoot(s: State, base: State)
    ensures PruneWritten(s, base, Root) == (s, false)
  {
  }

  // What clearing an entry leaves of the stored state.
  lemma DropStores(s: State, t: nat, i: nat)
    requires Shape(s)
    ensures var d := Drop(s, t, i);
      && Shape(d) && d.mem == Put(s.mem, t, i, At(s.mem, t, i).(present := false))
      && d.freelist == s.freelist && d.root == s.root && d.cfg == s.cfg
  {
  }

  // After the page has gone, the entries that lead to the three tables are what they were,
  // and the tables are three frames, none of them the root.
  lemma PathTables(s: State, v: Path)
    requires CanRemove(s, v) && IsPage(v) && SmallPath(s, v)
    requires v.Sub? && v.up.Sub? && v.up.up.Sub? && v.up.up.up.Sub? && v.up.up.up.up.Root?
    ensures var u := Remove(s, v);
      var p1, p2, p3 := v.up.up.up, v.up.up, v.up;
      var t1, t2, t3 := TableAt(s, p3), TableAt(s, p2), TableAt(s, p1);
      && t1 < |s.mem| && t2 < |s.mem| && t3 < |s.mem| && s.root < |s.mem|
      && t1 != t2 && t1 != t3 && t2 != t3 && s.root != t1 && s.root != t2 && s.root != t3
      && TableAt(s, Root) == s.root
      && At(u.mem, t2, p3.idx).frame == t1 && At(u.mem, t3, p2.idx).frame == t2 && At(u.mem, s.root, p1.idx).frame == t3
  {
    hide Inv, Walk;
    var p1, p2, p3 := v.up.up.up, v.up.up, v.up;
    RootFacts(s);
    InnerAbove(s, p3);
    InnerAbove(s, p2);
    InnerAbove(s, p1);
    SmallUp(s, v);
    SmallUp(s, p3);
    SmallUp(s, p2);
    SmallUp(s, p1);
    InvTable(s, p3);
    InvTable(s, p2);
    InvTable(s, p1);
    InvTable(s, Root);
    RemoveAtChanges(s, TableAt(s, p3), v.idx);
    RemoveIs(s, v);
  }

  // ---- steps of unmap_lower_half ----

  lemma EntryAbsent(s: State, i: nat)
    requires !At(s.mem, s.root, i).present
    ensures EmptyEntry(s, i) == s
  {
  }

  lemma EntryCleared(s: State, i: nat)
    requires Inv(s) && i < WORDS_PER_FRAME
    ensures var d := Detach(s, i);
      && Inv(d) && Shape(d) && d.freelist == s.freelist && d.root == s.root && d.cfg == s.cfg
      && d.mem == Put(s.mem, s.root, i, At(s.mem, s.root, i).(present := false))
      && ReleaseAll(d, []) == d
  {
    DetachInv(s, i);
  }

  // A frame that comes later in a duplicate-free list is still to be freed.
  lemma NotYet(b: seq<nat>, full: seq<nat>, x: nat, done: seq<nat>)
    requires full + [x] <= b && done <= full && Distinct(b)
    ensures done <= b && x in b && x !in done
  {
    assert b[|full|] == x;
    forall k: nat | k < |done| ensures done[k] != x && done[k] == b[k] {
      assert done[k] == full[k] == (full + [x])[k] == b[k];
    }
  }

  lemma PassReady(s: State, i: nat, full: seq<nat>, x: nat, done: seq<nat>)
    requires Inv(s) && i < WORDS_PER_FRAME && At(s.mem, s.root, i).present
    requires full + [x] <= Block(s.mem, At(s.mem, s.root, i), 0) && done <= full
    ensures var u := ReleaseAll(Detach(s, i), done);
      && Inv(u) && 0 < x < |u.mem| && |u.mem| == |s.mem| && RoleOf(u, x) == Held
      && (forall j: nat :: At(u.mem, x, j) == At(s.mem, x, j))
      && x !in done && x in Block(s.mem, At(s.mem, s.root, i), 0)
      && Release(u, x) == ReleaseAll(Detach(s, i), done + [x])
  {
    hide Tables, Block;
    BlockReleasable(s, i);
    NotYet(Block(s.mem, At(s.mem, s.root, i), 0), full, x, done);
    PassState(s, i, done, x);
    assert (done + [x])[..|done|] == done;
  }

  lemma NothingYet(s: State)
    ensures ReadsFirst([]) && FreedIn([]) == [] == Tables(s.mem, s.root, 0, 0)
    ensures forall b :: ReadsOnly([], s.root, b)
  {
  }

  // The tables under entry n are still what they were when the loop began.
  lemma SameBlock(s: State, n: nat)
    requires Inv(s) && n < 256
    ensures var u := EmptyEntries(s, n);
      && Inv(u) && u.root == s.root
      && Block(u.mem, At(u.mem, u.root, n), 0) == Block(s.mem, At(s.mem, s.root, n), 0)
  {
    hide Tables, Block, EmptyEntry;
    EmptyEntriesInv(s, n);
    UntouchedBlock(s, EmptyEntries(s, n), n);
  }

  lemma BlockIs(m: Memory, e: Word, d: nat)
    requires d < 3 && e.present && (d == 0 || !e.pageSize)
    ensures Block(m, e, d) == Tables(m, e.frame, d + 1, WORDS_PER_FRAME) + [e.frame]
    ensures d == 2 ==> Block(m, e, d) == [e.frame]
  {
  }

  lemma PassLevel3(s: State, i: nat, n: nat)
    requires Inv(s) && i < WORDS_PER_FRAME && n <= WORDS_PER_FRAME && At(s.mem, s.root, i).present
    ensures var t := At(s.mem, s.root, i).frame;
      var u := ReleaseAll(Detach(s, i), Tables(s.mem, t, 1, n));
      && Inv(u) && 0 < t < |u.mem| && |u.mem| == |s.mem| && RoleOf(u, t) == Held
      && (forall j: nat :: At(u.mem, t, j) == At(s.mem, t, j))
      && t !in Tables(s.mem, t, 1, n) && t in Block(s.mem, At(s.mem, s.root, i), 0)
      && (n == 0 ==> Tables(s.mem, t, 1, n) == [])
  {
    var e := At(s.mem, s.root, i);
    BlockIs(s.mem, e, 0);
    TablesPrefix(s.mem, e.frame, 1, n, WORDS_PER_FRAME);
    PassReady(s, i, Tables(s.mem, e.frame, 1, WORDS_PER_FRAME), e.frame, Tables(s.mem, e.frame, 1, n));
    if n == 0 { TablesBase(s.mem, e.frame, 1, 0); }
  }

  lemma Level3Done(s: State, i: nat)
    requires Inv(s) && i < WORDS_PER_FRAME && At(s.mem, s.root, i).present
    ensures var t := At(s.mem, s.root, i).frame;
      && Release(ReleaseAll(Detach(s, i), Tables(s.mem, t, 1, WORDS_PER_FRAME)), t) == EmptyEntry(s, i)
      && Block(s.mem, At(s.mem, s.root, i), 0) == Tables(s.mem, t, 1, WORDS_PER_FRAME) + [t]
  {
    hide Tables;
    var e := At(s.mem, s.root, i);
    BlockIs(s.mem, e, 0);
    var a := Tables(s.mem, e.frame, 1, WORDS_PER_FRAME);
    PassReady(s, i, a, e.frame, a);
  }

  // The lists seen while the level 2 table of entry (i, j) is being read are prefixes of the whole.
  lemma Level2Prefix(s: State, i: nat, j: nat)
    requires Inv(s) && i < WORDS_PER_FRAME && At(s.mem, s.root, i).present && j < WORDS_PER_FRAME
    requires var e3 := At(s.mem, At(s.mem, s.root, i).frame, j); e3.present && !e3.pageSize
    ensures var t3 := At(s.mem, s.root, i).frame;
      var t2 := At(s.mem, t3, j).frame;
      && Tables(s.mem, t3, 1, j) + Tables(s.mem, t2, 2, WORDS_PER_FRAME) + [t2] == Tables(s.mem, t3, 1, j + 1)
      && Tables(s.mem, t3, 1, j) + Tables(s.mem, t2, 2, WORDS_PER_FRAME) + [t2] <= Block(s.mem, At(s.mem, s.root, i), 0)
  {
    hide Tables, Block;
    var e := At(s.mem, s.root, i);
    var e3 := At(s.mem, e.frame, j);
    BlockIs(s.mem, e, 0);
    BlockIs(s.mem, e3, 1);
    TablesStep(s.mem, e.frame, 1, j + 1);
    TablesPrefix(s.mem, e.frame, 1, j + 1, WORDS_PER_FRAME);
    var a, b := Tables(s.mem, e.frame, 1, j), Tables(s.mem, e3.frame, 2, WORDS_PER_FRAME);
    assert a + (b + [e3.frame]) == a + b + [e3.frame];
  }

  lemma PassLevel2(s: State, i: nat, j: nat, n: nat)
    requires Inv(s) && i < WORDS_PER_FRAME && At(s.mem, s.root, i).present
    requires j < WORDS_PER_FRAME && n <= WORDS_PER_FRAME
    requires var e3 := At(s.mem, At(s.mem, s.root, i).frame, j); e3.present && !e3.pageSize
    ensures var t3 := At(s.mem, s.root, i).frame;
      var t2 := At(s.mem, t3, j).frame;
      var done := Tables(s.mem, t3, 1, j) + Tables(s.mem, t2, 2, n);
      var u := ReleaseAll(Detach(s, i), done);
      && Inv(u) && 0 < t2 < |u.mem| && |u.mem| == |s.mem| && RoleOf(u, t2) == Held
      && (forall k: nat :: At(u.mem, t2, k) == At(s.mem, t2, k))
      && t2 !in done && t2 in Block(s.mem, At(s.mem, s.root, i), 0)
      && (n == 0 ==> done == Tables(s.mem, t3, 1, j))
  {
    hide Tables, Block;
    var t3 := At(s.mem, s.root, i).frame;
    var t2 := At(s.mem, t3, j).frame;
    Level2Prefix(s, i, j);
    TablesPrefix(s.mem, t2, 2, n, WORDS_PER_FRAME);
    var a := Tables(s.mem, t3, 1, j);
    PassReady(s, i, a + Tables(s.mem, t2, 2, WORDS_PER_FRAME), t2, a + Tables(s.mem, t2, 2, n));
    if n == 0 { TablesBase(s.mem, t2, 2, 0); }
  }

  lemma Level2Done(s: State, i: nat, j: nat)
    requires Inv(s) && i < WORDS_PER_FRAME && At(s.mem, s.root, i).present && j < WORDS_PER_FRAME
    requires var e3 := At(s.mem, At(s.mem, s.root, i).frame, j); e3.present && !e3.pageSize
    ensures var t3 := At(s.mem, s.root, i).frame;
      var t2 := At(s.mem, t3, j).frame;
      && Release(ReleaseAll(Detach(s, i), Tables(s.mem, t3, 1, j) + Tables(s.mem, t2, 2, WORDS_PER_FRAME)), t2)
         == ReleaseAll(Detach(s, i), Tables(s.mem, t3, 1, j + 1))
      && Tables(s.mem, t3, 1, j + 1) == Tables(s.mem, t3, 1, j) + Tables(s.mem, t2, 2, WORDS_PER_FRAME) + [t2]
  {
    hide Tables, Block;
    var t3 := At(s.mem, s.root, i).frame;
    var t2 := At(s.mem, t3, j).frame;
    Level2Prefix(s, i, j);
    var a := Tables(s.mem, t3, 1, j) + Tables(s.mem, t2, 2, WORDS_PER_FRAME);
    PassReady(s, i, a, t2, a);
  }

  lemma NoLevel2(s: State, t3: nat, j: nat)
    requires !At(s.mem, t3, j).present || At(s.mem, t3, j).pageSize
    ensures Tables(s.mem, t3, 1, j + 1) == Tables(s.mem, t3, 1, j)
  {
    TablesStep(s.mem, t3, 1, j + 1);
  }

  lemma PassLevel1(s: State, i: nat, j: nat, k: nat)
    requires Inv(s) && i < WORDS_PER_FRAME && At(s.mem, s.root, i).present && j < WORDS_PER_FRAME && k < WORDS_PER_FRAME
    requires var e3 := At(s.mem, At(s.mem, s.root, i).frame, j); e3.present && !e3.pageSize
    requires var e2 := At(s.mem, At(s.mem, At(s.mem, s.root, i).frame, j).frame, k); e2.present && !e2.pageSize
    ensures var t3 := At(s.mem, s.root, i).frame;
      var t2 := At(s.mem, t3, j).frame;
      var t1 := At(s.mem, t2, k).frame;
      var u := ReleaseAll(Detach(s, i), Tables(s.mem, t3, 1, j) + Tables(s.mem, t2, 2, k));
      && 0 < t1 < |s.mem| && RoleOf(u, t1) == Held
      && Release(u, t1) == ReleaseAll(Detach(s, i), Tables(s.mem, t3, 1, j) + Tables(s.mem, t2, 2, k + 1))
      && Tables(s.mem, t3, 1, j) + Tables(s.mem, t2, 2, k + 1)
         == Tables(s.mem, t3, 1, j) + Tables(s.mem, t2, 2, k) + [t1]
  {
    hide Tables, Block;
    var t3 := At(s.mem, s.root, i).frame;
    var t2 := At(s.mem, t3, j).frame;
    var e2 := At(s.mem, t2, k);
    Level2Prefix(s, i, j);
    TablesPrefix(s.mem, t2, 2, k + 1, WORDS_PER_FRAME);
    TablesStep(s.mem, t2, 2, k + 1);
    BlockIs(s.mem, e2, 2);
    var a := Tables(s.mem, t3, 1, j);
    var b := Tables(s.mem, t2, 2, k);
    assert a + (b + [e2.frame]) == a + b + [e2.frame];
    PassReady(s, i, a + b, e2.frame, a + b);
  }

  lemma NoLevel1(s: State, t2: nat, k: nat, before: seq<nat>)
    requires !At(s.mem, t2, k).present || At(s.mem, t2, k).pageSize
    ensures before + Tables(s.mem, t2, 2, k + 1) == before + Tables(s.mem, t2, 2, k)
  {
    TablesStep(s.mem, t2, 2, k + 1);
  }

  lemma Dropped(s: State, c: Path)
    requires CanRemove(s, c)
    ensures var t := TableAt(s, c.up);
      var e := At(s.mem, t, c.idx);
      var d := Drop(s, t, c.idx);
      && Inv(d) && Shape(d) && t < |s.mem| && c.idx < WORDS_PER_FRAME
      && d.freelist == s.freelist && d.root == s.root && d.cfg == s.cfg
      && d.mem == Put(s.mem, t, c.idx, e.(present := false))
      && 0 < e.frame < |s.mem| && RoleOf(d, e.frame) == Held
      && Remove(s, c) == Release(d, e.frame)
  {
    DropInv(s, c);
    DropKeeps(s, c);
  }

  lemma PruneRoot(s: State)
    ensures Prune(s, Root) == s
  {
  }

  lemma BelowChain(p1: Path, p2: Path, p3: Path)
    requires p3.Sub? && p3.up == p2 && p2.Sub? && p2.up == p1 && p1.Sub? && p1.up == Root
    ensures Below(p3, p3) && Below(p2, p3) && Below(p1, p3) && Below(Root, p3)
    ensures Below(p2, p2) && Below(p1, p2) && Below(Root, p2)
    ensures Below(p1, p1) && Below(Root, p1)
  {
    assert Below(Root, p1);
    assert Below(p1, p2) && Below(Root, p2);
  }

  lemma PruneCase(s: State, p: Path)
    requires Inv(s) && p.Sub? && InRange(p) && Depth(p) < 4 && Lookup(s, p).Inner?
    ensures TableAt(s, p) < |s.mem| && (p.up.Root? ==> TableAt(s, p.up) == s.root)
    ensures if EmptyTable(s.mem, TableAt(s, p)) then
        && CanRemove(s, p) && Prune(s, p) == Prune(Remove(s, p), p.up)
        && forall a: Path :: Below(a, p.up) ==> Lookup(Remove(s, p), a) == Lookup(s, a)
      else Prune(s, p) == Prune(s, p.up)
  {
    InvTable(s, p);
    if EmptyTable(s.mem, TableAt(s, p)) {
      RemoveTableOk(s, p);
      RemoveAbove(s, p);
    }
  }

  // Where the four reads of a descent to v land.
  lemma Descend(s: State, v: Path)
    requires Inv(s) && IsPage(v) && SmallPath(s, v)
    requires v.Sub? && v.up.Sub? && v.up.up.Sub? && v.up.up.up.Sub? && v.up.up.up.up.Root?
    ensures DescendAt(s, v.up.up.up) && DescendAt(s, v.up.up) && DescendAt(s, v.up)
    ensures Lookup(s, v.up).Inner? ==> TableAt(s, v.up) < |s.mem|
    ensures TableAt(s, Root) == s.root && Lookup(s, Root).Inner?
    ensures Lookup(s, v).Leaf? <==> Lookup(s, v.up).Inner? && At(s.mem, TableAt(s, v.up), v.idx).present
  {
    SmallUp(s, v);
    SmallUp(s, v.up);
    SmallUp(s, v.up.up);
    DescendStep(s, v.up.up.up);
    DescendStep(s, v.up.up);
    DescendStep(s, v.up);
    SmallNotLeaf(s, v.up);
    if Lookup(s, v.up).Inner? { InvTable(s, v.up); }
  }

  // The entry of position c is present exactly when there is a table at c, and points to it.
  predicate DescendAt(s: State, c: Path)
    requires c.Sub?
  {
    && (Lookup(s, c.up).Inner? ==>
          && TableAt(s, c.up) < |s.mem|
          && (At(s.mem, TableAt(s, c.up), c.idx).present <==> Lookup(s, c).Inner?)
          && (Lookup(s, c).Inner? ==> At(s.mem, TableAt(s, c.up), c.idx).frame == TableAt(s, c)))
    && (!Lookup(s, c.up).Inner? ==> !Lookup(s, c).Inner?)
  }

  lemma DescendStep(s: State, c: Path)
    requires Inv(s) && c.Sub? && SmallPath(s, c) && InRange(c) && Depth(c) < 4
    ensures DescendAt(s, c)
  {
    SmallNotLeaf(s, c);
    if Lookup(s, c.up).Inner? { InvTable(s, c.up); }
  }

  lemma UnmapStart(s: State, v: Path)
    requires Inv(s) && IsPage(v) && SmallPath(s, v) && Owned(s, v) && Lookup(s, v).Leaf? && v.Sub?
    ensures CanRemove(s, v)
    ensures Unmap(s, v) == (Prune(Remove(s, v), v.up), true)
  {
    UnmapStep(s, v, v);
    SmallNotLeaf(s, v.up);
  }

  // The tables above c are where they were after its entry is cleared.
  lemma RemoveAbove(s: State, c: Path)
    requires CanRemove(s, c)
    ensures forall a: Path :: Below(a, c.up) ==> Lookup(Remove(s, c), a) == Lookup(s, a)
  {
    forall a: Path | Below(a, c.up) ensures Lookup(Remove(s, c), a) == Lookup(s, a) {
      BelowDepth(a, c.up);
      BelowInRange(a, c.up);
      RemoveWalk(s, c, a);
    }
  }

  lemma {:induction false} BelowInRange(p: Path, q: Path)
    requires Below(p, q) && InRange(q)
    ensures InRange(p)
  {
    if p != q { BelowInRange(p, q.up); }
  }

  lemma GrowRoot(s: State)
    ensures Grow(s, Root) == (s, true) && TableAt(s, Root) == s.root
  {
  }

  // A failure on the way is the failure of vm_map.
  lemma {:induction false} GrowFails(s: State, p: Path, a: Path)
    requires Below(a, p) && !Grow(s, a).1
    ensures Grow(s, p) == Grow(s, a)
  {
    if a != p {
      GrowFails(s, p.up, a);
    }
  }

  lemma MapFails(s: State, v: Path, a: Path, r: Rights)
    requires v.Sub? && !Grow(s, a).1
    requires a == v.up || (v.up.Sub? && (a == v.up.up || (v.up.up.Sub? && a == v.up.up.up)))
    ensures Map(s, v, r) == (Grow(s, a).0, false)
  {
    GrowFails(s, v.up, a);
  }

  // One level of the descent of vm_map, as the code takes it.
  lemma GrowStage(s: State, c: Path)
    requires Inv(s) && c.Sub? && InRange(c) && Depth(c) < 4 && SmallPath(s, c)
    ensures var (u, ok) := Grow(s, c.up);
      var t := TableAt(u, c.up);
      var e := At(u.mem, t, c.idx);
      && (!ok ==> Grow(s, c) == (u, false))
      && (ok ==>
            && Lookup(u, c.up).Inner? && t < |u.mem| && !MapsLarge(c, e)
            && (e.present ==> Grow(s, c) == (u, true) && TableAt(u, c) == e.frame)
            && (!e.present ==>
                  var (w, failed) := Translation.MallocPage(u, t, c.idx, FULL);
                  Grow(s, c) == (w, !failed) && (!failed ==> At(w.mem, t, c.idx).frame == TableAt(w, c))))
  {
    hide Inv, KeepsPages, Missing, PathRights, Translation.MallocPage, Blank, Walk, Grow, SmallPath;
    SmallUp(s, c);
    GrowInv(s, c.up);
    GrowUnfolds(s, c);
    var (u, ok) := Grow(s, c.up);
    if ok {
      InvTable(u, c.up);
      NextEntry(s, u, c);
      if Grow(s, c).1 { GrowEntry(s, c); }
    }
  }

  lemma GrowUnfolds(s: State, c: Path)
    requires c.Sub?
    ensures var (u, ok) := Grow(s, c.up);
      var t := TableAt(u, c.up);
      && (!ok ==> Grow(s, c) == (u, false))
      && (ok && At(u.mem, t, c.idx).present ==> Grow(s, c) == (u, true))
      && (ok && !At(u.mem, t, c.idx).present ==>
            var (w, failed) := Translation.MallocPage(u, t, c.idx, FULL); Grow(s, c) == (w, !failed))
  {
    hide Lookup, Translation.MallocPage;
  }

  lemma GrowEntry(s: State, c: Path)
    requires Inv(s) && c.Sub? && InRange(c) && Depth(c) < 4 && SmallPath(s, c) && Grow(s, c).1
    ensures Grow(s, c.up).1
    ensures At(Grow(s, c).0.mem, TableAt(Grow(s, c.up).0, c.up), c.idx).frame == TableAt(Grow(s, c).0, c)
  {
    hide Inv, KeepsPages, Missing, PathRights, Translation.MallocPage, Blank, Walk, Grow, SmallPath;
    GrowUnfolds(s, c);
    GrowInv(s, c);
    InnerAbove(Grow(s, c).0, c);
    GrowKeepsAbove(s, c);
  }

  lemma GrowKeepsAbove(s: State, c: Path)
    requires Inv(s) && c.Sub? && InRange(c) && Depth(c) < 4 && SmallPath(s, c) && Grow(s, c).1
    ensures Lookup(Grow(s, c).0, c.up) == Lookup(Grow(s, c.up).0, c.up)
  {
    GrowWalk(s, c, c.up);
    GrowWalk(s, c.up, c.up);
    BelowSelf(c.up, c.idx);
    GrowInv(s, c);
    MissingAbove(s, c);
  }

  lemma MapStage(s: State, v: Path)
    requires Inv(s) && IsPage(v) && v.Sub? && SmallPath(s, v)
    ensures var (u, ok) := Grow(s, v.up);
      ok ==>
        && Lookup(u, v.up).Inner? && TableAt(u, v.up) < |u.mem|
        && !MapsLarge(v, At(u.mem, TableAt(u, v.up), v.idx))
  {
    GrowInv(s, v.up);
    var (u, ok) := Grow(s, v.up);
    if ok { InvTable(u, v.up); }
  }

  lemma BlankInv(s: State)
    requires 0 < s.root < |s.mem| <= MAX_FRAMES && s.free == [] && s.freelist == 0
    requires |s.roles| == |s.mem| && forall f: nat :: f < |s.mem| ==> |s.mem[f]| == WORDS_PER_FRAME
    requires forall f: nat :: f < |s.roles| ==> s.roles[f] == if f == s.root then Node(Root) else Held
    requires forall f: nat, i: nat :: f < |s.mem| && i < WORDS_PER_FRAME ==> s.mem[f][i] == ZERO
    ensures Inv(s) && forall q: Path :: q.Sub? ==> Lookup(s, q) == Miss
  {
    assert forall f: nat, i: nat :: At(s.mem, f, i) == ZERO;
    forall q: Path | q.Sub? ensures Lookup(s, q) == Miss {
      BlankWalk(s, q);
    }
  }

  lemma {:induction false} BlankWalk(s: State, q: Path)
    requires q.Sub? && forall i: nat :: At(s.mem, s.root, i) == ZERO
    ensures Lookup(s, q) == Miss
  {
    if q.up.Sub? {
      BlankWalk(s, q.up);
    } else {
      assert Lookup(s, q.up) == Inner(s.root, FULL);
      assert At(s.mem, s.root, q.idx) == ZERO;
    }
  }
}
