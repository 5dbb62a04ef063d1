/** unmap_lower_half: the lower half disappears, its tables go to pmem_free children
    first and once each, and no mapped page is freed. */
module LowerHalf {
  import opened Words
  import opened Frames
  import opened Translation

  // The tables below the first n entries of the depth-d table t, children before parents.
  function Tables(m: Memory, t: nat, d: nat, n: nat): seq<nat>
    decreases 3 - d, 1, n
  {
    if d >= 3 || n == 0 then [] else Tables(m, t, d, n - 1) + Block(m, At(m, t, n - 1), d)
  }

  // The part contributed by one entry.
  function Block(m: Memory, e: Word, d: nat): seq<nat>
    decreases 3 - d, 0
  {
    if d < 3 && e.present && (d == 0 || !e.pageSize)
    then Tables(m, e.frame, d + 1, WORDS_PER_FRAME) + [e.frame] else []
  }

  // pmem_free on each frame in turn.
  function ReleaseAll(s: State, fs: seq<nat>): State {
    if fs == [] then s else Release(ReleaseAll(s, fs[..|fs| - 1]), fs[|fs| - 1])
  }

  function Reverse(fs: seq<nat>): seq<nat> {
    if fs == [] then [] else [fs[|fs| - 1]] + Reverse(fs[..|fs| - 1])
  }

  lemma {:induction false} ReleaseAllConcat(s: State, a: seq<nat>, b: seq<nat>)
    ensures ReleaseAll(s, a + b) == ReleaseAll(ReleaseAll(s, a), b)
  {
    hide Release;
    if b == [] {
      assert a + b == a;
    } else {
      var c := b[..|b| - 1];
      ReleaseAllConcat(s, a, c);
      assert (a + b)[..|a + b| - 1] == a + c;
    }
  }

  lemma {:induction false} ReverseConcat(a: seq<nat>, b: seq<nat>)
    ensures Reverse(a + b) == Reverse(b) + Reverse(a)
  {
    if b == [] {
      assert a + b == a;
      assert Reverse(b) + Reverse(a) == Reverse(a);
    } else {
      var c := b[..|b| - 1];
      ReverseConcat(a, c);
      assert (a + b)[..|a + b| - 1] == a + c;
      assert [b[|b| - 1]] + (Reverse(c) + Reverse(a)) == ([b[|b| - 1]] + Reverse(c)) + Reverse(a);
    }
  }

  // Entry i of the root is cleared; whatever lay below it is no longer part of the tree.
  function Detach(s: State, i: nat): State {
    s.(mem := Put(s.mem, s.root, i, At(s.mem, s.root, i).(present := false)),
       roles := seq(|s.roles|, f requires 0 <= f < |s.roles| =>
         if s.roles[f].Node? && s.roles[f].path.Sub? && Top(s.roles[f].path) == i then Held else s.roles[f]))
  }

  // The body of the outer loop, and the loop over the first n entries.
  function EmptyEntry(s: State, i: nat): State {
    if At(s.mem, s.root, i).present then
      ReleaseAll(Detach(s, i), Block(s.mem, At(s.mem, s.root, i), 0))
    else s
  }

  function EmptyEntries(s: State, n: nat): State {
    if n == 0 then s else EmptyEntry(EmptyEntries(s, n - 1), n - 1)
  }

  // ---- what Tables lists ----

  // No frame is listed after, or again after, a table above it.
  ghost predicate ChildrenFirst(s: State, fs: seq<nat>) {
    forall j: nat, k: nat :: j < k < |fs| ==> !Below(PathOfTable(s, fs[j]), PathOfTable(s, fs[k]))
  }

  // The index that leads from p down to q.
  function Toward(p: Path, q: Path): nat {
    if q.Root? then 0 else if q.up == p then q.idx else Toward(p, q.up)
  }

  predicate UnderEntries(p: Path, n: nat, q: Path) {
    Below(p, q) && q != p && Toward(p, q) < n
  }

  // fs are tables at positions below one of the first n entries of the table at p.
  ghost predicate FoundBelow(s: State, p: Path, n: nat, fs: seq<nat>) {
    forall f :: f in fs ==> IsTable(RoleOf(s, f)) && UnderEntries(p, n, PathOfTable(s, f))
  }

  // fs are tables at c or below.
  ghost predicate TablesFrom(s: State, c: Path, fs: seq<nat>) {
    forall f :: f in fs ==> IsTable(RoleOf(s, f)) && Below(c, PathOfTable(s, f))
  }

  lemma {:induction false} BelowSub(p: Path, i: nat, q: Path)
    ensures Below(Sub(p, i), q) <==> Below(p, q) && q != p && Toward(p, q) == i
  {
    if q == p {
      if Below(Sub(p, i), q) { BelowDepth(Sub(p, i), q); }
    } else if q.Sub? {
      if q.up == p {
        if Below(Sub(p, i), p) { BelowDepth(Sub(p, i), p); }
      } else {
        BelowSub(p, i, q.up);
      }
    }
  }

  lemma {:induction false} TopBelow(q: Path, i: nat)
    ensures Below(Sub(Root, i), q) <==> q.Sub? && Top(q) == i
  {
    if q.Sub? && q.up.Sub? {
      TopBelow(q.up, i);
    }
  }

  lemma ChildrenFirstConcat(s: State, a: seq<nat>, b: seq<nat>)
    requires ChildrenFirst(s, a) && ChildrenFirst(s, b)
    requires forall x, y :: x in a && y in b ==> !Below(PathOfTable(s, x), PathOfTable(s, y))
    ensures ChildrenFirst(s, a + b)
  {
    var c := a + b;
    forall j: nat, k: nat | j < k < |c| ensures !Below(PathOfTable(s, c[j]), PathOfTable(s, c[k])) {
      if j < |a| {
        if k >= |a| { assert c[j] in a && c[k] in b; }
      } else {
        assert c[j] == b[j - |a|] && c[k] == b[k - |a|];
      }
    }
  }

  // x lies under an earlier entry of p than y, so it is not above y.
  lemma EarlierNotAbove(p: Path, n: nat, x: Path, y: Path)
    requires UnderEntries(p, n, x) && Below(Sub(p, n), y)
    ensures !Below(x, y)
  {
    if Below(x, y) {
      BelowSub(p, Toward(p, x), x);
      BelowTransitive(Sub(p, Toward(p, x)), x, y);
      BelowSub(p, Toward(p, x), y);
      BelowSub(p, n, y);
    }
  }

  // x lies strictly below c, so it is not above c.
  lemma DeeperNotAbove(c: Path, x: Path)
    requires Below(c, x) && x != c
    ensures !Below(x, c)
  {
    BelowDepth(c, x);
    if Below(x, c) { BelowDepth(x, c); }
  }

  lemma JoinSound(s: State, p: Path, n: nat, a: seq<nat>, b: seq<nat>)
    requires ChildrenFirst(s, a) && FoundBelow(s, p, n, a)
    requires ChildrenFirst(s, b) && TablesFrom(s, Sub(p, n), b)
    ensures ChildrenFirst(s, a + b) && FoundBelow(s, p, n + 1, a + b)
  {
    forall x, y | x in a && y in b ensures !Below(PathOfTable(s, x), PathOfTable(s, y)) {
      EarlierNotAbove(p, n, PathOfTable(s, x), PathOfTable(s, y));
    }
    ChildrenFirstConcat(s, a, b);
    forall f | f in a + b ensures IsTable(RoleOf(s, f)) && UnderEntries(p, n + 1, PathOfTable(s, f)) {
      if f in b { BelowSub(p, n, PathOfTable(s, f)); }
    }
  }

  ghost predicate ListedOk(s: State, p: Path, t: nat, n: nat) {
    ChildrenFirst(s, Tables(s.mem, t, Depth(p), n)) && FoundBelow(s, p, n, Tables(s.mem, t, Depth(p), n))
  }

  ghost predicate BlockOk(s: State, p: Path, t: nat, j: nat) {
    && ChildrenFirst(s, Block(s.mem, At(s.mem, t, j), Depth(p)))
    && TablesFrom(s, Sub(p, j), Block(s.mem, At(s.mem, t, j), Depth(p)))
  }

  lemma ChildTable(s: State, p: Path, j: nat)
    requires Depth(p) < 3 && Lookup(s, p).Inner?
    requires var e := At(s.mem, Lookup(s, p).table, j); e.present && (Depth(p) == 0 || !e.pageSize)
    ensures Lookup(s, Sub(p, j)).Inner? && Lookup(s, Sub(p, j)).table == At(s.mem, Lookup(s, p).table, j).frame
    ensures Depth(Sub(p, j)) == Depth(p) + 1
  {
  }

  lemma {:induction false} BlockSound(s: State, p: Path, t: nat, j: nat)
    requires TreeOk(s) && InRange(Sub(p, j)) && Depth(p) < 3 && Lookup(s, p).Inner? && Lookup(s, p).table == t
    ensures BlockOk(s, p, t, j)
    decreases 3 - Depth(p), 0
  {
    hide Walk, TreeOk, Tables;
    var e := At(s.mem, t, j);
    var c := Sub(p, j);
    if e.present && (Depth(p) == 0 || !e.pageSize) {
      ChildTable(s, p, j);
      WalkRole(s, c);
      TablesSound(s, c, e.frame, WORDS_PER_FRAME);
      WithTop(s, c, Tables(s.mem, e.frame, Depth(c), WORDS_PER_FRAME), e.frame);
    } else {
      assert Block(s.mem, e, Depth(p)) == [];
    }
  }

  lemma WithTop(s: State, c: Path, a: seq<nat>, f: nat)
    requires ChildrenFirst(s, a) && FoundBelow(s, c, WORDS_PER_FRAME, a)
    requires IsTable(RoleOf(s, f)) && PathOfTable(s, f) == c
    ensures ChildrenFirst(s, a + [f]) && TablesFrom(s, c, a + [f])
  {
    forall x | x in a ensures !Below(PathOfTable(s, x), c) {
      DeeperNotAbove(c, PathOfTable(s, x));
    }
    ChildrenFirstConcat(s, a, [f]);
  }

  lemma NothingListed(s: State, p: Path, n: nat)
    ensures ChildrenFirst(s, []) && FoundBelow(s, p, n, [])
  {
  }

  lemma {:induction false} TablesSound(s: State, p: Path, t: nat, n: nat)
    requires TreeOk(s) && InRange(p) && Depth(p) <= 3 && n <= WORDS_PER_FRAME
    requires Lookup(s, p).Inner? && Lookup(s, p).table == t
    ensures ListedOk(s, p, t, n)
    decreases 3 - Depth(p), 1, n
  {
    hide Tables, Block, Walk, TreeOk, ChildrenFirst, FoundBelow, InRange;
    if Depth(p) == 3 || n == 0 {
      TablesBase(s.mem, t, Depth(p), n);
      NothingListed(s, p, n);
    } else {
      assert InRange(Sub(p, n - 1)) by { SubFacts(p, n - 1); }
      TablesSound(s, p, t, n - 1);
      BlockSound(s, p, t, n - 1);
      JoinTables(s, p, t, n);
    }
  }

  lemma TablesStep(m: Memory, t: nat, d: nat, n: nat)
    requires d < 3 && 0 < n
    ensures Tables(m, t, d, n) == Tables(m, t, d, n - 1) + Block(m, At(m, t, n - 1), d)
  {
  }

  lemma TablesBase(m: Memory, t: nat, d: nat, n: nat)
    requires d == 3 || n == 0
    ensures Tables(m, t, d, n) == []
  {
  }

  lemma JoinTables(s: State, p: Path, t: nat, n: nat)
    requires Depth(p) < 3 && 0 < n
    requires ListedOk(s, p, t, n - 1) && BlockOk(s, p, t, n - 1)
    ensures ListedOk(s, p, t, n)
  {
    hide Tables, Block;
    TablesStep(s.mem, t, Depth(p), n);
    JoinSound(s, p, n - 1, Tables(s.mem, t, Depth(p), n - 1), Block(s.mem, At(s.mem, t, n - 1), Depth(p)));
  }

  // Every table the walk finds below the first n entries is listed.
  lemma {:induction false} TablesComplete(s: State, p: Path, t: nat, n: nat, q: Path)
    requires TreeOk(s) && InRange(p) && n <= WORDS_PER_FRAME && Lookup(s, p).Inner? && Lookup(s, p).table == t
    requires UnderEntries(p, n, q) && InRange(q) && Lookup(s, q).Inner?
    ensures Lookup(s, q).table in Tables(s.mem, t, Depth(p), n)
    decreases Depth(q) - Depth(p), n
  {
    hide Walk, TreeOk, InRange, Tables, Block;
    WalkRole(s, q);
    BelowDepth(p, q);
    TablesStep(s.mem, t, Depth(p), n);
    if Toward(p, q) < n - 1 {
      TablesComplete(s, p, t, n - 1, q);
    } else {
      BelowSub(p, n - 1, q);
      InBlock(s, p, t, n - 1, q);
    }
  }

  lemma {:induction false} InBlock(s: State, p: Path, t: nat, j: nat, q: Path)
    requires TreeOk(s) && InRange(Sub(p, j)) && Lookup(s, p).Inner? && Lookup(s, p).table == t && Depth(p) < 3
    requires Below(Sub(p, j), q) && InRange(q) && Lookup(s, q).Inner?
    ensures Lookup(s, q).table in Block(s.mem, At(s.mem, t, j), Depth(p))
    decreases Depth(q) - Depth(p) - 1, WORDS_PER_FRAME + 1
  {
    var c := Sub(p, j);
    var e := At(s.mem, t, j);
    BelowDepth(c, q);
    InnerOnTheWay(s, c, q);
    assert Lookup(s, c).table == e.frame;
    if q != c {
      TowardInRange(c, q);
      TablesComplete(s, c, e.frame, WORDS_PER_FRAME, q);
    }
  }

  lemma {:induction false} InnerOnTheWay(s: State, a: Path, q: Path)
    requires Below(a, q) && Lookup(s, q).Inner?
    ensures Lookup(s, a).Inner?
  {
    if a != q {
      InnerOnTheWay(s, a, q.up);
    }
  }

  lemma {:induction false} TowardInRange(c: Path, q: Path)
    requires InRange(q)
    ensures Toward(c, q) < WORDS_PER_FRAME
  {
    if q.Sub? && q.up != c {
      TowardInRange(c, q.up);
    }
  }

  // ---- one pass of the outer loop ----

  lemma DetachWalk(s: State, i: nat, q: Path)
    requires Inv(s) && i < WORDS_PER_FRAME && InRange(q)
    ensures Lookup(Detach(s, i), q) == if q.Sub? && Top(q) == i then Miss else Lookup(s, q)
  {
    var u := Detach(s, i);
    TopBelow(q, i);
    FreeFacts(s);
    var c := Sub(Root, i);
    if !Below(c, q) {
      WalkLocal(s, u.mem, c, q);
    } else {
      assert |s.mem[s.root]| == WORDS_PER_FRAME;
      assert Lookup(u, Root) == Inner(u.root, FULL);
      AbsentMisses(u, Root, i);
      WalkBelowMiss(u.mem, u.root, c, q);
    }
  }

  lemma DetachRoles(s: State, i: nat, f: nat)
    ensures RoleOf(Detach(s, i), f) ==
      if RoleOf(s, f).Node? && RoleOf(s, f).path.Sub? && Top(RoleOf(s, f).path) == i then Held else RoleOf(s, f)
  {
  }

  lemma DetachKeeps(s: State, i: nat)
    requires Inv(s) && i < WORDS_PER_FRAME
    ensures WellFormed(Detach(s, i))
    ensures forall g: nat, j: nat :: g != s.root || j != i ==> At(Detach(s, i).mem, g, j) == At(s.mem, g, j)
  {
    var u := Detach(s, i);
    FreeFacts(s);
    forall f: nat ensures RoleOf(u, f) == Free <==> RoleOf(s, f) == Free {
      DetachRoles(s, i, f);
    }
    DetachRoles(s, i, 0);
    DetachRoles(s, i, s.root);
    assert FreeListOk(u) by { FreeListFrame(s, u); }
    assert TreeOk(u) by {
      forall f: nat ensures RoleOf(u, f).Node? ==> RoleOf(u, f) == RoleOf(s, f) {
        DetachRoles(s, i, f);
      }
      forall x: nat, j: nat | IsTable(RoleOf(u, x)) && j < WORDS_PER_FRAME
        ensures EntryOk(u, Sub(RoleOf(u, x).path, j), At(u.mem, x, j))
      {
        DetachedEntry(s, i, x, j);
      }
    }
  }

  lemma DetachedEntry(s: State, i: nat, x: nat, j: nat)
    requires Inv(s) && i < WORDS_PER_FRAME && j < WORDS_PER_FRAME && IsTable(RoleOf(Detach(s, i), x))
    ensures var u := Detach(s, i); EntryOk(u, Sub(RoleOf(u, x).path, j), At(u.mem, x, j))
  {
    var u := Detach(s, i);
    DetachRoles(s, i, x);
    DetachRoles(s, i, At(s.mem, x, j).frame);
    FreeFacts(s);
    var p := RoleOf(s, x).path;
    assert EntryOk(s, Sub(p, j), At(s.mem, x, j));
    if p.Root? {
      assert Found(s, p, x);
      assert x == s.root;
      assert |s.mem[x]| == WORDS_PER_FRAME;
    } else {
      assert Top(Sub(p, j)) == Top(p);
    }
  }

  lemma DetachInv(s: State, i: nat)
    requires Inv(s) && i < WORDS_PER_FRAME
    ensures Inv(Detach(s, i))
  {
    DetachKeeps(s, i);
    var u := Detach(s, i);
    forall f: nat | RoleOf(u, f).Node? ensures Found(u, RoleOf(u, f).path, f) {
      DetachRoles(s, i, f);
      assert Found(s, RoleOf(s, f).path, f);
      DetachWalk(s, i, RoleOf(s, f).path);
    }
  }

  // Frames that can be handed to pmem_free one after the other.
  ghost predicate Releasable(s: State, fs: seq<nat>) {
    && Distinct(fs)
    && forall f :: f in fs ==> 0 < f < |s.mem| && RoleOf(s, f) == Held && At(s.mem, f, 0) != SERIAL
  }

  lemma {:induction false} ReleaseAllInv(s: State, fs: seq<nat>)
    requires Inv(s) && Releasable(s, fs)
    ensures var u := ReleaseAll(s, fs);
      && Inv(u) && u.root == s.root && u.cfg == s.cfg && |u.mem| == |s.mem|
      && u.free == (if s.cfg.guard == AsWritten then [] else Reverse(fs)) + s.free
      && (forall g: nat :: g !in fs ==> RoleOf(u, g) == RoleOf(s, g))
      && (forall g: nat, i: nat :: g !in fs ==> At(u.mem, g, i) == At(s.mem, g, i))
      && (forall g: nat :: RoleOf(u, g).Node? ==> RoleOf(u, g) == RoleOf(s, g))
  {
    hide Inv, Release, Address;
    if fs != [] {
      var a, f := fs[..|fs| - 1], fs[|fs| - 1];
      LastIsNew(fs);
      assert Releasable(s, a) by { assert forall g :: g in a ==> g in fs; }
      ReleaseAllInv(s, a);
      var v := ReleaseAll(s, a);
      ReleaseOne(v, f);
      assert [f] + (Reverse(a) + s.free) == ([f] + Reverse(a)) + s.free;
    }
  }

  lemma LastIsNew(fs: seq<nat>)
    requires fs != [] && Distinct(fs)
    ensures var a, f := fs[..|fs| - 1], fs[|fs| - 1];
      f in fs && f !in a && forall g :: g in fs <==> g in a || g == f
  {
  }

  lemma ReleaseOne(v: State, f: nat)
    requires Inv(v) && 0 < f < |v.mem| && RoleOf(v, f) == Held && At(v.mem, f, 0) != SERIAL
    ensures var u := Release(v, f);
      && Inv(u) && u.root == v.root && u.cfg == v.cfg && |u.mem| == |v.mem|
      && u.free == (if v.cfg.guard == AsWritten then [] else [f]) + v.free
      && (forall g: nat :: g != f ==> RoleOf(u, g) == RoleOf(v, g))
      && (forall g: nat, i: nat :: g != f ==> At(u.mem, g, i) == At(v.mem, g, i))
      && !RoleOf(u, f).Node?
  {
    ReleaseInv(v, f);
    ReleaseSound(v, f);
  }

  lemma {:induction false} ReleaseAllWalk(s: State, fs: seq<nat>, q: Path)
    requires Inv(s) && Releasable(s, fs) && InRange(q)
    ensures Lookup(ReleaseAll(s, fs), q) == Lookup(s, q)
  {
    ReleaseAllInv(s, fs);
    WalkSame(s, ReleaseAll(s, fs).mem, q);
  }

  // The tables under one level 4 entry can all be freed once that entry is cleared.
  lemma BlockFrame(s: State, i: nat, f: nat)
    requires Inv(s) && i < WORDS_PER_FRAME && IsTable(RoleOf(s, f)) && Below(Sub(Root, i), PathOfTable(s, f))
    ensures 0 < f < |s.mem| && RoleOf(Detach(s, i), f) == Held && At(Detach(s, i).mem, f, 0) != SERIAL
    ensures PathOfTable(s, f).Sub? && Top(PathOfTable(s, f)) == i
  {
    TopBelow(PathOfTable(s, f), i);
    DetachRoles(s, i, f);
    DetachKeeps(s, i);
    assert EntryOk(s, Sub(RoleOf(s, f).path, 0), At(s.mem, f, 0));
  }

  lemma ChildrenFirstDistinct(s: State, fs: seq<nat>)
    requires ChildrenFirst(s, fs)
    ensures Distinct(fs)
  {
    forall j: nat, k: nat | j < k < |fs| ensures fs[j] != fs[k] {
      assert !Below(PathOfTable(s, fs[j]), PathOfTable(s, fs[k]));
    }
  }

  lemma BlockReleasable(s: State, i: nat)
    requires Inv(s) && i < WORDS_PER_FRAME
    ensures Releasable(Detach(s, i), Block(s.mem, At(s.mem, s.root, i), 0))
    ensures forall f :: f in Block(s.mem, At(s.mem, s.root, i), 0) ==>
      IsTable(RoleOf(s, f)) && PathOfTable(s, f).Sub? && Top(PathOfTable(s, f)) == i
  {
    var b := Block(s.mem, At(s.mem, s.root, i), 0);
    BlockSound(s, Root, s.root, i);
    ChildrenFirstDistinct(s, b);
    forall f | f in b
      ensures 0 < f < |s.mem| && RoleOf(Detach(s, i), f) == Held && At(Detach(s, i).mem, f, 0) != SERIAL
      ensures PathOfTable(s, f).Sub? && Top(PathOfTable(s, f)) == i
    {
      BlockFrame(s, i, f);
    }
  }

  // Clearing an entry of the root takes away what lies below it and nothing else.
  lemma EmptyEntryWalk(s: State, i: nat, q: Path)
    requires Inv(s) && i < WORDS_PER_FRAME && InRange(q)
    ensures Lookup(EmptyEntry(s, i), q) == if q.Sub? && Top(q) == i then Miss else Lookup(s, q)
  {
    if At(s.mem, s.root, i).present {
      DetachInv(s, i);
      DetachWalk(s, i, q);
      BlockReleasable(s, i);
      ReleaseAllWalk(Detach(s, i), Block(s.mem, At(s.mem, s.root, i), 0), q);
    } else {
      TopBelow(q, i);
      if Below(Sub(Root, i), q) { WalkBelowMiss(s.mem, s.root, Sub(Root, i), q); }
    }
  }

  // Frame f kept its role and its words, entries lo to hi of the root excepted.
  ghost predicate Untouched(s: State, u: State, f: nat, lo: nat, hi: nat) {
    && RoleOf(u, f) == RoleOf(s, f)
    && forall j: nat :: !(f == s.root && lo <= j < hi) ==> At(u.mem, f, j) == At(s.mem, f, j)
  }

  lemma EmptyEntryInv(s: State, i: nat)
    requires Inv(s) && i < WORDS_PER_FRAME
    ensures var u := EmptyEntry(s, i);
      && Inv(u) && u.root == s.root && u.cfg == s.cfg
      && u.free == (if s.cfg.guard == AsWritten then [] else Reverse(Block(s.mem, At(s.mem, s.root, i), 0))) + s.free
      && (forall f: nat :: RoleOf(u, f).Node? ==> RoleOf(u, f) == RoleOf(s, f))
      && forall f: nat :: RoleOf(s, f).Node? && (RoleOf(s, f).path.Sub? ==> Top(RoleOf(s, f).path) != i)
           ==> Untouched(s, u, f, i, i + 1)
  {
    hide Tables, Block, WellFormed, Reached, Reverse, ReleaseAll;
    if At(s.mem, s.root, i).present {
      var b := Block(s.mem, At(s.mem, s.root, i), 0);
      DetachInv(s, i);
      DetachKeeps(s, i);
      BlockReleasable(s, i);
      ReleaseAllInv(Detach(s, i), b);
      forall f: nat | RoleOf(Detach(s, i), f).Node? ensures RoleOf(Detach(s, i), f) == RoleOf(s, f) {
        DetachRoles(s, i, f);
      }
      forall f: nat | RoleOf(s, f).Node? && (RoleOf(s, f).path.Sub? ==> Top(RoleOf(s, f).path) != i)
        ensures Untouched(s, EmptyEntry(s, i), f, i, i + 1)
      {
        DetachRoles(s, i, f);
        assert f !in b;
      }
    } else {
      BlockOfAbsent(s.mem, At(s.mem, s.root, i));
    }
  }

  lemma BlockOfAbsent(m: Memory, e: Word)
    requires !e.present
    ensures Block(m, e, 0) == [] && forall fs: seq<nat> :: Reverse([]) + fs == fs
  {
  }

  // ---- the whole loop ----

  // The listing only depends on the tables below p.
  lemma {:induction false} TablesSame(s: State, m: Memory, p: Path, t: nat, n: nat)
    requires TreeOk(s) && InRange(p) && Depth(p) <= 3 && n <= WORDS_PER_FRAME
    requires Lookup(s, p).Inner? && Lookup(s, p).table == t
    requires forall f: nat, j: nat :: IsTable(RoleOf(s, f)) && Below(p, PathOfTable(s, f)) ==>
      At(m, f, j) == At(s.mem, f, j)
    ensures Tables(m, t, Depth(p), n) == Tables(s.mem, t, Depth(p), n)
    decreases 3 - Depth(p), 1, n
  {
    hide Tables, Block;
    if Depth(p) == 3 || n == 0 {
      TablesBase(s.mem, t, Depth(p), n);
      TablesBase(m, t, Depth(p), n);
    } else {
      WalkRole(s, p);
      TablesSame(s, m, p, t, n - 1);
      TablesStep(s.mem, t, Depth(p), n);
      TablesStep(m, t, Depth(p), n);
      forall f: nat, j: nat | IsTable(RoleOf(s, f)) && Below(Sub(p, n - 1), PathOfTable(s, f))
        ensures At(m, f, j) == At(s.mem, f, j)
      {
        BelowTransitive(p, Sub(p, n - 1), PathOfTable(s, f));
      }
      BlockSame(s, m, p, t, n - 1);
    }
  }

  lemma {:induction false} BlockSame(s: State, m: Memory, p: Path, t: nat, j: nat)
    requires TreeOk(s) && InRange(Sub(p, j)) && Depth(p) < 3
    requires Lookup(s, p).Inner? && Lookup(s, p).table == t
    requires forall f: nat, k: nat :: IsTable(RoleOf(s, f)) && Below(Sub(p, j), PathOfTable(s, f)) ==>
      At(m, f, k) == At(s.mem, f, k)
    ensures Block(m, At(s.mem, t, j), Depth(p)) == Block(s.mem, At(s.mem, t, j), Depth(p))
    decreases 3 - Depth(p), 0
  {
    hide Walk, TreeOk, Tables;
    var e := At(s.mem, t, j);
    var c := Sub(p, j);
    if e.present && (Depth(p) == 0 || !e.pageSize) {
      ChildTable(s, p, j);
      TablesSame(s, m, c, e.frame, WORDS_PER_FRAME);
    }
  }

  // After n passes: what the remaining passes will read is untouched.
  lemma {:induction false} EmptyEntriesInv(s: State, n: nat)
    requires Inv(s) && n <= 256
    ensures var u := EmptyEntries(s, n);
      && Inv(u) && u.root == s.root && u.cfg == s.cfg
      && u.free == (if s.cfg.guard == AsWritten then [] else Reverse(Tables(s.mem, s.root, 0, n))) + s.free
      && (forall f: nat :: RoleOf(u, f).Node? ==> RoleOf(u, f) == RoleOf(s, f))
      && forall f: nat :: RoleOf(s, f).Node? && (RoleOf(s, f).path.Sub? ==> n <= Top(RoleOf(s, f).path))
           ==> Untouched(s, u, f, 0, n)
  {
    hide Tables, Block, WellFormed, Reached, Reverse, EmptyEntry;
    if n > 0 {
      EmptyEntriesInv(s, n - 1);
      var u := EmptyEntries(s, n - 1);
      var e := At(s.mem, s.root, n - 1);
      UntouchedBlock(s, u, n - 1);
      EmptyEntryInv(u, n - 1);
      TablesStep(s.mem, s.root, 0, n);
      ReverseConcat(Tables(s.mem, s.root, 0, n - 1), Block(s.mem, e, 0));
      var a, b := Reverse(Block(s.mem, e, 0)), Reverse(Tables(s.mem, s.root, 0, n - 1));
      assert a + (b + s.free) == (a + b) + s.free;
      forall f: nat | RoleOf(s, f).Node? && (RoleOf(s, f).path.Sub? ==> n <= Top(RoleOf(s, f).path))
        ensures Untouched(s, EmptyEntries(s, n), f, 0, n)
      {
        assert Untouched(s, u, f, 0, n - 1);
        assert Untouched(u, EmptyEntry(u, n - 1), f, n - 1, n);
      }
    } else {
      NoTables(s.mem, s.root, s.free);
    }
  }

  lemma NoTables(m: Memory, root: nat, free: seq<nat>)
    ensures Reverse(Tables(m, root, 0, 0)) + free == free
  {
  }

  lemma UntouchedBlock(s: State, u: State, i: nat)
    requires Inv(s) && i < WORDS_PER_FRAME
    requires forall f: nat ::
      RoleOf(s, f).Node? && (RoleOf(s, f).path.Sub? ==> i <= Top(RoleOf(s, f).path)) ==> Untouched(s, u, f, 0, i)
    ensures At(u.mem, s.root, i) == At(s.mem, s.root, i)
    ensures Block(u.mem, At(s.mem, s.root, i), 0) == Block(s.mem, At(s.mem, s.root, i), 0)
  {
    assert RoleOf(s, s.root) == Node(Root);
    assert Untouched(s, u, s.root, 0, i);
    forall f: nat, j: nat | IsTable(RoleOf(s, f)) && Below(Sub(Root, i), PathOfTable(s, f))
      ensures At(u.mem, f, j) == At(s.mem, f, j)
    {
      TopBelow(PathOfTable(s, f), i);
      assert Untouched(s, u, f, 0, i);
      assert RoleOf(s, s.root) == Node(Root);
    }
    BlockSame(s, u.mem, Root, s.root, i);
  }

  lemma {:induction false} EmptyEntriesWalk(s: State, n: nat, q: Path)
    requires Inv(s) && n <= 256 && InRange(q)
    ensures Lookup(EmptyEntries(s, n), q) == if q.Sub? && Top(q) < n then Miss else Lookup(s, q)
  {
    hide Inv, EmptyEntry, Tables, Untouched, Walk;
    if n > 0 {
      EmptyEntriesInv(s, n - 1);
      EmptyEntriesWalk(s, n - 1, q);
      EmptyEntryWalk(EmptyEntries(s, n - 1), n - 1, q);
    }
  }

  function UnmapLowerHalf(s: State): State {
    EmptyEntries(s, 256)
  }

  // The tables unmap_lower_half hands to pmem_free, in that order.
  function LowerTables(s: State): seq<nat> {
    Tables(s.mem, s.root, 0, 256)
  }

  /** Afterwards no position of the lower half is translated and the upper half is as before.
      With the documented pmem_free the list has gained the lower-half tables as they stood
      on entry, last freed first; as written it has gained nothing. */
  lemma LowerHalfUnmapped(s: State, q: Path)
    requires Inv(s) && InRange(q)
    ensures var u := UnmapLowerHalf(s);
      && Inv(u) && u.root == s.root && u.cfg == s.cfg
      && Lookup(u, q) == (if Lower(q) then Miss else Lookup(s, q))
      && u.free == (if s.cfg.guard == AsWritten then [] else Reverse(LowerTables(s))) + s.free
  {
    EmptyEntriesInv(s, 256);
    EmptyEntriesWalk(s, 256, q);
  }

  /** The frames freed are exactly the level 3, 2 and 1 tables the walk finds in the lower half,
      each once, children before parents. */
  lemma LowerTablesExact(s: State, f: nat, q: Path)
    requires Inv(s) && InRange(q)
    ensures var fs := LowerTables(s);
      && Distinct(fs) && ChildrenFirst(s, fs)
      && (f in fs ==> Lower(PathOfTable(s, f)) && Lookup(s, PathOfTable(s, f)).Inner?)
      && (f in fs ==> TableAt(s, PathOfTable(s, f)) == f)
      && (Lower(q) && Lookup(s, q).Inner? ==> Lookup(s, q).table in fs)
  {
    hide Tables, Block;
    var fs := LowerTables(s);
    TablesSound(s, Root, s.root, 256);
    ChildrenFirstDistinct(s, fs);
    if f in fs {
      var p := PathOfTable(s, f);
      assert Found(s, RoleOf(s, f).path, f);
      TowardTop(p);
    }
    if Lower(q) && Lookup(s, q).Inner? {
      TopBelow(q, Top(q));
      BelowSub(Root, Top(q), q);
      TowardTop(q);
      TablesComplete(s, Root, s.root, 256, q);
    }
  }

  /** A frame that some page leads to is freed with them if and only if it is itself one of the
      tables: no frame of data ever is. */
  lemma PagesNotFreed(s: State, v: Path)
    requires Inv(s) && Lookup(s, v).Leaf?
    ensures var f := Lookup(s, v).frame;
      f in LowerTables(s) <==> IsTable(RoleOf(s, f)) && Lower(PathOfTable(s, f))
  {
    hide Tables, Block, Walk, Inv;
    var f := Lookup(s, v).frame;
    LowerTablesExact(s, f, Root);
    if f in LowerTables(s) { ListedTable(s, f); }
    if IsTable(RoleOf(s, f)) && Lower(PathOfTable(s, f)) {
      InvFrame(s, f);
      LowerTablesExact(s, f, PathOfTable(s, f));
    }
  }

  lemma ListedTable(s: State, f: nat)
    requires Inv(s) && f in LowerTables(s)
    ensures IsTable(RoleOf(s, f))
  {
    hide Tables, Block;
    TablesSound(s, Root, s.root, 256);
  }

  lemma {:induction false} TowardTop(p: Path)
    requires p.Sub?
    ensures Toward(Root, p) == Top(p)
  {
    if p.up.Sub? {
      TowardTop(p.up);
    }
  }

  // ---- the order of reads and frees ----

  /** What the loops do to page tables: read an entry of one, or pass one to pmem_free. */
  datatype Access = Read(table: nat) | Freed(frame: nat)

  function FreedIn(trace: seq<Access>): seq<nat> {
    if trace == [] then []
    else
      var last := trace[|trace| - 1];
      FreedIn(trace[..|trace| - 1]) + if last.Freed? then [last.frame] else []
  }

  // No table is read once it has been freed.
  ghost predicate ReadsFirst(trace: seq<Access>) {
    forall j: nat, k: nat :: j < k < |trace| && trace[k].Read? ==> trace[j] != Freed(trace[k].table)
  }

  // The tables read are the root and those in fs.
  ghost predicate ReadsOnly(trace: seq<Access>, root: nat, fs: seq<nat>) {
    forall k: nat :: k < |trace| && trace[k].Read? ==> trace[k].table == root || trace[k].table in fs
  }

  lemma {:induction false} FreedInHolds(trace: seq<Access>, f: nat)
    ensures Freed(f) in trace <==> f in FreedIn(trace)
  {
    if trace != [] {
      var a := trace[..|trace| - 1];
      FreedInHolds(a, f);
      assert trace == a + [trace[|trace| - 1]];
    }
  }

  lemma {:induction false} FreedInConcat(a: seq<Access>, b: seq<Access>)
    ensures FreedIn(a + b) == FreedIn(a) + FreedIn(b)
  {
    if b == [] {
      assert a + b == a;
    } else {
      FreedInConcat(a, b[..|b| - 1]);
      assert (a + b)[..|a + b| - 1] == a + b[..|b| - 1];
    }
  }

  lemma OneMore(trace: seq<Access>, e: Access)
    ensures FreedIn(trace + [e]) == FreedIn(trace) + if e.Freed? then [e.frame] else []
    ensures ReadsFirst(trace) && (e.Read? ==> e.table !in FreedIn(trace)) ==> ReadsFirst(trace + [e])
  {
    assert (trace + [e])[..|trace|] == trace;
    if e.Read? { FreedInHolds(trace, e.table); }
  }

  // One trace after another, when the second reads nothing that the first has freed.
  lemma TracesJoin(a: seq<Access>, b: seq<Access>, root: nat, fs: seq<nat>)
    requires ReadsFirst(a) && ReadsFirst(b) && ReadsOnly(b, root, fs)
    requires root !in FreedIn(a) && forall f :: f in fs ==> f !in FreedIn(a)
    ensures ReadsFirst(a + b)
  {
    forall j: nat, k: nat | j < k < |a + b| && (a + b)[k].Read?
      ensures (a + b)[j] != Freed((a + b)[k].table)
    {
      if j < |a| <= k {
        var t := (a + b)[k].table;
        assert b[k - |a|].table == t;
        FreedInHolds(a, t);
      }
    }
  }

  // The tables under entry n are none of those under the entries before it, and not the root.
  lemma LaterBlock(s: State, n: nat)
    requires Inv(s) && n < 256
    ensures var a, b := Tables(s.mem, s.root, 0, n), Block(s.mem, At(s.mem, s.root, n), 0);
      && Tables(s.mem, s.root, 0, n + 1) == a + b
      && s.root !in a && forall f :: f in b ==> f !in a
  {
    hide Tables, Block;
    var a, b := Tables(s.mem, s.root, 0, n), Block(s.mem, At(s.mem, s.root, n), 0);
    TablesStep(s.mem, s.root, 0, n + 1);
    TablesSound(s, Root, s.root, n + 1);
    ChildrenFirstDistinct(s, a + b);
    assert RoleOf(s, s.root) == Node(Root);
    forall f | f in a ensures f != s.root {
      assert f in a + b && UnderEntries(Root, n + 1, PathOfTable(s, f));
    }
    DistinctParts(a, b);
  }

  lemma DistinctParts(a: seq<nat>, b: seq<nat>)
    requires Distinct(a + b)
    ensures forall f :: f in b ==> f !in a
  {
    forall j: nat, k: nat | j < |a| && k < |b| ensures a[j] != b[k] {
      assert (a + b)[j] == a[j] && (a + b)[|a| + k] == b[k];
    }
  }

  // ---- what the loops rely on half way through ----

  lemma {:induction false} TablesPrefix(m: Memory, t: nat, d: nat, k: nat, n: nat)
    requires k <= n && d < 3
    ensures Tables(m, t, d, k) <= Tables(m, t, d, n)
    decreases n
  {
    hide Tables, Block;
    if k < n {
      TablesPrefix(m, t, d, k, n - 1);
      TablesStep(m, t, d, n);
    }
  }

  // Part way through one pass the frames in `done` have been freed; the table t, which is
  // still to be freed, holds what it held on entry.
  lemma PassState(s: State, i: nat, done: seq<nat>, t: nat)
    requires Inv(s) && i < WORDS_PER_FRAME && At(s.mem, s.root, i).present
    requires done <= Block(s.mem, At(s.mem, s.root, i), 0)
    requires t in Block(s.mem, At(s.mem, s.root, i), 0) && t !in done
    ensures var u := ReleaseAll(Detach(s, i), done);
      && Inv(u) && 0 < t < |u.mem| && |u.mem| == |s.mem| && RoleOf(u, t) == Held
      && forall j: nat :: At(u.mem, t, j) == At(s.mem, t, j)
  {
    hide Tables, Block;
    var b := Block(s.mem, At(s.mem, s.root, i), 0);
    var d := Detach(s, i);
    DetachInv(s, i);
    DetachKeeps(s, i);
    BlockReleasable(s, i);
    assert Releasable(d, done) by {
      assert forall k: nat :: k < |done| ==> done[k] == b[k];
      forall f | f in done ensures f in b {
        var k: nat :| k < |done| && done[k] == f;
        assert b[k] == f;
      }
    }
    ReleaseAllInv(d, done);
  }
}
