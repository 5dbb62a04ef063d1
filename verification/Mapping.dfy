/** vm_map, vm_protect and vm_unmap as functions on states, and what each does to the
    walk of every position, to the free list and to the frames in use. */
module Mapping {
  import opened Words
  import opened Frames
  import opened Translation

  // ---- vm_map ----

  // How many tables (and the page itself) the walk to p lacks.
  function Missing(s: State, p: Path): nat {
    if p.Root? || Lookup(s, p) != Miss then 0 else 1 + Missing(s, p.up)
  }

  // The rights granted by the entries present on the way to p.
  function PathRights(s: State, p: Path): Rights {
    match Lookup(s, p)
    case Miss => if p.Root? then FULL else PathRights(s, p.up)
    case Inner(_, r) => r
    case Leaf(_, r) => r
  }

  // Creates the missing tables on the way to position p, from the top.
  function Grow(s: State, p: Path): (State, bool) {
    if p.Root? then (s, true)
    else
      var (u, ok) := Grow(s, p.up);
      if !ok then (u, false)
      else if At(u.mem, TableAt(u, p.up), p.idx).present then (u, true)
      else
        var (w, failed) := MallocPage(u, TableAt(u, p.up), p.idx, FULL);
        (w, !failed)
  }

  function Map(s: State, v: Path, r: Rights): (State, bool)
    requires v.Sub?
  {
    var (u, ok) := Grow(s, v.up);
    if !ok || At(u.mem, TableAt(u, v.up), v.idx).present then (u, false)
    else
      var (w, failed) := MallocPage(u, TableAt(u, v.up), v.idx, r);
      (w, !failed)
  }

  lemma {:induction false} MissingAbove(s: State, p: Path)
    requires p.Sub?
    ensures Missing(s, p) == if Lookup(s, p) == Miss then 1 + Missing(s, p.up) else 0
    ensures Lookup(s, p) != Miss ==> Missing(s, p.up) == 0
    ensures PathRights(s, p) == if Lookup(s, p) == Miss then PathRights(s, p.up) else Lookup(s, p).rights
  {
  }

  lemma {:induction false} GrowInv(s: State, p: Path)
    requires Inv(s) && InRange(p) && Depth(p) < 4 && SmallPath(s, p)
    ensures var (u, ok) := Grow(s, p);
      && Inv(u) && u.root == s.root && u.cfg == s.cfg && KeepsPages(s, u)
      && (ok <==> Missing(s, p) <= |s.free|)
      && u.free == (if ok then s.free[Missing(s, p)..] else [])
      && (Lookup(s, p) != Miss ==> u == s && Lookup(s, p).Inner?)
      && (ok ==> Lookup(u, p).Inner? && Lookup(u, p).rights == PathRights(s, p))
      && (ok && Lookup(s, p) == Miss ==>
            Lookup(u, p).table == s.free[Missing(s, p) - 1] && Blank(u.mem, Lookup(u, p).table))
  {
    hide Inv, KeepsPages, Walk, WellFormed, Reached, Blank;
    if p.Root? {
      RootFacts(s);
    } else {
      SmallUp(s, p);
      GrowInv(s, p.up);
      MissingAbove(s, p);
      var (u, ok) := Grow(s, p.up);
      if ok {
        NextEntry(s, u, p);
        if Lookup(s, p) == Miss { GrowMissing(s, u, p); }
      }
    }
  }

  // The step that creates the table at p.
  lemma GrowMissing(s: State, u: State, p: Path)
    requires p.Sub? && Depth(p) < 4 && InRange(p) && Inv(u) && KeepsPages(s, u)
    requires Grow(s, p.up) == (u, true) && Lookup(u, p.up).Inner?
    requires !At(u.mem, TableAt(u, p.up), p.idx).present && !MapsLarge(p, At(u.mem, TableAt(u, p.up), p.idx))
    ensures var (w, ok) := Grow(s, p);
      && Inv(w) && w.root == u.root && w.cfg == u.cfg && KeepsPages(s, w)
      && (ok <==> u.free != []) && w.free == (if ok then u.free[1..] else [])
      && (ok ==> Lookup(w, p) == Inner(u.free[0], Lookup(u, p.up).rights) && Blank(w.mem, u.free[0]))
  {
    hide Inv, KeepsPages, Walk, WellFormed, Reached, Blank, MallocPage;
    var t := Lookup(u, p.up).table;
    InvParts(u);
    MallocPageInv(u, t, p.idx, FULL, p.up);
    KeepsTransitive(s, u, Grow(s, p).0);
    MallocPageWalk(u, t, p.idx, FULL, p.up, p);
  }

  lemma RootFacts(s: State)
    ensures Lookup(s, Root) == Inner(s.root, FULL) && KeepsPages(s, s)
    ensures Missing(s, Root) == 0 && PathRights(s, Root) == FULL
  {
  }

  lemma SmallUp(s: State, c: Path)
    requires c.Sub? && SmallPath(s, c) && InRange(c)
    ensures SmallPath(s, c.up) && InRange(c.up) && Depth(c) == Depth(c.up) + 1
  {
  }

  // The entry Grow looks at next: of a table of s, or of one it has just created.
  lemma NextEntry(s: State, u: State, p: Path)
    requires p.Sub? && Depth(p) <= 4 && SmallPath(s, p) && Lookup(u, p.up).Inner?
    requires Lookup(s, p.up) != Miss ==> u == s
    requires Lookup(s, p.up) == Miss ==> Blank(u.mem, Lookup(u, p.up).table)
    ensures var e := At(u.mem, TableAt(u, p.up), p.idx);
      && (e.present <==> Lookup(s, p) != Miss) && !MapsLarge(p, e)
      && (e.present ==> u == s && (Depth(p) < 4 ==> Lookup(s, p).Inner?))
  {
  }

  // The walk of q after Grow(s, p): created tables appear in free-list order, all else stays.
  function Grown(s: State, p: Path, q: Path): Hit {
    if Below(q, p) && Lookup(s, q) == Miss && 0 < Missing(s, q) <= |s.free|
    then Inner(s.free[Missing(s, q) - 1], PathRights(s, q))
    else Lookup(s, q)
  }

  lemma {:induction false} MissingBelow(s: State, a: Path, p: Path)
    requires Below(a, p) && Depth(p) <= 4
    ensures Missing(s, a) <= Missing(s, p)
    ensures Lookup(s, a) == Miss && a != p ==> Missing(s, a) < Missing(s, p)
  {
    if a != p {
      MissingAbove(s, p);
      MissingBelow(s, a, p.up);
      if Lookup(s, a) == Miss {
        WalkBelowMiss(s.mem, s.root, a, p);
      } else {
        MissingAllPresent(s, a);
      }
    }
  }

  lemma {:induction false} MissingAllPresent(s: State, a: Path)
    requires Lookup(s, a) != Miss
    ensures Missing(s, a) == 0
  {
  }

  lemma {:induction false} GrowWalk(s: State, p: Path, q: Path)
    requires Inv(s) && InRange(p) && Depth(p) < 4 && SmallPath(s, p) && InRange(q)
    ensures Lookup(Grow(s, p).0, q) == Grown(s, p, q)
  {
    if p.Root? {
      BelowRoot(q);
    } else {
      GrowWalk(s, p.up, q);
      GrowInv(s, p.up);
      MissingAbove(s, p);
      var (u, ok) := Grow(s, p.up);
      GrownStep(s, p, q);
      if ok && Lookup(s, p) == Miss {
        GrowWalkStep(s, u, p, q);
      }
    }
  }

  // How Grown changes from one level to the next.
  lemma GrownStep(s: State, p: Path, q: Path)
    requires p.Sub? && Depth(p) < 4
    ensures Grown(s, p, q) ==
      if q == p && Lookup(s, p) == Miss && Missing(s, p) <= |s.free|
      then Inner(s.free[Missing(s, p) - 1], PathRights(s, p.up))
      else Grown(s, p.up, q)
  {
    MissingAbove(s, p);
    if q == p && Below(q, p.up) { BelowDepth(q, p.up); }
  }

  lemma GrowWalkStep(s: State, u: State, p: Path, q: Path)
    requires p.Sub? && Depth(p) < 4 && InRange(p) && InRange(q) && Inv(u)
    requires Grow(s, p.up) == (u, true) && Lookup(s, p) == Miss
    requires Missing(s, p) == 1 + Missing(s, p.up) <= |s.free| + 1 && u.free == s.free[Missing(s, p.up)..]
    requires Lookup(u, p.up).Inner? && !At(u.mem, Lookup(u, p.up).table, p.idx).present
    requires !MapsLarge(p, At(u.mem, Lookup(u, p.up).table, p.idx))
    ensures Lookup(Grow(s, p).0, q) ==
      if q == p && Missing(s, p) <= |s.free| then Inner(s.free[Missing(s, p) - 1], Lookup(u, p.up).rights)
      else Lookup(u, q)
  {
    hide Inv, WellFormed, Walk, KeepsPages, Blank;
    InvParts(u);
    var t := Lookup(u, p.up).table;
    MallocPageWalk(u, t, p.idx, FULL, p.up, q);
    MallocPageInv(u, t, p.idx, FULL, p.up);
    if u.free != [] {
      assert u.free[0] == s.free[Missing(s, p) - 1];
    }
  }

  lemma BelowRoot(q: Path)
    ensures Below(q, Root) <==> q == Root
  {
  }

  // vm_map succeeds exactly when the page is unmapped and enough frames are free.
  lemma MapInv(s: State, v: Path, r: Rights)
    requires Inv(s) && IsPage(v) && SmallPath(s, v)
    ensures var (u, ok) := Map(s, v, r);
      && Inv(u) && u.root == s.root && u.cfg == s.cfg && KeepsPages(s, u)
      && (ok <==> Lookup(s, v) == Miss && Missing(s, v) <= |s.free|)
      && u.free == (if ok then s.free[Missing(s, v)..] else if Lookup(s, v) == Miss then [] else s.free)
      && (ok ==>
            && 0 < Missing(s, v) && Blank(u.mem, s.free[Missing(s, v) - 1])
            && RoleOf(u, s.free[Missing(s, v) - 1]) == Node(v))
      && (Lookup(s, v) != Miss ==> u == s)
  {
    hide Inv, KeepsPages, Walk, Blank;
    var (g, grown) := Grow(s, v.up);
    SmallUp(s, v);
    GrowInv(s, v.up);
    MissingAbove(s, v);
    if grown {
      NextEntry(s, g, v);
      if Lookup(s, v) == Miss {
        var t := Lookup(g, v.up).table;
        MallocPageInv(g, t, v.idx, r, v.up);
        KeepsTransitive(s, g, Map(s, v, r).0);
        assert g.free == s.free[Missing(s, v) - 1..];
      }
    }
  }

  // The walk of every position after vm_map.
  function WalkAfterMap(s: State, v: Path, r: Rights, q: Path): Hit
    requires v.Sub?
  {
    if q == v && Lookup(s, v) == Miss && 0 < Missing(s, v) <= |s.free|
    then Leaf(s.free[Missing(s, v) - 1], Meet(PathRights(s, v.up), r))
    else Grown(s, v.up, q)
  }

  lemma MapWalk(s: State, v: Path, r: Rights, q: Path)
    requires Inv(s) && IsPage(v) && SmallPath(s, v) && InRange(q)
    ensures Lookup(Map(s, v, r).0, q) == WalkAfterMap(s, v, r, q)
  {
    hide Inv, WellFormed, Walk, KeepsPages, Blank, MallocPage, Missing, PathRights;
    var (g, grown) := Grow(s, v.up);
    SmallUp(s, v);
    GrowInv(s, v.up);
    GrowWalk(s, v.up, q);
    MissingAbove(s, v);
    if Below(v, v.up) { BelowDepth(v, v.up); }
    if grown { NextEntry(s, g, v); }
    if grown && Lookup(s, v) == Miss {
      MapWalkStep(s, g, v, r, q);
    }
  }

  lemma MapWalkStep(s: State, g: State, v: Path, r: Rights, q: Path)
    requires IsPage(v) && InRange(q) && Inv(g)
    requires Grow(s, v.up) == (g, true) && Lookup(s, v) == Miss
    requires Missing(s, v) == 1 + Missing(s, v.up) <= |s.free| + 1 && g.free == s.free[Missing(s, v.up)..]
    requires Lookup(g, v.up).Inner? && !At(g.mem, Lookup(g, v.up).table, v.idx).present
    ensures Lookup(Map(s, v, r).0, q) ==
      if q == v && Missing(s, v) <= |s.free| then Leaf(s.free[Missing(s, v) - 1], Meet(Lookup(g, v.up).rights, r))
      else Lookup(g, q)
  {
    hide Inv, WellFormed, Walk, KeepsPages, Blank;
    InvParts(g);
    var t := Lookup(g, v.up).table;
    MallocPageWalk(g, t, v.idx, r, v.up, q);
    MallocPageInv(g, t, v.idx, r, v.up);
    if g.free != [] {
      assert g.free[0] == s.free[Missing(s, v) - 1];
    }
  }

  /** vm_map inserts one page into the translation.  On success the page was not mapped and
      now leads to a zeroed frame off the free list, with the rights asked for (and granted by
      the tables above it); every other page is translated as before.  On failure, even when
      frames run out half way down, no translation changes. */
  lemma MapInsertsOnePage(s: State, v: Path, r: Rights, q: Path)
    requires Inv(s) && IsPage(v) && SmallPath(s, v) && IsPage(q)
    ensures var (u, ok) := Map(s, v, r);
      && Inv(u) && KeepsPages(s, u)
      && (q != v || !ok ==> Lookup(u, q) == Lookup(s, q))
      && (ok ==>
            && Lookup(s, v) == Miss && Lookup(u, v).Leaf?
            && Lookup(u, v).rights == Meet(PathRights(s, v.up), r)
            && Lookup(u, v).frame in s.free && Lookup(u, v).frame !in u.free
            && RoleOf(u, Lookup(u, v).frame) == Node(v) && Blank(u.mem, Lookup(u, v).frame))
  {
    hide Map, Inv, KeepsPages;
    MapInv(s, v, r);
    MapWalk(s, v, r, q);
    MapWalk(s, v, r, v);
    MissingAbove(s, v);
    if Below(q, v.up) { BelowDepth(q, v.up); }
    if Map(s, v, r).1 {
      TakenFrame(s, Missing(s, v));
    }
  }

  lemma TakenFrame(s: State, k: nat)
    requires Inv(s) && 0 < k <= |s.free|
    ensures s.free[k - 1] in s.free && s.free[k - 1] !in s.free[k..]
  {
  }

  // ---- vm_protect ----

  function Regrant(e: Word, r: Rights): Word {
    e.(user := r.user, writable := r.writable, noExecute := !r.executable)
  }

  function Protect(s: State, v: Path, r: Rights): (State, bool)
    requires v.Sub?
  {
    match Lookup(s, v.up)
    case Inner(t, _) =>
      var e := At(s.mem, t, v.idx);
      if e.present then (s.(mem := Put(s.mem, t, v.idx, Regrant(e, r))), true) else (s, false)
    case _ => (s, false)
  }

  // vm_protect replaces the rights of one page's own entry and nothing else.
  lemma ProtectWalk(s: State, v: Path, r: Rights, q: Path)
    requires Inv(s) && IsPage(v) && SmallPath(s, v) && InRange(q)
    ensures var (u, ok) := Protect(s, v, r);
      && (ok <==> Lookup(s, v).Leaf?)
      && Lookup(u, q) ==
           if q == v && ok then Leaf(Lookup(s, v).frame, Meet(PathRights(s, v.up), r)) else Lookup(s, q)
  {
    var (u, ok) := Protect(s, v, r);
    SmallNotLeaf(s, v.up);
    WalkRole(s, v.up);
    if ok {
      if Below(v, v.up) { BelowDepth(v, v.up); }
      WalkLocal(s, u.mem, v, v.up);
      if Below(v, q) { BelowDepth(v, q); } else { WalkLocal(s, u.mem, v, q); }
    }
  }

  lemma ProtectInv(s: State, v: Path, r: Rights)
    requires Inv(s) && IsPage(v) && SmallPath(s, v)
    ensures var (u, ok) := Protect(s, v, r);
      && Inv(u) && u == s.(mem := u.mem) && KeepsPages(s, u)
  {
    var (u, ok) := Protect(s, v, r);
    if ok {
      var t := Lookup(s, v.up).table;
      WalkRole(s, v.up);
      FreeListFrame(s, u);
      forall x: nat, j: nat | IsTable(RoleOf(u, x)) && j < WORDS_PER_FRAME
        ensures EntryOk(u, Sub(RoleOf(u, x).path, j), At(u.mem, x, j))
      {
        assert EntryOk(s, Sub(RoleOf(s, x).path, j), At(s.mem, x, j));
      }
      forall f: nat | RoleOf(u, f).Node? ensures Found(u, RoleOf(u, f).path, f) {
        assert RoleOf(u, f) == RoleOf(s, f);
        ProtectWalk(s, v, r, RoleOf(s, f).path);
      }
    }
  }

  // ---- vm_unmap ----

  // Clears one entry; the frame it pointed to is no longer part of the tree.
  function Drop(s: State, t: nat, i: nat): State {
    var e := At(s.mem, t, i);
    var u := s.(mem := Put(s.mem, t, i, e.(present := false)));
    if RoleOf(s, e.frame) == Node(Sub(PathOfTable(s, t), i)) then WithRole(u, e.frame, Held) else u
  }

  ghost predicate EmptyTable(m: Memory, t: nat) {
    forall i: nat :: i < WORDS_PER_FRAME ==> !At(m, t, i).present
  }

  // Frame f is recorded for position c and nothing lies below c.
  ghost predicate Removable(s: State, c: Path, f: nat) {
    RoleOf(s, f) == Node(c) && (Depth(c) < 4 ==> EmptyTable(s.mem, f))
  }

  lemma DropWalk(s: State, c: Path, q: Path)
    requires Inv(s) && InRange(c) && InRange(q) && c.Sub? && Lookup(s, c.up).Inner?
    requires var e := At(s.mem, TableAt(s, c.up), c.idx);
      e.present && !MapsLarge(c, e) && Removable(s, c, e.frame)
    ensures Lookup(Drop(s, TableAt(s, c.up), c.idx), q) == if q == c then Miss else Lookup(s, q)
  {
    var u := Drop(s, TableAt(s, c.up), c.idx);
    WalkRole(s, c.up);
    if Below(c, c.up) { BelowDepth(c, c.up); }
    WalkLocal(s, u.mem, c, c.up);
    if !Below(c, q) {
      WalkLocal(s, u.mem, c, q);
    } else if q != c {
      WalkBelowMiss(u.mem, u.root, c, q);
      if Depth(c) < 4 { WalkBelowEmpty(s.mem, s.root, c, q); } else { BelowDepth(c, q); }
    }
  }

  lemma DropKeeps(s: State, c: Path)
    requires Inv(s) && InRange(c) && c.Sub? && Lookup(s, c.up).Inner?
    requires var e := At(s.mem, TableAt(s, c.up), c.idx);
      e.present && !MapsLarge(c, e) && Removable(s, c, e.frame)
    ensures var t := TableAt(s, c.up);
      var f := At(s.mem, t, c.idx).frame;
      var u := Drop(s, t, c.idx);
      && WellFormed(u) && 0 < f < |s.mem| && u == WithRole(s, f, Held).(mem := u.mem)
      && IsTable(RoleOf(s, t)) && f != t
      && forall g: nat, j: nat :: g != t || j != c.idx ==> At(u.mem, g, j) == At(s.mem, g, j)
  {
    var t := TableAt(s, c.up);
    var f := At(s.mem, t, c.idx).frame;
    var u := Drop(s, t, c.idx);
    WalkRole(s, c.up);
    if Below(c, c.up) { BelowDepth(c, c.up); }
    assert FreeListOk(u) by { FreeListFrame(s, u); }
    DropTree(s, c);
  }

  lemma DropTree(s: State, c: Path)
    requires Inv(s) && InRange(c) && c.Sub? && Lookup(s, c.up).Inner?
    requires var e := At(s.mem, TableAt(s, c.up), c.idx);
      e.present && !MapsLarge(c, e) && Removable(s, c, e.frame)
    ensures TreeOk(Drop(s, TableAt(s, c.up), c.idx))
  {
    var t := TableAt(s, c.up);
    var u := Drop(s, t, c.idx);
    WalkRole(s, c.up);
    assert forall g: nat :: RoleOf(u, g).Node? ==> RoleOf(u, g) == RoleOf(s, g);
    forall x: nat, j: nat | IsTable(RoleOf(u, x)) && j < WORDS_PER_FRAME
      ensures EntryOk(u, Sub(RoleOf(u, x).path, j), At(u.mem, x, j))
    {
      DroppedEntry(s, c, x, j);
    }
  }

  lemma DroppedEntry(s: State, c: Path, x: nat, j: nat)
    requires Inv(s) && InRange(c) && c.Sub? && Lookup(s, c.up).Inner? && j < WORDS_PER_FRAME
    requires var e := At(s.mem, TableAt(s, c.up), c.idx);
      e.present && !MapsLarge(c, e) && Removable(s, c, e.frame)
    requires IsTable(RoleOf(Drop(s, TableAt(s, c.up), c.idx), x))
    ensures var u := Drop(s, TableAt(s, c.up), c.idx);
      EntryOk(u, Sub(RoleOf(u, x).path, j), At(u.mem, x, j))
  {
    var t := TableAt(s, c.up);
    WalkRole(s, c.up);
    assert EntryOk(s, Sub(RoleOf(s, x).path, j), At(s.mem, x, j));
    assert Found(s, RoleOf(s, x).path, x);
    assert |s.mem[t]| == WORDS_PER_FRAME;
  }

  lemma DropInv(s: State, c: Path)
    requires Inv(s) && InRange(c) && c.Sub? && Lookup(s, c.up).Inner?
    requires var e := At(s.mem, TableAt(s, c.up), c.idx);
      e.present && !MapsLarge(c, e) && Removable(s, c, e.frame)
    ensures Inv(Drop(s, TableAt(s, c.up), c.idx))
  {
    DropKeeps(s, c);
    var t := TableAt(s, c.up);
    var f := At(s.mem, t, c.idx).frame;
    var u := Drop(s, t, c.idx);
    forall g: nat | RoleOf(u, g).Node? ensures Found(u, RoleOf(u, g).path, g) {
      assert RoleOf(u, g) == RoleOf(s, g) && g != f;
      assert Found(s, RoleOf(s, g).path, g);
      assert Found(s, RoleOf(s, f).path, f);
      DropWalk(s, c, RoleOf(s, g).path);
    }
  }
}
