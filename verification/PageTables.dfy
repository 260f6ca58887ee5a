/**
 The page tables as data: 4 KiB table pages inside physical memory, walked through
 raw entries.

 `Resolve` is the one reference definition of what a walk finds. `Tree` is the
 non-aliasing invariant: a labelling of table pages by the index path that leads to
 them, closed under the entries in memory, so that no table page is reached by two
 different paths. Everything the manager promises about "all other addresses"
 rests on it.
 */
module PageTables {
  import opened Bits
  import opened PageFormat
  import opened Options

  /** Physical memory below the identity-map limit, as 8-byte words. */
  type Ram = m: seq<Word> | |m| == RAM_WORDS
    ghost witness seq(RAM_WORDS, _ => 0)

  const RAM_WORDS: nat := 0x2000_0000

  predicate IsTable(t: nat) { t % FRAME_SIZE == 0 && t < IDENTITY_MAP_LIMIT }

  /** Word index of entry `i` of the table at `t`. */
  function Slot(t: nat, i: nat): (k: nat)
    requires IsTable(t) && i < 512
    ensures k < RAM_WORDS
  {
    t / 8 + i
  }

  lemma SlotInjective(t: nat, i: nat, u: nat, j: nat)
    requires IsTable(t) && IsTable(u) && i < 512 && j < 512
    ensures Slot(t, i) == Slot(u, j) <==> t == u && i == j
  {
    ModUnique(t, 8, 512 * (t / 4096), 0);
    ModUnique(u, 8, 512 * (u / 4096), 0);
  }

  function Entry(m: Ram, t: nat, i: nat): Word
    requires IsTable(t) && i < 512
  {
    m[Slot(t, i)]
  }

  /** What the tables say about one page. */
  datatype Mapping =
    | NotMapped
    | Unreachable               // a table pointer at or above the identity-map limit
    | Huge(levels: nat, entry: Word)  // 1 GiB (levels = 3) or 2 MiB (levels = 2)
    | Leaf(entry: Word)

  /** Walk from the table at `t` along the remaining indices. */
  function Resolve(m: Ram, t: nat, path: seq<nat>): Mapping
    requires t % FRAME_SIZE == 0 && 1 <= |path| && ValidPath(path)
    decreases |path|
  {
    if t >= IDENTITY_MAP_LIMIT then Unreachable
    else
      var e := Entry(m, t, path[0]);
      if !IsPresent(e) then NotMapped
      else if |path| == 1 then Leaf(e)
      else if |path| < 4 && IsHuge(e) then Huge(|path|, e)
      else Resolve(m, Addr(e), path[1..])
  }

  /** How many tables are absent on the way to the leaf entry. */
  function Missing(m: Ram, t: nat, path: seq<nat>): (n: nat)
    requires t % FRAME_SIZE == 0 && 1 <= |path| && ValidPath(path)
    ensures n < |path|
    decreases |path|
  {
    if t >= IDENTITY_MAP_LIMIT || |path| == 1 then 0
    else
      var e := Entry(m, t, path[0]);
      if !IsPresent(e) then |path| - 1
      else if |path| < 4 && IsHuge(e) then 0
      else Missing(m, Addr(e), path[1..])
  }

  /** An entry through which a walk continues to another table. */
  predicate PointsDown(depth: nat, e: Word) {
    depth < 3 && IsPresent(e) && (depth == 0 || !IsHuge(e))
  }

  type Labels = map<nat, seq<nat>>

  ghost predicate LabelsOk(tables: Labels) {
    forall t :: t in tables ==> IsTable(t) && |tables[t]| <= 3 && ValidPath(tables[t])
  }

  /** Every table that an entry of a labelled table points to is labelled with the
      extended path; bit 7 of a PML4 entry is reserved and clear. */
  ghost predicate Closed(m: Ram, tables: Labels)
    requires LabelsOk(tables)
  {
    forall t, i ::
      t in tables && 0 <= i < 512 ==>
        var e := Entry(m, t, i);
        && (|tables[t]| == 0 && IsPresent(e) ==> !IsHuge(e))
        && (PointsDown(|tables[t]|, e) && Addr(e) < IDENTITY_MAP_LIMIT ==>
              Addr(e) in tables && tables[Addr(e)] == tables[t] + [i])
  }

  ghost predicate Tree(m: Ram, root: nat, tables: Labels) {
    && root % FRAME_SIZE == 0
    && LabelsOk(tables)
    && (root < IDENTITY_MAP_LIMIT ==> root in tables && tables[root] == [])
    && Closed(m, tables)
  }

  // ---- Permissions ----

  /** What the processor permits on a page: a write needs the writable bit at every level
      of the walk, and one no-execute bit at any level forbids execution (section 4.6 of
      the Intel SDM, Volume 3A). `None` for a page that is not mapped. */
  function Rights(m: Ram, t: nat, path: seq<nat>): Option<PageFlags>
    requires t % FRAME_SIZE == 0 && 1 <= |path| && ValidPath(path)
    decreases |path|
  {
    if t >= IDENTITY_MAP_LIMIT then None
    else
      var e := Entry(m, t, path[0]);
      if !IsPresent(e) then None
      else if |path| == 1 || (|path| < 4 && IsHuge(e)) then Some(FlagsOf(e))
      else
        match Rights(m, Addr(e), path[1..])
        case None => None
        case Some(below) => Some(PageFlags(IsWritable(e) && below.writable, IsNoExecute(e) || below.noExecute))
  }

  /** The flags of the entry that ends a walk. */
  function LastFlags(mapping: Mapping): Option<PageFlags> {
    match mapping
    case Leaf(e) => Some(FlagsOf(e))
    case Huge(_, e) => Some(FlagsOf(e))
    case NotMapped => None
    case Unreachable => None
  }

  /** Every pointer from table to table permits writing and execution. */
  ghost predicate Open(m: Ram, tables: Labels)
    requires LabelsOk(tables)
  {
    forall t, i :: t in tables && 0 <= i < 512 && PointsDown(|tables[t]|, Entry(m, t, i)) ==>
      IsWritable(Entry(m, t, i)) && !IsNoExecute(Entry(m, t, i))
  }

  /** Then what the last entry of a walk permits is permitted. */
  lemma {:induction false} OpenRights(m: Ram, tables: Labels, t: nat, rest: seq<nat>)
    requires LabelsOk(tables) && Closed(m, tables) && Open(m, tables) && t in tables
    requires ValidPath(rest) && 1 <= |rest| && |tables[t]| + |rest| == 4
    ensures Rights(m, t, rest) == LastFlags(Resolve(m, t, rest))
    decreases |rest|
  {
    var e := Entry(m, t, rest[0]);
    if |rest| > 1 && PointsDown(|tables[t]|, e) && Addr(e) < IDENTITY_MAP_LIMIT {
      OpenRights(m, tables, Addr(e), rest[1..]);
    }
  }

  /** The table reached by following `path` down from `t`, if there is one. */
  function Walk(m: Ram, t: nat, path: seq<nat>): Option<nat>
    requires t % FRAME_SIZE == 0 && |path| <= 3 && ValidPath(path)
    decreases |path|
  {
    if t >= IDENTITY_MAP_LIMIT then None
    else if path == [] then Some(t)
    else
      var e := Entry(m, t, path[0]);
      if IsPresent(e) && !IsHuge(e) then Walk(m, Addr(e), path[1..]) else None
  }

  /** The two memories agree on every labelled entry that lies on the route `full`. */
  ghost predicate AgreeAlong(m: Ram, m': Ram, tables: Labels, full: seq<nat>)
    requires LabelsOk(tables)
  {
    forall u, j :: u in tables && 0 <= j < 512 && tables[u] + [j] <= full ==> Entry(m', u, j) == Entry(m, u, j)
  }

  /** A walk depends only on the entries along its own route. */
  lemma {:induction false} ResolveFrame(m: Ram, m': Ram, tables: Labels, t: nat, rest: seq<nat>)
    requires LabelsOk(tables) && Closed(m, tables) && t in tables
    requires ValidPath(rest) && 1 <= |rest| && |tables[t]| + |rest| == 4
    requires AgreeAlong(m, m', tables, tables[t] + rest)
    ensures Resolve(m', t, rest) == Resolve(m, t, rest)
    ensures Missing(m', t, rest) == Missing(m, t, rest)
    decreases |rest|
  {
    assert tables[t] + [rest[0]] <= tables[t] + rest;
    var e := Entry(m, t, rest[0]);
    assert Entry(m', t, rest[0]) == e;
    if |rest| > 1 && PointsDown(|tables[t]|, e) && Addr(e) < IDENTITY_MAP_LIMIT {
      assert tables[Addr(e)] + rest[1..] == tables[t] + rest;
      ResolveFrame(m, m', tables, Addr(e), rest[1..]);
    }
  }

  /** The table reached along a path carries that path as its label. */
  lemma {:induction false} WalkLabel(m: Ram, tables: Labels, t: nat, p: seq<nat>)
    requires LabelsOk(tables) && Closed(m, tables) && t in tables
    requires ValidPath(p) && |tables[t]| + |p| <= 3 && Walk(m, t, p).Some?
    ensures Walk(m, t, p).value in tables && tables[Walk(m, t, p).value] == tables[t] + p
    decreases |p|
  {
    if p != [] {
      var e := Entry(m, t, p[0]);
      assert tables[Addr(e)] + p[1..] == tables[t] + p;
      WalkLabel(m, tables, Addr(e), p[1..]);
    }
  }

  /** Reaching a table takes only entries strictly above it. */
  lemma {:induction false} WalkFrame(m: Ram, m': Ram, tables: Labels, t: nat, p: seq<nat>)
    requires LabelsOk(tables) && Closed(m, tables) && t in tables
    requires ValidPath(p) && |tables[t]| + |p| <= 3 && Walk(m, t, p).Some?
    requires AgreeAlong(m, m', tables, tables[t] + p)
    ensures Walk(m', t, p) == Walk(m, t, p)
    decreases |p|
  {
    if p != [] {
      assert tables[t] + [p[0]] <= tables[t] + p;
      var e := Entry(m, t, p[0]);
      assert Entry(m', t, p[0]) == e;
      assert PointsDown(|tables[t]|, e) && Addr(e) < IDENTITY_MAP_LIMIT;
      assert tables[Addr(e)] + p[1..] == tables[t] + p;
      WalkFrame(m, m', tables, Addr(e), p[1..]);
    }
  }

  /** A walk can be cut at any table it passes through. */
  lemma {:induction false} WalkResolve(m: Ram, t: nat, p: seq<nat>, q: seq<nat>)
    requires t % FRAME_SIZE == 0 && |p| <= 3 && 1 <= |q| && ValidPath(p + q) && ValidPath(p) && ValidPath(q)
    requires Walk(m, t, p).Some?
    ensures Walk(m, t, p).value % FRAME_SIZE == 0
    ensures Resolve(m, t, p + q) == Resolve(m, Walk(m, t, p).value, q)
    ensures Missing(m, t, p + q) == Missing(m, Walk(m, t, p).value, q)
    decreases |p|
  {
    if p == [] {
      assert p + q == q;
    } else {
      assert (p + q)[1..] == p[1..] + q;
      WalkResolve(m, Addr(Entry(m, t, p[0])), p[1..], q);
    }
  }

  lemma {:induction false} WalkExtend(m: Ram, t: nat, p: seq<nat>, i: nat)
    requires t % FRAME_SIZE == 0 && |p| <= 2 && ValidPath(p) && i < 512 && ValidPath(p + [i])
    requires Walk(m, t, p).Some? && IsTable(Walk(m, t, p).value)
    requires var e := Entry(m, Walk(m, t, p).value, i); IsPresent(e) && !IsHuge(e)
    ensures Walk(m, t, p + [i]) == Walk(m, Addr(Entry(m, Walk(m, t, p).value, i)), [])
    decreases |p|
  {
    if p == [] {
      assert p + [i] == [i];
    } else {
      assert (p + [i])[1..] == p[1..] + [i];
      WalkExtend(m, Addr(Entry(m, t, p[0])), p[1..], i);
    }
  }

  /** The two memories agree on every labelled entry except entry `i` of table `u`. */
  ghost predicate AgreeExcept(m: Ram, m': Ram, tables: Labels, u: nat, i: nat)
    requires LabelsOk(tables)
  {
    forall t, j :: t in tables && 0 <= j < 512 && !(t == u && j == i) ==> Entry(m', t, j) == Entry(m, t, j)
  }

  predicate PagePath(q: seq<nat>) { |q| == 4 && ValidPath(q) }

  /** Changing one entry leaves every walk that does not pass through it alone. */
  lemma OffRoute(m: Ram, m': Ram, root: nat, tables: Labels, p: seq<nat>, u: nat, i: nat, q: seq<nat>)
    requires Tree(m, root, tables) && |p| <= 3 && ValidPath(p) && i < 512 && PagePath(q)
    requires Walk(m, root, p) == Some(u)
    requires AgreeExcept(m, m', tables, u, i)
    requires !(p + [i] <= q)
    ensures Resolve(m', root, q) == Resolve(m, root, q)
    ensures Missing(m', root, q) == Missing(m, root, q)
  {
    WalkLabel(m, tables, root, p);
    assert tables[root] + p == p;
    assert tables[root] + q == q;
    ResolveFrame(m, m', tables, root, q);
  }

  /** A walk that does pass through it still reaches it, and goes on from there. */
  lemma OnRoute(m: Ram, m': Ram, root: nat, tables: Labels, p: seq<nat>, u: nat, i: nat, rest: seq<nat>)
    requires Tree(m, root, tables) && |p| <= 3 && ValidPath(p) && i < 512
    requires PagePath(p + ([i] + rest)) && ValidPath([i] + rest)
    requires Walk(m, root, p) == Some(u) && u % FRAME_SIZE == 0
    requires AgreeExcept(m, m', tables, u, i)
    ensures Walk(m', root, p) == Some(u)
    ensures Resolve(m, root, p + ([i] + rest)) == Resolve(m, u, [i] + rest)
    ensures Resolve(m', root, p + ([i] + rest)) == Resolve(m', u, [i] + rest)
    ensures Missing(m, root, p + ([i] + rest)) == Missing(m, u, [i] + rest)
    ensures Missing(m', root, p + ([i] + rest)) == Missing(m', u, [i] + rest)
  {
    WalkLabel(m, tables, root, p);
    assert tables[root] + p == p;
    assert AgreeAlong(m, m', tables, p);
    WalkFrame(m, m', tables, root, p);
    WalkResolve(m, root, p, [i] + rest);
    WalkResolve(m', root, p, [i] + rest);
  }

  /** `m'` is `m` with a fresh, zeroed page `f` hooked under the absent entry `i` of
      the table `u` that `p` leads to. */
  ghost predicate Hooked(m: Ram, m': Ram, root: nat, tables: Labels, p: seq<nat>, u: nat, i: nat, f: nat) {
    && Tree(m, root, tables) && |p| <= 2 && ValidPath(p) && i < 512
    && Walk(m, root, p) == Some(u) && IsTable(u) && !IsPresent(Entry(m, u, i))
    && IsTable(f) && f !in tables
    && AgreeExcept(m, m', tables, u, i)
    && Entry(m', u, i) == NewTablePointer(f)
    && forall j :: 0 <= j < 512 ==> Entry(m', f, j) == 0
  }

  lemma ZeroIsAbsent()
    ensures !IsPresent(0)
  {
  }

  lemma HookedOnRoute(m: Ram, m': Ram, root: nat, tables: Labels, p: seq<nat>, u: nat, i: nat, f: nat, rest: seq<nat>)
    requires Hooked(m, m', root, tables, p, u, i, f)
    requires PagePath(p + ([i] + rest)) && ValidPath([i] + rest) && ValidPath(rest)
    ensures Walk(m', root, p) == Some(u)
    ensures Resolve(m, root, p + ([i] + rest)) == NotMapped == Resolve(m', root, p + ([i] + rest))
    ensures Missing(m, root, p + ([i] + rest)) == 3 - |p|
    ensures Missing(m', root, p + ([i] + rest)) == 2 - |p|
  {
    OnRoute(m, m', root, tables, p, u, i, rest);
    ZeroIsAbsent();
    assert ([i] + rest)[1..] == rest && |rest| == 3 - |p|;
    assert Entry(m', f, rest[0]) == 0;
  }

  lemma SplitPath(p: seq<nat>, i: nat, q: seq<nat>) returns (rest: seq<nat>)
    requires PagePath(q) && |p| <= 3 && p + [i] <= q
    ensures q == p + ([i] + rest) && ValidPath(rest) && ValidPath([i] + rest)
  {
    rest := q[|p| + 1..];
    assert [i] + rest == q[|p|..];
  }

  lemma HookedPage(m: Ram, m': Ram, root: nat, tables: Labels, p: seq<nat>, u: nat, i: nat, f: nat, q: seq<nat>)
    requires Hooked(m, m', root, tables, p, u, i, f) && PagePath(q)
    ensures Resolve(m', root, q) == Resolve(m, root, q)
    ensures p + [i] <= q ==>
      Resolve(m, root, q) == NotMapped && Missing(m, root, q) == 3 - |p| && Missing(m', root, q) == 2 - |p|
  {
    if p + [i] <= q {
      var rest := SplitPath(p, i, q);
      HookedOnRoute(m, m', root, tables, p, u, i, f, rest);
    } else {
      OffRoute(m, m', root, tables, p, u, i, q);
    }
  }

  lemma HookedWalk(m: Ram, m': Ram, root: nat, tables: Labels, p: seq<nat>, u: nat, i: nat, f: nat)
    requires Hooked(m, m', root, tables, p, u, i, f)
    ensures ValidPath(p + [i]) && Walk(m', root, p + [i]) == Some(f)
  {
    HookedOnRoute(m, m', root, tables, p, u, i, f, seq(3 - |p|, _ => 0));
    WalkExtend(m', root, p, i);
  }

  /** Hooking a fresh, zeroed page under an absent entry keeps the tables a tree and
      changes no page's mapping; the path to the leaf gets one table shorter. */
  lemma InstallTable(m: Ram, m': Ram, root: nat, tables: Labels, p: seq<nat>, u: nat, i: nat, f: nat)
    requires Hooked(m, m', root, tables, p, u, i, f)
    ensures ValidPath(p + [i]) && Walk(m', root, p + [i]) == Some(f)
    ensures Tree(m', root, tables[f := p + [i]])
    ensures forall q :: PagePath(q) ==> Resolve(m', root, q) == Resolve(m, root, q)
    ensures forall q :: PagePath(q) && p + [i] <= q ==>
      Resolve(m, root, q) == NotMapped && Missing(m, root, q) == 3 - |p| && Missing(m', root, q) == 2 - |p|
  {
    HookedWalk(m, m', root, tables, p, u, i, f);
    assert Tree(m', root, tables[f := p + [i]]) by {
      WalkLabel(m, tables, root, p);
      assert tables[root] + p == p;
      InstallTree(m, m', root, tables, u, i, f);
    }
    forall q | PagePath(q)
      ensures Resolve(m', root, q) == Resolve(m, root, q)
      ensures p + [i] <= q ==>
        Resolve(m, root, q) == NotMapped && Missing(m, root, q) == 3 - |p| && Missing(m', root, q) == 2 - |p|
    {
      HookedPage(m, m', root, tables, p, u, i, f, q);
    }
  }

  lemma InstallTree(m: Ram, m': Ram, root: nat, tables: Labels, u: nat, i: nat, f: nat)
    requires Tree(m, root, tables) && u in tables && |tables[u]| <= 2 && i < 512
    requires IsTable(f) && f !in tables
    requires AgreeExcept(m, m', tables, u, i)
    requires IsPresent(Entry(m', u, i)) && !IsHuge(Entry(m', u, i)) && Addr(Entry(m', u, i)) == f
    requires forall j :: 0 <= j < 512 ==> Entry(m', f, j) == 0
    ensures Tree(m', root, tables[f := tables[u] + [i]])
  {
    var tables' := tables[f := tables[u] + [i]];
    ZeroIsAbsent();
    forall t, j | t in tables' && 0 <= j < 512
      ensures var e := Entry(m', t, j);
        && (|tables'[t]| == 0 && IsPresent(e) ==> !IsHuge(e))
        && (PointsDown(|tables'[t]|, e) && Addr(e) < IDENTITY_MAP_LIMIT ==>
              Addr(e) in tables' && tables'[Addr(e)] == tables'[t] + [j])
    {
      if t != f && !(t == u && j == i) {
        assert Entry(m', t, j) == Entry(m, t, j);
      }
    }
  }

  /** A hooked-in table permits everything. */
  lemma InstallOpen(m: Ram, m': Ram, tables: Labels, p: seq<nat>, u: nat, i: nat, f: nat)
    requires LabelsOk(tables) && u in tables && tables[u] == p && |p| <= 2 && ValidPath(p + [i]) && i < 512
    requires IsTable(f) && f !in tables && AgreeExcept(m, m', tables, u, i)
    requires Entry(m', u, i) == NewTablePointer(f) && forall j :: 0 <= j < 512 ==> Entry(m', f, j) == 0
    requires Open(m, tables)
    ensures LabelsOk(tables[f := p + [i]]) && Open(m', tables[f := p + [i]])
  {
    var tables' := tables[f := p + [i]];
    ZeroIsAbsent();
    forall t, j | t in tables' && 0 <= j < 512 && PointsDown(|tables'[t]|, Entry(m', t, j))
      ensures IsWritable(Entry(m', t, j)) && !IsNoExecute(Entry(m', t, j))
    {
      if t != f && !(t == u && j == i) {
        assert Entry(m', t, j) == Entry(m, t, j);
      }
    }
  }

  /** A last-level entry is no pointer to a table. */
  lemma LeafOpen(m: Ram, m': Ram, tables: Labels, u: nat, i: nat)
    requires LabelsOk(tables) && u in tables && |tables[u]| == 3 && i < 512 && AgreeExcept(m, m', tables, u, i)
    requires Open(m, tables)
    ensures Open(m', tables)
  {
    forall t, j | t in tables && 0 <= j < 512 && PointsDown(|tables[t]|, Entry(m', t, j))
      ensures IsWritable(Entry(m', t, j)) && !IsNoExecute(Entry(m', t, j))
    {
      assert Entry(m', t, j) == Entry(m, t, j);
    }
  }

  /** Writing a leaf entry changes the mapping of exactly one page. */
  lemma SetLeaf(m: Ram, m': Ram, root: nat, tables: Labels, p: seq<nat>, u: nat, i: nat)
    requires Tree(m, root, tables) && |p| == 3 && ValidPath(p) && i < 512
    requires Walk(m, root, p) == Some(u) && IsTable(u)
    requires AgreeExcept(m, m', tables, u, i)
    ensures Tree(m', root, tables)
    ensures forall q :: PagePath(q) ==>
      Resolve(m', root, q) == if q != p + [i] then Resolve(m, root, q)
                              else if IsPresent(Entry(m', u, i)) then Leaf(Entry(m', u, i)) else NotMapped
  {
    WalkLabel(m, tables, root, p);
    assert tables[root] + p == p;
    assert Closed(m', tables) by {
      forall t, j | t in tables && 0 <= j < 512 && !(t == u && j == i)
        ensures Entry(m', t, j) == Entry(m, t, j)
      {
      }
    }
    forall q | PagePath(q)
      ensures Resolve(m', root, q) == if q != p + [i] then Resolve(m, root, q)
                              else if IsPresent(Entry(m', u, i)) then Leaf(Entry(m', u, i)) else NotMapped
    {
      if p + [i] <= q {
        assert q == p + [i] && p + ([i] + []) == q;
        OnRoute(m, m', root, tables, p, u, i, []);
        assert [i] + [] == [i];
      } else {
        OffRoute(m, m', root, tables, p, u, i, q);
      }
    }
  }
}
