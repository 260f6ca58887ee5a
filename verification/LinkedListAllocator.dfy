/**
 The intrusive free list: every node lives in the free memory it describes. Memory is a
 map from word addresses to 64-bit words; a node at `a` keeps its size at `a` and the
 address of the next node at `a + 8`. The methods refine the list operations of
 `FreeList`, and write nowhere but in headers of free nodes.
 */
module IntrusiveList {
  import opened Bits
  import opened FreeList
  import opened HeapLedger
  import opened Options
  import opened WrappingSearch

  datatype AllocResult =
    | Panicked        // layout or alignment arithmetic leaves the address space
    | Null
    | Block(addr: nat)

  /** Address of node `i`, or null past the end. */
  function StartAt(l: seq<Region>, i: nat): nat {
    if i < |l| then l[i].start else 0
  }

  type Words = map<nat, nat>

  predicate NodeAt(words: Words, a: nat, size: nat, next: nat) {
    a in words && words[a] == size && a + 8 in words && words[a + 8] == next
  }

  /** Node `i` of the list is in memory and points to the next one. */
  predicate LinkOk(words: Words, l: seq<Region>, i: nat)
    requires i < |l|
  {
    NodeAt(words, l[i].start, l[i].size, StartAt(l, i + 1))
  }

  ghost predicate Linked(words: Words, l: seq<Region>) {
    forall i :: 0 <= i < |l| ==> LinkOk(words, l, i)
  }

  /** Memory outside the free bytes of `l` is as it was. */
  ghost predicate OnlyHeaders(before: Words, after: Words, l: seq<Region>) {
    forall a :: a in before && !Covers(l, a) ==> a in after && after[a] == before[a]
  }

  /** A search result as the node's address and the block's. */
  predicate IsAnswer(l: seq<Region>, f: Fit, r: Option<(nat, nat)>) {
    match f
    case FitAt(i, a) => i < |l| && r == Some((l[i].start, a))
    case _ => r == None
  }

  lemma WellFormedBounded(l: seq<Region>)
    requires WellFormed(l)
    ensures Bounded(l)
  {
    forall i | 0 <= i < |l| ensures 0 < l[i].start < l[i].End() < TWO64 { assert Usable(l[i]); }
  }

  class LinkedListAllocator {
    var words: Words
    var headNext: nat
    ghost var list: seq<Region>

    constructor ()
      ensures Valid() && list == []
    {
      words, headNext, list := map[], 0, [];
    }

    ghost predicate Valid()
      reads this
    {
      WellFormed(list) && headNext == StartAt(list, 0) && Linked(words, list)
    }

    /** `(*prev).next`; address 0 stands for the sentinel head. */
    function Next(prev: nat): nat
      requires prev != 0 ==> prev + 8 in words
      reads this
    {
      if prev == 0 then headNext else words[prev + 8]
    }

    method SetNext(prev: nat, next: nat)
      modifies this`words, this`headNext
      ensures prev == 0 ==> headNext == next && words == old(words)
      ensures prev != 0 ==> headNext == old(headNext) && words == old(words)[prev + 8 := next]
    {
      if prev == 0 {
        headNext := next;
      } else {
        words := words[prev + 8 := next];
      }
    }

    /** Walk to the last node below `addr`. */
    method FindPosition(addr: nat) returns (prev: nat, ghost k: nat)
      requires Valid()
      ensures prev == PrevAt(list, Rank(list, addr)) && k == Rank(list, addr)
    {
      prev, k := 0, 0;
      LinksAt(words, headNext, list, 0);
      while Next(prev) != 0 && Next(prev) < addr
        invariant k <= |list| && forall i :: 0 <= i < k ==> list[i].start < addr
        invariant prev == PrevAt(list, k) && (prev != 0 ==> prev + 8 in words)
        invariant Next(prev) == StartAt(list, k)
        decreases |list| - k
      {
        prev := Next(prev);
        k := k + 1;
        LinksAt(words, headNext, list, k);
      }
      if k < |list| { assert Usable(list[k]); }
      RankUnique(list, addr, k);
    }

    /** Give `[addr, addr + size)` to the allocator, merging it with adjacent free
        neighbours. Refuses (panics) on a region that cannot hold a node. */
    method AddFreeRegion(addr: nat, size: nat) returns (ok: bool)
      requires Valid()
      requires addr > 0 && addr + size < TWO64 && ApartFromAll(list, Region(addr, size))
      modifies this
      ensures Valid()
      ensures ok <==> addr % NODE_ALIGN == 0 && size >= NODE_SIZE
      ensures !ok ==> list == old(list) && words == old(words)
      ensures ok ==> list == Insert(old(list), Region(addr, size)) && OnlyHeaders(old(words), words, list)
    {
      if addr % NODE_ALIGN != 0 || size < NODE_SIZE {
        return false;
      }
      var prev, k := FindPosition(addr);
      ghost var l, r := list, Region(addr, size);
      RankFits(l, r);
      InsertCorrect(l, r);
      Link(prev, addr, size, k);
      list := Insert(l, r);
      return true;
    }

    /** The four ways of linking the region in, by which neighbours it touches. */
    method Link(prev: nat, addr: nat, size: nat, ghost k: nat)
      requires Valid() && Usable(Region(addr, size)) && FitsAt(list, k, Region(addr, size))
      requires prev == PrevAt(list, k)
      modifies this`words, this`headNext
      ensures Linked(words, Splice(list, k, Region(addr, size)))
      ensures headNext == StartAt(Splice(list, k, Region(addr, size)), 0)
      ensures OnlyHeaders(old(words), words, Splice(list, k, Region(addr, size)))
    {
      ghost var r := Region(addr, size);
      LinksAt(words, headNext, list, k);
      var next := Next(prev);
      var mergeBackward := prev != 0 && prev + words[prev] == addr;
      var mergeForward := next != 0 && addr + size == next;
      if mergeBackward {
        Extend(prev, size, next, mergeForward, k, r);
      } else {
        InsertNode(prev, addr, size, next, mergeForward, k);
      }
      SpliceLinked(old(words), words, list, k, r);
    }

    /** The region continues `prev`, and perhaps bridges the gap to `next`. */
    method Extend(prev: nat, size: nat, next: nat, mergeForward: bool, ghost k: nat, ghost r: Region)
      requires Valid() && Usable(r) && r.size == size && FitsAt(list, k, r)
      requires MergesBack(list, k, r) && prev == list[k - 1].start
      requires next == StartAt(list, k) && mergeForward == MergesForward(list, k, r)
      modifies this`words, this`headNext
      ensures headNext == old(headNext) && Rewritten(old(words), words, list, k, r)
    {
      ExtendedNode(words, headNext, list, k, prev);
      var newSize := words[prev] + size;
      if mergeForward {
        AbsorbedNode(words, headNext, list, k, r, next);
        newSize := newSize + words[next];
        var newNext := words[next + 8];
        words := words[prev := newSize];
        SetNext(prev, newNext);
        ExtendRewritten(old(words), words, list, k, r, prev, newSize, newNext);
      } else {
        words := words[prev := newSize];
        ExtendRewritten(old(words), words, list, k, r, prev, newSize, next);
      }
    }

    /** The region starts a node of its own, and perhaps absorbs `next`. */
    method InsertNode(prev: nat, addr: nat, size: nat, next: nat, mergeForward: bool, ghost k: nat)
      requires Valid() && Usable(Region(addr, size)) && FitsAt(list, k, Region(addr, size))
      requires !MergesBack(list, k, Region(addr, size)) && prev == PrevAt(list, k)
      requires next == StartAt(list, k) && mergeForward == MergesForward(list, k, Region(addr, size))
      modifies this`words, this`headNext
      ensures headNext == if prev == 0 then addr else old(headNext)
      ensures Rewritten(old(words), words, list, k, Region(addr, size))
    {
      ghost var r := Region(addr, size);
      var newSize, newNext := size, next;
      if mergeForward {
        AbsorbedNode(words, headNext, list, k, r, next);
        newSize, newNext := size + words[next], words[next + 8];
      }
      WriteNode(addr, newSize, newNext);
      SetNext(prev, addr);
      InsertRewritten(old(words), words, list, k, r, prev, newSize, newNext);
    }

    /** First fit: unlink the first node with room, give back the leftovers that can
        hold a node. */
    method Alloc(layout: Layout) returns (r: AllocResult)
      requires Valid() && IsLayout(layout)
      modifies this
      ensures Valid()
      ensures AllocPost(old(list), layout, r, list)
      ensures OnlyHeaders(old(words), words, old(list))
      ensures !r.Block? ==> words == old(words)
    {
      var adjusted := Adjusted(layout);
      if adjusted.None? {
        return Panicked;
      }
      var (size, align) := adjusted.value;
      var prev: nat, current: nat := 0, headNext;
      ghost var k := 0;
      while current != 0
        invariant k <= |list| && current == StartAt(list, k) && prev == PrevAt(list, k)
        invariant list == old(list) && words == old(words) && Valid()
        invariant FirstFit(list, 0, size, align) == FirstFit(list, k, size, align)
        decreases |list| - k
      {
        NodeHere(words, headNext, list, k, current);
        var regionSize := words[current];
        var regionEnd := current + regionSize;
        if current + align >= TWO64 {
          return Panicked;
        }
        var allocStart := AlignUp(current, align);
        if allocStart + size < TWO64 && allocStart + size <= regionEnd {
          FitIsBlock(list, layout);
          Take(prev, current, regionEnd, allocStart, size, k);
          return Block(allocStart);
        }
        prev := current;
        current := words[current + 8];
        k := k + 1;
      }
      assert forall i :: 0 <= i < |list| ==> Usable(list[i]);
      return Null;
    }

    /** The walk of the above in a build without overflow checks: the node it settles on
        and where it takes the block to start. */
    method FindWrapping(size: nat, align: Word) returns (r: Option<(nat, nat)>)
      requires Valid() && IsPow2(align)
      ensures Bounded(list) && IsAnswer(list, WrappingFit(list, 0, size, align), r)
    {
      WellFormedBounded(list);
      var current: nat := headNext;
      ghost var k := 0;
      while current != 0
        invariant k <= |list| && current == StartAt(list, k)
        invariant WrappingFit(list, 0, size, align) == WrappingFit(list, k, size, align)
        decreases |list| - k
      {
        NodeHere(words, headNext, list, k, current);
        var allocStart := AlignUp(current, align);
        if allocStart + size < TWO64 && allocStart + size <= current + words[current] {
          return Some((current, allocStart));
        }
        current := words[current + 8];
        k := k + 1;
      }
      assert forall i :: 0 <= i < |list| ==> Usable(list[i]);
      return None;
    }

    /** Take `[allocStart, allocStart + size)` out of node `k`. */
    method Take(prev: nat, current: nat, regionEnd: nat, allocStart: nat, size: nat, ghost k: nat)
      requires Valid() && BlockIn(list, k, allocStart, size)
      requires prev == PrevAt(list, k) && current == list[k].start && regionEnd == list[k].End()
      modifies this
      ensures Valid() && list == Carve(old(list), k, allocStart, size)
      ensures OnlyHeaders(old(words), words, old(list))
    {
      ghost var l, front := list, Region(current, allocStart - current);
      ghost var back := Region(allocStart + size, regionEnd - (allocStart + size));
      Unlink(prev, current, k);
      CarveByInserts(l, k, allocStart, size, front, back);
      CarvedWithin(l, k, allocStart, size, front, back);
      ghost var w1, l1 := words, AddLeftover(Without(l, k), front);
      KeepLeftover(current, allocStart - current, front);
      assert list == l1;
      HeadersCompose(old(words), w1, words, l, l1);
      ghost var w2 := words;
      var blockEnd := allocStart + size;
      BlockEdges(l, k, allocStart, size);
      KeepLeftover(blockEnd, regionEnd - blockEnd, back);
      assert list == AddLeftover(l1, back);
      HeadersCompose(old(words), w2, words, l, list);
    }

    /** Bypass node `k`. */
    method Unlink(prev: nat, current: nat, ghost k: nat)
      requires Valid() && k < |list| && prev == PrevAt(list, k) && current == list[k].start
      modifies this
      ensures Valid() && list == Without(old(list), k)
      ensures OnlyHeaders(old(words), words, old(list))
    {
      ghost var l := list;
      assert Usable(l[k]);
      NodeHere(words, headNext, l, k, current);
      if k > 0 { assert Usable(l[k - 1]); }
      SetNext(prev, words[current + 8]);
      list := Without(l, k);
      WithoutCorrect(l, k);
      Unlinked(old(words), words, old(headNext), headNext, l, k, prev);
    }

    /** Leftover space goes back on the list if it can hold a node, and is lost otherwise. */
    method KeepLeftover(addr: nat, size: nat, ghost r: Region)
      requires Valid() && r == Region(addr, size) && addr > 0 && addr % NODE_ALIGN == 0 && addr + size < TWO64
      requires size >= NODE_SIZE ==> ApartFromAll(list, r)
      modifies this
      ensures Valid() && list == AddLeftover(old(list), r) && OnlyHeaders(old(words), words, list)
    {
      if size >= NODE_SIZE {
        var ok := AddFreeRegion(addr, size);
      }
    }

    /** Return a block to the list; the layout must be the one it was allocated with. */
    method Dealloc(ptr: nat, layout: Layout) returns (ok: bool)
      requires Valid() && IsLayout(layout) && Adjusted(layout).Some?
      requires ptr > 0 && ptr + Adjusted(layout).value.0 < TWO64
      requires ApartFromAll(list, Region(ptr, Adjusted(layout).value.0))
      modifies this
      ensures Valid()
      ensures ok <==> ptr % NODE_ALIGN == 0
      ensures ok ==>
        list == Insert(old(list), Region(ptr, Adjusted(layout).value.0)) && OnlyHeaders(old(words), words, list)
      ensures !ok ==> list == old(list) && words == old(words)
    {
      var (size, _) := Adjusted(layout).value;
      ok := AddFreeRegion(ptr, size);
    }

    /** A write by someone else to an aligned word that is not free. */
    method Store(a: nat, value: nat)
      requires Valid() && a % NODE_ALIGN == 0 && !Covers(list, a)
      modifies this`words
      ensures Valid() && words == old(words)[a := value]
    {
      StoreKeepsLinks(words, list, a, value);
      words := words[a := value];
    }

    method WriteNode(addr: nat, size: nat, next: nat)
      modifies this`words
      ensures words == old(words)[addr := size][addr + 8 := next]
    {
      words := words[addr := size];
      words := words[addr + 8 := next];
    }
  }

  /** Headers are aligned words inside the free bytes, so a write to an aligned word outside
      them leaves the list alone. */
  lemma StoreKeepsLinks(words: Words, l: seq<Region>, a: nat, value: nat)
    requires WellFormed(l) && Linked(words, l) && a % NODE_ALIGN == 0 && !Covers(l, a)
    ensures Linked(words[a := value], l)
  {
    var words' := words[a := value];
    forall i | 0 <= i < |l|
      ensures LinkOk(words', l, i)
    {
      assert LinkOk(words, l, i) && Usable(l[i]);
      assert !l[i].Has(a);
    }
  }

  /** The node the new region runs into, read from memory. */
  lemma AbsorbedNode(words: Words, headNext: nat, l: seq<Region>, k: nat, r: Region, next: nat)
    requires WellFormed(l) && Linked(words, l) && headNext == StartAt(l, 0) && k <= |l| && MergesForward(l, k, r)
    requires next == StartAt(l, k)
    ensures NodeAt(words, next, l[k].size, StartAt(l, HighCut(l, k, r)))
  {
    LinksAt(words, headNext, l, k + 1);
  }

  /** The node the new region continues. */
  lemma ExtendedNode(words: Words, headNext: nat, l: seq<Region>, k: nat, prev: nat)
    requires WellFormed(l) && Linked(words, l) && headNext == StartAt(l, 0) && 0 < k <= |l| && prev == l[k - 1].start
    ensures prev != 0 && NodeAt(words, prev, l[k - 1].size, StartAt(l, k))
  {
    LinksAt(words, headNext, l, k);
  }

  /** Address of the node before position `k`, or 0 for the sentinel. */
  function PrevAt(l: seq<Region>, k: nat): nat
    requires k <= |l|
  {
    if k == 0 then 0 else l[k - 1].start
  }

  /** The link into position `k`. */
  lemma LinksAt(words: Words, headNext: nat, l: seq<Region>, k: nat)
    requires WellFormed(l) && Linked(words, l) && headNext == StartAt(l, 0) && k <= |l|
    ensures k > 0 ==> Usable(l[k - 1]) && NodeAt(words, l[k - 1].start, l[k - 1].size, StartAt(l, k))
    ensures k < |l| ==> Usable(l[k])
  {
    if k > 0 { assert LinkOk(words, l, k - 1); }
  }

  lemma Neighbours(l: seq<Region>, k: nat, r: Region)
    requires WellFormed(l) && Usable(r) && FitsAt(l, k, r)
    ensures k > 0 ==> l[k - 1].start + NODE_SIZE <= r.start
    ensures k < |l| ==> r.start + NODE_SIZE <= l[k].start
    ensures k > 1 ==> l[k - 2].start + NODE_SIZE <= l[k - 1].start
  {
    if k > 0 { assert Usable(l[k - 1]); }
    if k > 1 { assert Usable(l[k - 2]) && l[k - 2].End() < l[k - 1].start; }
  }

  lemma RankUnique(l: seq<Region>, addr: nat, k: nat)
    requires WellFormed(l) && k <= |l|
    requires forall i :: 0 <= i < k ==> l[i].start < addr
    requires k < |l| ==> l[k].start >= addr
    ensures k == Rank(l, addr)
  {
  }

  /** The addresses a list operation may write: the header of the region's node and the
      link of the node before it. */
  ghost predicate ChangedOnly(words: Words, words': Words, x: nat, prev: nat) {
    forall a :: a in words && a != x && a != x + 8 && !(prev != 0 && a == prev + 8) ==>
      a in words' && words'[a] == words[a]
  }

  lemma NodeKept(words: Words, words': Words, x: nat, prev: nat, a: nat, size: nat, next: nat)
    requires ChangedOnly(words, words', x, prev) && NodeAt(words, a, size, next)
    requires a + NODE_SIZE <= x || x + NODE_SIZE <= a
    requires prev == 0 || a + NODE_SIZE <= prev || prev + NODE_SIZE <= a
    ensures NodeAt(words', a, size, next)
  {
  }

  /** What the writes of `add_free_region` amount to: the merged node's header, and the
      link to it, are in place; nothing else changed. */
  ghost predicate Rewritten(words: Words, words': Words, l: seq<Region>, k: nat, r: Region)
    requires k <= |l|
  {
    var x := Merged(l, k, r);
    var n := LowCut(l, k, r);
    var m := HighCut(l, k, r);
    && NodeAt(words', x.start, x.size, StartAt(l, m))
    && (n > 0 ==> NodeAt(words', l[n - 1].start, l[n - 1].size, x.start))
    && ChangedOnly(words, words', x.start, PrevAt(l, n))
  }

  lemma ExtendRewritten(words: Words, words': Words, l: seq<Region>, k: nat, r: Region, prev: nat, size: nat, next: nat)
    requires WellFormed(l) && Linked(words, l) && Usable(r) && FitsAt(l, k, r) && MergesBack(l, k, r)
    requires prev == l[k - 1].start && size == Merged(l, k, r).size && next == StartAt(l, HighCut(l, k, r))
    requires NodeAt(words, prev, l[k - 1].size, StartAt(l, k))
    requires words' == words[prev := size][prev + 8 := next] || (words' == words[prev := size] && next == StartAt(l, k))
    ensures Rewritten(words, words', l, k, r)
  {
    assert NodeAt(words', prev, size, next) && ChangedOnly(words, words', prev, 0);
    if k > 1 {
      NodesApart(l, k - 2, k - 1);
      assert LinkOk(words, l, k - 2);
      NodeKept(words, words', prev, 0, l[k - 2].start, l[k - 2].size, prev);
    }
  }

  /** The writes of a fresh node, on plain memory. */
  lemma NodeWrites(words: Words, addr: nat, size: nat, next: nat, prev: nat, words': Words)
    requires prev == 0 || prev + NODE_SIZE <= addr
    requires var w := words[addr := size][addr + 8 := next]; words' == if prev == 0 then w else w[prev + 8 := addr]
    ensures NodeAt(words', addr, size, next)
    ensures prev != 0 && prev in words ==> NodeAt(words', prev, words[prev], addr)
    ensures ChangedOnly(words, words', addr, prev)
  {
  }

  lemma InsertRewritten(words: Words, words': Words, l: seq<Region>, k: nat, r: Region, prev: nat, size: nat, next: nat)
    requires WellFormed(l) && Linked(words, l) && Usable(r) && FitsAt(l, k, r) && !MergesBack(l, k, r)
    requires prev == PrevAt(l, k) && size == Merged(l, k, r).size && next == StartAt(l, HighCut(l, k, r))
    requires var w := words[r.start := size][r.start + 8 := next];
      words' == if prev == 0 then w else w[prev + 8 := r.start]
    ensures Rewritten(words, words', l, k, r)
  {
    if k > 0 {
      assert Usable(l[k - 1]);
      assert LinkOk(words, l, k - 1);
    }
    NodeWrites(words, r.start, size, next, prev, words');
  }

  lemma JoinLinked(words: Words, lo: seq<Region>, x: Region, hi: seq<Region>)
    requires forall i :: 0 <= i < |lo| - 1 ==> LinkOk(words, lo, i)
    requires lo != [] ==> NodeAt(words, lo[|lo| - 1].start, lo[|lo| - 1].size, x.start)
    requires NodeAt(words, x.start, x.size, StartAt(hi, 0))
    requires Linked(words, hi)
    ensures Linked(words, lo + [x] + hi)
  {
    var l := lo + [x] + hi;
    forall i | 0 <= i < |l|
      ensures LinkOk(words, l, i)
    {
      if i < |lo| - 1 { assert LinkOk(words, lo, i); }
      if i > |lo| { assert LinkOk(words, hi, i - |lo| - 1); }
    }
  }

  /** Distinct nodes lie at least a header apart. */
  lemma NodesApart(l: seq<Region>, i: nat, j: nat)
    requires WellFormed(l) && i < j < |l|
    ensures l[i].start + NODE_SIZE <= l[j].start
  {
    assert Usable(l[i]);
  }

  /** A node other than the region's neighbours keeps its header. */
  lemma OtherNodeKept(words: Words, words': Words, l: seq<Region>, k: nat, r: Region, i: nat)
    requires WellFormed(l) && Linked(words, l) && Usable(r) && FitsAt(l, k, r) && Rewritten(words, words', l, k, r)
    requires i < |l|
    requires i < LowCut(l, k, r) - 1 || i >= HighCut(l, k, r)
    ensures LinkOk(words', l, i)
  {
    assert LinkOk(words, l, i);
    var n := LowCut(l, k, r);
    Neighbours(l, k, r);
    if i < n - 1 {
      NodesApart(l, i, n - 1);
      if n < k { NodesApart(l, i, n); }
    } else {
      if n > 0 { NodesApart(l, n - 1, i); }
      if n < k { NodesApart(l, n, i); }
      if k < i { NodesApart(l, k, i); }
    }
    NodeKept(words, words', Merged(l, k, r).start, PrevAt(l, n), l[i].start, l[i].size, StartAt(l, i + 1));
  }

  /** After the writes the memory links exactly the spliced list. */
  lemma SpliceLinked(words: Words, words': Words, l: seq<Region>, k: nat, r: Region)
    requires WellFormed(l) && Linked(words, l) && Usable(r) && FitsAt(l, k, r) && Rewritten(words, words', l, k, r)
    ensures Linked(words', Splice(l, k, r))
    ensures OnlyHeaders(words, words', Splice(l, k, r))
  {
    var x, n, m := Merged(l, k, r), LowCut(l, k, r), HighCut(l, k, r);
    forall i | 0 <= i < n - 1 || m <= i < |l|
      ensures LinkOk(words', l, i)
    {
      OtherNodeKept(words, words', l, k, r, i);
    }
    PartsLinked(words', l, n, m);
    JoinLinked(words', l[..n], x, l[m..]);
    HeadersCovered(l, k, r);
  }

  lemma PartsLinked(words: Words, l: seq<Region>, n: nat, m: nat)
    requires n <= m <= |l|
    requires forall i :: 0 <= i < n - 1 || m <= i < |l| ==> LinkOk(words, l, i)
    ensures forall i :: 0 <= i < n - 1 ==> LinkOk(words, l[..n], i)
    ensures Linked(words, l[m..]) && StartAt(l[m..], 0) == StartAt(l, m)
  {
    forall i | 0 <= i < n - 1 ensures LinkOk(words, l[..n], i) { assert LinkOk(words, l, i); }
    forall i | 0 <= i < |l[m..]| ensures LinkOk(words, l[m..], i) { assert LinkOk(words, l, m + i); }
  }

  /** The addresses written lie in the headers of nodes of the new list. */
  lemma HeadersCovered(l: seq<Region>, k: nat, r: Region)
    requires WellFormed(l) && Usable(r) && FitsAt(l, k, r)
    ensures var x := Merged(l, k, r);
      var n := LowCut(l, k, r);
      && Covers(Splice(l, k, r), x.start) && Covers(Splice(l, k, r), x.start + 8)
      && (n > 0 ==> Covers(Splice(l, k, r), l[n - 1].start + 8))
  {
    var x, n := Merged(l, k, r), LowCut(l, k, r);
    MergedUsable(l, k, r);
    var s := Splice(l, k, r);
    assert s[n] == x && x.Has(x.start) && x.Has(x.start + 8);
    if n > 0 { assert s[n - 1] == l[n - 1] && Usable(l[n - 1]) && s[n - 1].Has(l[n - 1].start + 8); }
  }

  /** The contract of `alloc`. */
  ghost predicate AllocPost(l: seq<Region>, layout: Layout, r: AllocResult, l': seq<Region>)
    requires WellFormed(l) && IsLayout(layout)
  {
    match Adjusted(layout)
    case None => r == Panicked && l' == l
    case Some((size, align)) =>
      match FirstFit(l, 0, size, align)
      case NoFit => r == Null && l' == l
      case Overflow => r == Panicked && l' == l
      case FitAt(i, a) => r == Block(a) && l' == Carve(l, i, a, size)
  }

  lemma NodeHere(words: Words, headNext: nat, l: seq<Region>, k: nat, current: nat)
    requires WellFormed(l) && Linked(words, l) && headNext == StartAt(l, 0) && k <= |l|
    requires current == StartAt(l, k) && current != 0
    ensures k < |l| && Usable(l[k]) && NodeAt(words, current, l[k].size, StartAt(l, k + 1))
  {
    LinksAt(words, headNext, l, k + 1);
  }

  /** Bypassing node `k` links the list without it. */
  lemma Unlinked(words: Words, words': Words, head: nat, head': nat, l: seq<Region>, k: nat, prev: nat)
    requires WellFormed(l) && Linked(words, l) && k < |l| && prev == PrevAt(l, k)
    requires head == StartAt(l, 0)
    requires k == 0 ==> head' == StartAt(l, 1) && words' == words
    requires k > 0 ==> head' == head && words' == words[prev + 8 := StartAt(l, k + 1)]
    ensures Linked(words', Without(l, k)) && head' == StartAt(Without(l, k), 0)
    ensures OnlyHeaders(words, words', l)
  {
    var s := Without(l, k);
    forall i | 0 <= i < |s|
      ensures LinkOk(words', s, i)
    {
      var j := if i < k then i else i + 1;
      BypassedNode(words, words', l, k, prev, j);
      StartWithout(l, k, i, j);
    }
    if k > 0 {
      assert Usable(l[k - 1]) && l[k - 1].Has(prev + 8);
      assert Covers(l, prev + 8);
    }
  }

  lemma StartWithout(l: seq<Region>, k: nat, i: nat, j: nat)
    requires k < |l| && i < |l| - 1 && j == if i < k then i else i + 1
    ensures var s := Without(l, k);
      s[i] == l[j] && StartAt(s, i + 1) == if j == k - 1 then StartAt(l, k + 1) else StartAt(l, j + 1)
  {
  }

  lemma BypassedNode(words: Words, words': Words, l: seq<Region>, k: nat, prev: nat, j: nat)
    requires WellFormed(l) && Linked(words, l) && k < |l| && prev == PrevAt(l, k) && j < |l| && j != k
    requires k == 0 ==> words' == words
    requires k > 0 ==> words' == words[prev + 8 := StartAt(l, k + 1)]
    ensures NodeAt(words', l[j].start, l[j].size, if j == k - 1 then StartAt(l, k + 1) else StartAt(l, j + 1))
  {
    assert LinkOk(words, l, j);
    if k > 0 && j != k - 1 {
      if j < k - 1 { NodesApart(l, j, k - 1); } else { NodesApart(l, k - 1, j); }
      NodeKept(words, words', prev, 0, l[j].start, l[j].size, StartAt(l, j + 1));
    }
  }

  /** Writes inside bytes free now, after writes inside bytes free before. */
  lemma HeadersCompose(w0: Words, w1: Words, w2: Words, l: seq<Region>, l': seq<Region>)
    requires OnlyHeaders(w0, w1, l) && OnlyHeaders(w1, w2, l')
    requires forall b :: Covers(l', b) ==> Covers(l, b)
    ensures OnlyHeaders(w0, w2, l)
  {
  }

  /** Every intermediate list of an allocation covers only bytes that were free. */
  lemma CarvedWithin(l: seq<Region>, k: nat, a: nat, size: nat, front: Region, back: Region)
    requires WellFormed(l) && BlockIn(l, k, a, size)
    requires front == Region(l[k].start, a - l[k].start) && back == Region(a + size, l[k].End() - (a + size))
    ensures forall b :: Covers(AddLeftover(Without(l, k), front), b) ==> Covers(l, b)
    ensures forall b :: Covers(Carve(l, k, a, size), b) ==> Covers(l, b)
  {
    WithoutCorrect(l, k);
    AddLeftoverCovers(Without(l, k), front);
    forall b
      ensures Covers(AddLeftover(Without(l, k), front), b) ==> Covers(l, b)
      ensures Covers(Carve(l, k, a, size), b) ==> Covers(l, b)
    {
      KeptCovers(front.start, front.size, b);
      if l[k].Has(b) { MemberCovers(l, k, b); }
      CarveCovers(l, k, a, size, b);
    }
  }

  // ---- What callers see ----

  /** A block of `size` bytes could be placed at `x`. */
  ghost predicate Placeable(l: seq<Region>, x: nat, size: nat, align: nat)
    requires align > 0
  {
    x % align == 0 && CoversRange(l, x, size)
  }

  /** `alloc` is complete and exact: it returns null exactly when the adjusted request
      can be placed nowhere, and otherwise the lowest address where it can. */
  lemma AllocExact(l: seq<Region>, layout: Layout, r: AllocResult, l': seq<Region>)
    requires WellFormed(l) && IsLayout(layout) && AllocPost(l, layout, r, l') && r != Panicked
    ensures Adjusted(layout).Some?
    ensures var (size, align) := Adjusted(layout).value;
      && (r == Null <==> forall x: nat :: !Placeable(l, x, size, align))
      && (r.Block? ==>
            Placeable(l, r.addr, size, align) && forall x: nat :: Placeable(l, x, size, align) ==> r.addr <= x)
  {
    var (size, align) := Adjusted(layout).value;
    forall x: nat | Placeable(l, x, size, align)
      ensures r != Null && (r.Block? ==> r.addr <= x)
    {
      FirstFitExact(l, 0, size, align, x);
    }
    if r.Block? {
      var i := FirstFit(l, 0, size, align).index;
      forall b | r.addr <= b < r.addr + size ensures Covers(l, b) { assert l[i].Has(b); }
      assert Placeable(l, r.addr, size, align);
    }
  }

  /** It panics exactly when the padded size leaves `isize`, or when no node below the
      overflow point has room and there is a node beyond it. */
  lemma AllocPanics(l: seq<Region>, layout: Layout, r: AllocResult, l': seq<Region>)
    requires WellFormed(l) && IsLayout(layout) && AllocPost(l, layout, r, l')
    ensures r == Panicked <==>
      || Adjusted(layout).None?
      || (var (size, align) := Adjusted(layout).value;
          && (exists i :: 0 <= i < |l| && RoundsOver(l, i, align))
          && forall i :: 0 <= i < |l| ==> !RoomIn(l, i, size, align))
  {
    if Adjusted(layout).Some? {
      var (size, align) := Adjusted(layout).value;
      OverflowExact(l, 0, size, align);
    }
  }
}
