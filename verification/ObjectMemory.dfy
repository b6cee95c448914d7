/**
 The object memory in place: the heap and its page tables are arrays that allocation, release
 and dirty marking update; every operation keeps `Heap.Consistent`.
 */
module ObjectMemory {
  import W = Words
  import opened Heap

  class Om {
    /** The word address of the heap's first word. */
    const start: nat
    const pages: nat
    const heap: array<Word>
    const used: array<nat>
    const first: array<nat>
    const covering: array<nat>
    const state: array<nat>
    const reusable: array<bool>
    const dirty: array<bool>
    /** The first word that bump allocation has not handed out, from the start of the heap. */
    var free: nat
    ghost var objs: Objects

    ghost predicate Arrays()
    {
      && used.Length == first.Length == covering.Length == state.Length == reusable.Length == dirty.Length == pages
      && used != first && used != covering && used != state && first != covering && first != state && covering != state
      && reusable != dirty
    }

    ghost function Table(): (t: Tables)
      requires Arrays()
      reads used, first, covering, state, reusable
      ensures Sized(t, pages)
    {
      Tables(used[..], first[..], covering[..], state[..], reusable[..])
    }

    ghost predicate Valid()
      reads this, heap, used, first, covering, state, reusable
    {
      Arrays() && Consistent(heap[..], objs, Table(), start, free, pages)
    }

    /** An empty heap of `words` words at word address `at`. */
    constructor (at: nat, words: nat)
      requires 0 < at && 0 < words && 8 * (at + words) < W.TWO_64
      ensures Valid() && start == at && heap.Length == words && free == 0 && objs == map[]
      ensures pages == (words + 511) / 512
      ensures NoHoles(Table(), start, free)
      ensures fresh(heap) && fresh(used) && fresh(first) && fresh(covering) && fresh(state) && fresh(reusable)
              && fresh(dirty)
      ensures forall p :: 0 <= p < pages ==> !dirty[p]
    {
      start := at;
      pages := (words + 511) / 512;
      var count := (words + 511) / 512;
      heap := new Word[words](_ => 0);
      used := new nat[count](_ => 0);
      first := new nat[count](_ => 0);
      covering := new nat[count](_ => 0);
      state := new nat[count](_ => STATE_FREE);
      reusable := new bool[count](_ => false);
      dirty := new bool[count](_ => false);
      free := 0;
      objs := map[];
      new;
      EmptyHeap(heap[..], Table(), start, pages);
    }

    /** The lowest page to recycle for an object of `n` words, the page count for none. */
    method FindRecycled(n: nat) returns (page: nat)
      requires Valid()
      ensures page == if n <= PAGE then Recycled(Table(), free, 0) else pages
    {
      page := pages;
      if n <= PAGE {
        page := 0;
        while page < pages && !(reusable[page] && state[page] == STATE_FREE && PAGE * page < free)
          invariant page <= pages && Recycled(Table(), free, page) == Recycled(Table(), free, 0)
        {
          page := page + 1;
        }
      }
    }

    /** Writes a new object's header and clears its fields. */
    method WriteObject(o: nat, n: nat, cls: Word, format: Word, size: Word)
      requires HEADER <= n && o + n <= heap.Length
      modifies heap
      ensures heap[..] == WithObject(old(heap[..]), o, n, cls, format, size)
    {
      ghost var was := heap[..];
      heap[o], heap[o + 1], heap[o + 2] := cls, format, size;
      assert heap[..] == was[..o] + [cls, format, size] + Zeros(0) + was[o + HEADER..];
      for i := HEADER to n
        invariant heap[..] == was[..o] + [cls, format, size] + Zeros(i - HEADER) + was[o + i..]
      {
        ghost var before := heap[..];
        heap[o + i] := 0;
        assert heap[..] == before[o + i := 0];
        assert heap[..] == was[..o] + [cls, format, size] + Zeros(i + 1 - HEADER) + was[o + i + 1..] by {
          ZeroMore(was, o, [cls, format, size], i);
        }
      }
    }

    /** Enters a new object in the tables of one page. */
    method EnterPageTables(o: nat, n: nat, p: nat)
      requires Arrays() && p < pages && Overlaps(o, n, p)
      modifies used, first, covering, state, reusable
      ensures Table() == EnteredAt(old(Table()), start, o, n, p)
    {
      ghost var t := Table();
      var pageStart := PAGE * p;
      var usedEnd := if o + n < pageStart + PAGE then o + n else pageStart + PAGE;
      var usedWords := if usedEnd > pageStart then usedEnd - pageStart else 0;
      StartPage(o, p);
      assert usedWords == Reach(o, n, p);
      hide Overlaps, Reach, StartsIn, PageOf;
      if covering[p] == 0 {
        covering[p] := start + o;
      }
      if PageOf(o) == p && first[p] == 0 {
        first[p] := start + o;
      }
      state[p] := if PageOf(o) == p then STATE_HEAD else STATE_CONTINUATION;
      reusable[p] := false;
      if used[p] < usedWords {
        used[p] := usedWords;
      }
      assert used[..] == t.used[p := UsedAt(t, o, n, p)];
      assert first[..] == t.first[p := FirstAt(t, start, o, p)];
      assert covering[..] == t.covering[p := CoveringAt(t, start, o, n, p)];
      assert state[..] == t.state[p := StateAt(t, o, n, p)];
      assert reusable[..] == t.reusable[p := t.reusable[p] && !Overlaps(o, n, p)];
    }

    /** Enters a new object in the tables of the pages it overlaps. */
    method EnterTables(o: nat, n: nat)
      requires Arrays() && HEADER <= n && o + n <= PAGE * pages
      modifies used, first, covering, state, reusable
      ensures Table() == Enter(old(Table()), start, o, n)
    {
      hide EnteredBelow, EnteredAt, Enter, Overlaps;
      ghost var t := Table();
      var startPage, endPage := PageOf(o), PageOf(o + n - 1);
      PagesOverlapped(o, n);
      NothingEntered(t, start, o, n);
      for p := startPage to endPage + 1
        invariant startPage <= p <= endPage + 1 <= pages
        invariant Table() == EnteredBelow(t, start, o, n, p)
      {
        EnterPageTables(o, n, p);
        OneMoreEntered(t, start, o, n, p);
      }
      AllEntered(t, start, o, n);
    }

    /** Where an object of `n` words goes. */
    method Place(n: nat) returns (r: Placement)
      requires Valid() && HEADER <= n
      ensures r == PlacementOf(Table(), free, n, heap.Length)
    {
      hide Consistent, Recycled;
      var page := FindRecycled(n);
      if page < pages {
        return Recycle(page);
      }
      var o := free;
      if free != PAGE * PageOf(free) && n <= PAGE && n > PAGE * (PageOf(free) + 1) - free {
        o := PAGE * (PageOf(free) + 1);
      }
      if o + n > heap.Length {
        return NoRoom;
      }
      return Bump(o);
    }

    /**
     A new object of class `cls`; its word address, 0 when there is no room.  The sizes are such
     that no address wraps around.
     */
    method Alloc(cls: Word, format: Word, size: Word) returns (address: nat)
      requires Valid() && 8 * (start + heap.Length + HEADER + SlotWords(format, size)) < W.TWO_64
      modifies this`free, this`objs, heap, used, first, covering, state, reusable
      ensures Valid()
      ensures address == 0 <==> old(PlacementOf(Table(), free, HEADER + SlotWords(format, size), heap.Length)).NoRoom?
      ensures address == 0 ==> free == old(free) && objs == old(objs) && heap[..] == old(heap[..])
                               && Table() == old(Table())
      ensures address != 0 ==>
                var o, n := address - start, HEADER + SlotWords(format, size);
                && start <= address && o + n <= heap.Length && Free(old(objs), o, n)
                && objs == old(objs)[o := n] && heap[..] == WithObject(old(heap[..]), o, n, cls, format, size)
      ensures address != 0 ==>
                var o, n := address - start, HEADER + SlotWords(format, size);
                var place := old(PlacementOf(Table(), free, HEADER + SlotWords(format, size), heap.Length));
                && Table() == Enter(old(Table()), start, o, n)
                && (place.Bump? ==> o == place.offset && free == o + n)
                && (place.Recycle? ==> o == PAGE * place.page && free == old(free))
      ensures old(NoHoles(Table(), start, free)) ==> NoHoles(Table(), start, free)
      ensures address != 0 ==>
                var o, n := address - start, HEADER + SlotWords(format, size);
                && Written(old(heap[..]), heap[..], o, n, cls, format, size)
                && GoesTo(old(Table()), old(free), free, n, o)
    {
      hide WithObject, Enter, PlacementOf, Written, GoesTo, NoHoles, Free;
      ghost var h, t, f, before := heap[..], Table(), free, objs;
      var n := HEADER + SlotWords(format, size);
      var place := Place(n);
      assert 0 < start by { assert Consistent(h, objs, t, start, free, pages); }
      if place == NoRoom {
        return 0;
      }
      var o := if place.Recycle? then PAGE * place.page else place.offset;
      ghost var free1 := if place.Bump? then o + n else free;
      assert HEADER <= n && o + n <= heap.Length <= PAGE * pages && Free(objs, o, n)
             && Consistent(WithObject(h, o, n, cls, format, size), objs[o := n], Enter(t, start, o, n), start, free1,
                           pages)
             && (NoHoles(t, start, free) ==> NoHoles(Enter(t, start, o, n), start, free1)) by {
        PlacementKeeps(h, objs, t, start, f, pages, n, cls, format, size, place);
      }
      WordByWord(h, o, n, cls, format, size);
      PlacedWhere(t, f, n, heap.Length, place, free1);
      hide Consistent, Free, NoHoles, SlotWords, Sized;
      Commit(o, n, cls, format, size, place.Bump?);
      address := start + o;
    }

    /** The next live object in address order, found from the tables alone; 0 after the last one. */
    method NextObject(obj: nat) returns (next: nat)
      requires Valid() && (obj == 0 || (start <= obj && obj - start in objs))
      ensures obj == 0 ==> next == 0
      ensures obj != 0 ==> IsNext(objs, start, obj - start, next)
    {
      if obj == 0 {
        return 0;
      }
      ghost var t := Table();
      var o := obj - start;
      NextCases(heap[..], objs, t, start, free, pages, o);
      var end := o + ObjectWords(heap[..], o);
      if end >= free {
        return 0;
      }
      var page := PageOf(end);
      if end - PAGE * page < used[page] {
        return start + end;
      }
      hide FirstOf, Lowest;
      page := page + 1;
      while page < pages
        invariant page <= pages && o + 1 <= PAGE * page && NoneBetween(objs, o + 1, page)
      {
        assert PageOk(objs, t, start, free, page);
        SearchStep(objs, start, first[page], o + 1, page);
        if first[page] != 0 {
          return first[page];
        }
        page := page + 1;
      }
      return 0;
    }

    /** Gives up a page whose objects are dead; they must lie in it whole, and it below the free word. */
    method ReleasePage(page: nat)
      requires Valid() && (page < pages ==> Releasable(objs, free, page))
      modifies this`objs, used, first, covering, state, reusable, dirty
      ensures Valid() && objs == if page < pages then Without(old(objs), page) else old(objs)
      ensures page < pages ==> Table() == Released(old(Table()), page) && dirty[..] == old(dirty[..])[page := false]
      ensures page >= pages ==> Table() == old(Table()) && dirty[..] == old(dirty[..])
      // entry by entry
      ensures page < pages ==> used[page] == first[page] == covering[page] == 0 && state[page] == STATE_FREE
                               && reusable[page] && !dirty[page]
      ensures forall p :: 0 <= p < pages && p != page ==>
                && used[p] == old(used[p]) && first[p] == old(first[p]) && covering[p] == old(covering[p])
                && state[p] == old(state[p]) && reusable[p] == old(reusable[p]) && dirty[p] == old(dirty[p])
    {
      if page >= pages {
        return;
      }
      ghost var t := Table();
      ReleaseKeeps(heap[..], objs, t, start, free, pages, page);
      hide Consistent, Releasable;
      used[page], first[page], covering[page] := 0, 0, 0;
      dirty[page], state[page], reusable[page] := false, STATE_FREE, true;
      objs := Without(objs, page);
      assert Table() == Released(t, page);
    }

    /** Marks the pages of a range of words as changed. */
    method MarkRangeDirty(at: nat, words: nat)
      requires Arrays() && (0 < words ==> at + words <= PAGE * pages)
      modifies dirty
      ensures forall p :: 0 <= p < pages ==> dirty[p] == (old(dirty[p]) || (0 < words && Overlaps(at, words, p)))
    {
      if words == 0 {
        return;
      }
      PagesOverlapped(at, words);
      for p := PageOf(at) to PageOf(at + words - 1) + 1
        invariant forall q :: 0 <= q < pages ==> dirty[q] == (old(dirty[q]) || PageOf(at) <= q < p)
      {
        dirty[p] := true;
      }
    }

    /** Marks the page of a field as changed. */
    method MarkFieldDirty(obj: nat, index: nat)
      requires Valid() && (obj == 0 || (start <= obj && obj - start + HEADER + index < heap.Length))
      modifies dirty
      ensures forall p :: 0 <= p < pages ==>
              dirty[p] == (old(dirty[p]) || (obj != 0 && StartsIn(obj - start + HEADER + index, p)))
    {
      if obj == 0 {
        return;
      }
      var w := obj - start + HEADER + index;
      MarkRangeDirty(w, 1);
      assert forall p: nat :: StartsIn(w, p) <==> Overlaps(w, 1, p);
    }

    /** Writes a new object where it was placed, and enters it in the tables. */
    method Commit(o: nat, n: nat, cls: Word, format: Word, size: Word, bump: bool)
      requires Arrays() && HEADER <= n && o + n <= heap.Length <= PAGE * pages
      modifies this`free, this`objs, heap, used, first, covering, state, reusable
      ensures heap[..] == WithObject(old(heap[..]), o, n, cls, format, size)
              && Table() == Enter(old(Table()), start, o, n)
      ensures objs == old(objs)[o := n] && free == if bump then o + n else old(free)
    {
      hide WithObject, Enter;
      WriteObject(o, n, cls, format, size);
      EnterTables(o, n);
      if bump {
        free := o + n;
      }
      objs := objs[o := n];
    }
  }

  /** `next` is the address of the lowest live object above the one at `o`, 0 when there is none. */
  ghost predicate IsNext(objs: Objects, start: nat, o: nat, next: nat) {
    if next == 0 then NoneFrom(objs, o + 1) else start <= next && Lowest(objs, o + 1, next - start)
  }

  /** A walk: from the lowest live object on, each followed by the next, up to where there is none. */
  ghost predicate Walk(objs: Objects, start: nat, walk: seq<nat>) {
    && walk != [] && (forall i :: 0 <= i < |walk| ==> start <= walk[i] && walk[i] - start in objs)
    && Lowest(objs, 0, walk[0] - start)
    && (forall i :: 0 < i < |walk| ==> walk[i] != 0 && IsNext(objs, start, walk[i - 1] - start, walk[i]))
    && IsNext(objs, start, walk[|walk| - 1] - start, 0)
  }

  /** A walk visits every live object, in address order. */
  lemma WalkVisitsAll(objs: Objects, start: nat, walk: seq<nat>, q: nat)
    requires 0 < start && Walk(objs, start, walk) && q in objs
    ensures start + q in walk
    ensures forall i, j :: 0 <= i < j < |walk| ==> walk[i] < walk[j]
  {
    Ascending(objs, start, walk);
    var i := 0;
    while walk[i] - start != q
      invariant 0 <= i < |walk| && walk[i] - start <= q
      decreases |walk| - i
    {
      i := i + 1;
    }
  }

  lemma {:induction false} Ascending(objs: Objects, start: nat, walk: seq<nat>)
    requires forall i :: 0 <= i < |walk| ==> start <= walk[i] && walk[i] - start in objs
    requires forall i :: 0 < i < |walk| ==> walk[i] != 0 && IsNext(objs, start, walk[i - 1] - start, walk[i])
    ensures forall i, j :: 0 <= i < j < |walk| ==> walk[i] < walk[j]
  {
    if |walk| > 1 {
      var front := walk[..|walk| - 1];
      Ascending(objs, start, front);
      forall i, j | 0 <= i < j < |walk| ensures walk[i] < walk[j] {
        if j == |walk| - 1 && i < j - 1 {
          assert front[i] < front[j - 1];
        }
      }
    }
  }

  /** The word after an object that is the last of the heap, or whose page is used further, or not. */
  lemma NextCases(heap: seq<Word>, objs: Objects, t: Tables, start: nat, free: nat, pages: nat, o: nat)
    requires Consistent(heap, objs, t, start, free, pages) && o in objs
    ensures var next := o + objs[o];
            && next <= free && (next == free ==> NoneFrom(objs, o + 1))
            && (next < free ==>
                  && PageOf(next) < pages
                  && (next - PAGE * PageOf(next) < t.used[PageOf(next)] ==> Lowest(objs, o + 1, next))
                  && (next - PAGE * PageOf(next) >= t.used[PageOf(next)] ==>
                      NoneBetween(objs, o + 1, PageOf(next) + 1)))
  {
    hide CoveringOf, FirstOf;
    var next := o + objs[o];
    var p := PageOf(next);
    assert forall q :: q in objs && o + 1 <= q ==> next <= q;
    if next < free {
      assert PageOk(objs, t, start, free, p);
      if next - PAGE * p < t.used[p] {
        NextStarts(heap, objs, free, o, t.used[p], p);
      } else {
        forall q | q in objs && o + 1 <= q ensures PAGE * (p + 1) <= q {
          NoneInGap(objs, t.used[p], p, next, q);
        }
      }
    }
  }

  /** No object from `from` on starts below page `p`. */
  ghost predicate NoneBetween(objs: Objects, from: nat, p: nat) { forall q :: q in objs && from <= q ==> PAGE * p <= q }

  lemma SearchStep(objs: Objects, start: nat, first: nat, from: nat, p: nat)
    requires FirstOf(objs, first, start, p) && NoneBetween(objs, from, p) && from <= PAGE * p
    ensures first == 0 ==> NoneBetween(objs, from, p + 1)
    ensures first != 0 ==> start <= first && Lowest(objs, from, first - start)
  {
    forall q | q in objs && from <= q ensures if first == 0 then PAGE * (p + 1) <= q else first - start <= q {
      assert !StartsIn(q, p) ==> PAGE * (p + 1) <= q;
    }
  }

  datatype Placement = NoRoom | Bump(offset: nat) | Recycle(page: nat)

  /** The lowest recycled page that serves, or else the free word; no room when that ends past the heap. */
  function PlacementOf(t: Tables, free: nat, n: nat, limit: nat): (r: Placement)
    requires Sized(t, |t.used|)
  {
    if n <= PAGE && Recycled(t, free, 0) < |t.used| then Recycle(Recycled(t, free, 0))
    else if BumpAt(free, n) + n <= limit then Bump(BumpAt(free, n))
    else NoRoom
  }

  /** Word by word: the object's header, zeros in its slots, and everything else as it was. */
  ghost predicate Written(heap: seq<Word>, heap1: seq<Word>, o: nat, n: nat, cls: Word, format: Word, size: Word) {
    && |heap1| == |heap| && HEADER <= n && o + n <= |heap|
    && heap1[o] == cls && heap1[o + 1] == format && heap1[o + 2] == size
    && (forall i :: o + HEADER <= i < o + n ==> heap1[i] == 0)
    && (forall i :: 0 <= i < |heap| && !(o <= i < o + n) ==> heap1[i] == heap[i])
  }

  predicate Reusable(t: Tables, free: nat, p: nat)
    requires Sized(t, |t.used|) && p < |t.used|
  {
    t.reusable[p] && t.state[p] == STATE_FREE && PAGE * p < free
  }

  /**
   Where an object of `n` words goes and what becomes of the free word: an object that fits in a page
   goes to the lowest page that can be used again, and the free word stays; any other goes to the
   free word, or to the next page when it would cross into it, and the free word follows it.
   */
  ghost predicate GoesTo(t: Tables, free: nat, free1: nat, n: nat, o: nat)
    requires Sized(t, |t.used|)
  {
    if n <= PAGE && exists p :: 0 <= p < |t.used| && Reusable(t, free, p) then
      && free1 == free
      && exists p :: 0 <= p < |t.used| && Reusable(t, free, p) && o == PAGE * p
                     && forall q :: 0 <= q < p ==> !Reusable(t, free, q)
    else
      free1 == o + n && o == if n <= PAGE && free % PAGE != 0 && free % PAGE + n > PAGE
                             then free + (PAGE - free % PAGE) else free
  }

  lemma PlacedWhere(t: Tables, free: nat, n: nat, limit: nat, place: Placement, free1: nat)
    requires Sized(t, |t.used|) && place == PlacementOf(t, free, n, limit) && place != NoRoom
    requires free1 == if place.Bump? then place.offset + n else free
    ensures GoesTo(t, free, free1, n, if place.Recycle? then PAGE * place.page else place.offset)
  {
    var p := PageOf(free);
    assert free % PAGE == free - PAGE * p;
    assert place.Recycle? ==> Reusable(t, free, place.page);
  }

  lemma WordByWord(heap: seq<Word>, o: nat, n: nat, cls: Word, format: Word, size: Word)
    requires HEADER <= n && o + n <= |heap|
    ensures Written(heap, WithObject(heap, o, n, cls, format, size), o, n, cls, format, size)
  {
  }

  /** All that a placement promises of the heap after it. */
  ghost predicate Placed(heap: seq<Word>, objs: Objects, t: Tables, start: nat, free: nat, pages: nat, n: nat,
                         cls: Word, format: Word, size: Word, place: Placement, o: nat)
    requires Sized(t, |t.used|)
  {
    && HEADER <= n && o + n <= |heap| <= PAGE * pages && Free(objs, o, n)
    && var free1 := if place.Bump? then o + n else free;
       && Consistent(WithObject(heap, o, n, cls, format, size), objs[o := n], Enter(t, start, o, n), start, free1,
                     pages)
       && (NoHoles(t, start, free) ==> NoHoles(Enter(t, start, o, n), start, free1))
  }

  lemma PlacementKeeps(heap: seq<Word>, objs: Objects, t: Tables, start: nat, free: nat, pages: nat, n: nat,
                       cls: Word, format: Word, size: Word, place: Placement)
    requires Consistent(heap, objs, t, start, free, pages) && n == HEADER + SlotWords(format, size)
    requires place == PlacementOf(t, free, n, |heap|) && place != NoRoom
    ensures Placed(heap, objs, t, start, free, pages, n, cls, format, size, place, if place.Recycle?
                   then PAGE * place.page else place.offset)
  {
    hide WithObject, Enter, UsedOf, CoveringOf, FirstOf, ReusableOf, Bumps;
    if place.Recycle? {
      RecycleKeeps(heap, objs, t, start, free, pages, n, cls, format, size, place.page);
      RecycledApart(heap, objs, t, start, free, pages, place.page, n);
    } else {
      BumpKeeps(heap, objs, t, start, free, pages, n, cls, format, size);
      if NoHoles(t, start, free) {
        BumpLeavesNoHoles(heap, objs, t, start, free, pages, n);
      }
    }
  }

  lemma RecycledApart(heap: seq<Word>, objs: Objects, t: Tables, start: nat, free: nat, pages: nat, page: nat, n: nat)
    requires Consistent(heap, objs, t, start, free, pages) && page < pages && t.reusable[page] && n <= PAGE
    ensures Free(objs, PAGE * page, n)
  {
    assert PageOk(objs, t, start, free, page);
    forall q | q in objs ensures if q < PAGE * page then q + objs[q] <= PAGE * page else PAGE * page + n <= q {
      assert !Overlaps(q, objs[q], page);
    }
  }

  lemma EmptyHeap(heap: seq<Word>, t: Tables, start: nat, pages: nat)
    requires 0 < start && 0 < |heap| && pages == (|heap| + 511) / 512 && 8 * (start + |heap|) < W.TWO_64
             && Sized(t, pages)
    requires forall p :: 0 <= p < pages ==> t.used[p] == 0 && t.first[p] == 0 && t.covering[p] == 0
                                            && t.state[p] == STATE_FREE && !t.reusable[p]
    ensures Consistent(heap, map[], t, start, 0, pages) && NoHoles(t, start, 0)
  {
    var none: Objects := map[];
    forall p | 0 <= p < pages ensures PageOk(none, t, start, 0, p) {
    }
  }

  lemma StartPage(o: nat, p: nat)
    ensures PageOf(o) == p <==> StartsIn(o, p)
  {
  }

  lemma ZeroMore(was: seq<Word>, o: nat, header: seq<Word>, i: nat)
    requires |header| == HEADER <= i && o + i < |was|
    ensures (was[..o] + header + Zeros(i - HEADER) + was[o + i..])[o + i := 0]
            == was[..o] + header + Zeros(i + 1 - HEADER) + was[o + i + 1..]
  {
  }

  /** The tables with a new object entered in one page. */
  function EnteredAt(t: Tables, start: nat, o: nat, n: nat, p: nat): Tables
    requires Sized(t, |t.used|) && p < |t.used|
  {
    Tables(t.used[p := UsedAt(t, o, n, p)], t.first[p := FirstAt(t, start, o, p)],
           t.covering[p := CoveringAt(t, start, o, n, p)],
           t.state[p := StateAt(t, o, n, p)], t.reusable[p := t.reusable[p] && !Overlaps(o, n, p)])
  }

  /** The tables with a new object entered in the pages below `k`. */
  function EnteredBelow(t: Tables, start: nat, o: nat, n: nat, k: nat): (r: Tables)
    requires Sized(t, |t.used|) && k <= |t.used|
    ensures Sized(r, |t.used|)
  {
    var r := Enter(t, start, o, n);
    Tables(r.used[..k] + t.used[k..], r.first[..k] + t.first[k..], r.covering[..k] + t.covering[k..],
           r.state[..k] + t.state[k..], r.reusable[..k] + t.reusable[k..])
  }

  lemma OneMoreEntered(t: Tables, start: nat, o: nat, n: nat, k: nat)
    requires Sized(t, |t.used|) && k < |t.used|
    ensures EnteredAt(EnteredBelow(t, start, o, n, k), start, o, n, k) == EnteredBelow(t, start, o, n, k + 1)
  {
  }

  lemma NothingEntered(t: Tables, start: nat, o: nat, n: nat)
    requires Sized(t, |t.used|) && 0 < n && PageOf(o) <= |t.used|
    ensures EnteredBelow(t, start, o, n, PageOf(o)) == t
  {
  }

  lemma AllEntered(t: Tables, start: nat, o: nat, n: nat)
    requires Sized(t, |t.used|) && 0 < n && PageOf(o + n - 1) < |t.used|
    ensures EnteredBelow(t, start, o, n, PageOf(o + n - 1) + 1) == Enter(t, start, o, n)
  {
    var k, r := PageOf(o + n - 1) + 1, Enter(t, start, o, n);
    assert r.used[k..] == t.used[k..] && r.first[k..] == t.first[k..] && r.covering[k..] == t.covering[k..]
           && r.state[k..] == t.state[k..] && r.reusable[k..] == t.reusable[k..];
  }

  lemma PagesOverlapped(o: nat, n: nat)
    requires 0 < n
    ensures PageOf(o) <= PageOf(o + n - 1)
    ensures forall p: nat :: Overlaps(o, n, p) <==> PageOf(o) <= p <= PageOf(o + n - 1)
    ensures forall p: nat :: StartsIn(o, p) <==> p == PageOf(o)
  {
    var a, b := PageOf(o), PageOf(o + n - 1);
    forall p: nat ensures Overlaps(o, n, p) <==> a <= p <= b {
    }
    forall p: nat ensures StartsIn(o, p) <==> p == a {
    }
  }
}
