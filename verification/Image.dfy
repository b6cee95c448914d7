/**
 Relocatable images: the slots of a heap turned from pointers into offsets and back.  Both
 conversions walk the heap page by page, so an object that spans several pages is visited
 once for each; the loaded heap is nevertheless the old one with its pointers shifted.
 */
module Image {
  import W = Words
  import opened Heap
  import opened ObjectMemory

  // ----------------------------------------------------------------- words

  /** A byte range of a heap, and where it is turned to: pointers to offsets, or offsets to pointers. */
  datatype Conversion = ToOffset(heapStart: nat, heapLimit: nat) | ToPointer(base: nat, usedSize: nat) {
    predicate InRange() {
      if ToOffset? then heapStart <= heapLimit && heapLimit + 8 < W.TWO_64 else base + usedSize < W.TWO_64
    }

    function Apply(v: Word): (r: Word)
      requires InRange()
    {
      if ToOffset? then
        if v % 4 != 0 || v == 0 || v < heapStart || v >= heapLimit then v else v - heapStart + 8
      else
        if v % 4 != 0 || v < 8 || v > usedSize then v else v - 8 + base
    }

    /** The heap is at higher addresses than its own offsets reach. */
    predicate Above() {
      if ToOffset? then heapStart % 8 == 0 && heapLimit % 8 == 0 && heapLimit - heapStart < heapStart
                        else usedSize < base
    }
  }

  /** Converting a word again changes nothing, when the heap is above the offsets. */
  lemma ConvertTwice(c: Conversion, v: Word)
    requires c.InRange() && c.Above()
    ensures c.Apply(c.Apply(v)) == c.Apply(v)
  {
  }

  predicate InHeap(v: Word, start: nat, free: nat) { v % 4 == 0 && 8 * start <= v < 8 * (start + free) }

  /** A word of a heap that has moved from `start` to `base`. */
  function Relocate(v: Word, start: nat, free: nat, base: nat): int {
    if InHeap(v, start, free) then v - 8 * start + 8 * base else v
  }

  /**
   The words that survive: not tagged as objects, or too small or too large for an offset, and not
   the odd half-word at the end.
   */
  predicate Survives(v: Word, start: nat, free: nat) {
    v % 4 != 0 || v < 8 || (v > 8 * free && v != 8 * (start + free) - 4)
  }

  predicate BothAbove(start: nat, free: nat, base: nat) {
    0 < free < start && free < base && 8 * (start + free + 1) < W.TWO_64 && 8 * (base + free) < W.TWO_64
  }

  /** A word goes out and comes back relocated exactly when it survives. */
  lemma WordRoundTrip(v: Word, start: nat, free: nat, base: nat)
    requires BothAbove(start, free, base)
    ensures ToPointer(8 * base, 8 * free).Apply(ToOffset(8 * start, 8 * (start + free)).Apply(v))
            == Relocate(v, start, free, base)
            <==> Survives(v, start, free)
  {
  }

  /** Words that do not: one that is small enough to be an offset, and one in the last half-word of the heap. */
  lemma WordsLost()
    ensures BothAbove(1000, 10, 2000)
    ensures var out, back := ToOffset(8000, 8080), ToPointer(16000, 80);
            back.Apply(out.Apply(16)) == 16008 && back.Apply(out.Apply(8076)) == 84 && InHeap(8076, 1000, 10)
  {
  }

  /** An object pointer into the heap survives. */
  lemma PointersSurvive(v: Word, start: nat, free: nat)
    requires 0 < free < start && v % 8 == 0 && InHeap(v, start, free)
    ensures Survives(v, start, free)
  {
  }

  // ----------------------------------------------------------------- slots

  /** The words of an object that may hold pointers: its class, and its fields unless they are bytes. */
  predicate SlotIn(heap: seq<Word>, o: nat, n: nat, i: int)
    requires o + HEADER <= |heap|
  {
    i == o || (heap[o + 1] != FORMAT_BYTES && o + HEADER <= i < o + n)
  }

  ghost predicate InSlots(heap: seq<Word>, objs: Objects, some: set<nat>, i: int) {
    exists o :: o in some && o in objs && o + HEADER <= |heap| && SlotIn(heap, o, objs[o], i)
  }

  ghost predicate IsSlot(heap: seq<Word>, objs: Objects, i: int) { InSlots(heap, objs, objs.Keys, i) }

  /** `copy` is `heap` with the slots of some objects converted. */
  ghost predicate Converted(copy: seq<Word>, heap: seq<Word>, objs: Objects, some: set<nat>, c: Conversion)
    requires c.InRange()
  {
    |copy| == |heap| && forall i :: 0 <= i < |copy| ==> copy[i] == if InSlots(heap, objs, some, i)
                                                        then c.Apply(heap[i]) else heap[i]
  }

  /** One more object converted, in whichever state it was. */
  ghost predicate ObjectConverted(copy: seq<Word>, copy1: seq<Word>, heap: seq<Word>, o: nat, n: nat, c: Conversion)
    requires c.InRange() && o + HEADER <= |heap|
  {
    |copy1| == |copy| && forall i :: 0 <= i < |copy| ==> copy1[i] == if SlotIn(heap, o, n, i)
                                                         then c.Apply(copy[i]) else copy[i]
  }

  lemma OneMoreConverted(copy: seq<Word>, copy1: seq<Word>, heap: seq<Word>, objs: Objects, some: set<nat>, o: nat,
                         c: Conversion)
    requires c.InRange() && c.Above() && o in objs && o + HEADER <= |heap|
    requires Converted(copy, heap, objs, some, c) && ObjectConverted(copy, copy1, heap, o, objs[o], c)
    ensures Converted(copy1, heap, objs, some + {o}, c)
  {
    forall i | 0 <= i < |copy1| ensures copy1[i] == if InSlots(heap, objs, some + {o}, i)
        then c.Apply(heap[i]) else heap[i] {
      ConvertTwice(c, heap[i]);
      SlotsOfOneMore(heap, objs, some, o, i);
    }
  }

  lemma SlotsOfOneMore(heap: seq<Word>, objs: Objects, some: set<nat>, o: nat, i: int)
    requires o in objs && o + HEADER <= |heap|
    ensures InSlots(heap, objs, some + {o}, i) <==> InSlots(heap, objs, some, i) || SlotIn(heap, o, objs[o], i)
  {
    if SlotIn(heap, o, objs[o], i) {
      assert o in some + {o};
    }
    forall q | q in some ensures q in some + {o} {
    }
  }

  /** Formats and sizes are no slots. */
  lemma HeadersKept(copy: seq<Word>, heap: seq<Word>, objs: Objects, free: nat, some: set<nat>, c: Conversion, o: nat)
    requires c.InRange() && Apart(heap, objs, free) && Converted(copy, heap, objs, some, c) && o in objs
    ensures copy[o + 1] == heap[o + 1] && copy[o + 2] == heap[o + 2]
  {
    forall i | o + 1 <= i <= o + 2 ensures copy[i] == heap[i] {
      NoHeaderSlot(heap, objs, free, some, o, i);
    }
  }

  lemma NoHeaderSlot(heap: seq<Word>, objs: Objects, free: nat, some: set<nat>, o: nat, i: nat)
    requires Apart(heap, objs, free) && o in objs && o + 1 <= i <= o + 2
    ensures !InSlots(heap, objs, some, i)
  {
    forall q | q in some && q in objs && q + HEADER <= |heap| ensures !SlotIn(heap, q, objs[q], i) {
      assert q == o || q < o || o < q;
    }
  }

  /** All objects below the end of a page's used words are those of the page and of the pages before. */
  ghost predicate DoneBelow(objs: Objects, some: set<nat>, p: nat) {
    forall q, k: nat :: q in objs && k < p && Overlaps(q, objs[q], k) ==> q in some
  }

  /** Converting the objects of every page converts every object. */
  lemma AllDone(heap: seq<Word>, objs: Objects, free: nat, some: set<nat>, pages: nat)
    requires Apart(heap, objs, free) && free <= PAGE * pages && DoneBelow(objs, some, pages) && some <= objs.Keys
    ensures some == objs.Keys
  {
    forall q | q in objs ensures q in some {
      assert Overlaps(q, objs[q], PageOf(q));
    }
  }

  /** The objects of page `p` that lie below `from` are done. */
  ghost predicate PageDone(objs: Objects, some: set<nat>, p: nat, from: nat) {
    forall q :: q in objs && Overlaps(q, objs[q], p) && q < from ==> q in some
  }

  lemma PageFinished(heap: seq<Word>, objs: Objects, free: nat, some: set<nat>, used: nat, p: nat, from: nat)
    requires Apart(heap, objs, free) && UsedOf(objs, used, p) && PageDone(objs, some, p, from)
             && DoneBelow(objs, some, p)
    requires PAGE * p + used <= from || free <= from
    ensures DoneBelow(objs, some, p + 1)
  {
    forall q, k: nat | q in objs && k < p + 1 && Overlaps(q, objs[q], k) ensures q in some {
      if k == p {
        assert Reach(q, objs[q], p) <= used;
      }
    }
  }

  // ----------------------------------------------------------------- pointers to offsets

  /** Converts the class and the fields of one object in an image. */
  method ConvertObject(copy: array<Word>, o: nat, n: nat, isBytes: bool, c: Conversion, ghost heap: seq<Word>)
    requires c.InRange() && HEADER <= n && o + n <= copy.Length && o + HEADER <= |heap|
             && isBytes == (heap[o + 1] == FORMAT_BYTES)
    modifies copy
    ensures ObjectConverted(old(copy[..]), copy[..], heap, o, n, c)
  {
    copy[o] := c.Apply(copy[o]);
    if !isBytes {
      for i := o + HEADER to o + n
        invariant forall j :: 0 <= j < copy.Length ==>
          copy[j] == if j == o || o + HEADER <= j < i then c.Apply(old(copy[j])) else old(copy[j])
      {
        copy[i] := c.Apply(copy[i]);
      }
    }
  }

  /** Converts one live object of an image. */
  method ConvertLive(om: Om, copy: array<Word>, o: nat, ghost some: set<nat>)
    requires om.Valid() && StartAbove(om.start, om.free) && o in om.objs && om.free <= om.heap.Length
             && copy.Length == om.free && copy != om.heap
    requires Converted(copy[..], om.heap[..om.free], om.objs, some, Outward(om.start, om.free))
    modifies copy
    ensures Converted(copy[..], om.heap[..om.free], om.objs, some + {o}, Outward(om.start, om.free))
  {
    hide Consistent, Converted, ObjectConverted;
    ghost var heap := om.heap[..om.free];
    ObjectFacts(om.heap[..], om.objs, om.Table(), om.start, om.free, om.pages, o);
    ghost var before := copy[..];
    ConvertObject(copy, o, ObjectWords(om.heap[..], o), om.heap[o + 1] == FORMAT_BYTES, Outward(om.start, om.free),
                  heap);
    OneMoreConverted(before, copy[..], heap, om.objs, some, o, Outward(om.start, om.free));
  }

  /** Converts the objects of one page, walking from its covering object. */
  method ConvertPage(om: Om, copy: array<Word>, p: nat, ghost some: set<nat>) returns (ghost some1: set<nat>)
    requires om.Valid() && StartAbove(om.start, om.free) && p < om.pages && om.free <= om.heap.Length
             && copy.Length == om.free && copy != om.heap
    requires some <= om.objs.Keys && DoneBelow(om.objs, some, p)
             && Converted(copy[..], om.heap[..om.free], om.objs, some, Outward(om.start, om.free))
    modifies copy
    ensures some1 <= om.objs.Keys && DoneBelow(om.objs, some1, p + 1)
    ensures Converted(copy[..], om.heap[..om.free], om.objs, some1, Outward(om.start, om.free))
  {
    hide Consistent, Apart, UsedOf, CoveringOf, FirstOf, Converted, ObjectConverted, DoneBelow, PageDone, IsNext;
    ghost var heap, objs := om.heap[..om.free], om.objs;
    var c := Outward(om.start, om.free);
    HeapPrefix(om.heap[..], objs, om.Table(), om.start, om.free, om.pages);
    PageFacts(om.heap[..], objs, om.Table(), om.start, om.free, om.pages, p);
    var pageEnd := om.start + PAGE * p + om.used[p];
    var current := om.covering[p];
    CoveringDone(objs, some, om.covering[p], om.start, om.free, p);
    some1 := some;
    while current != 0 && current < om.start + om.free && current < pageEnd
      invariant some1 <= objs.Keys && DoneBelow(objs, some1, p) && Converted(copy[..], heap, objs, some1, c)
      invariant current != 0 ==> om.start <= current && current - om.start in objs
      invariant PageDone(objs, some1, p, if current == 0 then om.free else current - om.start)
      decreases if current == 0 then 0 else om.start + om.free + 1 - current
    {
      ghost var o := current - om.start;
      ConvertLive(om, copy, current - om.start, some1);
      var next := om.NextObject(current);
      NextDone(objs, some1, om.start, om.free, p, o, next);
      DoneMore(objs, some1, o, p);
      some1 := some1 + {o};
      current := next;
    }
    PageFinished(heap, objs, om.free, some1, om.used[p], p, if current == 0 then om.free else current - om.start);
  }

  predicate StartAbove(start: nat, free: nat) { 0 < free < start && 8 * (start + free + 1) < W.TWO_64 }

  function Outward(start: nat, free: nat): (c: Conversion)
    requires StartAbove(start, free)
    ensures c.InRange() && c.Above()
  {
    ToOffset(8 * start, 8 * (start + free))
  }

  /** Turns the pointers of an image of the heap into offsets, page by page. */
  method PointersToOffsets(om: Om, copy: array<Word>)
    requires om.Valid() && StartAbove(om.start, om.free) && om.free <= om.heap.Length
    requires copy.Length == om.free && copy[..] == om.heap[..om.free] && copy != om.heap
    modifies copy
    ensures Converted(copy[..], om.heap[..om.free], om.objs, om.objs.Keys, Outward(om.start, om.free))
  {
    hide Consistent, Apart, Converted, DoneBelow;
    ghost var heap, objs, some := om.heap[..om.free], om.objs, {};
    HeapPrefix(om.heap[..], objs, om.Table(), om.start, om.free, om.pages);
    NothingConverted(copy[..], heap, objs, Outward(om.start, om.free));
    var p := 0;
    while p < om.pages
      invariant p <= om.pages && some <= objs.Keys && DoneBelow(objs, some, p)
      invariant Converted(copy[..], heap, objs, some, Outward(om.start, om.free))
    {
      some := ConvertPage(om, copy, p, some);
      p := p + 1;
    }
    AllDone(heap, objs, om.free, some, om.pages);
  }

  lemma NothingConverted(copy: seq<Word>, heap: seq<Word>, objs: Objects, c: Conversion)
    requires c.InRange() && copy == heap
    ensures Converted(copy, heap, objs, {}, c) && DoneBelow(objs, {}, 0)
  {
  }

  lemma HeapPrefix(heap: seq<Word>, objs: Objects, t: Tables, start: nat, free: nat, pages: nat)
    requires Consistent(heap, objs, t, start, free, pages)
    ensures free <= |heap| && free <= PAGE * pages && Apart(heap[..free], objs, free)
  {
  }

  lemma PageFacts(heap: seq<Word>, objs: Objects, t: Tables, start: nat, free: nat, pages: nat, p: nat)
    requires Consistent(heap, objs, t, start, free, pages) && p < pages
    ensures Sized(t, pages) && UsedOf(objs, t.used[p], p) && CoveringOf(objs, t.covering[p], start, p)
            && FirstOf(objs, t.first[p], start, p)
  {
    assert PageOk(objs, t, start, free, p);
  }

  lemma ObjectFacts(heap: seq<Word>, objs: Objects, t: Tables, start: nat, free: nat, pages: nat, o: nat)
    requires Consistent(heap, objs, t, start, free, pages) && o in objs
    ensures HEADER <= objs[o] && o + objs[o] <= free <= |heap| && ObjectWords(heap, o) == objs[o]
            && heap[..free][o + 1] == heap[o + 1]
  {
  }

  /** Nothing of a page lies below its covering object. */
  lemma CoveringDone(objs: Objects, some: set<nat>, covering: nat, start: nat, free: nat, p: nat)
    requires CoveringOf(objs, covering, start, p)
    ensures covering != 0 ==> start <= covering && covering - start in objs
    ensures PageDone(objs, some, p, if covering == 0 then free else covering - start)
  {
  }

  lemma DoneMore(objs: Objects, some: set<nat>, o: nat, p: nat)
    requires DoneBelow(objs, some, p) && o in objs
    ensures DoneBelow(objs, some + {o}, p)
  {
  }

  lemma NextDone(objs: Objects, some: set<nat>, start: nat, free: nat, p: nat, o: nat, next: nat)
    requires PageDone(objs, some, p, o) && o in objs && IsNext(objs, start, o, next)
    ensures next != 0 ==> start <= next && o < next - start && next - start in objs
    ensures PageDone(objs, some + {o}, p, if next == 0 then free else next - start)
  {
  }

  // ----------------------------------------------------------------- offsets to pointers

  /** A table entry in an image: an object's offset plus 8; an absent object's address 0 goes through the same sum. */
  function Entry(address: nat, start: nat): (w: Word)
    ensures start <= address && 8 * address + 8 < W.TWO_64 ==> w == 8 * (address - start) + 8
  {
    W.Wrap(8 * address - 8 * start + 8)
  }

  /** The page tables of an image: of the pages below the free word, in bytes and offsets. */
  datatype PageTables = PageTables(used: seq<Word>, first: seq<Word>, covering: seq<Word>)

  function PageCount(free: nat): nat { (free + 511) / 512 }

  /** The tables that an image of this heap carries. */
  ghost predicate TablesOf(pt: PageTables, t: Tables, start: nat, free: nat)
    requires Sized(t, |t.used|)
  {
    && |pt.used| == |pt.first| == |pt.covering| == PageCount(free) <= |t.used|
    && forall p :: 0 <= p < PageCount(free) ==>
         pt.used[p] == W.Wrap(8 * t.used[p]) && pt.first[p] == Entry(t.first[p], start)
             && pt.covering[p] == Entry(t.covering[p], start)
  }

  /** The heap whose image is loaded: objects and tables as they were, without released pages. */
  ghost predicate Source(heap: seq<Word>, objs: Objects, t: Tables, pt: PageTables, start: nat, free: nat, pages: nat) {
    && Consistent(heap, objs, t, start, free, pages) && NoHoles(t, start, free) && TablesOf(pt, t, start, free)
       && 0 < free
  }

  function Inward(base: nat, free: nat): (c: Conversion)
    requires free < base && 8 * (base + free) < W.TWO_64
    ensures c.InRange() && c.Above()
  {
    ToPointer(8 * base, 8 * free)
  }

  /** What an image's tables say of a page. */
  lemma EntryFacts(heap: seq<Word>, objs: Objects, t: Tables, pt: PageTables, start: nat, free: nat, pages: nat, p: nat)
    requires Source(heap, objs, t, pt, start, free, pages) && p < PageCount(free)
    ensures p < pages == |t.used| == |t.covering| && p < |pt.used| == |pt.covering| == |pt.first|
    ensures PAGE * p < free && pt.used[p] == 8 * t.used[p] && 0 < t.used[p]
    ensures t.covering[p] != 0 && start <= t.covering[p] && pt.covering[p] == 8 * (t.covering[p] - start) + 8
    ensures CoveringOf(objs, t.covering[p], start, p) && UsedOf(objs, t.used[p], p)
  {
    hide FirstOf, NoHoles;
    assert t.used[p] > 0 by { UsedPage(t, start, free, p); }
    PageFacts(heap, objs, t, start, free, pages, p);
    UsedIsReach(objs, t.used[p], p);
    CoveringBelow(heap, objs, free, t.covering[p], start, p);
  }

  lemma UsedPage(t: Tables, start: nat, free: nat, p: nat)
    requires Sized(t, |t.used|) && NoHoles(t, start, free) && p < |t.used| && PAGE * p < free
    ensures t.used[p] > 0
  {
  }

  lemma CoveringBelow(heap: seq<Word>, objs: Objects, free: nat, covering: nat, start: nat, p: nat)
    requires Apart(heap, objs, free) && CoveringOf(objs, covering, start, p) && covering != 0
    ensures start <= covering < start + free
  {
  }

  /** The object after `o` in an image, by its tables: in the used words of a page, or first in the page after a gap. */
  lemma NextInImage(heap: seq<Word>, objs: Objects, t: Tables, pt: PageTables, start: nat, free: nat, pages: nat,
                    o: nat)
    requires Source(heap, objs, t, pt, start, free, pages) && o in objs
    ensures var next := o + objs[o]; var p := PageOf(next);
            && next <= free && (next == free ==> NoneFrom(objs, o + 1))
            && (next < free ==>
                  && p < PageCount(free) && pt.used[p] == 8 * t.used[p]
                  && (next - PAGE * p < t.used[p] ==> Lowest(objs, o + 1, next))
                  && (next - PAGE * p >= t.used[p] && p + 1 == PageCount(free) ==> NoneFrom(objs, o + 1))
                  && (next - PAGE * p >= t.used[p] && p + 1 < PageCount(free) ==>
                        pt.first[p + 1] == 8 * PAGE * (p + 1) + 8 && PAGE * (p + 1) < free
                        && Lowest(objs, o + 1, PAGE * (p + 1))))
  {
    hide CoveringOf, FirstOf, UsedOf, NoHoles;
    var next := o + objs[o];
    var p := PageOf(next);
    NextCases(heap, objs, t, start, free, pages, o);
    if next < free {
      EntryFacts(heap, objs, t, pt, start, free, pages, p);
      assert p < PageCount(free) && p < pages && pt.used[p] == 8 * t.used[p];
      hide Consistent;
      if next - PAGE * p >= t.used[p] && p + 1 < PageCount(free) {
        assert pt.first[p + 1] == 8 * PAGE * (p + 1) + 8 && Lowest(objs, o + 1, PAGE * (p + 1)) by {
          FirstAfterGap(heap, objs, t, pt, start, free, pages, p);
          SearchStep(objs, start, t.first[p + 1], o + 1, p + 1);
        }
      }
    }
  }

  lemma FirstAfterGap(heap: seq<Word>, objs: Objects, t: Tables, pt: PageTables, start: nat, free: nat, pages: nat,
                      p: nat)
    requires Source(heap, objs, t, pt, start, free, pages) && p + 1 < PageCount(free) && t.used[p] < PAGE
    ensures p + 1 < pages && t.first[p + 1] == start + PAGE * (p + 1) && pt.first[p + 1] == 8 * PAGE * (p + 1) + 8
            && PAGE * (p + 1) < free
    ensures FirstOf(objs, t.first[p + 1], start, p + 1)
  {
    var q := p + 1;
    assert PAGE * q < free;
    PageFacts(heap, objs, t, start, free, pages, q);
  }

  /** The word number of the next object in an image, from its tables; -1 for none. */
  method NextByTables(copy: array<Word>, o: nat, pt: PageTables, free: nat,
                      ghost heap: seq<Word>, ghost objs: Objects, ghost t: Tables, ghost start: nat, ghost pages: nat)
                      returns (next: int)
    requires Source(heap, objs, t, pt, start, free, pages) && o in objs && copy.Length == free
    requires o + HEADER <= free && copy[o + 1] == heap[o + 1] && copy[o + 2] == heap[o + 2]
    ensures next == -1 ==> NoneFrom(objs, o + 1)
    ensures next != -1 ==> 0 <= next < free && Lowest(objs, o + 1, next)
  {
    hide Consistent, NoHoles, Lowest, NoneFrom;
    ObjectFacts(heap, objs, t, start, free, pages, o);
    NextInImage(heap, objs, t, pt, start, free, pages, o);
    var end := o + ObjectWords(copy[..], o);
    if end >= free {
      return -1;
    }
    var page := PageOf(end);
    if 8 * (end - PAGE * page) < pt.used[page] {
      return end;
    }
    var future := NextFirst(pt.first, page + 1);
    return if future < |pt.first| then (pt.first[future] - 8) / 8 else -1;
  }

  /** The lowest page from `from` on whose entry is not 0, the page count for none. */
  method NextFirst(first: seq<Word>, from: nat) returns (page: nat)
    requires from <= |first|
    ensures from <= page <= |first| && (page < |first| ==> first[page] != 0)
    ensures forall q :: from <= q < page ==> first[q] == 0
  {
    page := from;
    while page < |first| && first[page] == 0
      invariant from <= page <= |first| && forall q :: from <= q < page ==> first[q] == 0
    {
      page := page + 1;
    }
  }

  /** What is fixed while an image is loaded: the heap it was made of, and the image as it was read. */
  ghost predicate Loading(image: seq<Word>, heap: seq<Word>, objs: Objects, t: Tables, pt: PageTables, start: nat,
                          free: nat, pages: nat) {
    && Source(heap, objs, t, pt, start, free, pages) && |image| == free && Apart(image, objs, free)
    && forall o :: o in objs && o + 2 < |image| && o + 2 < |heap| ==> image[o + 1] == heap[o + 1]
                                                                      && image[o + 2] == heap[o + 2]
  }

  /** Converts one object of a loaded image, found by the image's own header. */
  method LoadObject(copy: array<Word>, o: nat, free: nat, base: nat, ghost image: seq<Word>, ghost objs: Objects,
                    ghost some: set<nat>)
    requires 0 < free < base && 8 * (base + free) < W.TWO_64 && copy.Length == free == |image|
    requires Apart(image, objs, free) && o in objs && Converted(copy[..], image, objs, some, Inward(base, free))
    modifies copy
    ensures Converted(copy[..], image, objs, some + {o}, Inward(base, free))
  {
    hide Converted, ObjectConverted;
    ghost var before := copy[..];
    assert o + HEADER <= o + objs[o] <= free && ObjectWords(image, o) == objs[o];
    HeadersKept(before, image, objs, free, some, Inward(base, free), o);
    hide Apart;
    assert copy[o + 1] == before[o + 1] && copy[o + 2] == before[o + 2];
    ConvertObject(copy, o, ObjectWords(copy[..], o), copy[o + 1] == FORMAT_BYTES, Inward(base, free), image);
    OneMoreConverted(before, copy[..], image, objs, some, o, Inward(base, free));
  }

  /** Loads the objects of one page, walking from the covering object its table gives. */
  method LoadPage(copy: array<Word>, pt: PageTables, free: nat, base: nat, p: nat, ghost image: seq<Word>,
                  ghost some: set<nat>,
                  ghost heap: seq<Word>, ghost objs: Objects, ghost t: Tables, ghost start: nat, ghost pages: nat)
                  returns (ghost some1: set<nat>)
    requires Loading(image, heap, objs, t, pt, start, free, pages) && p < PageCount(free)
    requires 0 < free < base && 8 * (base + free) < W.TWO_64 && copy.Length == free
    requires some <= objs.Keys && DoneBelow(objs, some, p) && Converted(copy[..], image, objs, some, Inward(base, free))
    modifies copy
    ensures some1 <= objs.Keys && DoneBelow(objs, some1, p + 1)
            && Converted(copy[..], image, objs, some1, Inward(base, free))
  {
    hide Consistent, Apart, UsedOf, CoveringOf, Converted, ObjectConverted, DoneBelow, PageDone, NoHoles, TablesOf,
         Lowest, NoneFrom;
    EntryFacts(heap, objs, t, pt, start, free, pages, p);
    CoveringDone(objs, some, t.covering[p], start, free, p);
    var pageEnd := 8 * PAGE * p + pt.used[p];
    var current: int := if pt.covering[p] == 0 then -1 else (pt.covering[p] - 8) / 8;
    some1 := some;
    while current != -1 && current < free && 8 * current < pageEnd
      invariant some1 <= objs.Keys && DoneBelow(objs, some1, p)
                && Converted(copy[..], image, objs, some1, Inward(base, free))
      invariant current == -1 || (0 <= current && current in objs)
      invariant PageDone(objs, some1, p, if current == -1 then free else current)
      decreases if current == -1 then 0 else free + 1 - current
    {
      ghost var o: nat := current;
      LoadObject(copy, current, free, base, image, objs, some1);
      LoadedHeader(copy[..], image, heap, objs, t, pt, start, free, pages, some1 + {o}, base, o);
      var next := NextByTables(copy, current, pt, free, heap, objs, t, start, pages);
      NextLoaded(objs, some1, free, p, o, next);
      DoneMore(objs, some1, o, p);
      some1 := some1 + {o};
      current := next;
    }
    LoadedPage(image, heap, objs, t, pt, start, free, pages, some1, p, if current == -1 then free else current);
  }

  lemma LoadedHeader(copy: seq<Word>, image: seq<Word>, heap: seq<Word>, objs: Objects, t: Tables, pt: PageTables,
                     start: nat, free: nat, pages: nat,
                     some: set<nat>, base: nat, o: nat)
    requires Loading(image, heap, objs, t, pt, start, free, pages) && o in objs && 0 < free < base
             && 8 * (base + free) < W.TWO_64
    requires Converted(copy, image, objs, some, Inward(base, free))
    ensures o + HEADER <= free == |copy| && free <= |heap| && copy[o + 1] == heap[o + 1] && copy[o + 2] == heap[o + 2]
  {
    hide Converted, NoHoles, TablesOf;
    ObjectFacts(heap, objs, t, start, free, pages, o);
    assert |copy| == |image| by { SameLength(copy, image, objs, some, Inward(base, free)); }
    HeadersKept(copy, image, objs, free, some, Inward(base, free), o);
  }

  lemma SameLength(copy: seq<Word>, heap: seq<Word>, objs: Objects, some: set<nat>, c: Conversion)
    requires c.InRange() && Converted(copy, heap, objs, some, c)
    ensures |copy| == |heap|
  {
  }

  lemma NextLoaded(objs: Objects, some: set<nat>, free: nat, p: nat, o: nat, next: int)
    requires PageDone(objs, some, p, o) && o in objs
    requires next == -1 ==> NoneFrom(objs, o + 1)
    requires next != -1 ==> 0 <= next && Lowest(objs, o + 1, next)
    ensures next == -1 || (o < next && next in objs)
    ensures PageDone(objs, some + {o}, p, if next == -1 then free else next)
  {
  }

  lemma LoadedPage(image: seq<Word>, heap: seq<Word>, objs: Objects, t: Tables, pt: PageTables, start: nat, free: nat,
                   pages: nat,
                   some: set<nat>, p: nat, from: nat)
    requires Loading(image, heap, objs, t, pt, start, free, pages) && p < PageCount(free)
    requires PageDone(objs, some, p, from) && DoneBelow(objs, some, p)
             && (free <= from || 8 * PAGE * p + pt.used[p] <= 8 * from)
    ensures DoneBelow(objs, some, p + 1)
  {
    hide DoneBelow, PageDone, NoHoles, TablesOf;
    EntryFacts(heap, objs, t, pt, start, free, pages, p);
    PageFinished(image, objs, free, some, t.used[p], p, from);
  }

  /** Turns the offsets of a loaded image into pointers, page by page. */
  method OffsetsToPointers(copy: array<Word>, pt: PageTables, free: nat, base: nat, ghost image: seq<Word>,
                           ghost heap: seq<Word>, ghost objs: Objects, ghost t: Tables, ghost start: nat,
                           ghost pages: nat)
    requires Loading(image, heap, objs, t, pt, start, free, pages) && copy[..] == image
    requires free < base && 8 * (base + free) < W.TWO_64
    modifies copy
    ensures 0 < free && Converted(copy[..], image, objs, objs.Keys, Inward(base, free))
  {
    assert |pt.used| == PageCount(free) && copy.Length == free;
    hide Consistent, Apart, Converted, DoneBelow, NoHoles, TablesOf;
    ghost var some: set<nat> := {};
    NothingConverted(copy[..], image, objs, Inward(base, free));
    var p := 0;
    while p < |pt.used| && PAGE * p < free
      invariant p <= PageCount(free) && some <= objs.Keys && DoneBelow(objs, some, p)
      invariant |pt.used| == PageCount(free) && copy.Length == free
      invariant Converted(copy[..], image, objs, some, Inward(base, free))
    {
      some := LoadPage(copy, pt, free, base, p, image, some, heap, objs, t, start, pages);
      p := p + 1;
    }
    AllDone(image, objs, free, some, PageCount(free));
  }

  // ----------------------------------------------------------------- round trip

  /** An image has the headers of its heap, and so the same slots. */
  lemma ImageHeaders(image: seq<Word>, heap: seq<Word>, objs: Objects, free: nat, c: Conversion)
    requires c.InRange() && Apart(heap, objs, free) && Converted(image, heap, objs, objs.Keys, c)
    ensures Apart(image, objs, free)
    ensures forall o :: o in objs ==> o + 2 < |image| && image[o + 1] == heap[o + 1] && image[o + 2] == heap[o + 2]
    ensures forall i :: IsSlot(image, objs, i) <==> IsSlot(heap, objs, i)
  {
    forall o | o in objs ensures o + 2 < |image| && image[o + 1] == heap[o + 1] && image[o + 2] == heap[o + 2] {
      HeadersKept(image, heap, objs, free, objs.Keys, c, o);
    }
    hide Converted;
    assert |image| == |heap| by { SameLength(image, heap, objs, objs.Keys, c); }
    forall i ensures IsSlot(image, objs, i) <==> IsSlot(heap, objs, i) {
      SlotsAgree(image, heap, objs, i);
    }
  }

  lemma SlotsAgree(image: seq<Word>, heap: seq<Word>, objs: Objects, i: int)
    requires |image| == |heap| && forall o :: o in objs ==> o + 2 < |image| && image[o + 1] == heap[o + 1]
    ensures IsSlot(image, objs, i) <==> IsSlot(heap, objs, i)
  {
    forall o | o in objs ensures o + HEADER <= |heap| && SlotIn(image, o, objs[o], i) == SlotIn(heap, o, objs[o], i) {
    }
  }

  /** The heap moved to `base`: every pointer into it shifted, all else as it was. */
  ghost predicate Moved(loaded: seq<Word>, heap: seq<Word>, objs: Objects, start: nat, free: nat, base: nat) {
    |loaded| == |heap| && forall i :: 0 <= i < |heap| ==> loaded[i] == if IsSlot(heap, objs, i)
                                                          then Relocate(heap[i], start, free, base) else heap[i]
  }

  /** A word of a slot, before and after: a pointer into the heap is moved, any other word is not. */
  predicate MovedWord(was: Word, now: Word, start: nat, free: nat, base: nat) {
    now == if was % 4 == 0 && 8 * start <= was < 8 * (start + free) then was - 8 * start + 8 * base else was
  }

  /** In an image, a pointer into the heap is its offset in bytes plus 8. */
  predicate OffsetWord(was: Word, now: Word, start: nat, free: nat) {
    now == if was % 4 == 0 && 8 * start <= was < 8 * (start + free) then was - 8 * start + 8 else was
  }

  /**
   Which words are slots: of an object the class, and the fields unless they are bytes; and none
   outside of objects.
   */
  lemma ObjectSlots(heap: seq<Word>, objs: Objects, o: nat)
    requires Apart(heap, objs, |heap|) && o in objs
    ensures o + 3 <= |heap| && o + objs[o] <= |heap|
    ensures IsSlot(heap, objs, o) && !IsSlot(heap, objs, o + 1) && !IsSlot(heap, objs, o + 2)
    ensures forall i :: o + 3 <= i < o + objs[o] ==> (IsSlot(heap, objs, i) <==> heap[o + 1] != 2)
  {
    forall i, q | o <= i < o + objs[o] && q in objs && q != o && q + HEADER <= |heap|
      ensures !SlotIn(heap, q, objs[q], i)
    {
      assert q < o || o < q;
    }
    assert SlotIn(heap, o, objs[o], o);
    forall i | o + 3 <= i < o + objs[o] ensures IsSlot(heap, objs, i) <==> heap[o + 1] != 2 {
      assert SlotIn(heap, o, objs[o], i) <==> heap[o + 1] != 2;
    }
  }

  lemma NoSlots(heap: seq<Word>, objs: Objects, i: nat)
    requires Apart(heap, objs, |heap|) && !Covered(objs, i)
    ensures !IsSlot(heap, objs, i)
  {
    assert forall o :: o in objs && o + HEADER <= |heap| && SlotIn(heap, o, objs[o], i) ==> o <= i < o + objs[o];
  }

  /**
   A heap that has moved, object by object: class and fields that point into the heap are moved with
   it; format, size and bytes are as they were, and so is every word outside of objects.
   */
  lemma MovedObject(loaded: seq<Word>, heap: seq<Word>, objs: Objects, start: nat, free: nat, base: nat, o: nat)
    requires Moved(loaded, heap, objs, start, free, base) && Apart(heap, objs, |heap|)
    ensures o in objs ==>
              && o + 3 <= o + objs[o] <= |heap| && loaded[o + 1] == heap[o + 1] && loaded[o + 2] == heap[o + 2]
              && MovedWord(heap[o], loaded[o], start, free, base)
              && forall i :: o + 3 <= i < o + objs[o] ==>
                   if heap[o + 1] == 2 then loaded[i] == heap[i] else MovedWord(heap[i], loaded[i], start, free, base)
    ensures o < |heap| && !Covered(objs, o) ==> loaded[o] == heap[o]
  {
    if o in objs {
      ObjectSlots(heap, objs, o);
    } else if !Covered(objs, o) {
      NoSlots(heap, objs, o);
    }
    hide Apart, IsSlot, Covered;
  }

  /** The converted heap of an image, object by object. */
  lemma ConvertedObject(copy: seq<Word>, heap: seq<Word>, objs: Objects, start: nat, free: nat, o: nat)
    requires StartAbove(start, free) && |heap| == free && Apart(heap, objs, free)
    requires Converted(copy, heap, objs, objs.Keys, Outward(start, free))
    ensures o in objs ==>
              && o + 3 <= o + objs[o] <= |copy| == |heap| && copy[o + 1] == heap[o + 1] && copy[o + 2] == heap[o + 2]
              && OffsetWord(heap[o], copy[o], start, free)
              && forall i :: o + 3 <= i < o + objs[o] ==>
                   if heap[o + 1] == 2 then copy[i] == heap[i] else OffsetWord(heap[i], copy[i], start, free)
    ensures o < |heap| && !Covered(objs, o) ==> copy[o] == heap[o]
  {
    if o in objs {
      ObjectSlots(heap, objs, o);
    } else if !Covered(objs, o) {
      NoSlots(heap, objs, o);
    }
    assert forall i :: 0 <= i < |copy| ==>
             copy[i] == if IsSlot(heap, objs, i) then Outward(start, free).Apply(heap[i]) else heap[i];
    hide Apart, IsSlot, InSlots, Covered;
  }

  /** Every slot holds a word that survives; `PointersSurvive` says that pointers to objects do. */
  ghost predicate AllSurvive(heap: seq<Word>, objs: Objects, start: nat, free: nat) {
    forall i :: 0 <= i < |heap| && IsSlot(heap, objs, i) ==> Survives(heap[i], start, free)
  }

  /**
   Round trip: a heap turned into an image and loaded at another base is the heap moved there,
   exactly when all words in its slots survive.
   */
  lemma ImageRoundTrip(heap: seq<Word>, objs: Objects, start: nat, free: nat, base: nat, image: seq<Word>,
                       loaded: seq<Word>)
    requires |heap| == free && BothAbove(start, free, base) && Apart(heap, objs, free)
    requires Converted(image, heap, objs, objs.Keys, Outward(start, free))
    requires Converted(loaded, image, objs, objs.Keys, Inward(base, free))
    ensures Moved(loaded, heap, objs, start, free, base) <==> AllSurvive(heap, objs, start, free)
  {
    ImageHeaders(image, heap, objs, free, Outward(start, free));
    hide Apart, InSlots;
    forall i | 0 <= i < |heap|
      ensures loaded[i] == if IsSlot(heap, objs, i) then Inward(base, free).Apply(Outward(start, free).Apply(heap[i]))
                                                         else heap[i]
      ensures (loaded[i] == if IsSlot(heap, objs, i) then Relocate(heap[i], start, free, base) else heap[i])
              <==> (IsSlot(heap, objs, i) ==> Survives(heap[i], start, free))
    {
      assert IsSlot(image, objs, i) == IsSlot(heap, objs, i);
      WordRoundTrip(heap[i], start, free, base);
    }
  }
}
