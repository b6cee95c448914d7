/**
 Paged object memory, counted in words of eight bytes: a bump allocator that keeps objects of
 at most a page inside one page, recycles released pages, and describes every page by the
 lowest object that overlaps it, the lowest that starts in it and the end of its last one.
 */
module Heap {
  import W = Words

  type Word = W.Word

  /** Words in a page of 4096 bytes. */
  const PAGE := 512
  const HEADER := 3

  const FORMAT_BYTES: Word := 2

  const STATE_FREE := 0
  const STATE_HEAD := 1
  const STATE_CONTINUATION := 2

  /** Live objects: where each starts, in words from the start of the heap, and how many words it takes. */
  type Objects = map<nat, nat>

  /** The words after the header: one a field, or as many as the bytes fill. */
  function SlotWords(format: Word, size: nat): (n: nat)
    ensures format != FORMAT_BYTES ==> n == size
    ensures format == FORMAT_BYTES ==> size <= 8 * n < size + 8
  {
    if format == FORMAT_BYTES then (size + 7) / 8 else size
  }

  /** The words of the object whose header is at `o`. */
  function ObjectWords(heap: seq<Word>, o: nat): nat
    requires o + HEADER <= |heap|
  {
    HEADER + SlotWords(heap[o + 1], heap[o + 2])
  }

  predicate Overlaps(o: nat, n: nat, p: nat) { o < PAGE * (p + 1) && PAGE * p < o + n }

  predicate StartsIn(o: nat, p: nat) { PAGE * p <= o < PAGE * (p + 1) }

  /** How far into a page an object that overlaps it reaches. */
  function Reach(o: nat, n: nat, p: nat): (r: nat)
    requires Overlaps(o, n, p)
    ensures 0 < r <= PAGE
  {
    (if o + n < PAGE * (p + 1) then o + n else PAGE * (p + 1)) - PAGE * p
  }

  /** The page that a word is in. */
  function PageOf(w: nat): (p: nat)
    ensures PAGE * p <= w < PAGE * (p + 1)
  {
    w / PAGE
  }

  // ----------------------------------------------------------------- the tables

  /** One entry a page.  Addresses are in words; 0 stands for no object. */
  datatype Tables = Tables(used: seq<nat>, first: seq<nat>, covering: seq<nat>, state: seq<nat>, reusable: seq<bool>)

  predicate Sized(t: Tables, pages: nat) {
    |t.used| == |t.first| == |t.covering| == |t.state| == |t.reusable| == pages
  }

  ghost predicate Covered(objs: Objects, w: nat) { exists o :: o in objs && o <= w < o + objs[o] }

  /** Objects are whole, below the free word, apart from each other, and inside one page when they fit in one. */
  ghost predicate Apart(heap: seq<Word>, objs: Objects, free: nat) {
    && free <= |heap|
    && (forall o :: o in objs ==> HEADER <= objs[o] && o + objs[o] <= free && ObjectWords(heap, o) == objs[o])
    && (forall o, q :: o in objs && q in objs && o < q ==> o + objs[o] <= q)
    && (forall o, p: nat :: o in objs && objs[o] <= PAGE && StartsIn(o, p) ==> o + objs[o] <= PAGE * (p + 1))
  }

  /** `used` is where the last object of a page ends in it, and there are no gaps below. */
  ghost predicate UsedOf(objs: Objects, used: nat, p: nat) {
    && used <= PAGE
    && (forall o :: o in objs && Overlaps(o, objs[o], p) ==> Reach(o, objs[o], p) <= used)
    && (forall w :: PAGE * p <= w < PAGE * p + used ==> Covered(objs, w))
  }

  ghost predicate CoveringOf(objs: Objects, covering: nat, start: nat, p: nat) {
    if covering == 0 then forall o :: o in objs ==> !Overlaps(o, objs[o], p)
    else
      && start <= covering && covering - start in objs && Overlaps(covering - start, objs[covering - start], p)
      && (forall o :: o in objs && Overlaps(o, objs[o], p) ==> covering - start <= o)
  }

  ghost predicate FirstOf(objs: Objects, first: nat, start: nat, p: nat) {
    if first == 0 then forall o :: o in objs ==> !StartsIn(o, p)
    else
      && start <= first && first - start in objs && StartsIn(first - start, p)
      && (forall o :: o in objs && StartsIn(o, p) ==> first - start <= o)
  }

  predicate ReusableOf(t: Tables, free: nat, p: nat)
    requires p < |t.used| && Sized(t, |t.used|)
  {
    t.reusable[p] ==> t.state[p] == STATE_FREE && t.used[p] == 0 && t.first[p] == 0 && t.covering[p] == 0
                      && PAGE * (p + 1) <= free
  }

  /** The bump pointer continues the last page without a gap. */
  predicate Bumps(t: Tables, free: nat, p: nat)
    requires p < |t.used|
  {
    PAGE * p < free < PAGE * (p + 1) ==> t.used[p] == free - PAGE * p
  }

  /** A page is free exactly when no object overlaps it. */
  predicate StateOf(t: Tables, p: nat)
    requires p < |t.used| && Sized(t, |t.used|)
  {
    t.state[p] <= STATE_CONTINUATION && (t.state[p] == STATE_FREE <==> t.covering[p] == 0)
  }

  ghost predicate PageOk(objs: Objects, t: Tables, start: nat, free: nat, p: nat)
    requires p < |t.used| && Sized(t, |t.used|)
  {
    && StateOf(t, p) && UsedOf(objs, t.used[p], p) && CoveringOf(objs, t.covering[p], start, p)
       && FirstOf(objs, t.first[p], start, p)
    && ReusableOf(t, free, p) && Bumps(t, free, p)
  }

  /** Everything that holds between the heap, its objects and its tables. */
  ghost predicate Consistent(heap: seq<Word>, objs: Objects, t: Tables, start: nat, free: nat, pages: nat) {
    && 0 < start && Sized(t, pages) && PAGE * (pages - 1) < |heap| <= PAGE * pages && 8 * (start + |heap|) < W.TWO_64
    && Apart(heap, objs, free)
    && (forall p :: 0 <= p < pages ==> PageOk(objs, t, start, free, p))
  }

  // ----------------------------------------------------------------- walking

  /** `o` is the lowest live object at or above `from`. */
  ghost predicate Lowest(objs: Objects, from: nat, o: nat) {
    o in objs && from <= o && forall q :: q in objs && from <= q ==> o <= q
  }

  ghost predicate NoneFrom(objs: Objects, from: nat) { forall q :: q in objs ==> q < from }

  /** A used word right after an object is the start of the next one. */
  lemma NextStarts(heap: seq<Word>, objs: Objects, free: nat, o: nat, used: nat, p: nat)
    requires Apart(heap, objs, free) && o in objs && UsedOf(objs, used, p)
    requires PAGE * p <= o + objs[o] < PAGE * p + used
    ensures Lowest(objs, o + objs[o], o + objs[o])
  {
    var next := o + objs[o];
    assert Covered(objs, next);
    var q :| q in objs && q <= next < q + objs[q];
    assert q == o || q < o || o < q;
  }

  /** No object starts between the end of a page's used words and the end of the page. */
  lemma NoneInGap(objs: Objects, used: nat, p: nat, next: nat, q: nat)
    requires UsedOf(objs, used, p) && PAGE * p + used <= next && q in objs && next <= q && 0 < objs[q]
    ensures PAGE * (p + 1) <= q
  {
    if q < PAGE * (p + 1) {
      assert Overlaps(q, objs[q], p);
    }
  }

  /** The used words of a page end where some object of the page ends in it. */
  lemma UsedIsReach(objs: Objects, used: nat, p: nat)
    requires UsedOf(objs, used, p) && used > 0
    ensures exists o :: o in objs && Overlaps(o, objs[o], p) && Reach(o, objs[o], p) == used
  {
    assert Covered(objs, PAGE * p + used - 1);
    var o :| o in objs && o <= PAGE * p + used - 1 < o + objs[o];
    assert Overlaps(o, objs[o], p);
  }

  // ----------------------------------------------------------------- the state after an allocation

  function UsedAt(t: Tables, o: nat, n: nat, p: nat): nat
    requires p < |t.used|
  {
    if Overlaps(o, n, p) && t.used[p] < Reach(o, n, p) then Reach(o, n, p) else t.used[p]
  }

  function CoveringAt(t: Tables, start: nat, o: nat, n: nat, p: nat): nat
    requires p < |t.covering|
  {
    if Overlaps(o, n, p) && t.covering[p] == 0 then start + o else t.covering[p]
  }

  function FirstAt(t: Tables, start: nat, o: nat, p: nat): nat
    requires p < |t.first|
  {
    if StartsIn(o, p) && t.first[p] == 0 then start + o else t.first[p]
  }

  function StateAt(t: Tables, o: nat, n: nat, p: nat): nat
    requires p < |t.state|
  {
    if !Overlaps(o, n, p) then t.state[p] else if StartsIn(o, p) then STATE_HEAD else STATE_CONTINUATION
  }

  /** The tables once an object has been entered in them. */
  function Enter(t: Tables, start: nat, o: nat, n: nat): (r: Tables)
    requires Sized(t, |t.used|)
    ensures Sized(r, |t.used|)
  {
    var pages := |t.used|;
    Tables(seq(pages, p requires 0 <= p < pages => UsedAt(t, o, n, p)),
           seq(pages, p requires 0 <= p < pages => FirstAt(t, start, o, p)),
           seq(pages, p requires 0 <= p < pages => CoveringAt(t, start, o, n, p)),
           seq(pages, p requires 0 <= p < pages => StateAt(t, o, n, p)),
           seq(pages, p requires 0 <= p < pages => t.reusable[p] && !Overlaps(o, n, p)))
  }

  function Zeros(n: nat): (r: seq<Word>)
    ensures |r| == n
  {
    seq(n, _ => 0)
  }

  /** The heap with a new object's words written over. */
  function WithObject(heap: seq<Word>, o: nat, n: nat, cls: Word, format: Word, size: Word): (r: seq<Word>)
    requires HEADER <= n && o + n <= |heap|
    ensures |r| == |heap|
  {
    heap[..o] + [cls, format, size] + Zeros(n - HEADER) + heap[o + n..]
  }

  /** Where an object goes: at the free word, or at the next page when it would cross into it. */
  function BumpAt(free: nat, n: nat): (o: nat)
    ensures free <= o
    ensures n <= PAGE ==> forall p: nat :: StartsIn(o, p) ==> o + n <= PAGE * (p + 1)
    ensures o != free ==> n <= PAGE && exists p: nat :: PAGE * p < free < PAGE * (p + 1) == o
  {
    var p := PageOf(free);
    if free != PAGE * p && n <= PAGE && n > PAGE * (p + 1) - free then assert StartsIn(PAGE * (p + 1), p + 1);
        PAGE * (p + 1) else free
  }

  /** The lowest page at or above `from` that an object of at most a page can recycle; the page count for none. */
  function Recycled(t: Tables, free: nat, from: nat): (p: nat)
    requires Sized(t, |t.used|) && from <= |t.used|
    ensures from <= p <= |t.used|
    ensures p < |t.used| ==> t.reusable[p] && t.state[p] == STATE_FREE && PAGE * p < free
    ensures forall q :: from <= q < p ==> !(t.reusable[q] && t.state[q] == STATE_FREE && PAGE * q < free)
    decreases |t.used| - from
  {
    if from == |t.used| || (t.reusable[from] && t.state[from] == STATE_FREE && PAGE * from < free) then from
    else Recycled(t, free, from + 1)
  }

  /** New objects do not touch old ones. */
  ghost predicate Free(objs: Objects, o: nat, n: nat) {
    && (forall q :: q in objs && q < o ==> q + objs[q] <= o)
    && (forall q :: q in objs && o <= q ==> o + n <= q)
  }

  lemma StillApart(heap: seq<Word>, objs: Objects, free: nat, free1: nat, o: nat, n: nat, cls: Word, format: Word,
                   size: Word)
    requires Apart(heap, objs, free) && Free(objs, o, n) && n == HEADER + SlotWords(format, size)
    requires free <= free1 <= |heap| && o + n <= free1
    requires n <= PAGE ==> forall p: nat :: StartsIn(o, p) ==> o + n <= PAGE * (p + 1)
    ensures Apart(WithObject(heap, o, n, cls, format, size), objs[o := n], free1) && o !in objs
  {
    var heap1, objs1 := WithObject(heap, o, n, cls, format, size), objs[o := n];
    assert heap1[o + 1] == format && heap1[o + 2] == size;
    forall q | q in objs1 ensures HEADER <= objs1[q] && q + objs1[q] <= free1 && ObjectWords(heap1, q) == objs1[q] {
      if q != o {
        assert q + HEADER <= q + objs[q];
        if q < o {
          assert heap1[q + 1] == heap[q + 1] && heap1[q + 2] == heap[q + 2];
        } else {
          assert heap1[q + 1] == heap[q + 1] && heap1[q + 2] == heap[q + 2];
        }
      }
    }
  }

  lemma CoveredMore(objs: Objects, o: nat, n: nat, w: nat)
    requires o !in objs && (Covered(objs, w) || o <= w < o + n)
    ensures Covered(objs[o := n], w)
  {
    if Covered(objs, w) {
      var q :| q in objs && q <= w < q + objs[q];
      assert objs[o := n][q] == objs[q];
    } else {
      assert o in objs[o := n];
    }
  }

  /** The new object follows the used words of its page, or starts it, and is above all that shares a page with it. */
  ghost predicate Fitting(objs: Objects, t: Tables, o: nat, n: nat, p: nat)
    requires p < |t.used|
  {
    && (StartsIn(o, p) ==> o - PAGE * p <= t.used[p])
    && (Overlaps(o, n, p) ==> forall q :: q in objs && Overlaps(q, objs[q], p) ==> q < o)
  }

  lemma EnterUsed(objs: Objects, t: Tables, o: nat, n: nat, p: nat)
    requires p < |t.used| && o !in objs && HEADER <= n && Fitting(objs, t, o, n, p) && UsedOf(objs, t.used[p], p)
    ensures UsedOf(objs[o := n], UsedAt(t, o, n, p), p)
  {
    var objs1, used1 := objs[o := n], UsedAt(t, o, n, p);
    forall w | PAGE * p <= w < PAGE * p + used1 ensures Covered(objs1, w) {
      CoveredMore(objs, o, n, w);
    }
  }

  lemma EnterCovering(objs: Objects, t: Tables, start: nat, o: nat, n: nat, p: nat)
    requires p < |t.used| == |t.covering| && o !in objs && HEADER <= n && Fitting(objs, t, o, n, p)
             && CoveringOf(objs, t.covering[p], start, p) && 0 < start
    ensures CoveringOf(objs[o := n], CoveringAt(t, start, o, n, p), start, p)
  {
  }

  lemma EnterFirst(objs: Objects, t: Tables, start: nat, o: nat, n: nat, p: nat)
    requires p < |t.used| == |t.first| && o !in objs && HEADER <= n && Fitting(objs, t, o, n, p)
             && FirstOf(objs, t.first[p], start, p) && 0 < start
    requires forall q :: q in objs ==> HEADER <= objs[q]
    ensures FirstOf(objs[o := n], FirstAt(t, start, o, p), start, p)
  {
    assert StartsIn(o, p) ==> Overlaps(o, n, p);
    forall q | q in objs && StartsIn(q, p) ensures Overlaps(q, objs[q], p) {
    }
  }

  /** All used words lie below the free word. */
  lemma UsedBelow(heap: seq<Word>, objs: Objects, free: nat, used: nat, p: nat)
    requires Apart(heap, objs, free) && UsedOf(objs, used, p)
    ensures used > 0 ==> PAGE * p + used <= free
  {
    if used > 0 {
      assert Covered(objs, PAGE * p + used - 1);
    }
  }

  lemma EnterPage(objs: Objects, t: Tables, start: nat, free: nat, free1: nat, o: nat, n: nat, p: nat)
    requires p < |t.used| && Sized(t, |t.used|) && PageOk(objs, t, start, free, p)
    requires o !in objs && HEADER <= n && Fitting(objs, t, o, n, p) && 0 < start && free <= free1
    requires forall q :: q in objs ==> HEADER <= objs[q]
    requires Bumps(Enter(t, start, o, n), free1, p)
    ensures PageOk(objs[o := n], Enter(t, start, o, n), start, free1, p)
  {
    hide UsedOf, CoveringOf, FirstOf, Fitting;
    EnterUsed(objs, t, o, n, p);
    EnterCovering(objs, t, start, o, n, p);
    EnterFirst(objs, t, start, o, n, p);
  }

  /** Allocation at the free word keeps everything. */
  lemma BumpKeeps(heap: seq<Word>, objs: Objects, t: Tables, start: nat, free: nat, pages: nat, n: nat, cls: Word,
                  format: Word, size: Word)
    requires Consistent(heap, objs, t, start, free, pages) && n == HEADER + SlotWords(format, size)
             && BumpAt(free, n) + n <= |heap|
    ensures var o := BumpAt(free, n);
            o !in objs && Consistent(WithObject(heap, o, n, cls, format, size), objs[o := n], Enter(t, start, o, n),
                                     start, o + n, pages)
  {
    hide UsedOf, CoveringOf, FirstOf, Enter;
    var o := BumpAt(free, n);
    StillApart(heap, objs, free, o + n, o, n, cls, format, size);
    var objs1, t1, free1 := objs[o := n], Enter(t, start, o, n), o + n;
    forall p | 0 <= p < pages ensures PageOk(objs1, t1, start, free1, p) {
      assert PageOk(objs, t, start, free, p);
      BumpFits(heap, objs, t, start, free, n, p);
      EnterPage(objs, t, start, free, free1, o, n, p);
    }
  }

  lemma BumpFits(heap: seq<Word>, objs: Objects, t: Tables, start: nat, free: nat, n: nat, p: nat)
    requires Apart(heap, objs, free) && p < |t.used| && Sized(t, |t.used|) && PageOk(objs, t, start, free, p)
             && HEADER <= n
    ensures Fitting(objs, t, BumpAt(free, n), n, p)
    ensures Bumps(Enter(t, start, BumpAt(free, n), n), BumpAt(free, n) + n, p)
  {
    hide CoveringOf, FirstOf;
    var o := BumpAt(free, n);
    if o != free {
      var q: nat :| PAGE * q < free < PAGE * (q + 1) == o;
    }
    UsedBelow(heap, objs, free, t.used[p], p);
  }

  /** Allocation in a recycled page keeps everything. */
  lemma RecycleKeeps(heap: seq<Word>, objs: Objects, t: Tables, start: nat, free: nat, pages: nat, n: nat, cls: Word,
                     format: Word, size: Word, page: nat)
    requires Consistent(heap, objs, t, start, free, pages) && n == HEADER + SlotWords(format, size) <= PAGE
    requires page < pages && t.reusable[page]
    ensures var o := PAGE * page;
            o + n <= free && o !in objs
            && Consistent(WithObject(heap, o, n, cls, format, size), objs[o := n], Enter(t, start, o, n), start, free,
                          pages)
  {
    var o := PAGE * page;
    assert PageOk(objs, t, start, free, page);
    assert Free(objs, o, n) by {
      forall q | q in objs && q < o ensures q + objs[q] <= o {
        assert !Overlaps(q, objs[q], page);
      }
      forall q | q in objs && o <= q ensures o + n <= q {
        assert !Overlaps(q, objs[q], page);
      }
    }
    hide UsedOf, CoveringOf, FirstOf, Enter;
    StillApart(heap, objs, free, free, o, n, cls, format, size);
    var objs1, t1 := objs[o := n], Enter(t, start, o, n);
    forall p | 0 <= p < pages ensures PageOk(objs1, t1, start, free, p) {
      assert PageOk(objs, t, start, free, p);
      RecycledFits(objs, t, start, free, page, n, p);
      EnterPage(objs, t, start, free, free, o, n, p);
    }
  }

  lemma RecycledFits(objs: Objects, t: Tables, start: nat, free: nat, page: nat, n: nat, p: nat)
    requires p < |t.used| && page < |t.used| && Sized(t, |t.used|) && t.reusable[page] && HEADER <= n <= PAGE
    requires PageOk(objs, t, start, free, page) && PageOk(objs, t, start, free, p)
    ensures Fitting(objs, t, PAGE * page, n, p)
    ensures Bumps(Enter(t, start, PAGE * page, n), free, p)
  {
    hide UsedOf, FirstOf;
    if p < page || page < p {
      assert !Overlaps(PAGE * page, n, p) && !StartsIn(PAGE * page, p);
    }
  }

  // ----------------------------------------------------------------- release

  /** The objects left when those of a page are dropped. */
  function Without(objs: Objects, page: nat): (r: Objects) {
    map q | q in objs && !StartsIn(q, page) :: objs[q]
  }

  /** The page lies below the free word, and no object reaches into it or out of it. */
  ghost predicate Releasable(objs: Objects, free: nat, page: nat) {
    PAGE * (page + 1) <= free && forall q :: q in objs && Overlaps(q, objs[q], page) ==>
        PAGE * page <= q && q + objs[q] <= PAGE * (page + 1)
  }

  function Released(t: Tables, page: nat): (r: Tables)
    requires page < |t.used| && Sized(t, |t.used|)
    ensures Sized(r, |t.used|)
  {
    Tables(t.used[page := 0], t.first[page := 0], t.covering[page := 0], t.state[page := STATE_FREE],
           t.reusable[page := true])
  }

  lemma ReleaseKeeps(heap: seq<Word>, objs: Objects, t: Tables, start: nat, free: nat, pages: nat, page: nat)
    requires Consistent(heap, objs, t, start, free, pages) && page < pages && Releasable(objs, free, page)
    ensures Consistent(heap, Without(objs, page), Released(t, page), start, free, pages)
  {
    var objs1, t1 := Without(objs, page), Released(t, page);
    forall p | 0 <= p < pages ensures PageOk(objs1, t1, start, free, p) {
      assert PageOk(objs, t, start, free, p);
      if p == page {
        assert forall q :: q in objs1 ==> !Overlaps(q, objs1[q], p);
      } else {
        ReleasedElsewhere(heap, objs, free, page, p);
        OtherPage(objs, t, start, page, p);
      }
    }
  }

  /** The objects of a releasable page are in no other page. */
  lemma ReleasedElsewhere(heap: seq<Word>, objs: Objects, free: nat, page: nat, p: nat)
    requires Releasable(objs, free, page) && Apart(heap, objs, free) && p != page
    ensures forall q :: q in objs && (Overlaps(q, objs[q], p) || StartsIn(q, p)) ==> q in Without(objs, page)
  {
    assert p < page || page < p;
    forall q | q in objs && (Overlaps(q, objs[q], p) || StartsIn(q, p)) ensures q in Without(objs, page) {
      var n := objs[q];
      assert StartsIn(q, page) ==> Overlaps(q, n, page);
    }
  }

  lemma OtherPage(objs: Objects, t: Tables, start: nat, page: nat, p: nat)
    requires p < |t.used| && Sized(t, |t.used|)
    requires UsedOf(objs, t.used[p], p) && CoveringOf(objs, t.covering[p], start, p)
             && FirstOf(objs, t.first[p], start, p)
    requires forall q :: q in objs && (Overlaps(q, objs[q], p) || StartsIn(q, p)) ==> q in Without(objs, page)
    ensures UsedOf(Without(objs, page), t.used[p], p) && CoveringOf(Without(objs, page), t.covering[p], start, p)
    ensures FirstOf(Without(objs, page), t.first[p], start, p)
  {
    var objs1 := Without(objs, page);
    forall w | PAGE * p <= w < PAGE * p + t.used[p] ensures Covered(objs1, w) {
      assert Covered(objs, w);
      var q :| q in objs && q <= w < q + objs[q];
      assert Overlaps(q, objs[q], p) by { WordOverlaps(objs, t.used[p], p, w, q); }
    }
  }

  lemma WordOverlaps(objs: Objects, used: nat, p: nat, w: nat, q: nat)
    requires UsedOf(objs, used, p) && PAGE * p <= w < PAGE * p + used && q in objs && q <= w < q + objs[q]
    ensures Overlaps(q, objs[q], p)
  {
  }

  // ----------------------------------------------------------------- a heap without releases

  /** Every page up to the free word is in use, and a page with a gap is followed by one that starts with an object. */
  ghost predicate NoHoles(t: Tables, start: nat, free: nat)
    requires Sized(t, |t.used|)
  {
    && (forall p :: 0 <= p < |t.used| && PAGE * p < free ==> t.used[p] > 0)
    && (forall p, q :: 0 <= p < q == p + 1 < |t.used| && PAGE * q < free && t.used[p] < PAGE ==>
        t.first[q] == start + PAGE * q)
    && (forall p :: 0 <= p < |t.used| ==> !t.reusable[p])
  }

  lemma BumpLeavesNoHoles(heap: seq<Word>, objs: Objects, t: Tables, start: nat, free: nat, pages: nat, n: nat)
    requires Consistent(heap, objs, t, start, free, pages) && NoHoles(t, start, free) && HEADER <= n
    ensures NoHoles(Enter(t, start, BumpAt(free, n), n), start, BumpAt(free, n) + n)
  {
    hide UsedOf, CoveringOf, FirstOf, Apart, Enter;
    var o := BumpAt(free, n);
    var t1 := Enter(t, start, o, n);
    EnterUse(t, start, o, n);
    forall p | 0 <= p < pages && PAGE * p < o + n ensures t1.used[p] > 0 {
      assert PAGE * p < free || Overlaps(o, n, p) by { BumpReaches(free, n, p); }
    }
    forall p, q | 0 <= p < q == p + 1 < pages && PAGE * q < o + n
        && t1.used[p] < PAGE ensures t1.first[q] == start + PAGE * q {
      if PAGE * q >= free {
        BumpReaches(free, n, p);
        assert StartsIn(o, q) && o == PAGE * q;
        assert t.first[q] == 0 by {
          assert PageOk(objs, t, start, free, q);
          FirstAbove(heap, objs, t.first[q], start, free, q);
        }
      }
    }
  }

  lemma FirstAbove(heap: seq<Word>, objs: Objects, first: nat, start: nat, free: nat, p: nat)
    requires Apart(heap, objs, free) && FirstOf(objs, first, start, p) && free <= PAGE * p
    ensures first == 0
  {
  }

  /** What entering an object does to the use of a page. */
  lemma EnterUse(t: Tables, start: nat, o: nat, n: nat)
    requires Sized(t, |t.used|)
    ensures var t1 := Enter(t, start, o, n);
            forall p :: 0 <= p < |t.used| ==>
              && t.used[p] <= t1.used[p] && t1.first[p] == FirstAt(t, start, o, p) && (t1.reusable[p] ==> t.reusable[p])
              && (Overlaps(o, n, p) ==> Reach(o, n, p) <= t1.used[p])
  {
  }

  /** The pages that an allocation at the free word gets to: all up to its end, but those it skips the rest of. */
  lemma BumpReaches(free: nat, n: nat, p: nat)
    requires HEADER <= n
    ensures var o := BumpAt(free, n);
            && (free <= PAGE * p < o + n ==> Overlaps(o, n, p))
            && (free <= PAGE * (p + 1) < o + n ==> (Overlaps(o, n, p) && Reach(o, n, p) == PAGE) || o == PAGE * (p + 1))
  {
    var o := BumpAt(free, n);
    if o != free {
      var q: nat :| PAGE * q < free < PAGE * (q + 1) == o;
    }
  }
}
