/**
 Checkpoints: a heap written page by page, each page converted by itself; pages that no store
 has touched since the last image are copied from the old file.  Files are sequences of words
 and the checksum is any function of words.
 */
module Checkpoint {
  import W = Words
  import opened Heap
  import opened ObjectMemory
  import opened Image

  // ----------------------------------------------------------------- pages

  /** The whole heap converted at once. */
  ghost function Encoded(heap: seq<Word>, objs: Objects, start: nat, free: nat): (r: seq<Word>)
    requires StartAbove(start, free) && free <= |heap|
    ensures |r| == free
  {
    seq(free, i requires 0 <= i < free => EncodedAt(heap, objs, start, free, i))
  }

  ghost function EncodedAt(heap: seq<Word>, objs: Objects, start: nat, free: nat, i: nat): Word
    requires StartAbove(start, free) && i < free <= |heap|
  {
    if IsSlot(heap[..free], objs, i) then Outward(start, free).Apply(heap[i]) else heap[i]
  }

  /** The words of a page that lie below the free word. */
  function LiveWords(free: nat, p: nat): (n: nat)
    ensures n <= PAGE && (PAGE * p < free ==> 0 < n && PAGE * p + n <= free)
    ensures PAGE * p < free ==> n == PAGE || PAGE * p + n == free
  {
    if PAGE * p >= free then 0 else if free - PAGE * p < PAGE then free - PAGE * p else PAGE
  }

  /** One page of the converted heap, padded with zeros. */
  ghost function FreshPage(heap: seq<Word>, objs: Objects, start: nat, free: nat, p: nat): (r: seq<Word>)
    requires StartAbove(start, free) && PAGE * p < free <= |heap|
    ensures |r| == PAGE
  {
    Encoded(heap, objs, start, free)[PAGE * p..PAGE * p + LiveWords(free, p)] + Zeros(PAGE - LiveWords(free, p))
  }

  /** The pages below `k`, one after the other. */
  ghost function FreshPages(heap: seq<Word>, objs: Objects, start: nat, free: nat, k: nat): (r: seq<Word>)
    requires StartAbove(start, free) && free <= |heap| && k <= PageCount(free)
    ensures |r| == PAGE * k
  {
    if k == 0 then [] else FreshPages(heap, objs, start, free, k - 1) + FreshPage(heap, objs, start, free, k - 1)
  }

  /** Pages converted one at a time make up the heap converted at once. */
  lemma {:induction false} PagesMakeImage(heap: seq<Word>, objs: Objects, start: nat, free: nat, k: nat)
    requires StartAbove(start, free) && free <= |heap| && k <= PageCount(free)
    ensures var n := if PAGE * k <= free then PAGE * k else free;
            FreshPages(heap, objs, start, free, k)[..n] == Encoded(heap, objs, start, free)[..n]
  {
    hide Encoded;
    var e := Encoded(heap, objs, start, free);
    if k > 0 {
      PagesMakeImage(heap, objs, start, free, k - 1);
      var n := if PAGE * k <= free then PAGE * k else free;
      var below := PAGE * (k - 1);
      assert LiveWords(free, k - 1) == n - below;
      assert FreshPages(heap, objs, start, free, k)[..n] == FreshPages(heap, objs, start, free, k - 1) + e[below..n];
      assert e[..n] == e[..below] + e[below..n];
    }
  }

  /** The whole-heap conversion of `Image` is this one. */
  lemma ConvertedIsEncoded(copy: seq<Word>, heap: seq<Word>, objs: Objects, start: nat, free: nat)
    requires StartAbove(start, free) && free <= |heap|
    ensures Converted(copy, heap[..free], objs, objs.Keys, Outward(start, free))
            <==> copy == Encoded(heap, objs, start, free)
  {
    hide InSlots;
  }

  // ----------------------------------------------------------------- converting one page

  /** `page` holds a page of the heap in which the slots of some objects are converted. */
  ghost predicate PageConverted(page: seq<Word>, heap: seq<Word>, objs: Objects, some: set<nat>, start: nat,
                                free: nat, p: nat)
    requires StartAbove(start, free) && PAGE * p < free <= |heap|
  {
    var live, c := LiveWords(free, p), Outward(start, free);
    && |page| == PAGE && page[live..] == Zeros(PAGE - live)
    && forall i :: 0 <= i < live ==>
         page[i] == if InSlots(heap[..free], objs, some, PAGE * p + i)
             then c.Apply(heap[PAGE * p + i]) else heap[PAGE * p + i]
  }

  /** All objects of a page converted: the page is that of the whole conversion. */
  lemma PageIsFresh(page: seq<Word>, heap: seq<Word>, objs: Objects, some: set<nat>, start: nat, free: nat, p: nat,
                    from: nat)
    requires StartAbove(start, free) && PAGE * p < free <= |heap| && Apart(heap, objs, free) && some <= objs.Keys
    requires PageConverted(page, heap, objs, some, start, free, p)
    requires PageDone(objs, some, p, from) && PAGE * p + LiveWords(free, p) <= from
    ensures page == FreshPage(heap, objs, start, free, p)
  {
    var live, whole := LiveWords(free, p), FreshPage(heap, objs, start, free, p);
    forall i | 0 <= i < PAGE ensures page[i] == whole[i] {
      if i < live {
        PageSlots(heap, objs, some, start, free, p, from, PAGE * p + i);
        assert whole[i] == Encoded(heap, objs, start, free)[PAGE * p + i];
      } else {
        assert page[i] == page[live..][i - live];
      }
    }
  }

  /** A slot in a page belongs to an object that overlaps the page. */
  lemma PageSlots(heap: seq<Word>, objs: Objects, some: set<nat>, start: nat, free: nat, p: nat, from: nat, i: nat)
    requires StartAbove(start, free) && free <= |heap| && Apart(heap, objs, free) && some <= objs.Keys
    requires PageDone(objs, some, p, from) && PAGE * p <= i < PAGE * p + LiveWords(free, p) <= from
    ensures InSlots(heap[..free], objs, some, i) <==> IsSlot(heap[..free], objs, i)
  {
    var prefix := heap[..free];
    forall o | o in objs && o + HEADER <= |prefix| && SlotIn(prefix, o, objs[o], i) ensures o in some {
      assert Overlaps(o, objs[o], p);
    }
  }

  /** Converts those slots of one object that lie in the page. */
  method ConvertInPage(om: Om, page: array<Word>, p: nat, o: nat, ghost some: set<nat>)
    requires om.Valid() && StartAbove(om.start, om.free) && PAGE * p < om.free <= om.heap.Length
             && page.Length == PAGE && page != om.heap
    requires o in om.objs && o !in some && some <= om.objs.Keys && o < PAGE * p + LiveWords(om.free, p)
    requires PageConverted(page[..], om.heap[..], om.objs, some, om.start, om.free, p)
    modifies page
    ensures PageConverted(page[..], om.heap[..], om.objs, some + {o}, om.start, om.free, p)
  {
    hide Consistent, InSlots;
    ghost var heap, objs, before := om.heap[..], om.objs, page[..];
    ObjectFacts(heap, objs, om.Table(), om.start, om.free, om.pages, o);
    var c, live, pageStart := Outward(om.start, om.free), LiveWords(om.free, p), PAGE * p;
    var n := ObjectWords(om.heap[..], o);
    if o >= pageStart {
      page[o - pageStart] := c.Apply(page[o - pageStart]);
    }
    ghost var isBytes := heap[o + 1] == FORMAT_BYTES;
    if om.heap[o + 1] != FORMAT_BYTES {
      for i := o + HEADER to o + n
        invariant forall j :: 0 <= j < PAGE ==>
          page[j] == if j < live && (pageStart + j == o || o + HEADER <= pageStart + j < i)
              then c.Apply(before[j]) else before[j]
      {
        if pageStart <= i < pageStart + live {
          page[i - pageStart] := c.Apply(page[i - pageStart]);
        }
      }
    }
    InPageConverted(before, page[..], heap, objs, some, om.start, om.free, p, o);
  }

  lemma InPageConverted(before: seq<Word>, page: seq<Word>, heap: seq<Word>, objs: Objects, some: set<nat>,
                        start: nat, free: nat, p: nat, o: nat)
    requires StartAbove(start, free) && PAGE * p < free <= |heap| && o in objs && o + HEADER <= free
    requires PageConverted(before, heap, objs, some, start, free, p) && |page| == PAGE
    requires forall j :: 0 <= j < PAGE ==>
      page[j] == if j < LiveWords(free, p) && SlotIn(heap, o, objs[o], PAGE * p + j)
          then Outward(start, free).Apply(before[j]) else before[j]
    ensures PageConverted(page, heap, objs, some + {o}, start, free, p)
  {
    var live, c, prefix := LiveWords(free, p), Outward(start, free), heap[..free];
    assert page[live..] == before[live..];
    assert SlotIn(prefix, o, objs[o], 0) == SlotIn(heap, o, objs[o], 0);
    forall i | 0 <= i < live
      ensures page[i] == if InSlots(prefix, objs, some + {o}, PAGE * p + i)
              then c.Apply(heap[PAGE * p + i]) else heap[PAGE * p + i]
    {
      ConvertTwice(c, heap[PAGE * p + i]);
      SlotsOfOneMore(prefix, objs, some, o, PAGE * p + i);
    }
  }

  /** Converts what of each object lies in a page, walking from the page's covering object. */
  method ConvertCopiedPage(om: Om, page: array<Word>, p: nat)
    requires om.Valid() && StartAbove(om.start, om.free) && p < om.pages && PAGE * p < om.free <= om.heap.Length
             && page.Length == PAGE && page != om.heap
    requires PageConverted(page[..], om.heap[..], om.objs, {}, om.start, om.free, p)
    modifies page
    ensures page[..] == FreshPage(om.heap[..], om.objs, om.start, om.free, p)
  {
    hide Consistent, Apart, PageConverted, PageDone, FreshPage, UsedOf, CoveringOf, FirstOf, IsNext;
    ghost var heap, objs, some := om.heap[..], om.objs, {};
    var live := LiveWords(om.free, p);
    PageFacts(heap, objs, om.Table(), om.start, om.free, om.pages, p);
    CoveringDone(objs, {}, om.covering[p], om.start, om.free, p);
    var current := om.covering[p];
    while current != 0 && current < om.start + om.free && current < om.start + PAGE * p + live
      invariant some <= objs.Keys && PageConverted(page[..], heap, objs, some, om.start, om.free, p)
      invariant current != 0 ==> om.start <= current && current - om.start in objs && forall q :: q in some ==>
                q < current - om.start
      invariant PageDone(objs, some, p, if current == 0 then om.free else current - om.start)
      decreases if current == 0 then 0 else om.start + om.free + 1 - current
    {
      ghost var o := current - om.start;
      ConvertInPage(om, page, p, current - om.start, some);
      var next := om.NextObject(current);
      NextDone(objs, some, om.start, om.free, p, o, next);
      some := some + {o};
      current := next;
    }
    WholeApart(heap, objs, om.Table(), om.start, om.free, om.pages);
    PageIsFresh(page[..], heap, objs, some, om.start, om.free, p, if current == 0 then om.free else current - om.start);
  }

  /** A page as it goes into a checkpoint: zeros when it is free, or else its live words, converted. */
  method CopyPage(om: Om, p: nat) returns (page: array<Word>)
    requires om.Valid() && StartAbove(om.start, om.free) && p < om.pages && PAGE * p < om.free <= om.heap.Length
    ensures fresh(page) && page.Length == PAGE
    ensures om.state[p] == STATE_FREE ==> page[..] == Zeros(PAGE)
    ensures om.state[p] != STATE_FREE ==> page[..] == FreshPage(om.heap[..], om.objs, om.start, om.free, p)
  {
    hide Consistent, PageConverted, FreshPage;
    page := new Word[PAGE](_ => 0);
    assert page[..] == Zeros(PAGE);
    if om.state[p] != STATE_FREE {
      CopyWords(om, page, p);
      NoneConverted(page[..], om.heap[..], om.objs, om.start, om.free, p);
      ConvertCopiedPage(om, page, p);
    }
  }

  /** The live words of a page, as they are in the heap. */
  method CopyWords(om: Om, page: array<Word>, p: nat)
    requires PAGE * p < om.free <= om.heap.Length && page.Length == PAGE && page != om.heap && page[..] == Zeros(PAGE)
    modifies page
    ensures page[..] == om.heap[PAGE * p..PAGE * p + LiveWords(om.free, p)] + Zeros(PAGE - LiveWords(om.free, p))
  {
    var live := LiveWords(om.free, p);
    for i := 0 to live
      invariant forall j :: 0 <= j < PAGE ==> page[j] == if j < i then om.heap[PAGE * p + j] else 0
    {
      page[i] := om.heap[PAGE * p + i];
    }
  }

  lemma NoneConverted(page: seq<Word>, heap: seq<Word>, objs: Objects, start: nat, free: nat, p: nat)
    requires StartAbove(start, free) && PAGE * p < free <= |heap|
    requires page == heap[PAGE * p..PAGE * p + LiveWords(free, p)] + Zeros(PAGE - LiveWords(free, p))
    ensures PageConverted(page, heap, objs, {}, start, free, p)
  {
  }

  lemma WholeApart(heap: seq<Word>, objs: Objects, t: Tables, start: nat, free: nat, pages: nat)
    requires Consistent(heap, objs, t, start, free, pages)
    ensures Apart(heap, objs, free)
  {
  }

  // ----------------------------------------------------------------- files

  const MAGIC: Word := 0x4152_4c4f_494d_4731
  const HEADER_WORDS := 11
  const PAGE_BYTES: Word := 4096

  /** The five tables of a checkpoint, one word a page each. */
  datatype Metadata = Metadata(state: seq<Word>, used: seq<Word>, first: seq<Word>, covering: seq<Word>,
                               sums: seq<Word>) {
    predicate Sized(count: nat) { |state| == |used| == |first| == |covering| == |sums| == count }

    function Flat(): seq<Word> { state + used + first + covering + sums }
  }

  function FileOf(header: seq<Word>, m: Metadata, pages: seq<Word>): seq<Word> { header + m.Flat() + pages }

  function CountIn(file: seq<Word>): nat
    requires |file| >= HEADER_WORDS
  {
    file[3]
  }

  predicate HasTables(file: seq<Word>) { |file| >= HEADER_WORDS && |file| >= HEADER_WORDS + 5 * CountIn(file) }

  function MetadataIn(file: seq<Word>): (m: Metadata)
    requires HasTables(file)
    ensures m.Sized(CountIn(file))
  {
    var n, h := CountIn(file), HEADER_WORDS;
    Metadata(file[h..h + n], file[h + n..h + 2 * n], file[h + 2 * n..h + 3 * n], file[h + 3 * n..h + 4 * n],
             file[h + 4 * n..h + 5 * n])
  }

  predicate HasPage(file: seq<Word>, p: nat) {
    HasTables(file) && p < CountIn(file) && |file| >= HEADER_WORDS + 5 * CountIn(file) + PAGE * (p + 1)
  }

  function PageIn(file: seq<Word>, p: nat): (r: seq<Word>)
    requires HasPage(file, p)
    ensures |r| == PAGE
  {
    var at := HEADER_WORDS + 5 * CountIn(file) + PAGE * p;
    file[at..at + PAGE]
  }

  /** What was written is what is read back. */
  lemma ReadBack(header: seq<Word>, m: Metadata, pages: seq<Word>, n: nat)
    requires |header| == HEADER_WORDS && header[3] == n && m.Sized(n) && |pages| == PAGE * n
    ensures var f := FileOf(header, m, pages);
            && HasTables(f) && CountIn(f) == n && f[..HEADER_WORDS] == header && MetadataIn(f) == m
            && forall p :: 0 <= p < n ==> HasPage(f, p) && PageIn(f, p) == pages[PAGE * p..PAGE * (p + 1)]
  {
    var f, h := FileOf(header, m, pages), HEADER_WORDS;
    assert CountIn(f) == n && f[..h] == header;
    assert MetadataIn(f) == m by {
      TablesBack(header, m, pages, n);
    }
    assert f[h + 5 * n..] == pages;
    hide FileOf, MetadataIn;
    forall p | 0 <= p < n ensures HasPage(f, p) && PageIn(f, p) == pages[PAGE * p..PAGE * (p + 1)] {
      assert f[h + 5 * n + PAGE * p..h + 5 * n + PAGE * p + PAGE] == f[h + 5 * n..][PAGE * p..PAGE * (p + 1)];
    }
  }

  lemma TablesBack(header: seq<Word>, m: Metadata, pages: seq<Word>, n: nat)
    requires |header| == HEADER_WORDS && m.Sized(n)
    ensures var f, h := FileOf(header, m, pages), HEADER_WORDS;
            && f[h..h + n] == m.state && f[h + n..h + 2 * n] == m.used && f[h + 2 * n..h + 3 * n] == m.first
            && f[h + 3 * n..h + 4 * n] == m.covering && f[h + 4 * n..h + 5 * n] == m.sums
  {
    var f := FileOf(header, m, pages);
    assert f == header + m.state + m.used + m.first + m.covering + m.sums + pages;
  }

  // ----------------------------------------------------------------- validation

  /** The entry of a page is one a checkpoint may have: a free page has nothing in it. */
  predicate EntryValid(m: Metadata, p: nat)
    requires m.Sized(|m.state|) && p < |m.state|
  {
    m.state[p] <= STATE_CONTINUATION
        && (m.state[p] == STATE_FREE ==> m.used[p] == 0 && m.first[p] == 0 && m.covering[p] == 0)
  }

  predicate HeaderValid(header: seq<Word>, m: Metadata, sum: seq<Word> -> Word)
    requires |header| == HEADER_WORDS && m.Sized(|m.state|)
  {
    && header[0] == MAGIC && (header[2] == 0 || header[2] == PAGE_BYTES)
    && (forall p :: 0 <= p < |m.state| ==> EntryValid(m, p))
    && header[10] == sum(header[10 := 0] + m.Flat())
  }

  predicate PagesValid(file: seq<Word>, m: Metadata, sum: seq<Word> -> Word, from: nat)
    requires HasTables(file) && m.Sized(CountIn(file))
  {
    forall p :: from <= p < CountIn(file) ==> HasPage(file, p) && sum(PageIn(file, p)) == m.sums[p]
  }

  /** A checkpoint that passes validation: complete, with a valid header and matching checksums. */
  predicate ValidFile(file: seq<Word>, sum: seq<Word> -> Word) {
    HasTables(file) && HeaderValid(file[..HEADER_WORDS], MetadataIn(file), sum)
        && PagesValid(file, MetadataIn(file), sum, 0)
  }

  method ValidateHeader(header: seq<Word>, m: Metadata, sum: seq<Word> -> Word) returns (valid: bool)
    requires |header| == HEADER_WORDS && m.Sized(|m.state|)
    ensures valid == HeaderValid(header, m, sum)
  {
    if header[0] != MAGIC || (header[2] != 0 && header[2] != PAGE_BYTES) {
      return false;
    }
    for p := 0 to |m.state|
      invariant forall q :: 0 <= q < p ==> EntryValid(m, q)
    {
      if m.state[p] != STATE_FREE && m.state[p] != STATE_HEAD && m.state[p] != STATE_CONTINUATION {
        assert !EntryValid(m, p);
        return false;
      }
      if m.state[p] == STATE_FREE && (m.used[p] != 0 || m.first[p] != 0 || m.covering[p] != 0) {
        assert !EntryValid(m, p);
        return false;
      }
    }
    return header[10] == sum(header[10 := 0] + m.Flat());
  }

  /** Reads a file and checks it as a checkpoint. */
  method Validate(file: seq<Word>, sum: seq<Word> -> Word) returns (valid: bool)
    ensures valid == ValidFile(file, sum)
  {
    if |file| < HEADER_WORDS || |file| < HEADER_WORDS + 5 * CountIn(file) {
      return false;
    }
    var m := MetadataIn(file);
    valid := ValidateHeader(file[..HEADER_WORDS], m, sum);
    if !valid {
      return;
    }
    hide HeaderValid, MetadataIn, PageIn;
    for p := 0 to CountIn(file)
      invariant forall q :: 0 <= q < p ==> HasPage(file, q) && sum(PageIn(file, q)) == m.sums[q]
    {
      if !HasPage(file, p) {
        return false;
      }
      if sum(PageIn(file, p)) != m.sums[p] {
        return false;
      }
    }
  }

  /**
   A valid file, word by word: the mark, a page size of 4096 or none, for each page a state of 0, 1 or 2
   and nothing in a free page, and the checksums of header and tables and of each page.
   */
  ghost predicate FlatValid(file: seq<Word>, n: nat, sum: seq<Word> -> Word) {
    && |file| >= 11 + 517 * n
    && file[0] == 0x4152_4c4f_494d_4731 && (file[2] == 0 || file[2] == 4096)
    && (forall p: nat :: p < n ==> EntryWords(file, n, p))
    && file[10] == sum(file[..10] + [0] + file[11..11 + 5 * n])
    && forall p: nat :: p < n ==> file[11 + 4 * n + p] == sum(PageWords(file, n, p))
  }

  /** A page's words in the tables of states, used bytes, first and covering objects. */
  predicate EntryWords(file: seq<Word>, n: nat, p: nat)
    requires p < n && |file| >= 11 + 517 * n
  {
    && file[11 + p] <= 2
    && (file[11 + p] == 0 ==> file[11 + n + p] == 0 && file[11 + 2 * n + p] == 0 && file[11 + 3 * n + p] == 0)
  }

  lemma ValidIff(file: seq<Word>, sum: seq<Word> -> Word)
    ensures ValidFile(file, sum) <==> |file| >= 11 && FlatValid(file, file[3], sum)
  {
    if |file| >= 11 {
      var n: nat := file[3];
      if ValidFile(file, sum) {
        ValidIsFlat(file, n, sum);
      }
      if FlatValid(file, n, sum) {
        FlatIsValid(file, n, sum);
      }
    }
    hide FlatValid;
  }

  lemma ValidIsFlat(file: seq<Word>, n: nat, sum: seq<Word> -> Word)
    requires |file| >= 11 && n == file[3] && ValidFile(file, sum)
    ensures FlatValid(file, n, sum)
  {
    Covered(file, n, sum);
    HeaderIsFlat(file, sum);
    hide PageIn, PagesValid, MetadataIn, HeaderValid, PageWords;
    forall p: nat | p < n ensures EntryWords(file, n, p) {
      assert EntryValid(MetadataIn(file), p);
      TableWords(file, p);
    }
  }

  lemma HeaderIsFlat(file: seq<Word>, sum: seq<Word> -> Word)
    requires ValidFile(file, sum)
    ensures |file| >= 11 && file[0] == 0x4152_4c4f_494d_4731 && (file[2] == 0 || file[2] == 4096)
    ensures forall p: nat :: p < CountIn(file) ==> EntryValid(MetadataIn(file), p)
  {
    hide PagesValid, MetadataIn, EntryValid;
    assert file[..HEADER_WORDS][0] == file[0] && file[..HEADER_WORDS][2] == file[2];
  }

  lemma FlatTables(file: seq<Word>, n: nat)
    requires HasTables(file) && n == CountIn(file)
    ensures MetadataIn(file).Flat() == file[11..11 + 5 * n]
  {
    FiveParts(file, 11, n);
  }

  lemma FiveParts(s: seq<Word>, h: nat, n: nat)
    requires h + 5 * n <= |s|
    ensures s[h..h + n] + s[h + n..h + 2 * n] + s[h + 2 * n..h + 3 * n] + s[h + 3 * n..h + 4 * n]
            + s[h + 4 * n..h + 5 * n] == s[h..h + 5 * n]
  {
    assert s[h..h + 2 * n] == s[h..h + n] + s[h + n..h + 2 * n];
    assert s[h..h + 3 * n] == s[h..h + 2 * n] + s[h + 2 * n..h + 3 * n];
    assert s[h..h + 4 * n] == s[h..h + 3 * n] + s[h + 3 * n..h + 4 * n];
    assert s[h..h + 5 * n] == s[h..h + 4 * n] + s[h + 4 * n..h + 5 * n];
  }

  lemma FlatIsValid(file: seq<Word>, n: nat, sum: seq<Word> -> Word)
    requires |file| >= 11 && n == file[3] && FlatValid(file, n, sum)
    ensures ValidFile(file, sum)
  {
    hide PageIn, MetadataIn;
    var m := MetadataIn(file);
    FlatTables(file, n);
    assert file[..HEADER_WORDS][10 := 0] == file[..10] + [0];
    forall p: nat | p < n ensures EntryValid(m, p) && HasPage(file, p) && sum(PageIn(file, p)) == m.sums[p] {
      FlatPage(file, n, p, sum);
    }
  }

  lemma FlatPage(file: seq<Word>, n: nat, p: nat, sum: seq<Word> -> Word)
    requires |file| >= 11 && n == file[3] && FlatValid(file, n, sum) && p < n
    ensures HasPage(file, p)
    ensures EntryValid(MetadataIn(file), p) && sum(PageIn(file, p)) == MetadataIn(file).sums[p]
  {
    hide MetadataIn, PageIn, PageWords;
    assert HasPage(file, p);
    TableWords(file, p);
    PageIsWords(file, n, p);
    assert EntryWords(file, n, p);
  }

  /**
   What the checksums of a valid file cover: word 10 all of the header but itself and all of the
   tables, each word of the last table its page.  So a file that differs from a valid one in words
   that the checksum tells apart, while the words with the checksums are the same, is refused.
   */
  lemma ChangeRefused(a: seq<Word>, b: seq<Word>, sum: seq<Word> -> Word)
    requires ValidFile(a, sum) && |b| == |a| && b[10] == a[10] && b[3] == a[3]
    ensures var n: nat := a[3];
            && |a| >= 11 + 517 * n
            && (sum(b[..10] + [0] + b[11..11 + 5 * n]) != sum(a[..10] + [0] + a[11..11 + 5 * n]) ==> !ValidFile(b, sum))
            && forall p: nat ::
                 p < n && b[11 + 4 * n + p] == a[11 + 4 * n + p]
                     && sum(PageWords(b, n, p)) != sum(PageWords(a, n, p)) ==>
                   !ValidFile(b, sum)
  {
    var n: nat := a[3];
    Covered(a, n, sum);
    if ValidFile(b, sum) {
      Covered(b, n, sum);
    }
  }

  /** The words of a page in a file of `n` pages. */
  function PageWords(file: seq<Word>, n: nat, p: nat): seq<Word>
    requires p < n && |file| >= 11 + 517 * n
  {
    file[11 + 5 * n + 512 * p..11 + 5 * n + 512 * (p + 1)]
  }

  lemma Covered(file: seq<Word>, n: nat, sum: seq<Word> -> Word)
    requires ValidFile(file, sum) && n == file[3]
    ensures |file| >= 11 + 517 * n && file[10] == sum(file[..10] + [0] + file[11..11 + 5 * n])
    ensures forall p: nat :: p < n ==> file[11 + 4 * n + p] == sum(PageWords(file, n, p))
  {
    hide PageIn;
    assert n > 0 ==> HasPage(file, n - 1);
    var m := MetadataIn(file);
    FlatTables(file, n);
    assert file[..HEADER_WORDS][10 := 0] == file[..10] + [0];
    hide HeaderValid;
    forall p: nat | p < n ensures file[11 + 4 * n + p] == sum(PageWords(file, n, p)) {
      assert HasPage(file, p) && sum(PageIn(file, p)) == m.sums[p];
      PageIsWords(file, n, p);
    }
  }

  lemma PageIsWords(file: seq<Word>, n: nat, p: nat)
    requires HasPage(file, p) && n == CountIn(file) && |file| >= 11 + 517 * n
    ensures PageIn(file, p) == PageWords(file, n, p) && MetadataIn(file).sums[p] == file[11 + 4 * n + p]
  {
  }

  // ----------------------------------------------------------------- incremental checkpoints

  /** What a checkpoint should hold for a page. */
  ghost function RightPage(heap: seq<Word>, objs: Objects, t: Tables, start: nat, free: nat, p: nat): (r: seq<Word>)
    requires StartAbove(start, free) && PAGE * p < free <= |heap| && p < |t.state|
    ensures |r| == PAGE
  {
    if t.state[p] == STATE_FREE then Zeros(PAGE) else FreshPage(heap, objs, start, free, p)
  }

  /** The old file can be copied from: it is a valid checkpoint of as many pages. */
  predicate Usable(was: seq<Word>, count: nat, sum: seq<Word> -> Word) {
    ValidFile(was, sum) && was[2] == PAGE_BYTES && CountIn(was) == count
  }

  /** The same word by word. */
  ghost predicate CopiedFrom(was: seq<Word>, count: nat, sum: seq<Word> -> Word) {
    |was| >= 11 && was[2] == 4096 && was[3] == count && FlatValid(was, count, sum)
  }

  lemma UsableIff(was: seq<Word>, count: nat, sum: seq<Word> -> Word)
    ensures Usable(was, count, sum) <==> CopiedFrom(was, count, sum)
  {
    hide FlatValid;
    ValidIff(was, sum);
  }

  /** Clean pages are on disk as they should be. */
  ghost predicate CleanOnDisk(om: Om, file: seq<Word>)
    requires om.Valid() && StartAbove(om.start, om.free)
    reads om, om.heap, om.used, om.first, om.covering, om.state, om.reusable, om.dirty
  {
    om.free <= om.heap.Length &&
    forall p :: 0 <= p < PageCount(om.free) && p < om.pages && !om.dirty[p] && om.state[p] != STATE_FREE
                && HasPage(file, p)
                && CountIn(file) == PageCount(om.free) ==>
      PageIn(file, p) == FreshPage(om.heap[..], om.objs, om.start, om.free, p)
  }

  /** A field of a live object: neither its class nor the rest of any header. */
  ghost predicate IsField(objs: Objects, o: nat, w: nat) { o in objs && o + HEADER <= w < o + objs[o] }

  /** Storing into a field leaves all headers, and so everything that the tables say. */
  lemma FieldStored(heap: seq<Word>, objs: Objects, t: Tables, start: nat, free: nat, pages: nat, o: nat, w: nat,
                    v: Word)
    requires Consistent(heap, objs, t, start, free, pages) && IsField(objs, o, w)
    ensures w < free <= |heap| && Consistent(heap[w := v], objs, t, start, free, pages)
    ensures forall q :: q in objs ==> q + HEADER <= free && heap[w := v][q + 1] == heap[q + 1]
  {
    hide PageOk;
    forall q | q in objs ensures q + HEADER <= free && w != q + 1 && w != q + 2 {
      assert q == o || q < o || o < q;
    }
  }

  /** A page without the word that was stored into is converted as before. */
  lemma PageUntouched(heap: seq<Word>, objs: Objects, start: nat, free: nat, w: nat, v: Word, p: nat)
    requires StartAbove(start, free) && PAGE * p < free <= |heap| && w < free && !StartsIn(w, p)
    requires forall q :: q in objs ==> q + HEADER <= free && heap[w := v][q + 1] == heap[q + 1]
    ensures FreshPage(heap[w := v], objs, start, free, p) == FreshPage(heap, objs, start, free, p)
  {
    var heap1 := heap[w := v];
    var a, b := FreshPage(heap1, objs, start, free, p), FreshPage(heap, objs, start, free, p);
    forall i | 0 <= i < LiveWords(free, p) ensures a[i] == b[i] {
      SlotsAgree(heap1[..free], heap[..free], objs, PAGE * p + i);
      assert a[i] == Encoded(heap1, objs, start, free)[PAGE * p + i];
      assert b[i] == Encoded(heap, objs, start, free)[PAGE * p + i];
    }
  }

  lemma FieldInHeap(om: Om, o: nat, w: nat)
    requires om.Valid() && IsField(om.objs, o, w)
    ensures w < om.heap.Length
  {
    FieldStored(om.heap[..], om.objs, om.Table(), om.start, om.free, om.pages, o, w, 0);
  }

  /** Stores a word into a field and marks its page; what is on disk of the clean pages stays right. */
  method StoreField(om: Om, obj: nat, index: nat, value: Word, ghost file: seq<Word>)
    requires om.Valid() && StartAbove(om.start, om.free) && om.start <= obj
             && IsField(om.objs, obj - om.start, obj - om.start + HEADER + index)
    requires CleanOnDisk(om, file)
    modifies om.heap, om.dirty
    ensures om.Valid() && CleanOnDisk(om, file)
    ensures om.heap[..] == old(om.heap[..])[obj - om.start + HEADER + index := value]
    ensures forall p :: 0 <= p < om.pages ==>
              om.dirty[p] == (old(om.dirty[p]) || StartsIn(obj - om.start + HEADER + index, p))
  {
    var w := obj - om.start + HEADER + index;
    ghost var heap := om.heap[..];
    FieldStored(heap, om.objs, om.Table(), om.start, om.free, om.pages, obj - om.start, w, value);
    hide Consistent, FreshPage, PageIn;
    om.heap[w] := value;
    assert om.heap[..] == heap[w := value];
    om.MarkFieldDirty(obj, index);
    forall p | 0 <= p < PageCount(om.free) && p < om.pages && !om.dirty[p] && om.state[p] != STATE_FREE
        && HasPage(file, p)
               && CountIn(file) == PageCount(om.free)
      ensures PageIn(file, p) == FreshPage(om.heap[..], om.objs, om.start, om.free, p)
    {
      PageUntouched(heap, om.objs, om.start, om.free, w, value, p);
    }
  }

  /** Stores a byte into an object of bytes and marks its page. */
  method StoreByte(om: Om, obj: nat, index: nat, b: W.Byte, ghost file: seq<Word>)
    requires om.Valid() && StartAbove(om.start, om.free) && om.start <= obj
             && IsField(om.objs, obj - om.start, obj - om.start + HEADER + index / 8)
    requires CleanOnDisk(om, file)
    modifies om.heap, om.dirty
    ensures om.Valid() && CleanOnDisk(om, file)
    ensures var w := obj - om.start + HEADER + index / 8;
            w < om.heap.Length && om.heap[..] == old(om.heap[..])[w := W.SetByte(old(om.heap[..])[w], index % 8, b)]
  {
    var w := obj - om.start + HEADER + index / 8;
    hide *;
    FieldInHeap(om, obj - om.start, w);
    var value := W.SetByte(om.heap[w], index % 8, b);
    StoreField(om, obj, index / 8, value, file);
  }

  // ----------------------------------------------------------------- writing a checkpoint

  /** The tables of a checkpoint, but for its checksums: sizes in bytes, addresses as entries. */
  method CollectTables(om: Om) returns (state: seq<Word>, pt: PageTables)
    requires om.Valid() && om.free <= om.heap.Length
    ensures TablesOf(pt, om.Table(), om.start, om.free) && |state| == PageCount(om.free)
    ensures forall p :: 0 <= p < |state| ==> state[p] == om.state[p]
  {
    hide Apart, UsedOf, CoveringOf, FirstOf;
    var used, first, covering: seq<Word> := [], [], [];
    state := [];
    assert PageCount(om.free) <= om.pages;
    for p := 0 to PageCount(om.free)
      invariant |state| == |used| == |first| == |covering| == p
      invariant forall q :: 0 <= q < p ==> state[q] == om.state[q] && used[q] == W.Wrap(8 * om.used[q])
                                           && first[q] == Entry(om.first[q], om.start)
                                              && covering[q] == Entry(om.covering[q], om.start)
    {
      assert PageOk(om.objs, om.Table(), om.start, om.free, p);
      state := state + [om.state[p]];
      used := used + [W.Wrap(8 * om.used[p])];
      first := first + [Entry(om.first[p], om.start)];
      covering := covering + [Entry(om.covering[p], om.start)];
    }
    pt := PageTables(used, first, covering);
  }

  /** A page that is copied from the old file: clean, in use, and the old file is one to copy from. */
  ghost predicate Copied(om: Om, was: seq<Word>, sum: seq<Word> -> Word, p: nat)
    requires om.Arrays() && p < om.pages
    reads om, om.state, om.dirty
  {
    Usable(was, PageCount(om.free), sum) && om.state[p] != STATE_FREE && !om.dirty[p]
  }

  /** A page as it is written: copied from the old file, or else converted now. */
  ghost function WrittenPage(om: Om, was: seq<Word>, sum: seq<Word> -> Word, p: nat): (r: seq<Word>)
    requires om.Valid() && StartAbove(om.start, om.free) && om.free <= om.heap.Length && p < PageCount(om.free)
             && p < om.pages
    reads om, om.heap, om.used, om.first, om.covering, om.state, om.reusable, om.dirty
  {
    if Copied(om, was, sum, p) then PageIn(was, p)
    else RightPage(om.heap[..], om.objs, om.Table(), om.start, om.free, p)
  }

  /** Every page that is copied is what a rewrite would write. */
  ghost predicate CopiesRight(om: Om, was: seq<Word>, sum: seq<Word> -> Word)
    requires om.Valid() && StartAbove(om.start, om.free) && om.free <= om.heap.Length && PageCount(om.free) <= om.pages
    reads om, om.heap, om.used, om.first, om.covering, om.state, om.reusable, om.dirty
  {
    forall p :: 0 <= p < PageCount(om.free) ==>
      WrittenPage(om, was, sum, p) == RightPage(om.heap[..], om.objs, om.Table(), om.start, om.free, p)
  }

  /** Every page that is copied has the checksum of what a rewrite would write. */
  ghost predicate SumsRight(om: Om, was: seq<Word>, sum: seq<Word> -> Word)
    requires om.Valid() && StartAbove(om.start, om.free) && om.free <= om.heap.Length && PageCount(om.free) <= om.pages
    reads om, om.heap, om.used, om.first, om.covering, om.state, om.reusable, om.dirty
  {
    forall p :: 0 <= p < PageCount(om.free) ==>
      sum(WrittenPage(om, was, sum, p)) == sum(RightPage(om.heap[..], om.objs, om.Table(), om.start, om.free, p))
  }

  /** The pages of a checkpoint, copied and converted. */
  ghost predicate WrittenPages(om: Om, was: seq<Word>, sum: seq<Word> -> Word, pages: seq<Word>, k: nat)
    requires om.Valid() && StartAbove(om.start, om.free) && om.free <= om.heap.Length && k <= PageCount(om.free)
    reads om, om.heap, om.used, om.first, om.covering, om.state, om.reusable, om.dirty
  {
    && |pages| == PAGE * k
    && forall p :: 0 <= p < k && p < om.pages ==> pages[PAGE * p..PAGE * (p + 1)] == WrittenPage(om, was, sum, p)
  }

  method PageToWrite(om: Om, was: seq<Word>, copyClean: bool, p: nat, sum: seq<Word> -> Word)
      returns (page: seq<Word>, check: Word)
    requires om.Valid() && StartAbove(om.start, om.free) && om.free <= om.heap.Length && p < PageCount(om.free)
             && p < om.pages
    requires copyClean == Usable(was, PageCount(om.free), sum)
    ensures |page| == PAGE && page == WrittenPage(om, was, sum, p)
    ensures check == sum(RightPage(om.heap[..], om.objs, om.Table(), om.start, om.free, p))
  {
    hide Consistent, FreshPage, PageIn, HeaderValid, MetadataIn;
    var now := CopyPage(om, p);
    check := sum(now[..]);
    if om.state[p] != STATE_FREE && copyClean && !om.dirty[p] {
      page := PageIn(was, p);
    } else {
      page := now[..];
    }
  }

  method WritePages(om: Om, was: seq<Word>, copyClean: bool, sum: seq<Word> -> Word)
      returns (pages: seq<Word>, sums: seq<Word>)
    requires om.Valid() && StartAbove(om.start, om.free) && om.free <= om.heap.Length && PageCount(om.free) <= om.pages
    requires copyClean == Usable(was, PageCount(om.free), sum)
    ensures WrittenPages(om, was, sum, pages, PageCount(om.free)) && |sums| == PageCount(om.free)
    ensures forall p :: 0 <= p < |sums| ==>
              sums[p] == sum(RightPage(om.heap[..], om.objs, om.Table(), om.start, om.free, p))
  {
    hide Consistent, RightPage, Usable, WrittenPage;
    pages, sums := [], [];
    for p := 0 to PageCount(om.free)
      invariant WrittenPages(om, was, sum, pages, p) && |sums| == p
      invariant forall q :: 0 <= q < p ==>
                  sums[q] == sum(RightPage(om.heap[..], om.objs, om.Table(), om.start, om.free, q))
    {
      var page, check := PageToWrite(om, was, copyClean, p, sum);
      AppendPage(pages, page, p);
      pages := pages + page;
      sums := sums + [check];
    }
  }

  lemma AppendPage(pages: seq<Word>, page: seq<Word>, p: nat)
    requires |pages| == PAGE * p && |page| == PAGE
    ensures (pages + page)[PAGE * p..PAGE * (p + 1)] == page
    ensures forall q :: 0 <= q < p ==> (pages + page)[PAGE * q..PAGE * (q + 1)] == pages[PAGE * q..PAGE * (q + 1)]
  {
  }

  /** Whether every page below the free word is in use. */
  ghost predicate NoFreePage(om: Om)
    requires om.Arrays()
    reads om, om.state
  {
    forall p :: 0 <= p < PageCount(om.free) && p < om.pages ==> om.state[p] != STATE_FREE
  }

  /** The file holds the right pages with their checksums, and the tables of the heap. */
  ghost predicate RightFile(om: Om, file: seq<Word>, sum: seq<Word> -> Word)
    requires om.Valid() && StartAbove(om.start, om.free) && om.free <= om.heap.Length && PageCount(om.free) <= om.pages
    reads om, om.heap, om.used, om.first, om.covering, om.state, om.reusable
  {
    && HasTables(file) && CountIn(file) == PageCount(om.free) && file[1] == 8 * om.free && file[2] == PAGE_BYTES
    && (forall p :: 0 <= p < CountIn(file) ==> MetadataIn(file).state[p] == om.state[p])
    && (forall p :: 0 <= p < CountIn(file) ==>
          && HasPage(file, p) && PageIn(file, p) == RightPage(om.heap[..], om.objs, om.Table(), om.start, om.free, p)
          && MetadataIn(file).sums[p] == sum(PageIn(file, p)))
    && var m := MetadataIn(file); TablesOf(PageTables(m.used, m.first, m.covering), om.Table(), om.start, om.free)
  }

  /** The file holds the pages as they are written, the checksums of a full rewrite, and the tables of the heap. */
  ghost predicate WrittenFile(om: Om, was: seq<Word>, file: seq<Word>, sum: seq<Word> -> Word)
    requires om.Valid() && StartAbove(om.start, om.free) && om.free <= om.heap.Length && PageCount(om.free) <= om.pages
    reads om, om.heap, om.used, om.first, om.covering, om.state, om.reusable, om.dirty
  {
    && HasTables(file) && CountIn(file) == PageCount(om.free) && file[1] == 8 * om.free && file[2] == PAGE_BYTES
    && (forall p :: 0 <= p < CountIn(file) ==> MetadataIn(file).state[p] == om.state[p])
    && (forall p :: 0 <= p < CountIn(file) ==>
          && HasPage(file, p) && PageIn(file, p) == WrittenPage(om, was, sum, p)
          && MetadataIn(file).sums[p] == sum(RightPage(om.heap[..], om.objs, om.Table(), om.start, om.free, p)))
    && var m := MetadataIn(file); TablesOf(PageTables(m.used, m.first, m.covering), om.Table(), om.start, om.free)
  }

  /**
   The header names the five roots of the image: where each object is from the start of the heap, in
   bytes, and 0 for a root that is no object.
   */
  ghost predicate NamesRoots(file: seq<Word>, roots: seq<Word>, start: nat) {
    && |roots| == 5 && |file| >= HEADER_WORDS
    && forall k :: 0 <= k < 5 ==>
         file[5 + k] == if roots[k] % 4 == 0 then (roots[k] - 8 * start) % W.TWO_64 else 0
  }

  /** The generation is the old file's and one more, or 1 when nothing can be copied from that. */
  ghost predicate NextGeneration(file: seq<Word>, was: seq<Word>, count: nat, sum: seq<Word> -> Word) {
    |file| >= 11 && file[4] == if CopiedFrom(was, count, sum) then (was[4] + 1) % W.TWO_64 else 1
  }

  /** An object's offset in the heap that starts at `heapStart`, in bytes. */
  function OffsetInHeap(oop: Word, heapStart: nat): Word {
    if !W.IsObject(oop) then 0 else W.Wrap(oop - heapStart)
  }

  /**
   The words of the file in front of the pages: sizes in bytes, objects by their offset in bytes plus
   8, an absent object's address 0 going through the same sum.
   */
  ghost predicate LaidOut(om: Om, file: seq<Word>)
    requires om.Arrays()
    reads om, om.used, om.first, om.covering, om.state
  {
    var n := PageCount(om.free);
    && |file| >= 11 + 517 * n && n <= om.pages
    && file[0] == 0x4152_4c4f_494d_4731 && file[1] == 8 * om.free && file[2] == 4096 && file[3] == n
    && forall p :: 0 <= p < n ==>
         && file[11 + p] == om.state[p] && file[11 + n + p] == 8 * om.used[p]
         && file[11 + 2 * n + p] == (8 * om.first[p] - 8 * om.start + 8) % W.TWO_64
         && file[11 + 3 * n + p] == (8 * om.covering[p] - 8 * om.start + 8) % W.TWO_64
  }

  lemma WrittenIsLaidOut(om: Om, was: seq<Word>, file: seq<Word>, sum: seq<Word> -> Word)
    requires om.Valid() && StartAbove(om.start, om.free) && om.free <= om.heap.Length && PageCount(om.free) <= om.pages
    requires WrittenFile(om, was, file, sum) && file[0] == MAGIC
    ensures LaidOut(om, file)
  {
    hide WrittenPage, RightPage, PageIn, MetadataIn, Consistent;
    var n, m := PageCount(om.free), MetadataIn(file);
    assert n > 0 ==> HasPage(file, n - 1);
    assert m.Sized(n);
    forall p | 0 <= p < n
      ensures m.state[p] == file[11 + p] && m.used[p] == file[11 + n + p] && m.first[p] == file[11 + 2 * n + p]
      ensures m.covering[p] == file[11 + 3 * n + p] && W.Wrap(8 * om.used[p]) == 8 * om.used[p]
    {
      TableWords(file, p);
      UsedFits(om, p);
    }
  }

  lemma TableWords(file: seq<Word>, p: nat)
    requires HasTables(file) && p < CountIn(file)
    ensures var n: nat, m := CountIn(file), MetadataIn(file);
            && m.state[p] == file[11 + p] && m.used[p] == file[11 + n + p] && m.first[p] == file[11 + 2 * n + p]
            && m.covering[p] == file[11 + 3 * n + p] && m.sums[p] == file[11 + 4 * n + p]
  {
  }

  lemma UsedFits(om: Om, p: nat)
    requires om.Valid() && p < om.pages
    ensures om.used[p] <= PAGE && W.Wrap(8 * om.used[p]) == 8 * om.used[p]
  {
    hide Apart, CoveringOf, FirstOf;
    assert PageOk(om.objs, om.Table(), om.start, om.free, p);
  }

  /** The header of a checkpoint, its own checksum last. */
  method MakeHeader(size: Word, count: Word, generation: Word, roots: seq<Word>, start: nat, m: Metadata,
                    sum: seq<Word> -> Word)
    returns (header: seq<Word>)
    requires |roots| == 5
    ensures |header| == HEADER_WORDS && header[0] == MAGIC && header[1] == size && header[2] == PAGE_BYTES
            && header[3] == count && header[4] == generation && NamesRoots(header, roots, start)
    ensures header[10] == sum(header[10 := 0] + m.Flat())
  {
    var offsets := seq(5, k requires 0 <= k < 5 => OffsetInHeap(roots[k], 8 * start));
    var blank := [MAGIC, size, PAGE_BYTES, count, generation] + offsets + [0];
    header := blank[10 := sum(blank + m.Flat())];
    assert header[10 := 0] == blank;
  }

  lemma HeaderKept(file: seq<Word>, header: seq<Word>, roots: seq<Word>, start: nat)
    requires |file| >= HEADER_WORDS && file[..HEADER_WORDS] == header && NamesRoots(header, roots, start)
    ensures NamesRoots(file, roots, start) && file[4] == header[4] && file[0] == header[0]
  {
    assert forall k :: 0 <= k < HEADER_WORDS ==> file[k] == file[..HEADER_WORDS][k];
  }

  /** Whether the old file can be copied from, and the new file's generation. */
  method ReadOld(was: seq<Word>, count: nat, sum: seq<Word> -> Word) returns (usable: bool, generation: Word)
    ensures usable == Usable(was, count, sum)
    ensures generation == if CopiedFrom(was, count, sum) then (was[4] + 1) % W.TWO_64 else 1
  {
    hide HeaderValid, PagesValid, FlatValid, MetadataIn;
    UsableIff(was, count, sum);
    usable := Validate(was, sum);
    usable := usable && was[2] == PAGE_BYTES && CountIn(was) == count;
    generation := if usable then W.Wrap(was[4] as int + 1) else 1;
  }

  /** The file that a checkpoint writes over `was`. */
  method BuildFile(om: Om, was: seq<Word>, roots: seq<Word>, sum: seq<Word> -> Word) returns (file: seq<Word>)
    requires om.Valid() && StartAbove(om.start, om.free) && om.free <= om.heap.Length && PageCount(om.free) <= om.pages
    requires |roots| == 5
    ensures WrittenFile(om, was, file, sum)
    ensures NamesRoots(file, roots, om.start) && NextGeneration(file, was, PageCount(om.free), sum) && file[0] == MAGIC
    ensures ValidFile(file, sum) <==> NoFreePage(om) && SumsRight(om, was, sum)
  {
    assert 8 * om.free < W.TWO_64 && 8 * om.start < W.TWO_64;
    hide Consistent, RightPage, WrittenPages, WrittenPage, FreshPage, ValidFile, TablesOf, WrittenFile, NoFreePage,
         SumsRight, NamesRoots, CopiedFrom, Usable;
    var count := PageCount(om.free);
    var state, pt := CollectTables(om);
    var usable, generation := ReadOld(was, count, sum);
    var pages, sums := WritePages(om, was, usable, sum);
    var m := Metadata(state, pt.used, pt.first, pt.covering, sums);
    var header := MakeHeader(8 * om.free, count, generation, roots, om.start, m, sum);
    file := FileOf(header, m, pages);
    FileFacts(om, was, header, m, pages, count, sum);
    HeaderKept(file, header, roots, om.start);
    assert NextGeneration(file, was, count, sum) by {
      hide CopiedFrom;
    }
  }

  /**
   Writes a checkpoint over the file `was`, empty for none.  The new file is the one that a full
   rewrite makes, every page with its own checksum, if and only if every page that is copied from
   the old file is what would be written now; that is so when the old file is the last checkpoint
   of this heap.  The new file passes validation exactly when no page below the free word has
   been released and no checksum tells a copied page from what it should be.
   */
  method WriteCheckpoint(om: Om, was: seq<Word>, roots: seq<Word>, sum: seq<Word> -> Word) returns (file: seq<Word>)
    requires om.Valid() && StartAbove(om.start, om.free) && om.free <= om.heap.Length && PageCount(om.free) <= om.pages
    requires |roots| == 5
    modifies om.dirty
    ensures om.Valid() && (RightFile(om, file, sum) <==> old(CopiesRight(om, was, sum)))
    ensures old(CleanOnDisk(om, was)) ==> RightFile(om, file, sum)
    ensures LaidOut(om, file) && NamesRoots(file, roots, om.start)
            && NextGeneration(file, was, PageCount(om.free), sum)
    ensures forall p :: 0 <= p < om.pages ==> !om.dirty[p]
    ensures RightFile(om, file, sum) ==> CleanOnDisk(om, file)
    ensures ValidFile(file, sum) <==> NoFreePage(om) && old(SumsRight(om, was, sum))
    ensures RightFile(om, file, sum) ==> (ValidFile(file, sum) <==> NoFreePage(om))
  {
    hide Consistent, RightPage, WrittenPage, FreshPage, ValidFile, TablesOf, NoFreePage, PageIn, MetadataIn, RightFile,
         WrittenFile, CleanOnDisk, CopiesRight, SumsRight, NamesRoots, NextGeneration, LaidOut;
    file := BuildFile(om, was, roots, sum);
    WrittenIsLaidOut(om, was, file, sum);
    RightIffCopies(om, was, file, sum);
    CleanCopies(om, was, sum);
    ClearDirty(om);
    if RightFile(om, file, sum) {
      RightIsClean(om, file, sum);
    }
  }

  /** The file is right exactly when the copies are. */
  lemma RightIffCopies(om: Om, was: seq<Word>, file: seq<Word>, sum: seq<Word> -> Word)
    requires om.Valid() && StartAbove(om.start, om.free) && om.free <= om.heap.Length && PageCount(om.free) <= om.pages
    requires WrittenFile(om, was, file, sum)
    ensures RightFile(om, file, sum) <==> CopiesRight(om, was, sum)
    ensures CopiesRight(om, was, sum) ==> SumsRight(om, was, sum)
  {
    hide Consistent, RightPage, WrittenPage, TablesOf, PageIn, MetadataIn;
  }

  /** What is on disk of the clean pages of the heap may be copied. */
  lemma CleanCopies(om: Om, was: seq<Word>, sum: seq<Word> -> Word)
    requires om.Valid() && StartAbove(om.start, om.free) && om.free <= om.heap.Length && PageCount(om.free) <= om.pages
    ensures CleanOnDisk(om, was) ==> CopiesRight(om, was, sum)
  {
    hide Consistent, FreshPage, PageIn, MetadataIn, HeaderValid;
  }

  /**
   Two paths.  `b` is the last checkpoint of the heap.  A field is stored into, a checkpoint goes
   to a fresh path, and then one to the path of `b`: no page is dirty any more, and `b` has as many
   pages, so all are copied from it.  The first file is right; the second is right if and only if
   the store has not changed what is written of its page.
   */
  method TwoPaths(om: Om, obj: nat, index: nat, value: Word, b: seq<Word>, roots: seq<Word>, sum: seq<Word> -> Word)
    returns (first: seq<Word>, second: seq<Word>)
    requires om.Valid() && StartAbove(om.start, om.free) && om.free <= om.heap.Length && PageCount(om.free) <= om.pages
    requires |roots| == 5 && CleanOnDisk(om, b) && Usable(b, PageCount(om.free), sum)
    requires forall p :: 0 <= p < om.pages ==> !om.dirty[p]
    requires om.start <= obj && IsField(om.objs, obj - om.start, obj - om.start + HEADER + index)
    requires NoFreePage(om)
    modifies om.heap, om.dirty
    ensures om.Valid() && RightFile(om, first, sum)
    ensures var p := PageOf(obj - om.start + HEADER + index);
            p < PageCount(om.free)
            && (RightFile(om, second, sum) <==>
                  FreshPage(om.heap[..], om.objs, om.start, om.free, p)
                  == old(FreshPage(om.heap[..], om.objs, om.start, om.free, p)))
  {
    hide Consistent, RightPage, WrittenPage, FreshPage, ValidFile, PageIn, MetadataIn, RightFile, SumsRight,
         CopiesRight, TablesOf, LaidOut, NamesRoots, NextGeneration;
    ghost var p := PageOf(obj - om.start + HEADER + index);
    FieldPage(om, obj - om.start, obj - om.start + HEADER + index);
    ghost var before := FreshPage(om.heap[..], om.objs, om.start, om.free, p);
    assert HasPage(b, p) && PageIn(b, p) == before by { UsablePage(b, PageCount(om.free), sum, p); }
    StoreField(om, obj, index, value, b);
    assert forall q :: 0 <= q < PageCount(om.free) && q != p ==>
             HasPage(b, q) && PageIn(b, q) == FreshPage(om.heap[..], om.objs, om.start, om.free, q) by {
      OthersClean(om, b, sum, p);
    }
    hide CleanOnDisk;
    NothingCopied(om, sum);
    first := WriteCheckpoint(om, [], roots, sum);
    CopiesIff(om, b, sum, p, before);
    second := WriteCheckpoint(om, b, roots, sum);
  }

  lemma FieldPage(om: Om, o: nat, w: nat)
    requires om.Valid() && om.free <= om.heap.Length && IsField(om.objs, o, w)
    ensures w < om.free && PageOf(w) < PageCount(om.free) && StartsIn(w, PageOf(w))
  {
    FieldStored(om.heap[..], om.objs, om.Table(), om.start, om.free, om.pages, o, w, 0);
  }

  lemma UsablePage(was: seq<Word>, count: nat, sum: seq<Word> -> Word, p: nat)
    requires Usable(was, count, sum) && p < count
    ensures HasPage(was, p)
  {
  }

  lemma OthersClean(om: Om, b: seq<Word>, sum: seq<Word> -> Word, p: nat)
    requires om.Valid() && StartAbove(om.start, om.free) && om.free <= om.heap.Length && PageCount(om.free) <= om.pages
    requires CleanOnDisk(om, b) && Usable(b, PageCount(om.free), sum) && NoFreePage(om)
    requires forall q :: 0 <= q < om.pages && q != p ==> !om.dirty[q]
    ensures forall q :: 0 <= q < PageCount(om.free) && q != p ==>
              HasPage(b, q) && PageIn(b, q) == FreshPage(om.heap[..], om.objs, om.start, om.free, q)
  {
    hide Consistent, FreshPage, PageIn, MetadataIn, HeaderValid;
  }

  lemma NothingCopied(om: Om, sum: seq<Word> -> Word)
    requires om.Valid() && StartAbove(om.start, om.free) && om.free <= om.heap.Length && PageCount(om.free) <= om.pages
    ensures CopiesRight(om, [], sum)
  {
    hide Consistent, RightPage;
  }

  lemma CopiesIff(om: Om, b: seq<Word>, sum: seq<Word> -> Word, p: nat, before: seq<Word>)
    requires om.Valid() && StartAbove(om.start, om.free) && om.free <= om.heap.Length && PageCount(om.free) <= om.pages
    requires Usable(b, PageCount(om.free), sum) && NoFreePage(om) && p < PageCount(om.free)
    requires forall q :: 0 <= q < om.pages ==> !om.dirty[q]
    requires forall q :: 0 <= q < PageCount(om.free) && q != p ==>
               HasPage(b, q) && PageIn(b, q) == FreshPage(om.heap[..], om.objs, om.start, om.free, q)
    requires HasPage(b, p) && PageIn(b, p) == before
    ensures CopiesRight(om, b, sum) <==> FreshPage(om.heap[..], om.objs, om.start, om.free, p) == before
  {
    hide Consistent, FreshPage, PageIn, Usable;
    assert forall q :: 0 <= q < PageCount(om.free) ==> WrittenPage(om, b, sum, q) == PageIn(b, q);
  }

  /**
   Allocation marks no page.  After a checkpoint an object is allocated in what is left of the last
   page, and a checkpoint goes to the same path: the page is copied from before the allocation, so
   the file is not right unless the object has size 0; and it is refused by a restart unless the
   checksum does not tell the two pages apart.
   */
  method AllocUnmarked(om: Om, cls: Word, format: Word, size: Word, roots: seq<Word>, sum: seq<Word> -> Word)
    returns (first: seq<Word>, address: nat, second: seq<Word>)
    requires om.Valid() && PageCount(om.free) <= om.pages && |roots| == 5 && NoFreePage(om)
    requires var n := HEADER + SlotWords(format, size);
             && om.free % PAGE != 0 && om.free % PAGE + n <= PAGE && om.free + n <= om.heap.Length
             && StartAbove(om.start, om.free) && StartAbove(om.start, om.free + n)
             && 8 * (om.start + om.heap.Length + n) < W.TWO_64
    modifies om`free, om`objs, om.heap, om.used, om.first, om.covering, om.state, om.reusable, om.dirty
    ensures om.Valid() && StartAbove(om.start, om.free) && om.free <= om.heap.Length && PageCount(om.free) <= om.pages
    ensures old(RightFile(om, first, sum)) && ValidFile(first, sum)
    ensures address == om.start + old(om.free) && address - om.start in om.objs
    ensures size != 0 ==> !RightFile(om, second, sum)
    ensures var p := PageOf(old(om.free));
            PAGE * p < old(om.free)
            && (ValidFile(second, sum) ==> sum(FreshPage(om.heap[..], om.objs, om.start, om.free, p))
                                           == old(sum(FreshPage(om.heap[..], om.objs, om.start, om.free, p))))
  {
    hide Consistent, RightPage, WrittenPage, FreshPage, ValidFile, PageIn, MetadataIn, SumsRight, CopiesRight,
         TablesOf, Enter, WithObject, CleanOnDisk, RightFile, NoFreePage, NoHoles, PlacementOf, LaidOut, NamesRoots,
         NextGeneration, Written, GoesTo;
    ghost var heap, t, free, p := om.heap[..], om.Table(), om.free, PageOf(om.free);
    ghost var before := FreshPage(heap, om.objs, om.start, free, p);
    assert before[free + 2 - PAGE * p] == 0 by { Padding(heap, om.objs, om.start, free, p); }
    NothingCopied(om, sum);
    first := WriteCheckpoint(om, [], roots, sum);
    assert HasPage(first, p) && PageIn(first, p) == before && Usable(first, PageCount(om.free), sum) by {
      RightPageIn(om, first, sum, p);
    }
    BumpsInPage(om, HEADER + SlotWords(format, size));
    address := om.Alloc(cls, format, size);
    assert om.free == free + HEADER + SlotWords(format, size) && PageCount(om.free) == PageCount(free);
    assert om.state[..] == om.Table().state;
    StateEntered(t, om.start, free, HEADER + SlotWords(format, size), p);
    StalePage(om, first, sum, p, before);
    assert FreshPage(om.heap[..], om.objs, om.start, om.free, p)[free + 2 - PAGE * p] == size by {
      HeaderInPage(om, free, p);
      ObjectWritten(heap, free, HEADER + SlotWords(format, size), cls, format, size);
    }
    second := WriteCheckpoint(om, first, roots, sum);
  }

  /** A right file can be copied from again, page by page. */
  lemma RightPageIn(om: Om, file: seq<Word>, sum: seq<Word> -> Word, p: nat)
    requires om.Valid() && StartAbove(om.start, om.free) && om.free <= om.heap.Length && PageCount(om.free) <= om.pages
    requires RightFile(om, file, sum) && ValidFile(file, sum) && NoFreePage(om) && PAGE * p < om.free
    ensures HasPage(file, p) && PageIn(file, p) == FreshPage(om.heap[..], om.objs, om.start, om.free, p)
    ensures Usable(file, PageCount(om.free), sum)
  {
    hide Consistent, FreshPage, PageIn, MetadataIn, HeaderValid, TablesOf, PagesValid;
    assert p < PageCount(om.free);
  }

  /** Without released pages an object that fits into the rest of the last page goes there. */
  lemma BumpsInPage(om: Om, n: nat)
    requires om.Valid() && NoFreePage(om) && om.free % PAGE + n <= PAGE && om.free + n <= om.heap.Length
    ensures PlacementOf(om.Table(), om.free, n, om.heap.Length) == Bump(om.free)
  {
    hide Consistent;
  }

  lemma StateEntered(t: Tables, start: nat, o: nat, n: nat, p: nat)
    requires Sized(t, |t.used|) && p < |t.used| && StartsIn(o, p) && 0 < n
    ensures Enter(t, start, o, n).state[p] == STATE_HEAD
  {
  }

  lemma ObjectWritten(heap: seq<Word>, o: nat, n: nat, cls: Word, format: Word, size: Word)
    requires HEADER <= n && o + n <= |heap|
    ensures WithObject(heap, o, n, cls, format, size)[o + 2] == size
  {
  }

  lemma Padding(heap: seq<Word>, objs: Objects, start: nat, free: nat, p: nat)
    requires StartAbove(start, free) && PAGE * p < free <= |heap|
    ensures var r := FreshPage(heap, objs, start, free, p); forall i :: LiveWords(free, p) <= i < PAGE ==> r[i] == 0
  {
    hide Encoded;
  }

  /** The size of an object is no slot: it is written as it is. */
  lemma HeaderInPage(om: Om, o: nat, p: nat)
    requires om.Valid() && StartAbove(om.start, om.free) && om.free <= om.heap.Length
    requires o in om.objs && PAGE * p <= o && o + 2 < PAGE * (p + 1)
    ensures PAGE * p < om.free
    ensures FreshPage(om.heap[..], om.objs, om.start, om.free, p)[o + 2 - PAGE * p] == om.heap[o + 2]
  {
    hide PageOk;
    var heap, objs, free := om.heap[..], om.objs, om.free;
    assert HEADER <= objs[o] && o + objs[o] <= free;
    assert !IsSlot(heap[..free], objs, o + 2) by {
      forall q | q in objs && q + HEADER <= free ensures !SlotIn(heap[..free], q, objs[q], o + 2) {
        assert q == o || q < o || o < q;
      }
    }
    assert FreshPage(heap, objs, om.start, free, p)[o + 2 - PAGE * p]
           == Encoded(heap, objs, om.start, free)[o + 2] == EncodedAt(heap, objs, om.start, free, o + 2);
  }

  /** What a checkpoint over `was` does with a page that it copies. */
  lemma StalePage(om: Om, was: seq<Word>, sum: seq<Word> -> Word, p: nat, before: seq<Word>)
    requires om.Valid() && StartAbove(om.start, om.free) && om.free <= om.heap.Length && PageCount(om.free) <= om.pages
    requires Usable(was, PageCount(om.free), sum) && HasPage(was, p) && PageIn(was, p) == before
    requires PAGE * p < om.free && p < PageCount(om.free) && om.state[p] != STATE_FREE && !om.dirty[p]
    ensures CopiesRight(om, was, sum) ==> FreshPage(om.heap[..], om.objs, om.start, om.free, p) == before
    ensures SumsRight(om, was, sum) ==> sum(FreshPage(om.heap[..], om.objs, om.start, om.free, p)) == sum(before)
  {
    hide Consistent, FreshPage, PageIn, Usable;
    assert WrittenPage(om, was, sum, p) == before;
  }

  /** A heap of one object, the size of its page, and the page released: its checkpoint is refused by every restart. */
  method ReleasedPageInvalid(roots: seq<Word>, sum: seq<Word> -> Word) returns (om: Om, file: seq<Word>)
    requires |roots| == 5
    ensures fresh(om) && om.Valid() && om.free == PAGE && om.objs == map[] && om.pages > 0 && om.state[0] == STATE_FREE
    ensures !ValidFile(file, sum)
  {
    hide ValidFile, PageIn, MetadataIn, FreshPage, Consistent, SumsRight, CopiesRight, RightFile, CleanOnDisk, NoHoles,
         LaidOut, NamesRoots, NextGeneration, Written, GoesTo;
    om := new Om(1000, 1000);
    assert Recycled(om.Table(), om.free, 0) >= 1;
    var address := om.Alloc(W.NIL, 0, 509);
    om.ReleasePage(0);
    file := WriteCheckpoint(om, [], roots, sum);
  }

  /** An absent object's entry is not 0. */
  lemma AbsentEntry(start: nat)
    requires 1 < start && 8 * start < W.TWO_64
    ensures Entry(0, start) != 0
  {
  }

  /** An entry of a checkpoint's tables is valid exactly when its page is in use. */
  lemma EntriesValid(om: Om, m: Metadata, p: nat)
    requires om.Valid() && StartAbove(om.start, om.free) && om.free <= om.heap.Length
    requires m.Sized(PageCount(om.free))
             && TablesOf(PageTables(m.used, m.first, m.covering), om.Table(), om.start, om.free)
    requires p < PageCount(om.free) <= om.pages && m.state[p] == om.state[p]
    ensures EntryValid(m, p) <==> om.state[p] != STATE_FREE
  {
    hide Apart, UsedOf, CoveringOf, FirstOf;
    assert PageOk(om.objs, om.Table(), om.start, om.free, p);
    AbsentEntry(om.start);
  }

  lemma WrittenValid(om: Om, file: seq<Word>, header: seq<Word>, m: Metadata, sum: seq<Word> -> Word)
    requires om.Valid() && StartAbove(om.start, om.free) && om.free <= om.heap.Length && PageCount(om.free) <= om.pages
    requires HasTables(file) && CountIn(file) == PageCount(om.free) && |header| == HEADER_WORDS
             && file[..HEADER_WORDS] == header && MetadataIn(file) == m
    requires TablesOf(PageTables(m.used, m.first, m.covering), om.Table(), om.start, om.free)
    requires forall p :: 0 <= p < PageCount(om.free) ==> m.state[p] == om.state[p]
    requires header[0] == MAGIC && header[2] == PAGE_BYTES && header[10] == sum(header[10 := 0] + m.Flat())
    ensures ValidFile(file, sum) <==> NoFreePage(om) && PagesValid(file, m, sum, 0)
  {
    hide Consistent, TablesOf, EntryValid;
    forall p | 0 <= p < PageCount(om.free) ensures EntryValid(m, p) <==> om.state[p] != STATE_FREE {
      EntriesValid(om, m, p);
    }
  }

  lemma FileFacts(om: Om, was: seq<Word>, header: seq<Word>, m: Metadata, pages: seq<Word>, count: nat,
                  sum: seq<Word> -> Word)
    requires om.Valid() && StartAbove(om.start, om.free) && om.free <= om.heap.Length
             && count == PageCount(om.free) <= om.pages
    requires |header| == HEADER_WORDS && header[3] == count && m.Sized(count)
    requires header[0] == MAGIC && header[1] == 8 * om.free && header[2] == PAGE_BYTES
             && header[10] == sum(header[10 := 0] + m.Flat())
    requires TablesOf(PageTables(m.used, m.first, m.covering), om.Table(), om.start, om.free)
    requires forall p :: 0 <= p < count ==> m.state[p] == om.state[p]
    requires WrittenPages(om, was, sum, pages, count)
    requires forall p :: 0 <= p < count ==>
               m.sums[p] == sum(RightPage(om.heap[..], om.objs, om.Table(), om.start, om.free, p))
    ensures WrittenFile(om, was, FileOf(header, m, pages), sum) && FileOf(header, m, pages)[..HEADER_WORDS] == header
    ensures ValidFile(FileOf(header, m, pages), sum) <==> NoFreePage(om) && SumsRight(om, was, sum)
  {
    hide Consistent, TablesOf, RightPage, WrittenPage, FileOf, MetadataIn, PageIn, ValidFile, NoFreePage;
    ReadBack(header, m, pages, count);
    var file := FileOf(header, m, pages);
    assert file[1] == file[..HEADER_WORDS][1] && file[2] == file[..HEADER_WORDS][2];
    forall p | 0 <= p < count ensures HasPage(file, p) && PageIn(file, p) == WrittenPage(om, was, sum, p) {
    }
    assert PagesValid(file, m, sum, 0) <==> SumsRight(om, was, sum);
    hide SumsRight, PagesValid;
    WrittenValid(om, file, header, m, sum);
  }

  /** A file with the right pages has the right clean pages. */
  lemma RightIsClean(om: Om, file: seq<Word>, sum: seq<Word> -> Word)
    requires om.Valid() && StartAbove(om.start, om.free) && om.free <= om.heap.Length && PageCount(om.free) <= om.pages
    requires RightFile(om, file, sum)
    ensures CleanOnDisk(om, file)
  {
    hide Consistent, FreshPage, PageIn, MetadataIn, TablesOf;
  }

  method ClearDirty(om: Om)
    modifies om.dirty
    ensures forall p :: 0 <= p < om.dirty.Length ==> !om.dirty[p]
  {
    for p := 0 to om.dirty.Length
      invariant forall q :: 0 <= q < p ==> !om.dirty[q]
    {
      om.dirty[p] := false;
    }
  }

  // ----------------------------------------------------------------- restarting from a checkpoint

  /** The pages of a file, cut to the words in use. */
  ghost predicate Loaded(loaded: seq<Word>, file: seq<Word>, k: nat, free: nat) {
    |loaded| == free && forall p :: 0 <= p < k && HasPage(file, p) && PAGE * p < free ==>
      loaded[PAGE * p..PAGE * p + LiveWords(free, p)] == PageIn(file, p)[..LiveWords(free, p)]
  }

  /** Copies the live words of a file's page into the loaded heap. */
  method LoadWords(loaded: array<Word>, file: seq<Word>, p: nat)
    requires HasPage(file, p) && PAGE * p < loaded.Length
    modifies loaded
    ensures Put(old(loaded[..]), PAGE * p, PageIn(file, p)[..LiveWords(loaded.Length, p)]) == loaded[..]
  {
    var page, live := PageIn(file, p), LiveWords(loaded.Length, p);
    ghost var was := loaded[..];
    for i := 0 to live
      invariant forall j :: 0 <= j < loaded.Length ==> loaded[j] == if PAGE * p <= j < PAGE * p + i
                                                       then page[j - PAGE * p] else was[j]
    {
      loaded[PAGE * p + i] := page[i];
    }
  }

  function Put(s: seq<Word>, at: nat, values: seq<Word>): (r: seq<Word>)
    requires at + |values| <= |s|
    ensures |r| == |s|
  {
    s[..at] + values + s[at + |values|..]
  }

  lemma PutElsewhere(s: seq<Word>, at: nat, values: seq<Word>, a: nat, b: nat)
    requires a <= b <= at && at + |values| <= |s|
    ensures Put(s, at, values)[a..b] == s[a..b]
  {
  }

  lemma OneMoreLoaded(was: seq<Word>, file: seq<Word>, p: nat, free: nat)
    requires Loaded(was, file, p, free) && HasPage(file, p) && PAGE * p < free
    ensures Loaded(Put(was, PAGE * p, PageIn(file, p)[..LiveWords(free, p)]), file, p + 1, free)
  {
    hide PageIn;
    var values := PageIn(file, p)[..LiveWords(free, p)];
    var now := Put(was, PAGE * p, values);
    forall q | 0 <= q < p + 1 && HasPage(file, q) && PAGE * q < free
      ensures now[PAGE * q..PAGE * q + LiveWords(free, q)] == PageIn(file, q)[..LiveWords(free, q)]
    {
      if q < p {
        PutElsewhere(was, PAGE * p, values, PAGE * q, PAGE * q + LiveWords(free, q));
      }
    }
  }

  /** The right pages, loaded, are the converted heap. */
  lemma LoadedIsEncoded(loaded: seq<Word>, file: seq<Word>, heap: seq<Word>, objs: Objects, start: nat, free: nat)
    requires StartAbove(start, free) && free <= |heap| && Loaded(loaded, file, PageCount(free), free)
    requires forall p :: 0 <= p < PageCount(free) ==> HasPage(file, p) && PAGE * p < free
                                                      && PageIn(file, p) == FreshPage(heap, objs, start, free, p)
    ensures loaded == Encoded(heap, objs, start, free)
  {
    hide PageIn, Encoded;
    var e := Encoded(heap, objs, start, free);
    forall i | 0 <= i < free ensures loaded[i] == e[i] {
      var p := PageOf(i);
      var at, live := PAGE * p, LiveWords(free, p);
      assert HasPage(file, p) && at <= i < at + live;
      assert FreshPage(heap, objs, start, free, p)[..live] == e[at..at + live];
      assert loaded[i] == loaded[at..at + live][i - at] && e[i] == e[at..at + live][i - at];
    }
  }

  /** The file of a checkpoint of a heap without released pages, as it was then. */
  ghost predicate CheckpointOf(file: seq<Word>, heap: seq<Word>, objs: Objects, t: Tables, start: nat, free: nat,
                               pages: nat, roots: seq<Word>) {
    && StartAbove(start, free) && free <= |heap| && HasTables(file) && CountIn(file) == PageCount(free)
       && file[1] == 8 * free && NamesRoots(file, roots, start)
    && (var m := MetadataIn(file);
        && Source(heap, objs, t, PageTables(m.used, m.first, m.covering), start, free, pages)
        && forall p :: 0 <= p < PageCount(free) ==> m.state[p] != STATE_FREE)
    && forall p :: 0 <= p < PageCount(free) ==> PAGE * p < free && HasPage(file, p)
                                                && PageIn(file, p) == FreshPage(heap, objs, start, free, p)
  }

  /** What a checkpoint writes of a heap without released pages. */
  lemma WrittenIsCheckpoint(om: Om, file: seq<Word>, roots: seq<Word>, sum: seq<Word> -> Word)
    requires om.Valid() && StartAbove(om.start, om.free) && om.free <= om.heap.Length && PageCount(om.free) <= om.pages
    requires RightFile(om, file, sum) && NoHoles(om.Table(), om.start, om.free) && NamesRoots(file, roots, om.start)
    ensures CheckpointOf(file, om.heap[..], om.objs, om.Table(), om.start, om.free, om.pages, roots) && NoFreePage(om)
  {
    hide NamesRoots, Apart, FreshPage, PageIn, MetadataIn, TablesOf;
    forall p | 0 <= p < PageCount(om.free) ensures PAGE * p < om.free && om.state[p] != STATE_FREE {
      assert PageOk(om.objs, om.Table(), om.start, om.free, p);
      UsedPage(om.Table(), om.start, om.free, p);
      UsedIsReach(om.objs, om.used[p], p);
    }
  }

  /** A pointer into the heap at `start`, as it is when that heap is at `base`. */
  function MovedPointer(p: Word, start: nat, base: nat): Word { W.Wrap(p - 8 * start + 8 * base) }

  /**
   A root that the header names is found at the same place of the loaded heap; one that is no object
   gives the first word of the heap, so it is found if and only if it is an object.
   */
  lemma RootFound(file: seq<Word>, roots: seq<Word>, start: nat, base: nat, k: nat)
    requires NamesRoots(file, roots, start) && k < 5 && 8 * start < W.TWO_64
    ensures W.Wrap(8 * base + file[5 + k]) == MovedPointer(roots[k], start, base) <==> roots[k] % 4 == 0
    ensures roots[k] % 4 != 0 ==> file[5 + k] == 0
  {
    hide W.Wrap;
    var at: Word := 8 * start;
    assert at % 4 == 0 by { EightTimes(start); }
    NamedRoot(file, roots, start, k);
    W.OffsetBack(roots[k], at, file[5 + k], 8 * base);
  }

  lemma EightTimes(start: nat)
    ensures 8 * start % 4 == 0
  {
  }

  lemma NamedRoot(file: seq<Word>, roots: seq<Word>, start: nat, k: nat)
    requires NamesRoots(file, roots, start) && k < 5
    ensures |roots| == 5 && |file| >= HEADER_WORDS
    ensures file[5 + k] == if roots[k] % 4 == 0 then (roots[k] - 8 * start) % W.TWO_64 else 0
  {
  }

  /** The first four roots, at the same place of the heap when it is at `base`, if and only if they are objects. */
  predicate FoundRoots(found: seq<Word>, roots: seq<Word>, start: nat, base: nat) {
    && |found| == 4 && |roots| == 5
    && forall k :: 0 <= k < 4 ==>
         && (found[k] == MovedPointer(roots[k], start, base) <==> roots[k] % 4 == 0)
         && (roots[k] % 4 != 0 ==> found[k] == 8 * base)
  }

  /**
   Restart: a file that fails validation is refused; one that a checkpoint wrote is loaded at
   `base`, and the heap is there as it was, moved, exactly when the words in its slots survive.  The
   symbol table, the classes of symbols and contexts, and the dictionary of globals are found through
   the header; the class table, which the header names last, is not looked for.
   */
  method Restart(file: seq<Word>, base: nat, sum: seq<Word> -> Word,
                 ghost heap: seq<Word>, ghost objs: Objects, ghost t: Tables, ghost start: nat, ghost free: nat,
                 ghost pages: nat, ghost roots: seq<Word>)
    returns (ok: bool, loaded: array<Word>, found: seq<Word>)
    requires ValidFile(file, sum) ==> CheckpointOf(file, heap, objs, t, start, free, pages, roots)
                                      && BothAbove(start, free, base)
    ensures ok == ValidFile(file, sum)
    ensures ok ==> FoundRoots(found, roots, start, base)
    ensures ok ==> fresh(loaded) && free <= |heap|
                   && (Moved(loaded[..], heap[..free], objs, start, free, base)
                       <==> AllSurvive(heap[..free], objs, start, free))
  {
    ok := Validate(file, sum);
    loaded, found := new Word[0], [];
    if !ok {
      return;
    }
    hide Consistent, FreshPage, PageIn, HeaderValid, MetadataIn, Converted, Moved, AllSurvive, NoHoles, TablesOf,
         FoundRoots, NamesRoots;
    var m := MetadataIn(file);
    var size := file[1] / 8;
    loaded := new Word[size](_ => 0);
    for p := 0 to CountIn(file)
      invariant Loaded(loaded[..], file, p, size)
    {
      if m.state[p] != STATE_FREE && LiveWords(size, p) > 0 {
        ghost var was := loaded[..];
        LoadWords(loaded, file, p);
        OneMoreLoaded(was, file, p, size);
      }
    }
    ghost var image := loaded[..];
    LoadedIsEncoded(image, file, heap, objs, start, free);
    ImageReady(image, heap, objs, t, PageTables(m.used, m.first, m.covering), start, free, pages);
    OffsetsToPointers(loaded, PageTables(m.used, m.first, m.covering), size, base, image, heap, objs, t, start, pages);
    ImageRoundTrip(heap[..free], objs, start, free, base, image, loaded[..]);
    found := FindRoots(file, base, roots, start);
  }

  /** The roots that a restart looks for, through the header. */
  method FindRoots(file: seq<Word>, base: nat, ghost roots: seq<Word>, ghost start: nat) returns (found: seq<Word>)
    requires NamesRoots(file, roots, start) && 8 * start < W.TWO_64 && 8 * base < W.TWO_64
    ensures FoundRoots(found, roots, start, base)
  {
    hide NamesRoots, MovedPointer;
    assert |file| >= HEADER_WORDS && |roots| == 5 by { RootsNamed(file, roots, start); }
    found := [W.Wrap(8 * base + file[5]), W.Wrap(8 * base + file[6]), W.Wrap(8 * base + file[7]),
              W.Wrap(8 * base + file[8])];
    forall k | 0 <= k < 4
      ensures found[k] == MovedPointer(roots[k], start, base) <==> roots[k] % 4 == 0
      ensures roots[k] % 4 != 0 ==> found[k] == 8 * base
    {
      RootFound(file, roots, start, base, k);
    }
  }

  lemma RootsNamed(file: seq<Word>, roots: seq<Word>, start: nat)
    requires NamesRoots(file, roots, start)
    ensures |file| >= HEADER_WORDS && |roots| == 5
  {
  }

  lemma ImageReady(image: seq<Word>, heap: seq<Word>, objs: Objects, t: Tables, pt: PageTables, start: nat, free: nat,
                   pages: nat)
    requires StartAbove(start, free) && free <= |heap| && Source(heap, objs, t, pt, start, free, pages)
             && image == Encoded(heap, objs, start, free)
    ensures Apart(heap[..free], objs, free)
    ensures Converted(image, heap[..free], objs, objs.Keys, Outward(start, free))
            && Loading(image, heap, objs, t, pt, start, free, pages)
  {
    hide NoHoles, TablesOf, Encoded, Converted, InSlots;
    HeapPrefix(heap, objs, t, start, free, pages);
    ConvertedIsEncoded(image, heap, objs, start, free);
    ImageHeaders(image, heap[..free], objs, free, Outward(start, free));
  }
}
