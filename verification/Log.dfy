/**
 The durable transaction log: frames appended to a file of words, replayed over a heap that
 was loaded from an image at another address.  A crash cuts the file at any point; the
 checksum is any function of words.
 */
module Log {
  import W = Words
  import opened Heap
  import opened Image

  const MAGIC: Word := 0x4152_4c4f_5458_4e31
  const FRAME_HEADER := 3
  const ENTRY := 3
  const MAX_COUNT := 0xFFFF_FFFF_FFFF_FFFF / 24
  const BYTE_FLAG := W.TWO_63

  /** One logged store: a field of an object, or one of its bytes when the index has its top bit set. */
  datatype Store = Store(obj: Word, index: Word, value: Word)

  // ----------------------------------------------------------------- values in the log

  function EncodeValue(v: Word, heapStart: nat, heapLimit: nat): Word {
    if v % 4 == 0 && heapStart <= v < heapLimit then W.Wrap(v - heapStart + 8) else v
  }

  function DecodeValue(v: Word, heapStart: nat, heapUsed: nat): Word {
    if v % 4 == 0 && 8 <= v <= heapUsed then W.Wrap(heapStart + (v - 8)) else v
  }

  /**
   The values that come back relocated: not tagged, too small for an offset, pointers into the
   image, or out of reach of both ends.
   */
  predicate ValueSurvives(v: Word, start: nat, free: nat, limit: nat) {
    || v % 4 != 0 || v < 8
    || (InHeap(v, start, free) && v != 8 * (start + free) - 4)
    || (v > 8 * free && !(8 * start <= v < 8 * limit))
  }

  /** The heap at append time reaches to `limit`, that of the image to `free`. */
  predicate Bases(start: nat, free: nat, limit: nat, base: nat) {
    BothAbove(start, free, base) && start + free <= limit && 8 * (limit + 1) < W.TWO_64
  }

  lemma ValueRoundTrip(v: Word, start: nat, free: nat, limit: nat, base: nat)
    requires Bases(start, free, limit, base)
    ensures DecodeValue(EncodeValue(v, 8 * start, 8 * limit), 8 * base, 8 * free) == Relocate(v, start, free, base)
            <==> ValueSurvives(v, start, free, limit)
  {
    if v % 4 == 0 {
      TaggedRoundTrip(v / 4, start, free, limit, base);
    }
  }

  lemma TaggedRoundTrip(q: nat, start: nat, free: nat, limit: nat, base: nat)
    requires Bases(start, free, limit, base) && 4 * q < W.TWO_64
    ensures DecodeValue(EncodeValue(4 * q, 8 * start, 8 * limit), 8 * base, 8 * free)
            == Relocate(4 * q, start, free, base)
            <==> ValueSurvives(4 * q, start, free, limit)
  {
    if 2 * start <= q < 2 * limit {
      assert EncodeValue(4 * q, 8 * start, 8 * limit) == 4 * (q - 2 * start + 2);
    }
  }

  // ----------------------------------------------------------------- stores

  /** Stored, or outside the heap, where a store has no defined effect. */
  datatype Stored = Done(heap: seq<Word>) | Wild

  /** The word that a store into the object at byte offset `offset` writes. */
  function Target(offset: nat, index: Word): nat {
    offset / 8 + HEADER + if index < BYTE_FLAG then index else (index - BYTE_FLAG) / 8
  }

  /** What becomes of that word. */
  function Written(was: Word, index: Word, value: Word): Word {
    if index < BYTE_FLAG then value else W.SetByte(was, (index - BYTE_FLAG) % 8, W.UntagSmallInt(value) % 256)
  }

  function StoreAt(heap: seq<Word>, offset: nat, index: Word, value: Word): (r: Stored)
    ensures r.Done? ==> |r.heap| == |heap|
  {
    var w := Target(offset, index);
    if offset % 8 != 0 || w >= |heap| then Wild else Done(heap[w := Written(heap[w], index, value)])
  }

  /** A committed transaction: its stores in order. */
  function Apply(heap: seq<Word>, start: nat, stores: seq<Store>): (r: Stored)
    ensures r.Done? ==> |r.heap| == |heap|
    decreases |stores|
  {
    if stores == [] then Done(heap)
    else if stores[0].obj < 8 * start then Wild
    else
      match StoreAt(heap, stores[0].obj - 8 * start, stores[0].index, stores[0].value)
      case Wild => Wild
      case Done(h) => Apply(h, start, stores[1..])
  }

  /**
   A transaction of one store: the field holds the value, or the byte the integer's low byte, and
   no other word changes.
   */
  lemma OneStore(heap: seq<Word>, start: nat, s: Store)
    requires 8 * start <= s.obj && s.obj % 8 == 0
    ensures var o: nat, r := s.obj / 8 - start, Apply(heap, start, [s]);
            if s.index < 0x8000_0000_0000_0000 then
              var w := o + 3 + s.index;
              if w < |heap| then r == Done(heap[w := s.value]) else r.Wild?
            else
              var w, k := o + 3 + (s.index - 0x8000_0000_0000_0000) / 8, (s.index - 0x8000_0000_0000_0000) % 8;
              if w < |heap| then
                && r.Done? && |r.heap| == |heap| && (forall i :: 0 <= i < |heap| && i != w ==> r.heap[i] == heap[i])
                && W.LowBytes(r.heap[w], 8) == W.LowBytes(heap[w], 8)[k := W.UntagSmallInt(s.value) % 256]
              else r.Wild?
  {
    hide W.LowBytes, W.UntagSmallInt;
    assert (s.obj - 8 * start) / 8 == s.obj / 8 - start && (s.obj - 8 * start) % 8 == 0;
    assert [s][1..] == [];
  }

  // ----------------------------------------------------------------- frames

  /** A transaction as it is logged, with the end of the heap at that time. */
  datatype Txn = Txn(stores: seq<Store>, limit: nat)

  function Body(stores: seq<Store>, start: nat, limit: nat): (r: seq<Word>)
    ensures |r| == ENTRY * |stores|
    ensures forall k :: 0 <= k < |stores| ==>
              && r[3 * k] == (stores[k].obj - 8 * start) % W.TWO_64 && r[3 * k + 1] == stores[k].index
              && r[3 * k + 2] == EncodeValue(stores[k].value, 8 * start, 8 * limit)
  {
    if stores == [] then []
    else [W.Wrap(stores[0].obj - 8 * start), stores[0].index, EncodeValue(stores[0].value, 8 * start, 8 * limit)]
         + Body(stores[1..], start, limit)
  }

  function Frame(body: seq<Word>, sum: seq<Word> -> Word): (r: seq<Word>)
    ensures |r| == FRAME_HEADER + |body| && r[0] == 0x4152_4c4f_5458_4e31 && r[2] == sum(body) && r[3..] == body
    ensures |body| / 3 < W.TWO_64 ==> r[1] == |body| / 3
  {
    [MAGIC, W.Wrap(|body| / ENTRY), sum(body)] + body
  }

  /** The stores of a transaction's buffer: a count, then three words each. */
  function StoresOf(log: seq<Word>, count: nat): (r: seq<Store>)
    requires |log| >= 1 + ENTRY * count
    ensures |r| == count
    ensures forall k :: 0 <= k < count ==> r[k] == Store(log[1 + 3 * k], log[2 + 3 * k], log[3 + 3 * k])
    decreases count
  {
    if count == 0 then [] else StoresOf(log, count - 1)
                               + [Store(log[ENTRY * count - 2], log[ENTRY * count - 1], log[ENTRY * count])]
  }

  predicate Loggable(s: Store, start: nat, limit: nat) { s.obj % 4 == 0 && 8 * start <= s.obj < 8 * limit }

  lemma {:induction false} BodyAppend(stores: seq<Store>, s: Store, start: nat, limit: nat)
    ensures Body(stores + [s], start, limit)
            == Body(stores, start, limit) + [W.Wrap(s.obj - 8 * start), s.index,
                                             EncodeValue(s.value, 8 * start, 8 * limit)]
  {
    if stores == [] {
      assert [s][1..] == [];
    } else {
      assert (stores + [s])[1..] == stores[1..] + [s];
      BodyAppend(stores[1..], s, start, limit);
    }
  }

  /**
   Appends a transaction's buffer as one frame; nothing is written when a store is into an
   object outside the heap.
   */
  method Append(file: seq<Word>, log: seq<Word>, start: nat, limit: nat, sum: seq<Word> -> Word)
      returns (ok: bool, file1: seq<Word>)
    requires |log| >= 1 && |log| >= 1 + ENTRY * log[0]
    ensures ok <==> forall s :: s in StoresOf(log, log[0]) ==> s.obj % 4 == 0 && 8 * start <= s.obj < 8 * limit
    ensures !ok ==> file1 == file
    ensures ok ==> file1 == file + Frame(Body(StoresOf(log, log[0]), start, limit), sum)
  {
    hide StoresOf, Body, EncodeValue;
    var count := log[0];
    var body: seq<Word> := [];
    NoStores(log, start, limit);
    file1 := file;
    for e := 0 to count
      invariant file1 == file
      invariant forall s :: s in StoresOf(log, e) ==> Loggable(s, start, limit)
      invariant body == Body(StoresOf(log, e), start, limit)
    {
      var obj, index, value := log[1 + ENTRY * e], log[2 + ENTRY * e], log[3 + ENTRY * e];
      NextStore(log, e);
      if obj % 4 != 0 || obj < 8 * start || obj >= 8 * limit {
        StoresPrefix(log, e + 1, count);
        assert Store(obj, index, value) in StoresOf(log, e + 1);
        return false, file;
      }
      BodyAppend(StoresOf(log, e), Store(obj, index, value), start, limit);
      body := body + [obj - 8 * start, index, EncodeValue(value, 8 * start, 8 * limit)];
    }
    ok := true;
    file1 := file + ([MAGIC, count, sum(body)] + body);
  }

  lemma NoStores(log: seq<Word>, start: nat, limit: nat)
    requires |log| >= 1
    ensures StoresOf(log, 0) == [] && Body([], start, limit) == []
  {
  }

  lemma NextStore(log: seq<Word>, e: nat)
    requires |log| >= 1 + ENTRY * (e + 1)
    ensures StoresOf(log, e + 1) == StoresOf(log, e)
            + [Store(log[1 + ENTRY * e], log[2 + ENTRY * e], log[3 + ENTRY * e])]
  {
  }

  lemma {:induction false} StoresPrefix(log: seq<Word>, e: nat, count: nat)
    requires e <= count && |log| >= 1 + ENTRY * count
    ensures forall s :: s in StoresOf(log, e) ==> s in StoresOf(log, count)
    decreases count
  {
    if e < count {
      StoresPrefix(log, e, count - 1);
    }
  }

  // ----------------------------------------------------------------- replay

  /**
   All complete frames applied; or given up in the middle, for an object or a frame that cannot be;
   or a wild store.
   */
  datatype Replayed = Recovered(heap: seq<Word>) | Refused(heap: seq<Word>) | WildStore

  function ReplayBody(body: seq<Word>, heap: seq<Word>, base: nat): (r: Replayed)
    requires |body| % ENTRY == 0
    ensures !r.WildStore? ==> |r.heap| == |heap|
  {
    if body == [] then Recovered(heap)
    else if body[0] >= 8 * |heap| then Refused(heap)
    else
      match StoreAt(heap, body[0], body[1], DecodeValue(body[2], 8 * base, 8 * |heap|))
      case Wild => WildStore
      case Done(h) => ReplayBody(body[ENTRY..], h, base)
  }

  /** The body of the frame that a file starts with. */
  function FrameBody(file: seq<Word>): (r: seq<Word>)
    requires |file| >= FRAME_HEADER && |file| >= FRAME_HEADER + ENTRY * file[1]
    ensures |r| == ENTRY * file[1] && |r| % ENTRY == 0
  {
    Triple(file[1]);
    file[FRAME_HEADER..FRAME_HEADER + ENTRY * file[1]]
  }

  lemma Triple(n: nat)
    ensures ENTRY * n % ENTRY == 0
  {
  }

  function Replay(file: seq<Word>, heap: seq<Word>, base: nat, sum: seq<Word> -> Word): (r: Replayed)
    ensures !r.WildStore? ==> |r.heap| == |heap|
    decreases |file|
  {
    if |file| < FRAME_HEADER then Recovered(heap)
    else if file[0] != MAGIC || file[1] > MAX_COUNT then Refused(heap)
    else
      var n := ENTRY * file[1];
      if n != 0 && |file| < FRAME_HEADER + n then Recovered(heap)
      else
        var body := FrameBody(file);
        if n != 0 && sum(body) != file[2] then Recovered(heap)
        else
          match ReplayBody(body, heap, base)
          case Recovered(h) => Replay(file[FRAME_HEADER + n..], h, base, sum)
          case r => r
  }

  /** Replays a file over the words of a loaded heap, in place. */
  method ReplayInPlace(file: seq<Word>, heap: array<Word>, base: nat, sum: seq<Word> -> Word) returns (ok: bool)
    requires !Replay(file, heap[..], base, sum).WildStore?
    modifies heap
    ensures var r := Replay(file, old(heap[..]), base, sum); !r.WildStore? && heap[..] == r.heap && ok == r.Recovered?
  {
    var rest: seq<Word> := file;
    while true
      invariant Replay(rest, heap[..], base, sum) == Replay(file, old(heap[..]), base, sum)
      decreases |rest|
    {
      if |rest| < FRAME_HEADER {
        return true;
      }
      if rest[0] != MAGIC || rest[1] > MAX_COUNT {
        return false;
      }
      var n := ENTRY * rest[1];
      if n != 0 && |rest| < FRAME_HEADER + n {
        return true;
      }
      var body := FrameBody(rest);
      if n != 0 && sum(body) != rest[2] {
        return true;
      }
      ok := ReplayFrame(body, heap, base);
      if !ok {
        return;
      }
      rest := rest[FRAME_HEADER + n..];
    }
  }

  lemma BodyStep(body: seq<Word>, heap: seq<Word>, base: nat)
    requires |body| % ENTRY == 0 && body != []
    ensures |body| >= ENTRY
    ensures body[0] >= 8 * |heap| ==> ReplayBody(body, heap, base) == Refused(heap)
    ensures body[0] < 8 * |heap| ==>
              var r := StoreAt(heap, body[0], body[1], DecodeValue(body[2], 8 * base, 8 * |heap|));
              ReplayBody(body, heap, base) == if r.Wild? then WildStore else ReplayBody(body[ENTRY..], r.heap, base)
  {
  }

  lemma BodyEnd(heap: seq<Word>, base: nat)
    ensures ReplayBody([], heap, base) == Recovered(heap)
  {
  }

  /** A word or a byte stored into an object of the heap. */
  method StoreInPlace(heap: array<Word>, offset: nat, index: Word, value: Word)
    requires !StoreAt(heap[..], offset, index, value).Wild?
    modifies heap
    ensures Done(heap[..]) == StoreAt(old(heap[..]), offset, index, value)
  {
    ghost var was := heap[..];
    var w, v := NewWord(heap, offset, index, value);
    hide Target, Written;
    heap[w] := v;
    assert heap[..] == was[w := v];
  }

  method NewWord(heap: array<Word>, offset: nat, index: Word, value: Word) returns (w: nat, v: Word)
    requires !StoreAt(heap[..], offset, index, value).Wild?
    ensures w == Target(offset, index) < heap.Length && v == Written(heap[w], index, value)
  {
    hide W.SetByte, W.UntagSmallInt;
    if index >= BYTE_FLAG {
      var b := index - BYTE_FLAG;
      w := offset / 8 + HEADER + b / 8;
      v := W.SetByte(heap[w], b % 8, W.UntagSmallInt(value) % 256);
    } else {
      w, v := offset / 8 + HEADER + index, value;
    }
  }

  method ReplayFrame(body: seq<Word>, heap: array<Word>, base: nat) returns (ok: bool)
    requires |body| % ENTRY == 0 && !ReplayBody(body, heap[..], base).WildStore?
    modifies heap
    ensures var r := ReplayBody(body, old(heap[..]), base); !r.WildStore? && heap[..] == r.heap && ok == r.Recovered?
  {
    hide StoreAt, DecodeValue, ReplayBody;
    var rest: seq<Word> := body;
    while rest != []
      invariant |rest| % ENTRY == 0 && ReplayBody(rest, heap[..], base) == ReplayBody(body, old(heap[..]), base)
      decreases |rest|
    {
      BodyStep(rest, heap[..], base);
      if rest[0] >= 8 * heap.Length {
        return false;
      }
      StoreInPlace(heap, rest[0], rest[1], DecodeValue(rest[2], 8 * base, 8 * heap.Length));
      rest := rest[ENTRY..];
    }
    BodyEnd(heap[..], base);
    return true;
  }

  // ----------------------------------------------------------------- crash recovery

  /**
   A store that concerns the image alone: a surviving value into a field of an object in it, or a
   byte into an object of bytes.
   */
  predicate InImage(heap: seq<Word>, objs: Objects, start: nat, free: nat, limit: nat, s: Store) {
    && s.obj % 8 == 0 && 8 * start <= s.obj
    && var o := s.obj / 8 - start;
       && o in objs && o + 1 < |heap|
       && if s.index < BYTE_FLAG then
            s.index + HEADER < objs[o] && heap[o + 1] != FORMAT_BYTES && ValueSurvives(s.value, start, free, limit)
          else
            (s.index - BYTE_FLAG) / 8 + HEADER < objs[o] && heap[o + 1] == FORMAT_BYTES && W.IsSmallInt(s.value)
  }

  predicate AllInImage(heap: seq<Word>, objs: Objects, start: nat, free: nat, limit: nat, stores: seq<Store>) {
    forall s :: s in stores ==> InImage(heap, objs, start, free, limit, s)
  }

  /** The two heaps have the same headers. */
  ghost predicate SameHeaders(heap: seq<Word>, heap1: seq<Word>, objs: Objects) {
    |heap1| == |heap| && forall o :: o in objs ==> o + 2 < |heap| && heap1[o + 1] == heap[o + 1]
                                                   && heap1[o + 2] == heap[o + 2]
  }

  /** A field's word is a slot exactly when its object does not hold bytes, and no header. */
  lemma FieldWord(heap: seq<Word>, objs: Objects, free: nat, o: nat, w: nat, v: Word)
    requires Apart(heap, objs, free) && o in objs && o + HEADER <= w < o + objs[o]
    ensures w < |heap| && o + 1 < |heap| && (IsSlot(heap, objs, w) <==> heap[o + 1] != FORMAT_BYTES)
    ensures SameHeaders(heap, heap[w := v], objs)
  {
    assert SlotIn(heap, o, objs[o], w) <==> heap[o + 1] != FORMAT_BYTES;
    forall q | q in objs && q != o ensures q + HEADER <= |heap| && !SlotIn(heap, q, objs[q], w) && w != q + 1
        && w != q + 2 {
      assert q < o || o < q;
    }
  }

  lemma HeadersApart(heap: seq<Word>, heap1: seq<Word>, objs: Objects, free: nat)
    requires Apart(heap, objs, free) && SameHeaders(heap, heap1, objs)
    ensures Apart(heap1, objs, free)
    ensures forall i :: IsSlot(heap1, objs, i) <==> IsSlot(heap, objs, i)
  {
    forall i ensures IsSlot(heap1, objs, i) <==> IsSlot(heap, objs, i) {
      SlotsAgree(heap1, heap, objs, i);
    }
  }

  /** A store and its replay keep a heap and its moved copy in step. */
  ghost predicate InStep(heap: seq<Word>, heap1: seq<Word>, objs: Objects, start: nat, free: nat, base: nat,
                         r: Replayed) {
    && r.Recovered? && |heap| == |heap1| == free && SameHeaders(heap, heap1, objs)
       && Moved(r.heap, heap1, objs, start, free, base)
  }

  /** Where a store into the image lands: in a field of its object. */
  lemma StoreLands(heap: seq<Word>, objs: Objects, start: nat, free: nat, limit: nat, s: Store)
    requires Apart(heap, objs, free) && InImage(heap, objs, start, free, limit, s)
    ensures var o, w := s.obj / 8 - start, Target(s.obj - 8 * start, s.index);
            && 0 <= o && o in objs && s.obj - 8 * start == 8 * o && o + objs[o] <= free <= |heap|
               && o + HEADER <= w < o + objs[o]
            && (heap[o + 1] != FORMAT_BYTES <==> s.index < BYTE_FLAG)
            && (if s.index < BYTE_FLAG then ValueSurvives(s.value, start, free, limit) else W.IsSmallInt(s.value))
  {
    hide ValueSurvives;
  }

  lemma MovedWord(loaded: seq<Word>, heap: seq<Word>, objs: Objects, start: nat, free: nat, base: nat, w: nat)
    requires Moved(loaded, heap, objs, start, free, base) && w < |heap|
    ensures |loaded| == |heap| && (!IsSlot(heap, objs, w) ==> loaded[w] == heap[w])
  {
  }

  /** What is written into the moved heap is what was written, moved. */
  lemma WrittenMoves(was: Word, was1: Word, start: nat, free: nat, limit: nat, base: nat, index: Word, value: Word)
    requires Bases(start, free, limit, base)
    requires if index < BYTE_FLAG then ValueSurvives(value, start, free, limit) else W.IsSmallInt(value) && was1 == was
    ensures var v, v1 := Written(was, index, value),
            Written(was1, index, DecodeValue(EncodeValue(value, 8 * start, 8 * limit), 8 * base, 8 * free));
            v1 == if index < BYTE_FLAG then Relocate(v, start, free, base) else v
  {
    hide W.SetByte, W.UntagSmallInt;
    if index < BYTE_FLAG {
      ValueRoundTrip(value, start, free, limit, base);
    }
  }

  lemma MovedUpdate(heap: seq<Word>, loaded: seq<Word>, objs: Objects, start: nat, free: nat, base: nat, w: nat,
                    v: Word, v1: Word)
    requires Moved(loaded, heap, objs, start, free, base) && w < |heap|
    requires v1 == if IsSlot(heap, objs, w) then Relocate(v, start, free, base) else v
    requires forall i :: IsSlot(heap[w := v], objs, i) <==> IsSlot(heap, objs, i)
    ensures |loaded| == |heap| && Moved(loaded[w := v1], heap[w := v], objs, start, free, base)
  {
    hide IsSlot;
  }

  lemma StoreMoves(heap: seq<Word>, loaded: seq<Word>, objs: Objects, start: nat, free: nat, limit: nat, base: nat,
                   s: Store)
    requires |heap| == free && Bases(start, free, limit, base) && Apart(heap, objs, free)
             && Moved(loaded, heap, objs, start, free, base)
    requires InImage(heap, objs, start, free, limit, s)
    ensures 8 * start <= s.obj && s.obj - 8 * start < 8 * free
    ensures var r := StoreAt(heap, s.obj - 8 * start, s.index, s.value);
            var l := StoreAt(loaded, s.obj - 8 * start, s.index,
                             DecodeValue(EncodeValue(s.value, 8 * start, 8 * limit), 8 * base, 8 * free));
            r.Done? && l.Done? && SameHeaders(heap, r.heap, objs) && Moved(l.heap, r.heap, objs, start, free, base)
  {
    hide Apart, InSlots, IsSlot, Moved, InImage, ValueSurvives, Written, DecodeValue, EncodeValue, Relocate, Target,
         SameHeaders;
    StoreLands(heap, objs, start, free, limit, s);
    var o: nat, w: nat := s.obj / 8 - start, Target(s.obj - 8 * start, s.index);
    var value := DecodeValue(EncodeValue(s.value, 8 * start, 8 * limit), 8 * base, 8 * free);
    MovedWord(loaded, heap, objs, start, free, base, w);
    var v, v1 := Written(heap[w], s.index, s.value), Written(loaded[w], s.index, value);
    FieldWord(heap, objs, free, o, w, v);
    assert v1 == if IsSlot(heap, objs, w) then Relocate(v, start, free, base) else v by {
      WrittenMoves(heap[w], loaded[w], start, free, limit, base, s.index, s.value);
    }
    assert StoreAt(heap, s.obj - 8 * start, s.index, s.value) == Done(heap[w := v]);
    assert StoreAt(loaded, s.obj - 8 * start, s.index, value) == Done(loaded[w := v1]);
    assert Moved(loaded[w := v1], heap[w := v], objs, start, free, base) by {
      HeadersApart(heap, heap[w := v], objs, free);
      MovedUpdate(heap, loaded, objs, start, free, base, w, v, v1);
    }
  }

  /** One frame, replayed whole, does to the moved heap what the transaction did. */
  ghost predicate FrameInStep(heap: seq<Word>, loaded: seq<Word>, objs: Objects, start: nat, free: nat, limit: nat,
                              base: nat, stores: seq<Store>)
  {
    Apply(heap, start, stores).Done?
    && InStep(heap, Apply(heap, start, stores).heap, objs, start, free, base,
              ReplayBody(Body(stores, start, limit), loaded, base))
  }

  lemma FrameStep(heap: seq<Word>, loaded: seq<Word>, h: seq<Word>, l: seq<Word>, objs: Objects, start: nat,
                  free: nat, limit: nat, base: nat, stores: seq<Store>)
    requires |heap| == |loaded| == |h| == |l| == free && Bases(start, free, limit, base)
    requires stores != [] && 0 <= stores[0].obj - 8 * start < 8 * free && SameHeaders(heap, h, objs)
    requires StoreAt(heap, stores[0].obj - 8 * start, stores[0].index, stores[0].value) == Done(h)
    requires StoreAt(loaded, stores[0].obj - 8 * start, stores[0].index,
                     DecodeValue(EncodeValue(stores[0].value, 8 * start, 8 * limit), 8 * base, 8 * free)) == Done(l)
    requires FrameInStep(h, l, objs, start, free, limit, base, stores[1..])
    ensures FrameInStep(heap, loaded, objs, start, free, limit, base, stores)
  {
    hide StoreAt, DecodeValue, EncodeValue, Moved, SameHeaders, Apply, ReplayBody, Body;
    ApplyStep(heap, start, stores);
    BodyHead(stores, start, limit);
    BodyStep(Body(stores, start, limit), loaded, base);
    SameThrough(heap, h, Apply(h, start, stores[1..]).heap, objs);
  }

  /** The heaps after one store, still in step. */
  lemma StoreHeaps(heap: seq<Word>, loaded: seq<Word>, objs: Objects, start: nat, free: nat, limit: nat, base: nat,
                   s: Store)
    returns (h: seq<Word>, l: seq<Word>)
    requires |heap| == |loaded| == free && Bases(start, free, limit, base) && Apart(heap, objs, free)
             && Moved(loaded, heap, objs, start, free, base)
    requires InImage(heap, objs, start, free, limit, s)
    ensures 0 <= s.obj - 8 * start < 8 * free && StoreAt(heap, s.obj - 8 * start, s.index, s.value) == Done(h)
    ensures StoreAt(loaded, s.obj - 8 * start, s.index,
                    DecodeValue(EncodeValue(s.value, 8 * start, 8 * limit), 8 * base, 8 * free)) == Done(l)
    ensures |h| == |l| == free && SameHeaders(heap, h, objs) && Apart(h, objs, free)
            && Moved(l, h, objs, start, free, base)
  {
    hide InImage, DecodeValue, EncodeValue, StoreAt, Moved, Apart, IsSlot, SameHeaders;
    StoreMoves(heap, loaded, objs, start, free, limit, base, s);
    h := StoreAt(heap, s.obj - 8 * start, s.index, s.value).heap;
    l := StoreAt(loaded, s.obj - 8 * start, s.index,
                 DecodeValue(EncodeValue(s.value, 8 * start, 8 * limit), 8 * base, 8 * free)).heap;
    HeadersApart(heap, h, objs, free);
  }

  lemma FirstInImage(heap: seq<Word>, objs: Objects, start: nat, free: nat, limit: nat, stores: seq<Store>)
    requires AllInImage(heap, objs, start, free, limit, stores) && stores != []
    ensures InImage(heap, objs, start, free, limit, stores[0])
  {
  }

  lemma NoStoresInStep(heap: seq<Word>, loaded: seq<Word>, objs: Objects, start: nat, free: nat, limit: nat, base: nat)
    requires |heap| == |loaded| == free && Apart(heap, objs, free) && Moved(loaded, heap, objs, start, free, base)
    ensures FrameInStep(heap, loaded, objs, start, free, limit, base, [])
  {
    SameSelf(heap, objs, free);
    hide Moved, Apart, SameHeaders;
  }

  lemma {:induction false} FrameMoves(heap: seq<Word>, loaded: seq<Word>, objs: Objects, start: nat, free: nat,
                                      limit: nat, base: nat, stores: seq<Store>)
    requires |heap| == |loaded| == free && Bases(start, free, limit, base) && Apart(heap, objs, free)
             && Moved(loaded, heap, objs, start, free, base)
    requires AllInImage(heap, objs, start, free, limit, stores)
    ensures FrameInStep(heap, loaded, objs, start, free, limit, base, stores)
    decreases |stores|
  {
    hide *;
    if stores == [] {
      NoStoresInStep(heap, loaded, objs, start, free, limit, base);
    } else {
      FirstInImage(heap, objs, start, free, limit, stores);
      var h, l := StoreHeaps(heap, loaded, objs, start, free, limit, base, stores[0]);
      assert AllInImage(h, objs, start, free, limit, stores[1..])
             by { SameImage(heap, h, objs, start, free, limit, stores); }
      assert FrameInStep(heap, loaded, objs, start, free, limit, base, stores) by {
        FrameMoves(h, l, objs, start, free, limit, base, stores[1..]);
        FrameStep(heap, loaded, h, l, objs, start, free, limit, base, stores);
      }
    }
  }

  lemma ApplyStep(heap: seq<Word>, start: nat, stores: seq<Store>)
    requires stores != [] && 8 * start <= stores[0].obj
    requires StoreAt(heap, stores[0].obj - 8 * start, stores[0].index, stores[0].value).Done?
    ensures Apply(heap, start, stores)
            == Apply(StoreAt(heap, stores[0].obj - 8 * start, stores[0].index, stores[0].value).heap, start,
                     stores[1..])
  {
  }

  lemma BodyHead(stores: seq<Store>, start: nat, limit: nat)
    requires stores != [] && 8 * start <= stores[0].obj
    ensures var b := Body(stores, start, limit);
            b != [] && b[0] == stores[0].obj - 8 * start && b[1] == stores[0].index
                && b[2] == EncodeValue(stores[0].value, 8 * start, 8 * limit)
            && b[ENTRY..] == Body(stores[1..], start, limit)
  {
    hide EncodeValue;
  }

  lemma SameImage(heap: seq<Word>, heap1: seq<Word>, objs: Objects, start: nat, free: nat, limit: nat,
                  stores: seq<Store>)
    requires AllInImage(heap, objs, start, free, limit, stores) && SameHeaders(heap, heap1, objs)
    ensures AllInImage(heap1, objs, start, free, limit, stores)
    ensures stores != [] ==> AllInImage(heap1, objs, start, free, limit, stores[1..])
  {
    hide ValueSurvives;
    forall s | s in stores ensures InImage(heap1, objs, start, free, limit, s) {
      assert InImage(heap, objs, start, free, limit, s);
    }
  }

  lemma SameThrough(heap: seq<Word>, mid: seq<Word>, heap1: seq<Word>, objs: Objects)
    requires SameHeaders(heap, mid, objs) && SameHeaders(mid, heap1, objs)
    ensures SameHeaders(heap, heap1, objs)
  {
  }

  /** Transactions that may be logged for this image. */
  predicate Recoverable(heap: seq<Word>, objs: Objects, start: nat, free: nat, base: nat, txns: seq<Txn>) {
    forall t :: t in txns ==>
      && Bases(start, free, t.limit, base) && |t.stores| <= MAX_COUNT
      && AllInImage(heap, objs, start, free, t.limit, t.stores)
  }

  /** The log file of some transactions. */
  function File(txns: seq<Txn>, start: nat, sum: seq<Word> -> Word): seq<Word> {
    if txns == [] then [] else Frame(Body(txns[0].stores, start, txns[0].limit), sum) + File(txns[1..], start, sum)
  }

  /** How many frames lie whole in the first `k` words of the file. */
  function Complete(txns: seq<Txn>, k: nat): (m: nat)
    ensures m <= |txns|
  {
    if txns == [] || k < FRAME_HEADER + ENTRY * |txns[0].stores| then 0
    else 1 + Complete(txns[1..], k - (FRAME_HEADER + ENTRY * |txns[0].stores|))
  }

  function ApplyAll(heap: seq<Word>, start: nat, txns: seq<Txn>): (r: Stored)
    ensures r.Done? ==> |r.heap| == |heap|
    decreases |txns|
  {
    if txns == [] then Done(heap)
    else
      match Apply(heap, start, txns[0].stores)
      case Wild => Wild
      case Done(h) => ApplyAll(h, start, txns[1..])
  }

  /** A file cut inside its first frame recovers nothing of it. */
  lemma TornFrame(body: seq<Word>, rest: seq<Word>, k: nat, heap: seq<Word>, base: nat, sum: seq<Word> -> Word)
    requires |body| % ENTRY == 0 && |body| / ENTRY <= MAX_COUNT && k < FRAME_HEADER + |body|
    ensures k <= |Frame(body, sum) + rest| && Replay((Frame(body, sum) + rest)[..k], heap, base, sum) == Recovered(heap)
  {
    var file := (Frame(body, sum) + rest)[..k];
    if k >= FRAME_HEADER {
      assert file[0] == MAGIC && file[1] == |body| / ENTRY;
    }
  }

  /**
   A whole frame whose body has not the checksum that the frame gives, whatever comes after it: nothing
   of either is applied.  A frame with another mark, or too many entries to be read, is refused.
   */
  lemma SpoiledFrame(file: seq<Word>, heap: seq<Word>, base: nat, sum: seq<Word> -> Word)
    requires |file| >= 3
    ensures file[0] != 0x4152_4c4f_5458_4e31 || file[1] > 768614336404564650 ==>
              Replay(file, heap, base, sum) == Refused(heap)
    ensures var n: nat := file[1];
            file[0] == 0x4152_4c4f_5458_4e31 && 0 < n <= MAX_COUNT && |file| >= 3 + 3 * n
            && sum(file[3..3 + 3 * n]) != file[2] ==>
              Replay(file, heap, base, sum) == Recovered(heap)
  {
    hide ReplayBody;
  }

  /** The first entry for an object outside the heap ends the replay, with the stores before it applied. */
  lemma {:induction false} OutsideRefused(before: seq<Word>, entry: seq<Word>, more: seq<Word>, heap: seq<Word>,
                                          base: nat)
    requires |before| % 3 == 0 && |more| % 3 == 0 && |entry| == 3 && entry[0] >= 8 * |heap|
    requires ReplayBody(before, heap, base).Recovered?
    ensures ReplayBody(before + entry + more, heap, base) == Refused(ReplayBody(before, heap, base).heap)
    decreases |before|
  {
    hide StoreAt, DecodeValue;
    var body := before + entry + more;
    if before == [] {
      assert body[0] == entry[0];
    } else {
      assert body[0] == before[0] && body[1] == before[1] && body[2] == before[2];
      assert body[3..] == before[3..] + entry + more;
      OutsideRefused(before[3..], entry, more,
                     StoreAt(heap, before[0], before[1], DecodeValue(before[2], 8 * base, 8 * |heap|)).heap, base);
    }
  }

  /** A whole frame is replayed, and then what follows it. */
  lemma WholeFrame(body: seq<Word>, rest: seq<Word>, k: nat, heap: seq<Word>, base: nat, sum: seq<Word> -> Word)
    requires |body| % ENTRY == 0 && |body| / ENTRY <= MAX_COUNT
             && FRAME_HEADER + |body| <= k <= FRAME_HEADER + |body| + |rest|
    requires ReplayBody(body, heap, base).Recovered?
    ensures Replay((Frame(body, sum) + rest)[..k], heap, base, sum)
            == Replay(rest[..k - (FRAME_HEADER + |body|)], ReplayBody(body, heap, base).heap, base, sum)
  {
    var file := (Frame(body, sum) + rest)[..k];
    assert file == [MAGIC, |body| / ENTRY, sum(body)] + (body + rest[..k - (FRAME_HEADER + |body|)]);
    assert ENTRY * file[1] == |body|;
    assert FrameBody(file) == body by {
      assert file[FRAME_HEADER..FRAME_HEADER + |body|] == body;
    }
    assert file[FRAME_HEADER + |body|..] == rest[..k - (FRAME_HEADER + |body|)];
  }

  /** A file of complete transactions and a cut one, replayed, gives the heap they were applied to, moved. */
  ghost predicate Recovers(heap: seq<Word>, loaded: seq<Word>, objs: Objects, start: nat, free: nat, base: nat,
                           txns: seq<Txn>, m: nat, file: seq<Word>, sum: seq<Word> -> Word)
    requires m <= |txns|
  {
    ApplyAll(heap, start, txns[..m]).Done?
    && InStep(heap, ApplyAll(heap, start, txns[..m]).heap, objs, start, free, base, Replay(file, loaded, base, sum))
  }

  lemma RecoverStep(heap: seq<Word>, loaded: seq<Word>, h: seq<Word>, l: seq<Word>, objs: Objects, start: nat,
                    free: nat, base: nat,
                    t: Txn, rest: seq<Txn>, n: nat, sum: seq<Word> -> Word)
    requires n <= |File(rest, start, sum)| && |t.stores| <= MAX_COUNT
    requires Apply(heap, start, t.stores) == Done(h)
             && ReplayBody(Body(t.stores, start, t.limit), loaded, base) == Recovered(l)
    requires |heap| == |h| && SameHeaders(heap, h, objs)
             && Recovers(h, l, objs, start, free, base, rest, Complete(rest, n), File(rest, start, sum)[..n], sum)
    ensures var k := FRAME_HEADER + ENTRY * |t.stores| + n;
            k <= |File([t] + rest, start, sum)|
            && Recovers(heap, loaded, objs, start, free, base, [t] + rest, Complete([t] + rest, k),
                        File([t] + rest, start, sum)[..k], sum)
  {
    hide Moved, ReplayBody, Apply, Frame, Body, Replay, SameHeaders;
    var body, k := Body(t.stores, start, t.limit), FRAME_HEADER + ENTRY * |t.stores| + n;
    var txns := [t] + rest;
    assert txns[1..] == rest;
    WholeFrame(body, File(rest, start, sum), k, loaded, base, sum);
    var m := Complete(txns, k);
    assert txns[..m][1..] == rest[..m - 1];
    SameThrough(heap, h, ApplyAll(h, start, rest[..m - 1]).heap, objs);
  }

  /** What a transaction leaves of a heap, and its frame of the moved one. */
  lemma FrameHeaps(heap: seq<Word>, loaded: seq<Word>, objs: Objects, start: nat, free: nat, limit: nat, base: nat,
                   stores: seq<Store>)
    returns (h: seq<Word>, l: seq<Word>)
    requires |heap| == |loaded| == free && Apart(heap, objs, free)
             && FrameInStep(heap, loaded, objs, start, free, limit, base, stores)
    ensures Apply(heap, start, stores) == Done(h)
            && ReplayBody(Body(stores, start, limit), loaded, base) == Recovered(l)
    ensures |h| == |l| == free && SameHeaders(heap, h, objs) && Apart(h, objs, free)
            && Moved(l, h, objs, start, free, base)
  {
    h, l := Apply(heap, start, stores).heap, ReplayBody(Body(stores, start, limit), loaded, base).heap;
    hide Moved, Apart, Apply, ReplayBody, Body, SameHeaders;
    HeadersApart(heap, h, objs, free);
  }

  lemma NothingComplete(heap: seq<Word>, loaded: seq<Word>, objs: Objects, start: nat, free: nat, base: nat,
                        txns: seq<Txn>, k: nat, sum: seq<Word> -> Word)
    requires |heap| == |loaded| == free && Apart(heap, objs, free) && Moved(loaded, heap, objs, start, free, base)
    requires Recoverable(heap, objs, start, free, base, txns) && k <= |File(txns, start, sum)|
    requires txns == [] || k < FRAME_HEADER + ENTRY * |txns[0].stores|
    ensures Recovers(heap, loaded, objs, start, free, base, txns, Complete(txns, k), File(txns, start, sum)[..k], sum)
  {
    SameSelf(heap, objs, free);
    hide Moved, Apart, SameHeaders, AllInImage, Frame, Replay;
    if txns == [] {
      assert Replay([], loaded, base, sum) == Recovered(loaded) by { EmptyFile(loaded, base, sum); }
      assert File(txns, start, sum)[..k] == [];
    } else {
      TornFrame(Body(txns[0].stores, start, txns[0].limit), File(txns[1..], start, sum), k, loaded, base, sum);
    }
  }

  lemma FileHead(t: Txn, rest: seq<Txn>, start: nat, sum: seq<Word> -> Word)
    ensures |File([t] + rest, start, sum)| == FRAME_HEADER + ENTRY * |t.stores| + |File(rest, start, sum)|
  {
    assert ([t] + rest)[1..] == rest;
  }

  /** The heaps after the first transaction, still in step. */
  lemma FirstFrame(heap: seq<Word>, loaded: seq<Word>, objs: Objects, start: nat, free: nat, base: nat, t: Txn,
                   rest: seq<Txn>)
    returns (h: seq<Word>, l: seq<Word>)
    requires |heap| == |loaded| == free && BothAbove(start, free, base) && Apart(heap, objs, free)
             && Moved(loaded, heap, objs, start, free, base)
    requires Recoverable(heap, objs, start, free, base, [t] + rest)
    ensures |t.stores| <= MAX_COUNT
    ensures Apply(heap, start, t.stores) == Done(h)
            && ReplayBody(Body(t.stores, start, t.limit), loaded, base) == Recovered(l)
    ensures |h| == |l| == free && SameHeaders(heap, h, objs) && Apart(h, objs, free)
            && Moved(l, h, objs, start, free, base)
    ensures Recoverable(h, objs, start, free, base, rest)
  {
    assert t in [t] + rest && ([t] + rest)[1..] == rest;
    hide AllInImage, Moved, Apart, Apply, ReplayBody, Body, SameHeaders, FrameInStep;
    FrameMoves(heap, loaded, objs, start, free, t.limit, base, t.stores);
    h, l := FrameHeaps(heap, loaded, objs, start, free, t.limit, base, t.stores);
    StillRecoverable(heap, h, objs, start, free, base, [t] + rest);
  }

  lemma EmptyFile(loaded: seq<Word>, base: nat, sum: seq<Word> -> Word)
    ensures Replay([], loaded, base, sum) == Recovered(loaded)
  {
  }

  /**
   Crash recovery: whatever the log and wherever a crash cuts its file, replaying it over the
   image loaded at another address gives the heap to which exactly the complete transactions
   have been applied, in order, moved there.
   */
  lemma {:induction false} CrashRecovery(heap: seq<Word>, loaded: seq<Word>, objs: Objects, start: nat, free: nat,
                                         base: nat,
                                         txns: seq<Txn>, k: nat, sum: seq<Word> -> Word)
    requires |heap| == |loaded| == free && BothAbove(start, free, base) && Apart(heap, objs, free)
             && Moved(loaded, heap, objs, start, free, base)
    requires Recoverable(heap, objs, start, free, base, txns)
    requires k <= |File(txns, start, sum)|
    ensures Recovers(heap, loaded, objs, start, free, base, txns, Complete(txns, k), File(txns, start, sum)[..k], sum)
    decreases |txns|
  {
    hide *;
    if txns == [] || k < FRAME_HEADER + ENTRY * |txns[0].stores| {
      NothingComplete(heap, loaded, objs, start, free, base, txns, k, sum);
    } else {
      var t, rest := txns[0], txns[1..];
      var n := k - (FRAME_HEADER + ENTRY * |t.stores|);
      assert txns == [t] + rest;
      var h, l := FirstFrame(heap, loaded, objs, start, free, base, t, rest);
      assert n <= |File(rest, start, sum)| by { FileHead(t, rest, start, sum); }
      CrashRecovery(h, l, objs, start, free, base, rest, n, sum);
      RecoverStep(heap, loaded, h, l, objs, start, free, base, t, rest, n, sum);
    }
  }

  lemma SameSelf(heap: seq<Word>, objs: Objects, free: nat)
    requires Apart(heap, objs, free)
    ensures SameHeaders(heap, heap, objs)
  {
  }

  lemma StillRecoverable(heap: seq<Word>, heap1: seq<Word>, objs: Objects, start: nat, free: nat, base: nat,
                         txns: seq<Txn>)
    requires Recoverable(heap, objs, start, free, base, txns) && SameHeaders(heap, heap1, objs)
    ensures Recoverable(heap1, objs, start, free, base, txns)
    ensures txns != [] ==> Recoverable(heap1, objs, start, free, base, txns[1..])
  {
    hide AllInImage;
    forall t | t in txns ensures AllInImage(heap1, objs, start, free, t.limit, t.stores) {
      SameImage(heap, heap1, objs, start, free, t.limit, t.stores);
    }
  }

  // ----------------------------------------------------------------- replaying again

  /** The stores that a replay makes, by byte offset, and whether it gets to the end. */
  datatype Plan = Plan(stores: seq<Store>, whole: bool)

  function PlanBody(body: seq<Word>, size: nat, base: nat): Plan
    requires |body| % ENTRY == 0
  {
    if body == [] then Plan([], true)
    else if body[0] >= 8 * size then Plan([], false)
    else
      var p := PlanBody(body[ENTRY..], size, base);
      Plan([Store(body[0], body[1], DecodeValue(body[2], 8 * base, 8 * size))] + p.stores, p.whole)
  }

  function PlanFile(file: seq<Word>, size: nat, base: nat, sum: seq<Word> -> Word): Plan
    decreases |file|
  {
    if |file| < FRAME_HEADER then Plan([], true)
    else if file[0] != MAGIC || file[1] > MAX_COUNT then Plan([], false)
    else
      var n := ENTRY * file[1];
      if n != 0 && |file| < FRAME_HEADER + n then Plan([], true)
      else
        var body := FrameBody(file);
        if n != 0 && sum(body) != file[2] then Plan([], true)
        else
          var p := PlanBody(body, size, base);
          if !p.whole then p
          else
            var q := PlanFile(file[FRAME_HEADER + n..], size, base, sum);
            Plan(p.stores + q.stores, q.whole)
  }

  function Outcome(r: Stored, whole: bool): Replayed {
    if r.Wild? then WildStore else if whole then Recovered(r.heap) else Refused(r.heap)
  }

  lemma {:induction false} BodyPlanned(body: seq<Word>, heap: seq<Word>, base: nat)
    requires |body| % ENTRY == 0
    ensures var p := PlanBody(body, |heap|, base);
            ReplayBody(body, heap, base) == Outcome(Apply(heap, 0, p.stores), p.whole)
    decreases |body|
  {
    if body != [] && body[0] < 8 * |heap| {
      hide StoreAt, DecodeValue;
      var s := StoreAt(heap, body[0], body[1], DecodeValue(body[2], 8 * base, 8 * |heap|));
      if s.Done? {
        BodyPlanned(body[ENTRY..], s.heap, base);
      }
    }
  }

  lemma {:induction false} ApplyBoth(heap: seq<Word>, a: seq<Store>, b: seq<Store>)
    ensures Apply(heap, 0, a + b) == if Apply(heap, 0, a).Wild? then Wild else Apply(Apply(heap, 0, a).heap, 0, b)
    decreases |a|
  {
    hide StoreAt;
    if a == [] {
      assert a + b == b;
    } else {
      assert (a + b)[1..] == a[1..] + b;
      var s := StoreAt(heap, a[0].obj, a[0].index, a[0].value);
      if s.Done? {
        ApplyBoth(s.heap, a[1..], b);
      }
    }
  }

  /** A replay is the stores of its plan, which the heap's contents do not change. */
  lemma {:induction false} FilePlanned(file: seq<Word>, heap: seq<Word>, base: nat, sum: seq<Word> -> Word)
    ensures var p := PlanFile(file, |heap|, base, sum);
            Replay(file, heap, base, sum) == Outcome(Apply(heap, 0, p.stores), p.whole)
    decreases |file|
  {
    if |file| >= FRAME_HEADER && file[0] == MAGIC && file[1] <= MAX_COUNT {
      var n := ENTRY * file[1];
      if n == 0 || |file| >= FRAME_HEADER + n {
        var body, rest := FrameBody(file), file[FRAME_HEADER + n..];
        if n == 0 || sum(body) == file[2] {
          hide Apply, PlanBody, ReplayBody;
          BodyPlanned(body, heap, base);
          var p := PlanBody(body, |heap|, base);
          if p.whole {
            ApplyBoth(heap, p.stores, PlanFile(rest, |heap|, base, sum).stores);
            if Apply(heap, 0, p.stores).Done? {
              FilePlanned(rest, Apply(heap, 0, p.stores).heap, base, sum);
            }
          }
        }
      }
    }
  }

  // what stores do to single bytes

  function ByteAt(heap: seq<Word>, w: nat, k: nat): W.Byte
    requires w < |heap| && k < 8
  {
    W.LowBytes(heap[w], 8)[k]
  }

  predicate Touches(s: Store, w: nat, k: nat) {
    Target(s.obj, s.index) == w && (s.index < BYTE_FLAG || (s.index - BYTE_FLAG) % 8 == k)
  }

  function ByteOf(s: Store, k: nat): W.Byte
    requires k < 8
  {
    if s.index < BYTE_FLAG then W.LowBytes(s.value, 8)[k] else W.UntagSmallInt(s.value) % 256
  }

  /** The byte after the stores, when it was `b` before. */
  function Final(stores: seq<Store>, w: nat, k: nat, b: W.Byte): W.Byte
    requires k < 8
    decreases |stores|
  {
    if stores == [] then b else Final(stores[1..], w, k, if Touches(stores[0], w, k) then ByteOf(stores[0], k) else b)
  }

  lemma StoreByte(heap: seq<Word>, s: Store, w: nat, k: nat)
    requires StoreAt(heap, s.obj, s.index, s.value).Done? && w < |heap| && k < 8
    ensures ByteAt(StoreAt(heap, s.obj, s.index, s.value).heap, w, k) == if Touches(s, w, k)
            then ByteOf(s, k) else ByteAt(heap, w, k)
  {
    hide W.UntagSmallInt, W.LowBytes;
  }

  lemma {:induction false} ApplyByte(heap: seq<Word>, stores: seq<Store>, w: nat, k: nat)
    requires Apply(heap, 0, stores).Done? && w < |heap| && k < 8
    ensures ByteAt(Apply(heap, 0, stores).heap, w, k) == Final(stores, w, k, ByteAt(heap, w, k))
    decreases |stores|
  {
    if stores != [] {
      hide StoreAt, ByteAt, Touches, ByteOf;
      StoreByte(heap, stores[0], w, k);
      ApplyByte(StoreAt(heap, stores[0].obj, stores[0].index, stores[0].value).heap, stores[1..], w, k);
    }
  }

  /** Stores either leave a byte alone or set it, whatever it was. */
  lemma {:induction false} FinalFixed(stores: seq<Store>, w: nat, k: nat, b: W.Byte, c: W.Byte)
    requires k < 8
    ensures Final(stores, w, k, Final(stores, w, k, b)) == Final(stores, w, k, b)
    ensures (Final(stores, w, k, b) == b && Final(stores, w, k, c) == c)
            || Final(stores, w, k, b) == Final(stores, w, k, c)
    decreases |stores|
  {
    if stores != [] {
      hide Touches, ByteOf;
      if Touches(stores[0], w, k) {
        var d := ByteOf(stores[0], k);
        FinalFixed(stores[1..], w, k, d, d);
      } else {
        FinalFixed(stores[1..], w, k, b, c);
      }
    }
  }

  lemma SameBytes(a: seq<Word>, b: seq<Word>)
    requires |a| == |b| && forall w, k :: 0 <= w < |a| && 0 <= k < 8 ==> ByteAt(a, w, k) == ByteAt(b, w, k)
    ensures a == b
  {
    hide W.LowBytes, W.OfBytes;
    forall w | 0 <= w < |a| ensures a[w] == b[w] {
      forall k | 0 <= k < 8 ensures W.LowBytes(a[w], 8)[k] == W.LowBytes(b[w], 8)[k] {
        assert ByteAt(a, w, k) == ByteAt(b, w, k);
      }
      assert W.LowBytes(a[w], 8) == W.LowBytes(b[w], 8);
      W.EightBytes();
      W.NumberBack(a[w], 8);
      W.NumberBack(b[w], 8);
    }
  }

  /** Whether stores are wild does not depend on what the heap holds. */
  lemma {:induction false} SameWild(a: seq<Word>, b: seq<Word>, stores: seq<Store>)
    requires |a| == |b|
    ensures Apply(a, 0, stores).Wild? <==> Apply(b, 0, stores).Wild?
    decreases |stores|
  {
    if stores != [] {
      hide Target, Written;
      var x := StoreAt(a, stores[0].obj, stores[0].index, stores[0].value);
      var y := StoreAt(b, stores[0].obj, stores[0].index, stores[0].value);
      if x.Done? {
        SameWild(x.heap, y.heap, stores[1..]);
      }
    }
  }

  /** Replaying any log again, words and bytes mixed, changes nothing. */
  lemma ReplayTwice(file: seq<Word>, heap: seq<Word>, base: nat, sum: seq<Word> -> Word)
    requires !Replay(file, heap, base, sum).WildStore?
    ensures Replay(file, Replay(file, heap, base, sum).heap, base, sum) == Replay(file, heap, base, sum)
  {
    hide Apply, Replay, PlanFile, ByteAt, Final;
    var p := PlanFile(file, |heap|, base, sum);
    FilePlanned(file, heap, base, sum);
    var once := Apply(heap, 0, p.stores).heap;
    FilePlanned(file, once, base, sum);
    SameWild(heap, once, p.stores);
    var twice := Apply(once, 0, p.stores).heap;
    forall w, k | 0 <= w < |once| && 0 <= k < 8 ensures ByteAt(twice, w, k) == ByteAt(once, w, k) {
      ApplyByte(heap, p.stores, w, k);
      ApplyByte(once, p.stores, w, k);
      FinalFixed(p.stores, w, k, ByteAt(heap, w, k), ByteAt(heap, w, k));
    }
    SameBytes(twice, once);
  }

  /** A heap moves to one place in one way. */
  lemma MovedOnce(a: seq<Word>, b: seq<Word>, heap: seq<Word>, objs: Objects, start: nat, free: nat, base: nat)
    requires Moved(a, heap, objs, start, free, base) && Moved(b, heap, objs, start, free, base)
    ensures a == b
  {
    hide IsSlot, Relocate;
  }

  lemma {:induction false} AllComplete(txns: seq<Txn>, start: nat, sum: seq<Word> -> Word)
    ensures Complete(txns, |File(txns, start, sum)|) == |txns|
  {
    if txns != [] {
      AllComplete(txns[1..], start, sum);
    }
  }

  /**
   A crash between writing a new image and clearing the log: the whole log, replayed over the
   new image, gives what it gives over the old one.
   */
  lemma ImageThenCrash(heap: seq<Word>, heap1: seq<Word>, loaded: seq<Word>, loaded1: seq<Word>, objs: Objects,
                       start: nat, free: nat, base: nat, txns: seq<Txn>, sum: seq<Word> -> Word)
    requires |heap| == |heap1| == |loaded| == |loaded1| == free && BothAbove(start, free, base)
             && Apart(heap, objs, free)
    requires Recoverable(heap, objs, start, free, base, txns) && ApplyAll(heap, start, txns) == Done(heap1)
    requires Moved(loaded, heap, objs, start, free, base) && Moved(loaded1, heap1, objs, start, free, base)
    ensures Replay(File(txns, start, sum), loaded, base, sum).Recovered?
    ensures Replay(File(txns, start, sum), loaded1, base, sum) == Replay(File(txns, start, sum), loaded, base, sum)
  {
    hide Replay, Moved, Apart, Recoverable, ApplyAll, File;
    var file := File(txns, start, sum);
    AllComplete(txns, start, sum);
    CrashRecovery(heap, loaded, objs, start, free, base, txns, |file|, sum);
    assert file[..|file|] == file && txns[..|txns|] == txns;
    MovedOnce(Replay(file, loaded, base, sum).heap, loaded1, heap1, objs, start, free, base);
    ReplayTwice(file, loaded, base, sum);
  }
}
