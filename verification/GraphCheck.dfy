/**
 The collector's stress check: a depth-first comparison of a heap, which may be cyclic, with a
 shadow model of it.  The walk records a pointer for every shadow object and stops at the
 first disagreement.
 */
module GraphCheck {
  import W = Words

  type Word = W.Word
  type Byte = W.Byte

  const FORMAT_BYTES: Word := 2

  /** What a root or a field should hold: a word as it is, or the object with this id. */
  datatype Value = Raw(word: Word) | Ref(id: nat)

  /** A shadow object; its kind says which class it has. */
  datatype Shadow = Shadow(kind: nat, format: Word, size: nat, fields: seq<Value>, bytes: seq<Byte>) {
    predicate Valid() { kind < 4 && if format == FORMAT_BYTES then |bytes| == size else |fields| == size }
  }

  /** An object as it is in the heap. */
  datatype Cell = Cell(cls: Word, format: Word, size: nat, fields: seq<Word>, bytes: seq<Byte>) {
    predicate Valid() { if format == FORMAT_BYTES then |bytes| == size else |fields| == size }
  }

  /** The heap that is checked, by address, and the model it is checked against; ids count from 1. */
  datatype World = World(heap: map<Word, Cell>, shadows: seq<Shadow>, classes: seq<Word>, roots: seq<Value>) {
    predicate Valid() {
      |classes| == 4 && (forall s :: s in shadows ==> s.Valid()) && forall p :: p in heap ==> heap[p].Valid()
    }

    predicate Known(id: nat) { 0 < id <= |shadows| }
  }

  /** An assignment of pointers to some ids. */
  type Pointers = map<nat, Word>

  predicate ValueAgrees(v: Value, actual: Word, m: Pointers) {
    match v
    case Raw(w) => actual == w
    case Ref(id) => id in m && m[id] == actual
  }

  /** The heap object at `p` is the shadow with this id: class, format, size, every byte or every field. */
  predicate ObjectAgrees(w: World, id: nat, p: Word, m: Pointers)
    requires w.Valid()
  {
    && w.Known(id) && p % 4 == 0 && p in w.heap && w.shadows[id - 1] in w.shadows
    && var s, c := w.shadows[id - 1], w.heap[p];
       && c.format == s.format && c.size == s.size && c.cls == w.classes[s.kind]
       && if s.format == FORMAT_BYTES then c.bytes == s.bytes
          else forall k :: 0 <= k < s.size ==> ValueAgrees(s.fields[k], c.fields[k], m)
  }

  /** Every id with a pointer agrees with the heap, and refers only to such. */
  predicate Agreement(w: World, m: Pointers)
    requires w.Valid()
  {
    forall id :: id in m ==> ObjectAgrees(w, id, m[id], m)
  }

  predicate RootsAgree(w: World, actual: seq<Word>, m: Pointers)
    requires |actual| == |w.roots|
  {
    forall i :: 0 <= i < |actual| ==> ValueAgrees(w.roots[i], actual[i], m)
  }

  // ----------------------------------------------------------------- reachability

  /** The id is reached from the roots in at most `n` references. */
  ghost predicate Reached(w: World, id: nat, n: nat)
    requires w.Valid()
    decreases n
  {
    || Ref(id) in w.roots
    || (n > 0 && exists from: nat :: w.Known(from) && Reached(w, from, n - 1)
                                     && w.shadows[from - 1].format != FORMAT_BYTES
                                     && Ref(id) in w.shadows[from - 1].fields)
  }

  /** An agreement that covers the roots covers everything reachable from them. */
  lemma {:induction false} CoversReachable(w: World, actual: seq<Word>, m: Pointers, id: nat, n: nat)
    requires w.Valid() && |actual| == |w.roots| && Agreement(w, m) && RootsAgree(w, actual, m) && Reached(w, id, n)
    ensures id in m && ObjectAgrees(w, id, m[id], m)
    decreases n
  {
    if Ref(id) in w.roots {
      var i :| 0 <= i < |w.roots| && w.roots[i] == Ref(id);
      assert ValueAgrees(w.roots[i], actual[i], m);
    } else {
      var from: nat :| w.Known(from) && Reached(w, from, n - 1) && w.shadows[from - 1].format != FORMAT_BYTES
                       && Ref(id) in w.shadows[from - 1].fields;
      CoversReachable(w, actual, m, from, n - 1);
      var fields := w.shadows[from - 1].fields;
      assert w.shadows[from - 1] in w.shadows;
      var k :| 0 <= k < |fields| && fields[k] == Ref(id);
      assert ValueAgrees(fields[k], w.heap[m[from]].fields[k], m);
    }
  }

  // ----------------------------------------------------------------- the walk

  class Checker {
    const world: World
    /** By id, less 1: the pointer last seen, and in which epoch. */
    const ptr: array<Word>
    const seen: array<nat>
    var epoch: nat

    ghost predicate Valid()
      reads this, seen
    {
      world.Valid() && ptr.Length == seen.Length == |world.shadows| && Past()
    }

    /** No epoch that an object was seen in is still to come. */
    ghost predicate Past()
      reads this, seen
    {
      forall i :: 0 <= i < seen.Length ==> seen[i] <= epoch
    }

    constructor (world: World)
      requires world.Valid()
      ensures Valid() && fresh(ptr) && fresh(seen) && this.world == world && epoch == 0
    {
      this.world := world;
      ptr, seen := new Word[|world.shadows|](_ => 0), new nat[|world.shadows|](_ => 0);
      epoch := 0;
    }

    predicate IsSeen(id: nat)
      reads this, seen
    {
      0 < id <= seen.Length && seen[id - 1] == epoch
    }

    /** The pointers recorded in this epoch. */
    ghost function Recorded(): (m: Pointers)
      requires ptr.Length == seen.Length
      reads this, ptr, seen
    {
      map id: nat | 0 < id <= seen.Length && IsSeen(id) :: ptr[id - 1]
    }

    /** The ids not seen in this epoch. */
    ghost function Unseen(): set<nat>
      reads this, seen
    {
      set id: nat | 0 < id <= seen.Length && !IsSeen(id)
    }

    /** Records an object as seen at an address. */
    method Enter(id: nat, p: Word)
      requires Valid() && 0 < id <= seen.Length && seen[id - 1] != epoch
      modifies ptr, seen
      ensures Valid() && Recorded() == old(Recorded())[id := p] && id !in old(Recorded())
      ensures id in old(Unseen()) && Unseen() == old(Unseen()) - {id}
    {
      seen[id - 1] := epoch;
      ptr[id - 1] := p;
    }

    /** Checks one object and all that it refers to; false where the walk aborts. */
    method VerifyObject(id: nat, actual: Word) returns (ok: bool)
      requires Valid()
      modifies ptr, seen
      ensures Valid() && Unseen() <= old(Unseen())
      ensures ok ==> id in Recorded() && Recorded()[id] == actual && Extends(world, old(Recorded()), Recorded())
      ensures forall m :: Agreement(world, m) && Within(old(Recorded()), m) && id in m && m[id] == actual ==>
              ok && Within(Recorded(), m)
      decreases Unseen(), 0
    {
      if id == 0 || id > seen.Length || actual % 4 != 0 {
        return false;
      }
      if seen[id - 1] == epoch {
        return ptr[id - 1] == actual;
      }
      ghost var before := Recorded();
      Enter(id, actual);
      ok := VerifyContents(id, actual);
      if ok {
        EnterExtends(world, before, before[id := actual], Recorded(), id, actual);
      }
      forall m | Agreement(world, m) && Within(before, m) && id in m && m[id] == actual ensures ok
          && Within(Recorded(), m) {
        assert ObjectAgrees(world, id, m[id], m) && Within(before[id := actual], m);
      }
    }

    /** Compares header and contents of an object just entered. */
    method VerifyContents(id: nat, actual: Word) returns (ok: bool)
      requires Valid() && 0 < id <= seen.Length && actual % 4 == 0
      modifies ptr, seen
      ensures Valid() && Unseen() <= old(Unseen())
      ensures ok ==> ObjectAgrees(world, id, actual, Recorded()) && Extends(world, old(Recorded()), Recorded())
      ensures forall m :: Agreement(world, m) && Within(old(Recorded()), m) && ObjectAgrees(world, id, actual, m) ==>
              ok && Within(Recorded(), m)
      decreases Unseen(), 3
    {
      hide Agreement, Recorded, Unseen, Extends, Within;
      SelfExtends(world, Recorded());
      if actual !in world.heap {
        return false;
      }
      var shadow, cell := world.shadows[id - 1], world.heap[actual];
      assert shadow in world.shadows;
      if cell.format != shadow.format || cell.size != shadow.size || cell.cls != world.classes[shadow.kind] {
        return false;
      }
      if shadow.format == FORMAT_BYTES {
        ok := VerifyBytes(shadow.bytes, cell.bytes);
        return;
      }
      ok := VerifyFields(shadow.fields, cell.fields);
    }

    method VerifyFields(expected: seq<Value>, actual: seq<Word>) returns (ok: bool)
      requires Valid() && |expected| == |actual|
      modifies ptr, seen
      ensures Valid() && Unseen() <= old(Unseen())
      ensures ok ==> AllAgree(expected, actual, Recorded()) && Extends(world, old(Recorded()), Recorded())
      ensures forall m :: Agreement(world, m) && Within(old(Recorded()), m) && AllAgree(expected, actual, m) ==>
              ok && Within(Recorded(), m)
      decreases Unseen(), 2
    {
      hide Agreement, ObjectAgrees;
      for k := 0 to |expected|
        invariant Valid() && Unseen() <= old(Unseen()) && Extends(world, old(Recorded()), Recorded())
        invariant forall j :: 0 <= j < k ==> ValueAgrees(expected[j], actual[j], Recorded())
        invariant forall m :: Agreement(world, m) && Within(old(Recorded()), m) && AllAgree(expected, actual, m) ==>
                  Within(Recorded(), m)
      {
        ghost var before := Recorded();
        ok := VerifyValue(expected[k], actual[k]);
        if !ok {
          return;
        }
        ExtendsTwice(world, old(Recorded()), before, Recorded());
      }
      ok := true;
    }

    method VerifyBytes(expected: seq<Byte>, actual: seq<Byte>) returns (ok: bool)
      requires |expected| == |actual|
      ensures ok == (expected == actual)
    {
      for i := 0 to |expected|
        invariant expected[..i] == actual[..i]
      {
        if expected[i] != actual[i] {
          return false;
        }
      }
      return true;
    }

    method VerifyValue(expected: Value, actual: Word) returns (ok: bool)
      requires Valid()
      modifies ptr, seen
      ensures Valid() && Unseen() <= old(Unseen())
      ensures ok ==> ValueAgrees(expected, actual, Recorded()) && Extends(world, old(Recorded()), Recorded())
      ensures forall m :: Agreement(world, m) && Within(old(Recorded()), m) && ValueAgrees(expected, actual, m) ==>
              ok && Within(Recorded(), m)
      decreases Unseen(), 1
    {
      match expected
      case Raw(w) =>
        ok := actual == w;
      case Ref(id) =>
        ok := VerifyObject(id, actual);
    }

    /**
     Checks all roots.  The walk ends without an abort exactly when the heap can be matched with
     the model, and then the pointers it recorded are such a match.
     */
    method VerifyRoots(actual: seq<Word>) returns (ok: bool)
      requires Valid() && |actual| == |world.roots|
      modifies this`epoch, ptr, seen
      ensures Valid() && epoch == old(epoch) + 1
      ensures ok <==> Consistent(world, actual)
      ensures ok <==> exists m: Pointers :: IsMatch(world, actual, m)
      ensures ok ==> IsMatch(world, actual, Recorded())
      ensures ok ==> Agreement(world, Recorded()) && RootsAgree(world, actual, Recorded())
      ensures ok ==> forall id, n :: Reached(world, id, n) ==> id in Recorded()
                                                               && ObjectAgrees(world, id, Recorded()[id], Recorded())
    {
      MatchExists(world, actual);
      epoch := epoch + 1;
      ghost var none := Recorded();
      assert none == map[];
      ok := VerifyFields(world.roots, actual);
      if !ok {
        return;
      }
      ghost var m := Recorded();
      assert Agreement(world, m) && RootsAgree(world, actual, m);
      MatchIff(world, actual, m);
      forall id, n | Reached(world, id, n) ensures id in m && ObjectAgrees(world, id, m[id], m) {
        CoversReachable(world, actual, m, id, n);
      }
    }
  }

  /** Some assignment of pointers makes the heap and the model agree, from the roots on. */
  ghost predicate Consistent(w: World, actual: seq<Word>)
    requires w.Valid() && |actual| == |w.roots|
  {
    exists m :: Agreement(w, m) && RootsAgree(w, actual, m)
  }

  /**
   A match of the model with the heap, in one: a pointer for every object of the model that a root or
   a matched object refers to; a matched object is a heap object with the shadow's class, format and
   size, and its very bytes, or its raw fields and the pointers of the objects that it refers to.
   */
  predicate IsMatch(w: World, actual: seq<Word>, m: Pointers)
    requires w.Valid() && |actual| == |w.roots|
  {
    && (forall i :: 0 <= i < |actual| ==>
          (w.roots[i].Raw? ==> actual[i] == w.roots[i].word)
          && (w.roots[i].Ref? ==> w.roots[i].id in m && actual[i] == m[w.roots[i].id]))
    && (forall id :: id in m ==> 0 < id <= |w.shadows| && m[id] % 4 == 0 && m[id] in w.heap)
    && (forall id :: id in m ==>
          var s, c := w.shadows[id - 1], w.heap[m[id]];
          s.kind < 4 && c.cls == w.classes[s.kind] && c.format == s.format && c.size == s.size)
    && (forall id :: id in m && w.shadows[id - 1].format == 2 ==> w.heap[m[id]].bytes == w.shadows[id - 1].bytes)
    && (forall id, k :: id in m && w.shadows[id - 1].format != 2 && 0 <= k < w.shadows[id - 1].size ==>
          var s, c := w.shadows[id - 1], w.heap[m[id]];
          && k < |s.fields| && k < |c.fields|
          && (s.fields[k].Raw? ==> c.fields[k] == s.fields[k].word)
          && (s.fields[k].Ref? ==> s.fields[k].id in m && c.fields[k] == m[s.fields[k].id]))
  }

  lemma MatchIff(w: World, actual: seq<Word>, m: Pointers)
    requires w.Valid() && |actual| == |w.roots|
    ensures IsMatch(w, actual, m) <==> Agreement(w, m) && RootsAgree(w, actual, m)
  {
    if IsMatch(w, actual, m) {
      forall id | id in m ensures ObjectAgrees(w, id, m[id], m) {
        assert w.shadows[id - 1] in w.shadows;
      }
    }
    if Agreement(w, m) && RootsAgree(w, actual, m) {
      forall id | id in m ensures 0 < id <= |w.shadows| && w.shadows[id - 1].Valid() {
        assert ObjectAgrees(w, id, m[id], m);
      }
      forall i | 0 <= i < |actual|
        ensures (w.roots[i].Raw? ==> actual[i] == w.roots[i].word)
                && (w.roots[i].Ref? ==> w.roots[i].id in m && actual[i] == m[w.roots[i].id])
      {
        assert ValueAgrees(w.roots[i], actual[i], m);
      }
      forall id, k | id in m && w.shadows[id - 1].format != 2 && 0 <= k < w.shadows[id - 1].size
        ensures ValueAgrees(w.shadows[id - 1].fields[k], w.heap[m[id]].fields[k], m)
      {
        assert ObjectAgrees(w, id, m[id], m);
      }
    }
  }

  lemma MatchExists(w: World, actual: seq<Word>)
    requires w.Valid() && |actual| == |w.roots|
    ensures Consistent(w, actual) <==> exists m: Pointers :: IsMatch(w, actual, m)
  {
    forall m: Pointers ensures IsMatch(w, actual, m) <==> Agreement(w, m) && RootsAgree(w, actual, m) {
      MatchIff(w, actual, m);
    }
  }

  predicate AllAgree(expected: seq<Value>, actual: seq<Word>, m: Pointers)
    requires |expected| == |actual|
  {
    forall k :: 0 <= k < |expected| ==> ValueAgrees(expected[k], actual[k], m)
  }

  /** What agrees with some pointers agrees with more of them. */
  lemma AgreesWithMore(w: World, id: nat, p: Word, m: Pointers, m1: Pointers)
    requires w.Valid() && Within(m, m1) && ObjectAgrees(w, id, p, m)
    ensures ObjectAgrees(w, id, p, m1)
  {
  }

  lemma ExtendsTwice(w: World, a: Pointers, b: Pointers, c: Pointers)
    requires w.Valid() && Extends(w, a, b) && Extends(w, b, c)
    ensures Extends(w, a, c)
  {
    hide ObjectAgrees;
    forall id | id in c && id !in a ensures ObjectAgrees(w, id, c[id], c) {
      if id in b {
        AgreesWithMore(w, id, b[id], b, c);
      }
    }
  }

  lemma SelfExtends(w: World, m: Pointers)
    requires w.Valid()
    ensures Extends(w, m, m)
  {
  }

  /** An object entered and then found to agree. */
  lemma EnterExtends(w: World, before: Pointers, entered: Pointers, now: Pointers, id: nat, p: Word)
    requires w.Valid() && id !in before && entered == before[id := p] && Extends(w, entered, now)
    requires ObjectAgrees(w, id, p, now)
    ensures Extends(w, before, now) && id in now && now[id] == p
  {
    hide ObjectAgrees;
  }

  predicate Within(m: Pointers, m1: Pointers) { forall id :: id in m ==> id in m1 && m1[id] == m[id] }

  /** All that was recorded stays, and what is new agrees with the heap. */
  predicate Extends(w: World, m: Pointers, m1: Pointers)
    requires w.Valid()
  {
    Within(m, m1) && forall id :: id in m1 && id !in m ==> ObjectAgrees(w, id, m1[id], m1)
  }
}
