/**
 Interned symbols and the table of globals: an array of symbols with one entry a name, and an
 array of associations, doubled when it is full, that together implement a map from names to
 values in which each name keeps its association.
 */
module Globals {
  import W = Words

  type Word = W.Word

  const FIRST_CAPACITY := 8

  /** An association object. */
  datatype Pair = Pair(key: Word, value: Word)

  // ----------------------------------------------------------------- symbols

  predicate SameName(symbols: map<Word, string>, s: Word, t: Word) {
    s != W.NIL && t != W.NIL && s in symbols && t in symbols && symbols[s] == symbols[t]
  }

  /** Entries of the table are symbols, no two of one name. */
  ghost predicate Interned(table: seq<Word>, symbols: map<Word, string>) {
    && (forall s :: s in table && s != W.NIL ==> s in symbols)
    && (forall i, j :: 0 <= i < |table| && 0 <= j < |table| && SameName(symbols, table[i], table[j]) ==> i == j)
  }

  predicate IsSymbol(table: seq<Word>, symbols: map<Word, string>, s: Word, name: string) {
    s != W.NIL && s in table && s in symbols && symbols[s] == name
  }

  /** Names equal as bytes have one symbol. */
  lemma OneSymbol(table: seq<Word>, symbols: map<Word, string>, s: Word, t: Word, name: string)
    requires Interned(table, symbols) && IsSymbol(table, symbols, s, name) && IsSymbol(table, symbols, t, name)
    ensures s == t
  {
    var i :| 0 <= i < |table| && table[i] == s;
    var j :| 0 <= j < |table| && table[j] == t;
    assert i == j;
  }

  // ----------------------------------------------------------------- associations

  /** What the associations in use say: which association each name has. */
  ghost predicate Bound(table: seq<Word>, symbols: map<Word, string>, used: seq<Word>, pairs: map<Word, Pair>,
                        bindings: map<string, Word>) {
    && (forall a :: a in used ==> a in pairs && pairs[a].key != W.NIL && pairs[a].key in table
                                  && pairs[a].key in symbols
                                  && symbols[pairs[a].key] in bindings && bindings[symbols[pairs[a].key]] == a)
    && (forall name :: name in bindings ==> bindings[name] in used && bindings[name] in pairs
                                            && pairs[bindings[name]].key in symbols
                                            && symbols[pairs[bindings[name]].key] == name)
  }

  ghost predicate Below(symbols: map<Word, string>, pairs: map<Word, Pair>, bound: int) {
    (forall s :: s in symbols ==> 0 < s < bound && W.IsObject(s)) && forall a :: a in pairs ==>
        0 < a < bound && W.IsObject(a)
  }

  /** The words that the bytes of a name take. */
  function ByteWords(name: string): nat { (|name| + 7) / 8 }

  class Globals {
    const table: array<Word>
    /** The array of associations; not there before the first definition. */
    var associations: array<Word>
    var present: bool
    var tally: nat
    /** The objects of this world: symbols with their bytes, associations. */
    var symbols: map<Word, string>
    var pairs: map<Word, Pair>
    var free: nat
    const limit: nat
    ghost var bindings: map<string, Word>

    ghost predicate Valid()
      reads this, table, associations
    {
      && table != associations && tally <= associations.Length && (!present ==> tally == 0)
      && 0 < free && 8 * limit < W.TWO_64 && free <= limit && Below(symbols, pairs, 8 * free)
      && Interned(table[..], symbols) && Bound(table[..], symbols, associations[..tally], pairs, bindings)
    }

    /** The value a name has, nil for a name without one. */
    ghost function Value(name: string): Word
      requires Valid()
      reads this, table, associations
    {
      if name in bindings then pairs[bindings[name]].value else W.NIL
    }

    /** A table of so many free places, and nothing defined. */
    constructor (places: nat, limit: nat)
      requires 0 < limit && 8 * limit < W.TWO_64
      ensures Valid() && fresh(table) && fresh(associations) && bindings == map[] && tally == 0 && !present
      ensures this.limit == limit && table.Length == places && (forall i :: 0 <= i < places ==> table[i] == W.NIL)
      ensures forall name :: Value(name) == W.NIL
    {
      table := new Word[places](_ => W.NIL);
      associations := new Word[0];
      present, tally := false, 0;
      symbols, pairs, bindings := map[], map[], map[];
      free := 1;
      this.limit := limit;
      new;
      assert associations[..tally] == [];
    }

    ghost predicate Known(name: string)
      reads this, table
    {
      exists s :: IsSymbol(table[..], symbols, s, name)
    }

    /** The first free word once a name has its symbol. */
    ghost function FreeWithSymbol(name: string): nat
      reads this, table
    {
      if Known(name) then free else free + ByteWords(name) + 3
    }

    /** A name that has a symbol, or room for one in memory and in the table. */
    ghost predicate CanIntern(name: string)
      reads this, table
    {
      Known(name) || (FreeWithSymbol(name) <= limit && W.NIL in table[..])
    }

    /** The words that the array of associations takes before it has a free place. */
    ghost function GrowthWords(): nat
      reads this
    {
      if !present then FIRST_CAPACITY + 3
      else if tally < associations.Length then 0
      else (if associations.Length == 0 then FIRST_CAPACITY else associations.Length * 2) + 3
    }

    /** A name that has an association, or room for all that a new one takes. */
    ghost predicate CanPut(name: string)
      reads this, table
    {
      name in bindings || (CanIntern(name) && FreeWithSymbol(name) + GrowthWords() + 2 + 3 <= limit)
    }

    /** A new object's address; 0 when memory is used up. */
    method Alloc(words: nat) returns (p: Word)
      requires Valid()
      modifies this`free
      ensures Valid() && p != W.NIL
      ensures p == 0 <==> old(free) + words + 3 > limit
      ensures p != 0 ==> free == old(free) + words + 3
      ensures p != 0 ==> p % 4 == 0 && p !in symbols && p !in pairs && 0 < p < 8 * free
      ensures p == 0 ==> free == old(free)
    {
      hide Interned, Bound;
      if free + words + 3 > limit {
        return 0;
      }
      p := 8 * free;
      free := free + words + 3;
    }

    method LookupSymbol(name: string) returns (s: Word)
      requires Valid()
      ensures s != W.NIL ==> IsSymbol(table[..], symbols, s, name)
      ensures s == W.NIL ==> forall t :: !IsSymbol(table[..], symbols, t, name)
    {
      hide Bound;
      for i := 0 to table.Length
        invariant forall t :: t in table[..i] ==> !IsSymbol(table[..], symbols, t, name)
      {
        var existing := table[i];
        assert existing in table[..];
        if W.IsObject(existing) {
          if symbols[existing] == name {
            return existing;
          }
        }
      }
      return W.NIL;
    }
  
    /** The symbol of a name, a new one when it has none; nil when there is no room for it. */
    method Intern(name: string) returns (s: Word)
      requires Valid()
      modifies this`symbols, this`free, table
      ensures Valid() && bindings == old(bindings)
              && (forall t :: t in old(symbols) ==> t in symbols && symbols[t] == old(symbols[t]))
      ensures s != W.NIL <==> old(CanIntern(name))
      ensures s == W.NIL ==> table[..] == old(table[..])
      ensures s != W.NIL ==> free == old(FreeWithSymbol(name)) && IsSymbol(table[..], symbols, s, name)
      ensures forall t, n :: (IsSymbol(table[..], symbols, t, n) <==>
                                old(IsSymbol(table[..], symbols, t, n)) || (s != W.NIL && t == s && n == name))
    {
      s := LookupSymbol(name);
      if s != W.NIL {
        assert Known(name);
        return;
      }
      assert !Known(name);
      var p := Alloc(ByteWords(name));
      if p == 0 {
        return;
      }
      ghost var was, known := table[..], symbols;
      symbols := symbols[p := name];
      var i := 0;
      while i < table.Length && table[i] != W.NIL
        invariant i <= table.Length && W.NIL !in table[..i]
      {
        i := i + 1;
      }
      assert table[..i] == was[..i];
      SymbolAdded(was, known, associations[..tally], pairs, bindings, p, name, 8 * free);
      if i == table.Length {
        assert was[..i] == was;
        return;
      }
      assert was[i] == W.NIL;
      table[i] := p;
      assert table[..] == was[i := p];
      SymbolEntered(was, symbols, associations[..tally], pairs, bindings, i, p, name);
      s := p;
    }

    /** The index of the association of a symbol; the tally for none. */
    method Find(key: Word) returns (index: nat)
      requires Valid()
      ensures index <= tally
      ensures index < tally ==> associations[index] in pairs && pairs[associations[index]].key == key
      ensures index == tally ==> forall a :: a in associations[..tally] ==> a in pairs && pairs[a].key != key
    {
      hide Interned;
      index := 0;
      while index < tally
        invariant index <= tally && forall a :: a in associations[..index] ==> a in pairs && pairs[a].key != key
      {
        var a := associations[index];
        assert a in associations[..tally];
        if pairs[a].key == key {
          return;
        }
        index := index + 1;
      }
    }

    method Lookup(name: string) returns (value: Word)
      requires Valid()
      ensures value == Value(name)
    {
      var key := LookupSymbol(name);
      if key == W.NIL {
        NoSymbolNoBinding(table[..], symbols, associations[..tally], pairs, bindings, name);
        return W.NIL;
      }
      var index := Find(key);
      if index == tally {
        KeyDecides(table[..], symbols, associations[..tally], pairs, bindings, key, name);
        return W.NIL;
      }
      assert associations[index] in associations[..tally];
      return pairs[associations[index]].value;
    }

    /** Room for one more association: the array doubled when it is full. */
    method Grow() returns (ok: bool)
      requires Valid()
      modifies this`associations, this`present, this`free
      ensures Valid() && bindings == old(bindings) && tally == old(tally)
      ensures ok <==> old(free + GrowthWords()) <= limit
      ensures ok ==> present && tally < associations.Length && free == old(free + GrowthWords())
      ensures associations == old(associations) || fresh(associations)
      ensures associations[..tally] == old(associations[..tally])
    {
      hide Interned, Bound, Below;
      if !present {
        var p := Alloc(FIRST_CAPACITY);
        if p == 0 {
          return false;
        }
        associations := new Word[FIRST_CAPACITY](_ => W.NIL);
        assert associations[..tally] == old(associations[..tally]);
        present := true;
      }
      ok := true;
      if tally >= associations.Length {
        ok := Double();
      }
    }

    method Double() returns (ok: bool)
      requires Valid() && present && tally >= associations.Length
      modifies this`associations, this`free
      ensures Valid() && present
      ensures ok <==> old(free + GrowthWords()) <= limit
      ensures ok ==> tally < associations.Length && free == old(free + GrowthWords())
      ensures associations == old(associations) || fresh(associations)
      ensures associations[..tally] == old(associations[..tally])
    {
      hide Interned, Bound, Below;
      var current := associations;
      var size := if current.Length == 0 then FIRST_CAPACITY else current.Length * 2;
      var p := Alloc(size);
      if p == 0 {
        return false;
      }
      var grown := new Word[size](i requires 0 <= i < size => W.NIL);
      for i := 0 to current.Length
        invariant associations == current && free == old(free) + size + 3 && Valid() && forall k :: 0 <= k < i ==>
                  grown[k] == current[k]
      {
        grown[i] := current[i];
      }
      assert grown[..tally] == associations[..tally];
      associations := grown;
      ok := true;
    }

    /** A new association at the end of those in use. */
    method Append(key: Word, name: string, value: Word) returns (p: Word)
      requires Valid() && IsSymbol(table[..], symbols, key, name) && name !in bindings && tally < associations.Length
               && present
      modifies this`pairs, this`bindings, this`tally, this`free, associations
      ensures Valid() && tally <= associations.Length
      ensures p == 0 <==> old(free) + 2 + 3 > limit
      ensures p == 0 ==> bindings == old(bindings) && pairs == old(pairs) && tally == old(tally)
      ensures p != 0 ==> bindings == old(bindings)[name := p] && pairs == old(pairs)[p := Pair(key, value)]
                         && p !in old(pairs)
    {
      hide Interned;
      p := Alloc(2);
      if p == 0 {
        return;
      }
      ghost var used := associations[..tally];
      AssociationAdded(table[..], symbols, used, pairs, bindings, p, key, name, value, 8 * free);
      hide Bound, Below, IsSymbol;
      pairs := pairs[p := Pair(key, value)];
      bindings := bindings[name := p];
      associations[tally] := p;
      tally := tally + 1;
      assert associations[..tally] == used + [p];
    }

    /** The first association of a name: room for it, then the association. */
    method Define(key: Word, name: string, value: Word) returns (p: Word)
      requires Valid() && IsSymbol(table[..], symbols, key, name) && name !in bindings
      modifies this`associations, this`present, this`pairs, this`bindings, this`tally, this`free, associations
      ensures Valid() && tally <= associations.Length
      ensures p == 0 <==> old(free + GrowthWords()) + 2 + 3 > limit
      ensures p == 0 ==> bindings == old(bindings) && pairs == old(pairs)
      ensures p != 0 ==> bindings == old(bindings)[name := p] && pairs == old(pairs)[p := Pair(key, value)]
                         && p !in old(pairs)
    {
      hide Interned, Below, Bound, IsSymbol;
      var grown := Grow();
      if !grown {
        return 0;
      }
      p := Append(key, name, value);
    }

    /** Gives the name of a symbol a value, in the association it has or in a new one. */
    method PutSymbol(key: Word, name: string, value: Word) returns (ok: bool, association: Word)
      requires Valid() && IsSymbol(table[..], symbols, key, name)
      modifies this`associations, this`present, this`pairs, this`bindings, this`tally, this`free, associations
      ensures Valid() && tally <= associations.Length
      ensures ok <==> name in old(bindings) || old(free + GrowthWords()) + 2 + 3 <= limit
      ensures !ok ==> bindings == old(bindings) && pairs == old(pairs)
      ensures ok ==> bindings == old(bindings)[name := association]
                     && (name in old(bindings) ==> association == old(bindings[name]))
      ensures ok ==> Value(name) == value && forall n: string :: n != name ==> Value(n) == old(Value(n))
    {
      hide Interned, Below;
      AllBound(table[..], symbols, associations[..tally], pairs, bindings);
      var index := Find(key);
      if index < tally {
        association := associations[index];
        assert association in associations[..tally];
        ValueReplaced(table[..], symbols, associations[..tally], pairs, bindings, association, value, 8 * free);
        OneName(table[..], symbols, associations[..tally], pairs, bindings, association, key, name);
        hide Bound, IsSymbol;
        pairs := pairs[association := Pair(key, value)];
        return true, association;
      }
      KeyDecides(table[..], symbols, associations[..tally], pairs, bindings, key, name);
      hide Bound, IsSymbol;
      association := Define(key, name, value);
      ok := association != 0;
    }

    /**
     Gives a name a value, if and only if it has an association or there is room for all that a
     new one takes.  A name that has an association keeps it, with the new value; another one
     gets a new association.  No other name changes.
     */
    method Put(name: string, value: Word) returns (ok: bool, association: Word)
      requires Valid()
      modifies this, table, associations
      ensures Valid() && tally <= associations.Length
      ensures ok <==> old(CanPut(name))
      ensures !ok ==> bindings == old(bindings) && forall n: string :: Value(n) == old(Value(n))
      ensures ok ==> bindings == old(bindings)[name := association]
                     && (name in old(bindings) ==> association == old(bindings[name]))
      ensures ok ==> Value(name) == value && forall n: string :: n != name ==> Value(n) == old(Value(n))
    {
      hide Interned, Below, Bound;
      assert name in bindings ==> Known(name) by {
        if !Known(name) {
          NoSymbolNoBinding(table[..], symbols, associations[..tally], pairs, bindings, name);
        }
      }
      hide IsSymbol, Known;
      var key := Intern(name);
      if key == W.NIL {
        return false, 0;
      }
      ok, association := PutSymbol(key, name, value);
    }
  }

  /** Every name's association is there. */
  lemma AllBound(table: seq<Word>, symbols: map<Word, string>, used: seq<Word>, pairs: map<Word, Pair>,
                 bindings: map<string, Word>)
    requires Bound(table, symbols, used, pairs, bindings)
    ensures forall n :: n in bindings ==> bindings[n] in pairs
  {
  }

  /** An association in use with the symbol of a name is that name's, and no other's. */
  lemma OneName(table: seq<Word>, symbols: map<Word, string>, used: seq<Word>, pairs: map<Word, Pair>,
                bindings: map<string, Word>,
                a: Word, key: Word, name: string)
    requires Bound(table, symbols, used, pairs, bindings) && a in used && a in pairs && pairs[a].key == key
             && IsSymbol(table, symbols, key, name)
    ensures name in bindings && bindings[name] == a && forall n :: n in bindings && n != name ==> bindings[n] != a
  {
  }

  /** A new symbol object, not yet in the table. */
  lemma SymbolAdded(table: seq<Word>, symbols: map<Word, string>, used: seq<Word>, pairs: map<Word, Pair>,
                    bindings: map<string, Word>,
                    p: Word, name: string, bound: int)
    requires Interned(table, symbols) && Bound(table, symbols, used, pairs, bindings) && Below(symbols, pairs, bound)
    requires p !in symbols && p != W.NIL && 0 < p < bound && W.IsObject(p)
             && forall t :: !IsSymbol(table, symbols, t, name)
    ensures forall t :: t in table && t in symbols[p := name] && t != W.NIL ==> symbols[p := name][t] != name
    ensures Interned(table, symbols[p := name]) && Bound(table, symbols[p := name], used, pairs, bindings)
            && Below(symbols[p := name], pairs, bound)
    ensures forall t, n :: IsSymbol(table, symbols[p := name], t, n) <==> IsSymbol(table, symbols, t, n)
  {
    var more := symbols[p := name];
    forall t | t in table && t in more && t != W.NIL ensures more[t] != name {
      assert !IsSymbol(table, symbols, t, name);
    }
    forall i, j | 0 <= i < |table| && 0 <= j < |table| && SameName(more, table[i], table[j]) ensures i == j {
      assert table[i] in table && table[j] in table;
      assert SameName(symbols, table[i], table[j]);
    }
  }

  /** A symbol entered in a free place of the table, when no other has its name. */
  lemma SymbolEntered(table: seq<Word>, symbols: map<Word, string>, used: seq<Word>, pairs: map<Word, Pair>,
                      bindings: map<string, Word>,
                      i: nat, p: Word, name: string)
    requires Interned(table, symbols) && Bound(table, symbols, used, pairs, bindings)
    requires i < |table| && table[i] == W.NIL && p in symbols && symbols[p] == name && p != W.NIL
    requires forall t :: t in table && t in symbols && t != W.NIL ==> symbols[t] != name
    ensures Interned(table[i := p], symbols) && Bound(table[i := p], symbols, used, pairs, bindings)
    ensures IsSymbol(table[i := p], symbols, p, name)
    ensures forall t, n :: IsSymbol(table[i := p], symbols, t, n) <==> IsSymbol(table, symbols, t, n)
                                                                       || (t == p && n == name)
  {
    var entered := table[i := p];
    assert entered[i] == p;
    forall s | s in table && s != W.NIL ensures s in entered {
      var k :| 0 <= k < |table| && table[k] == s;
      assert entered[k] == s;
    }
    forall j, k | 0 <= j < |entered| && 0 <= k < |entered| && SameName(symbols, entered[j], entered[k]) ensures j == k {
      assert j != i ==> entered[j] in table;
      assert k != i ==> entered[k] in table;
      assert j != i && k != i ==> SameName(symbols, table[j], table[k]);
    }
  }

  lemma NoSymbolNoBinding(table: seq<Word>, symbols: map<Word, string>, used: seq<Word>, pairs: map<Word, Pair>,
                          bindings: map<string, Word>, name: string)
    requires Bound(table, symbols, used, pairs, bindings) && forall t :: !IsSymbol(table, symbols, t, name)
    ensures name !in bindings
  {
    if name in bindings {
      assert IsSymbol(table, symbols, pairs[bindings[name]].key, name);
    }
  }

  /** A symbol without an association names nothing. */
  lemma KeyDecides(table: seq<Word>, symbols: map<Word, string>, used: seq<Word>, pairs: map<Word, Pair>,
                   bindings: map<string, Word>, key: Word, name: string)
    requires Interned(table, symbols) && Bound(table, symbols, used, pairs, bindings)
             && IsSymbol(table, symbols, key, name)
    requires forall a :: a in used ==> a in pairs && pairs[a].key != key
    ensures name !in bindings
  {
    if name in bindings {
      OneSymbol(table, symbols, key, pairs[bindings[name]].key, name);
      assert false;
    }
  }

  lemma ValueReplaced(table: seq<Word>, symbols: map<Word, string>, used: seq<Word>, pairs: map<Word, Pair>,
                      bindings: map<string, Word>,
                      a: Word, value: Word, bound: int)
    requires Bound(table, symbols, used, pairs, bindings) && Below(symbols, pairs, bound) && a in used
    ensures a in pairs && Bound(table, symbols, used, pairs[a := Pair(pairs[a].key, value)], bindings)
    ensures Below(symbols, pairs[a := Pair(pairs[a].key, value)], bound)
  {
  }

  lemma AssociationAdded(table: seq<Word>, symbols: map<Word, string>, used: seq<Word>, pairs: map<Word, Pair>,
                         bindings: map<string, Word>,
                         p: Word, key: Word, name: string, value: Word, bound: int)
    requires Bound(table, symbols, used, pairs, bindings) && Below(symbols, pairs, bound)
             && IsSymbol(table, symbols, key, name)
    requires name !in bindings && p !in pairs && 0 < p < bound && W.IsObject(p)
    ensures Bound(table, symbols, used + [p], pairs[p := Pair(key, value)], bindings[name := p])
    ensures Below(symbols, pairs[p := Pair(key, value)], bound)
  {
    var more := pairs[p := Pair(key, value)];
    forall n | n in bindings ensures bindings[n] != p {
    }
  }
}
