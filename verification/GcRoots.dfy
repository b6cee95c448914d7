/**
 The roots of a collection: locations spread over the stack, the exception handlers, the
 `ensure:` frames and the transaction logs are copied into one array, the collector forwards
 the array, and the values go back to where they came from.  Locations are addresses in one
 memory, and several roots may be the same location.
 */
module GcRoots {
  import W = Words

  type Word = W.Word

  /** An active handler: where its class and its block are, and the slot its exception is signalled in. */
  datatype Handler = Handler(classAt: nat, blockAt: nat, slotAt: nat)

  datatype EnsureFrame = EnsureFrame(classSlot: nat, payloadSlot: nat)

  /** A frame of the transaction stack: a log, that is a count and three words an entry, or none. */
  datatype LogFrame = LogFrame(log: nat) | NoLog

  // ----------------------------------------------------------------- the locations

  predicate HandlersFit(handlers: seq<Handler>, size: nat) {
    forall k :: 0 <= k < |handlers| ==> handlers[k].classAt < size && handlers[k].blockAt < size
                                        && handlers[k].slotAt < size
  }

  function HandlerRoots(handlers: seq<Handler>): (r: seq<nat>)
    ensures |r| == 3 * |handlers|
  {
    if handlers == [] then []
    else
      var h := handlers[|handlers| - 1];
      HandlerRoots(handlers[..|handlers| - 1]) + [h.classAt, h.blockAt, h.slotAt]
  }

  predicate EnsuresFit(frames: seq<EnsureFrame>, size: nat) {
    forall k :: 0 <= k < |frames| ==> frames[k].classSlot < size && frames[k].payloadSlot < size
  }

  function EnsureRoots(frames: seq<EnsureFrame>): (r: seq<nat>)
    ensures |r| == 2 * |frames|
  {
    if frames == [] then []
    else
      var f := frames[|frames| - 1];
      EnsureRoots(frames[..|frames| - 1]) + [f.classSlot, f.payloadSlot]
  }

  /** The object and the value of each of the first `count` entries of a log. */
  function EntryRoots(log: nat, count: nat): (r: seq<nat>)
    ensures |r| == 2 * count
  {
    if count == 0 then [] else EntryRoots(log, count - 1) + [log + 3 * count - 2, log + 3 * count]
  }

  /** The logs lie in memory, with as many entries as they say. */
  predicate LogsFit(mem: seq<Word>, logs: seq<LogFrame>) {
    forall k :: 0 <= k < |logs| && logs[k].LogFrame? ==> logs[k].log < |mem|
                                                         && logs[k].log + 3 * (mem[logs[k].log] as int) < |mem|
  }

  function LogRoots(mem: seq<Word>, logs: seq<LogFrame>): seq<nat>
    requires LogsFit(mem, logs)
    decreases |logs|
  {
    if logs == [] then []
    else
      var f := logs[|logs| - 1];
      LogRoots(mem, logs[..|logs| - 1]) + if f.NoLog? then [] else EntryRoots(f.log, mem[f.log])
  }

  // ----------------------------------------------------------------- reading and writing locations

  predicate InMemory(locations: seq<nat>, size: nat) { forall i :: 0 <= i < |locations| ==> locations[i] < size }

  function ReadAt(mem: seq<Word>, locations: seq<nat>): (r: seq<Word>)
    requires InMemory(locations, |mem|)
    ensures |r| == |locations|
  {
    seq(|locations|, i requires 0 <= i < |locations| => mem[locations[i]])
  }

  /** Values written to locations, one after the other. */
  function WriteAt(mem: seq<Word>, locations: seq<nat>, values: seq<Word>): (r: seq<Word>)
    requires InMemory(locations, |mem|) && |values| == |locations|
    ensures |r| == |mem|
    decreases |locations|
  {
    if locations == [] then mem
    else WriteAt(mem[locations[0] := values[0]], locations[1..], values[1..])
  }

  function Forwarded(values: seq<Word>, forward: Word -> Word): (r: seq<Word>)
    ensures |r| == |values|
  {
    seq(|values|, i requires 0 <= i < |values| => forward(values[i]))
  }

  /** What memory should be after a collection: every root forwarded, all else as it was. */
  ghost predicate RootsForwarded(mem: seq<Word>, mem1: seq<Word>, locations: seq<nat>, forward: Word -> Word) {
    |mem1| == |mem| && forall a :: 0 <= a < |mem| ==> mem1[a] == if a in locations then forward(mem[a]) else mem[a]
  }

  /** Writing a location's own final value, however often, gives that value there. */
  lemma {:induction false} WriteFinal(mem: seq<Word>, goal: seq<Word>, locations: seq<nat>, values: seq<Word>)
    requires InMemory(locations, |mem|) && |values| == |locations| && |goal| == |mem|
    requires forall i :: 0 <= i < |locations| ==> values[i] == goal[locations[i]]
    ensures forall a :: 0 <= a < |mem| ==> WriteAt(mem, locations, values)[a] == if a in locations
                                           then goal[a] else mem[a]
    decreases |locations|
  {
    if locations != [] {
      WriteFinal(mem[locations[0] := values[0]], goal, locations[1..], values[1..]);
      assert locations == [locations[0]] + locations[1..];
    }
  }

  /** Aliased or not, each root ends with the forwarded value of what it held. */
  lemma ForwardAll(mem: seq<Word>, locations: seq<nat>, forward: Word -> Word)
    requires InMemory(locations, |mem|)
    ensures RootsForwarded(mem, WriteAt(mem, locations, Forwarded(ReadAt(mem, locations), forward)), locations, forward)
  {
    WriteFinal(mem, Forwarded(mem, forward), locations, Forwarded(ReadAt(mem, locations), forward));
  }

  lemma MemoryBoth(a: seq<nat>, b: seq<nat>, size: nat)
    ensures InMemory(a + b, size) <==> InMemory(a, size) && InMemory(b, size)
  {
    if InMemory(a + b, size) {
      forall i | 0 <= i < |a| ensures a[i] < size {
        assert (a + b)[i] == a[i];
      }
      forall i | 0 <= i < |b| ensures b[i] < size {
        assert (a + b)[|a| + i] == b[i];
      }
    }
  }

  lemma {:induction false} WriteBoth(mem: seq<Word>, a: seq<nat>, b: seq<nat>, u: seq<Word>, v: seq<Word>)
    requires InMemory(a, |mem|) && InMemory(b, |mem|) && |u| == |a| && |v| == |b|
    ensures InMemory(a + b, |mem|) && WriteAt(mem, a + b, u + v) == WriteAt(WriteAt(mem, a, u), b, v)
    decreases |a|
  {
    MemoryBoth(a, b, |mem|);
    if a == [] {
      assert a + b == b && u + v == v;
    } else {
      assert (a + b)[0] == a[0] && (u + v)[0] == u[0];
      assert (a + b)[1..] == a[1..] + b && (u + v)[1..] == u[1..] + v;
      WriteBoth(mem[a[0] := u[0]], a[1..], b, u[1..], v);
    }
  }

  lemma ReadBoth(mem: seq<Word>, a: seq<nat>, b: seq<nat>)
    requires InMemory(a, |mem|) && InMemory(b, |mem|)
    ensures InMemory(a + b, |mem|) && ReadAt(mem, a + b) == ReadAt(mem, a) + ReadAt(mem, b)
  {
    MemoryBoth(a, b, |mem|);
  }

  // ----------------------------------------------------------------- one root at a time

  /** The array with values from `at` on. */
  function Fill(roots: seq<Word>, at: nat, values: seq<Word>): (r: seq<Word>)
    requires at + |values| <= |roots|
    ensures |r| == |roots|
  {
    roots[..at] + values + roots[at + |values|..]
  }

  lemma FillMore(roots: seq<Word>, at: nat, values: seq<Word>, v: Word)
    requires at + |values| < |roots|
    ensures Fill(roots, at, values)[at + |values| := v] == Fill(roots, at, values + [v])
  {
  }

  lemma ReadMore(mem: seq<Word>, locations: seq<nat>, a: nat)
    requires InMemory(locations, |mem|) && a < |mem|
    ensures InMemory(locations + [a], |mem|) && ReadAt(mem, locations + [a]) == ReadAt(mem, locations) + [mem[a]]
  {
    ReadBoth(mem, locations, [a]);
  }

  lemma WriteMore(mem: seq<Word>, locations: seq<nat>, values: seq<Word>, a: nat, v: Word)
    requires InMemory(locations, |mem|) && a < |mem| && |values| == |locations|
    ensures InMemory(locations + [a], |mem|)
            && WriteAt(mem, locations + [a], values + [v]) == WriteAt(mem, locations, values)[a := v]
  {
    WriteBoth(mem, locations, [a], values, [v]);
    var m := WriteAt(mem, locations, values);
    assert WriteAt(m, [a], [v]) == WriteAt(m[a := v], [], []) by {
      assert [a][1..] == [] && [v][1..] == [];
    }
  }

  lemma {:induction false} WriteElsewhere(mem: seq<Word>, locations: seq<nat>, values: seq<Word>, a: nat)
    requires InMemory(locations, |mem|) && |values| == |locations| && a < |mem| && a !in locations
    ensures WriteAt(mem, locations, values)[a] == mem[a]
    decreases |locations|
  {
    if locations != [] {
      WriteElsewhere(mem[locations[0] := values[0]], locations[1..], values[1..], a);
    }
  }

  // ----------------------------------------------------------------- collecting and restoring

  const FROM_FREE := 0
  const FROM_END := 1
  const TO_FREE := 2
  const TO_END := 3
  const FROM_START := 4
  const TO_START := 5
  const SPACE_SIZE := 6
  const CONTEXT_WORDS := 10

  /** The two-space contexts that can be registered. */
  const MAX_CONTEXTS := 128

  /** Two spaces of one size, each with its free word inside it. */
  predicate HasLayout(om: seq<Word>) {
    && |om| == CONTEXT_WORDS && om[SPACE_SIZE] != 0 && om[FROM_START] < om[FROM_END] && om[TO_START] < om[TO_END]
    && om[FROM_END] == W.Wrap(om[FROM_START] as int + om[SPACE_SIZE])
       && om[TO_END] == W.Wrap(om[TO_START] as int + om[SPACE_SIZE])
    && om[FROM_START] <= om[FROM_FREE] <= om[FROM_END] && om[TO_START] <= om[TO_FREE] <= om[TO_END]
  }

  class Collector {
    /** Stacks, handlers, logs: every word that may be a root. */
    const mem: array<Word>
    const om: array<Word>
    /** The two-space contexts that the object memory knows. */
    var registered: seq<array<Word>>
    var handlers: seq<Handler>
    var ensureFrames: seq<EnsureFrame>
    var logs: seq<LogFrame>

    constructor (mem: array<Word>, om: array<Word>)
      requires om.Length == CONTEXT_WORDS
      ensures this.mem == mem && this.om == om && registered == [] && handlers == [] && ensureFrames == [] && logs == []
      ensures forall slots: seq<nat>, at: nat :: InMemory(slots, mem.Length) && at < mem.Length ==> Valid(slots, at)
    {
      this.mem, this.om := mem, om;
      registered, handlers, ensureFrames, logs := [], [], [], [];
    }

    /** Makes the object memory know a context, unless it does already or its table is full. */
    method Register(context: array<Word>)
      modifies this`registered
      ensures registered == if context in old(registered) || |old(registered)| >= MAX_CONTEXTS then old(registered)
                            else old(registered) + [context]
      ensures context in registered <==> context in old(registered) || |old(registered)| < MAX_CONTEXTS
    {
      for i := 0 to |registered|
        invariant registered == old(registered) && context !in registered[..i]
      {
        if registered[i] == context {
          return;
        }
      }
      if |registered| < MAX_CONTEXTS {
        registered := registered + [context];
      }
    }

    method CountHandlerRoots() returns (count: nat)
      ensures count == |HandlerRoots(handlers)|
    {
      count := 0;
      for k := 0 to |handlers|
        invariant count == 3 * k
      {
        count := count + 3;
      }
    }

    method CountEnsureRoots() returns (count: nat)
      ensures count == |EnsureRoots(ensureFrames)|
    {
      count := 0;
      for k := 0 to |ensureFrames|
        invariant count == 2 * k
      {
        count := count + 2;
      }
    }

    method CountLogRoots() returns (count: nat)
      requires LogsFit(mem[..], logs)
      ensures count == |LogRoots(mem[..], logs)|
    {
      count := 0;
      for k := 0 to |logs|
        invariant LogsFit(mem[..], logs[..k]) && count == |LogRoots(mem[..], logs[..k])|
      {
        assert logs[..k + 1][..k] == logs[..k];
        if logs[k].LogFrame? {
          count := count + 2 * (mem[logs[k].log] as int);
        }
      }
      assert logs[..|logs|] == logs;
    }

    /** Puts the word at `a` into the array, after those of `done`. */
    method Take(roots: array<Word>, index: nat, a: nat, ghost at: nat, ghost was: seq<Word>, ghost done: seq<nat>)
        returns (ghost more: seq<nat>)
      requires a < mem.Length && roots != mem && InMemory(done, mem.Length)
               && index == at + |done| < roots.Length == |was|
      requires roots[..] == Fill(was, at, ReadAt(mem[..], done))
      modifies roots
      ensures more == done + [a] && InMemory(more, mem.Length) && roots[..] == Fill(was, at, ReadAt(mem[..], more))
    {
      hide Fill, ReadAt, InMemory;
      more := done + [a];
      ReadMore(mem[..], done, a);
      FillMore(was, at, ReadAt(mem[..], done), mem[a]);
      ghost var now := roots[..];
      roots[index] := mem[a];
      assert roots[..] == now[index := mem[a]];
    }

    method CollectHandlerRoots(roots: array<Word>, index: nat) returns (index1: nat)
      requires HandlersFit(handlers, mem.Length) && index + 3 * |handlers| <= roots.Length && roots != mem
      modifies roots
      ensures index1 == index + |HandlerRoots(handlers)| && InMemory(HandlerRoots(handlers), mem.Length)
      ensures roots[..] == Fill(old(roots[..]), index, ReadAt(mem[..], HandlerRoots(handlers)))
    {
      hide Fill, ReadAt, InMemory;
      index1 := index;
      ghost var was, done: seq<nat> := roots[..], [];
      NothingTaken(was, index, mem[..]);
      for k := 0 to |handlers|
        invariant index1 == index + 3 * k && done == HandlerRoots(handlers[..k]) && InMemory(done, mem.Length)
        invariant roots[..] == Fill(was, index, ReadAt(mem[..], done))
      {
        done := Take(roots, index1, handlers[k].classAt, index, was, done);
        done := Take(roots, index1 + 1, handlers[k].blockAt, index, was, done);
        done := Take(roots, index1 + 2, handlers[k].slotAt, index, was, done);
        index1 := index1 + 3;
        assert handlers[..k + 1][..k] == handlers[..k];
      }
      assert handlers[..|handlers|] == handlers;
    }

    method CollectEnsureRoots(roots: array<Word>, index: nat) returns (index1: nat)
      requires EnsuresFit(ensureFrames, mem.Length) && index + 2 * |ensureFrames| <= roots.Length && roots != mem
      modifies roots
      ensures index1 == index + |EnsureRoots(ensureFrames)| && InMemory(EnsureRoots(ensureFrames), mem.Length)
      ensures roots[..] == Fill(old(roots[..]), index, ReadAt(mem[..], EnsureRoots(ensureFrames)))
    {
      hide Fill, ReadAt, InMemory;
      index1 := index;
      ghost var was, done: seq<nat> := roots[..], [];
      NothingTaken(was, index, mem[..]);
      for k := 0 to |ensureFrames|
        invariant index1 == index + 2 * k && done == EnsureRoots(ensureFrames[..k]) && InMemory(done, mem.Length)
        invariant roots[..] == Fill(was, index, ReadAt(mem[..], done))
      {
        done := Take(roots, index1, ensureFrames[k].classSlot, index, was, done);
        done := Take(roots, index1 + 1, ensureFrames[k].payloadSlot, index, was, done);
        index1 := index1 + 2;
        assert ensureFrames[..k + 1][..k] == ensureFrames[..k];
      }
      assert ensureFrames[..|ensureFrames|] == ensureFrames;
    }

    /** The entries of one log. */
    method CollectEntries(roots: array<Word>, index: nat, log: nat, ghost at: nat, ghost was: seq<Word>,
                          ghost done: seq<nat>)
      returns (index1: nat, ghost more: seq<nat>)
      requires log < mem.Length && log + 3 * (mem[log] as int) < mem.Length && roots != mem
      requires InMemory(done, mem.Length) && index == at + |done|
               && index + 2 * (mem[log] as int) <= roots.Length == |was|
      requires roots[..] == Fill(was, at, ReadAt(mem[..], done))
      modifies roots
      ensures more == done + EntryRoots(log, mem[log]) && InMemory(more, mem.Length) && index1 == at + |more|
      ensures index1 <= roots.Length && roots[..] == Fill(was, at, ReadAt(mem[..], more))
    {
      hide Fill, ReadAt, InMemory, EntryRoots;
      index1, more := index, done;
      NoEntries(done, log);
      for e := 0 to mem[log]
        invariant index1 == index + 2 * e && more == done + EntryRoots(log, e) && InMemory(more, mem.Length)
        invariant index1 == at + |more| <= roots.Length && roots[..] == Fill(was, at, ReadAt(mem[..], more))
      {
        more := Take(roots, index1, log + 1 + 3 * e, at, was, more);
        more := Take(roots, index1 + 1, log + 3 + 3 * e, at, was, more);
        index1 := index1 + 2;
        EntryMore(done, log, e);
      }
    }

    method CollectLogRoots(roots: array<Word>, index: nat) returns (index1: nat)
      requires LogsFit(mem[..], logs) && index + |LogRoots(mem[..], logs)| <= roots.Length && roots != mem
      modifies roots
      ensures index1 == index + |LogRoots(mem[..], logs)| && InMemory(LogRoots(mem[..], logs), mem.Length)
      ensures roots[..] == Fill(old(roots[..]), index, ReadAt(mem[..], LogRoots(mem[..], logs)))
    {
      hide Fill, ReadAt, InMemory, LogRoots, LogsFit;
      index1 := index;
      ghost var was, done: seq<nat> := roots[..], [];
      NothingTaken(was, index, mem[..]);
      NoLogs(mem[..], logs);
      for k := 0 to |logs|
        invariant index1 == index + |done| <= roots.Length && LogsFit(mem[..], logs[..k])
                  && done == LogRoots(mem[..], logs[..k])
        invariant InMemory(done, mem.Length) && roots[..] == Fill(was, index, ReadAt(mem[..], done))
      {
        LogPart(mem[..], logs, k);
        if logs[k].LogFrame? {
          index1, done := CollectEntries(roots, index1, logs[k].log, index, was, done);
        }
      }
      assert logs[..|logs|] == logs;
    }

    /** Puts a root back where it came from. */
    method Give(value: Word, a: nat, ghost was: seq<Word>, ghost done: seq<nat>, ghost values: seq<Word>)
      returns (ghost more: seq<nat>, ghost moreValues: seq<Word>)
      requires a < mem.Length == |was| && InMemory(done, mem.Length) && |values| == |done|
               && mem[..] == WriteAt(was, done, values)
      modifies mem
      ensures more == done + [a] && moreValues == values + [value] && InMemory(more, mem.Length)
      ensures mem[..] == WriteAt(was, more, moreValues)
    {
      hide WriteAt, InMemory;
      more, moreValues := done + [a], values + [value];
      WriteMore(was, done, values, a, value);
      ghost var now := mem[..];
      mem[a] := value;
      assert mem[..] == now[a := value];
    }

    method RestoreHandlerRoots(roots: array<Word>, index: nat) returns (index1: nat)
      requires HandlersFit(handlers, mem.Length) && index + 3 * |handlers| <= roots.Length && roots != mem
      modifies mem
      ensures index1 == index + |HandlerRoots(handlers)| && InMemory(HandlerRoots(handlers), mem.Length)
      ensures mem[..] == WriteAt(old(mem[..]), HandlerRoots(handlers), roots[index..index1])
    {
      hide WriteAt, InMemory;
      index1 := index;
      ghost var was, done: seq<nat>, values: seq<Word> := mem[..], [], [];
      NothingGiven(was);
      for k := 0 to |handlers|
        invariant index1 == index + 3 * k && done == HandlerRoots(handlers[..k]) && InMemory(done, mem.Length)
        invariant values == roots[index..index1] && |values| == |done| && mem[..] == WriteAt(was, done, values)
      {
        done, values := Give(roots[index1], handlers[k].classAt, was, done, values);
        done, values := Give(roots[index1 + 1], handlers[k].blockAt, was, done, values);
        done, values := Give(roots[index1 + 2], handlers[k].slotAt, was, done, values);
        index1 := index1 + 3;
        assert handlers[..k + 1][..k] == handlers[..k];
      }
      assert handlers[..|handlers|] == handlers;
    }

    method RestoreEnsureRoots(roots: array<Word>, index: nat) returns (index1: nat)
      requires EnsuresFit(ensureFrames, mem.Length) && index + 2 * |ensureFrames| <= roots.Length && roots != mem
      modifies mem
      ensures index1 == index + |EnsureRoots(ensureFrames)| && InMemory(EnsureRoots(ensureFrames), mem.Length)
      ensures mem[..] == WriteAt(old(mem[..]), EnsureRoots(ensureFrames), roots[index..index1])
    {
      hide WriteAt, InMemory;
      index1 := index;
      ghost var was, done: seq<nat>, values: seq<Word> := mem[..], [], [];
      NothingGiven(was);
      for k := 0 to |ensureFrames|
        invariant index1 == index + 2 * k && done == EnsureRoots(ensureFrames[..k]) && InMemory(done, mem.Length)
        invariant values == roots[index..index1] && |values| == |done| && mem[..] == WriteAt(was, done, values)
      {
        done, values := Give(roots[index1], ensureFrames[k].classSlot, was, done, values);
        done, values := Give(roots[index1 + 1], ensureFrames[k].payloadSlot, was, done, values);
        index1 := index1 + 2;
        assert ensureFrames[..k + 1][..k] == ensureFrames[..k];
      }
      assert ensureFrames[..|ensureFrames|] == ensureFrames;
    }

    /** The entries of one log, whose count is no root. */
    method RestoreEntries(roots: array<Word>, index: nat, log: nat, ghost was: seq<Word>, ghost done: seq<nat>,
                          ghost values: seq<Word>)
      returns (index1: nat, ghost more: seq<nat>, ghost moreValues: seq<Word>)
      requires |was| == mem.Length && log < mem.Length && log + 3 * (was[log] as int) < mem.Length && roots != mem
               && log !in done
      requires InMemory(done, mem.Length) && |values| == |done| && mem[..] == WriteAt(was, done, values)
      requires index + 2 * (was[log] as int) <= roots.Length
      modifies mem
      ensures more == done + EntryRoots(log, was[log]) && InMemory(more, mem.Length)
              && index1 == index + 2 * (was[log] as int)
      ensures moreValues == values + roots[index..index1] && |moreValues| == |more|
              && mem[..] == WriteAt(was, more, moreValues)
    {
      hide WriteAt, InMemory, EntryRoots;
      index1, more, moreValues := index, done, values;
      NoEntries(done, log);
      WriteElsewhere(was, done, values, log);
      for e := 0 to mem[log]
        invariant index1 == index + 2 * e && more == done + EntryRoots(log, e) && InMemory(more, mem.Length)
        invariant moreValues == values + roots[index..index1] && |moreValues| == |more|
                  && mem[..] == WriteAt(was, more, moreValues)
      {
        more, moreValues := Give(roots[index1], log + 1 + 3 * e, was, more, moreValues);
        more, moreValues := Give(roots[index1 + 1], log + 3 + 3 * e, was, more, moreValues);
        assert roots[index..index1 + 2] == roots[index..index1] + [roots[index1]] + [roots[index1 + 1]];
        index1 := index1 + 2;
        EntryMore(done, log, e);
      }
    }

    /** The counts of the logs are themselves no roots. */
    method RestoreLogRoots(roots: array<Word>, index: nat) returns (index1: nat)
      requires LogsFit(mem[..], logs) && index + |LogRoots(mem[..], logs)| <= roots.Length && roots != mem
      requires CountsApart(logs, LogRoots(mem[..], logs))
      modifies mem
      ensures index1 == index + old(|LogRoots(mem[..], logs)|) && InMemory(old(LogRoots(mem[..], logs)), mem.Length)
      ensures mem[..] == WriteAt(old(mem[..]), old(LogRoots(mem[..], logs)), roots[index..index1])
    {
      hide WriteAt, InMemory, LogRoots, LogsFit;
      index1 := index;
      ghost var was, done: seq<nat>, values: seq<Word> := mem[..], [], [];
      NothingGiven(was);
      NoLogs(was, logs);
      for k := 0 to |logs|
        invariant index1 == index + |done| <= roots.Length && LogsFit(was, logs[..k])
                  && done == LogRoots(was, logs[..k]) && InMemory(done, mem.Length)
        invariant values == roots[index..index1] && |values| == |done| && mem[..] == WriteAt(was, done, values)
      {
        LogPart(was, logs, k);
        if logs[k].LogFrame? {
          ghost var before := index1;
          index1, done, values := RestoreEntries(roots, index1, logs[k].log, was, done, values);
          assert roots[index..index1] == roots[index..before] + roots[before..index1];
        }
      }
      assert logs[..|logs|] == logs;
    }

    /** Every root location, in the order of the array: stack slots, handlers, `ensure:` frames, logs, class table. */
    ghost function AllRoots(slots: seq<nat>, classTableAt: nat): seq<nat>
      requires LogsFit(mem[..], logs)
      reads this, mem
    {
      slots + HandlerRoots(handlers) + EnsureRoots(ensureFrames) + LogRoots(mem[..], logs) + [classTableAt]
    }

    ghost predicate Valid(slots: seq<nat>, classTableAt: nat)
      reads this, mem
    {
      && InMemory(slots, mem.Length) && HandlersFit(handlers, mem.Length) && EnsuresFit(ensureFrames, mem.Length)
         && LogsFit(mem[..], logs)
      && classTableAt < mem.Length && CountsApart(logs, AllRoots(slots, classTableAt))
    }

    method CollectSlots(slots: seq<nat>, roots: array<Word>)
      requires InMemory(slots, mem.Length) && |slots| <= roots.Length && roots != mem
      modifies roots
      ensures roots[..] == Fill(old(roots[..]), 0, ReadAt(mem[..], slots))
    {
      for k := 0 to |slots|
        invariant forall j :: 0 <= j < roots.Length ==> roots[j] == if j < k then mem[slots[j]] else old(roots[j])
      {
        roots[k] := mem[slots[k]];
      }
    }

    method RestoreSlots(slots: seq<nat>, roots: array<Word>)
      requires InMemory(slots, mem.Length) && |slots| <= roots.Length && roots != mem
      modifies mem
      ensures mem[..] == WriteAt(old(mem[..]), slots, roots[..|slots|])
    {
      hide WriteAt;
      ghost var was, done: seq<nat>, values: seq<Word> := mem[..], [], [];
      NothingGiven(was);
      for k := 0 to |slots|
        invariant done == slots[..k] && values == roots[..k] && InMemory(done, mem.Length)
                  && mem[..] == WriteAt(was, done, values)
      {
        done, values := Give(roots[k], slots[k], was, done, values);
      }
      assert slots[..|slots|] == slots;
    }

    /** Copies every root into a new array. */
    method CollectRoots(slots: seq<nat>, classTableAt: nat) returns (roots: array<Word>)
      requires Valid(slots, classTableAt)
      ensures fresh(roots) && InMemory(AllRoots(slots, classTableAt), mem.Length)
      ensures roots[..] == ReadAt(mem[..], AllRoots(slots, classTableAt))
    {
      hide Fill, ReadAt, InMemory, LogsFit, HandlersFit, EnsuresFit, CountsApart;
      var handlerCount := CountHandlerRoots();
      var ensureCount := CountEnsureRoots();
      var logCount := CountLogRoots();
      roots := new Word[|slots| + handlerCount + ensureCount + logCount + 1](_ => 0);
      ghost var was, m := roots[..], mem[..];
      ghost var h, e, l := HandlerRoots(handlers), EnsureRoots(ensureFrames), LogRoots(m, logs);
      CollectSlots(slots, roots);
      var index := CollectHandlerRoots(roots, |slots|);
      FillRead(was, m, slots, h);
      index := CollectEnsureRoots(roots, index);
      FillRead(was, m, slots + h, e);
      index := CollectLogRoots(roots, index);
      FillRead(was, m, slots + h + e, l);
      ghost var all := Take(roots, index, classTableAt, 0, was, slots + h + e + l);
      FillWhole(was, ReadAt(m, all));
    }

    /** Writes every root back, in the same order. */
    method RestoreRoots(slots: seq<nat>, classTableAt: nat, roots: array<Word>)
      requires Valid(slots, classTableAt) && roots.Length == |AllRoots(slots, classTableAt)| && roots != mem
      modifies mem
      ensures InMemory(old(AllRoots(slots, classTableAt)), mem.Length)
      ensures mem[..] == WriteAt(old(mem[..]), old(AllRoots(slots, classTableAt)), roots[..])
    {
      hide WriteAt, InMemory, LogsFit, HandlersFit, EnsuresFit, LogRoots, CountsApart;
      ghost var was, values := mem[..], roots[..];
      ghost var h, e, l := HandlerRoots(handlers), EnsureRoots(ensureFrames), LogRoots(was, logs);
      RestoreSlots(slots, roots);
      var index := RestoreHandlerRoots(roots, |slots|);
      WriteBoth(was, slots, h, values[..|slots|], values[|slots|..index]);
      ghost var i1 := index;
      assert values[..|slots|] + values[|slots|..i1] == values[..i1];
      index := RestoreEnsureRoots(roots, index);
      ghost var i2 := index;
      WriteBoth(was, slots + h, e, values[..i1], values[i1..i2]);
      assert values[..i1] + values[i1..i2] == values[..i2];
      assert slots + h + e + (l + [classTableAt]) == old(AllRoots(slots, classTableAt))
             && (l + [classTableAt])[..|l|] == l;
      LogsKept(was, slots + h + e, l + [classTableAt], values[..i2], logs);
      index := RestoreLogRoots(roots, index);
      ghost var i3 := index;
      WriteBoth(was, slots + h + e, l, values[..i2], values[i2..i3]);
      assert values[..i2] + values[i2..i3] == values[..i3];
      ghost var all, last := Give(roots[index], classTableAt, was, slots + h + e + l, values[..i3]);
      assert last == values;
    }

    /** The collector's stated contract on its roots: each holds the forwarded value of what it held. */
    method ForwardRoots(roots: array<Word>, forward: Word -> Word)
      modifies roots
      ensures roots[..] == Forwarded(old(roots[..]), forward)
    {
      for k := 0 to roots.Length
        invariant forall j :: 0 <= j < roots.Length ==>
                  roots[j] == if j < k then forward(old(roots[j])) else old(roots[j])
      {
        roots[k] := forward(roots[k]);
      }
    }

    /** Makes the space just filled the one to allocate from, and the other one empty. */
    method SwapSpaces()
      requires om.Length == CONTEXT_WORDS && HasLayout(om[..])
      modifies om
      ensures HasLayout(om[..])
      ensures om[FROM_START] == old(om[TO_START]) && om[FROM_END] == old(om[TO_END])
              && om[FROM_FREE] == old(om[TO_FREE])
      ensures om[TO_START] == old(om[FROM_START]) && om[TO_FREE] == old(om[FROM_START])
              && om[TO_END] == old(om[FROM_END])
      ensures forall i :: SPACE_SIZE <= i < CONTEXT_WORDS ==> om[i] == old(om[i])
    {
      var fromFree, fromEnd, fromStart := om[FROM_FREE], om[FROM_END], om[FROM_START];
      om[FROM_FREE] := om[TO_FREE];
      om[FROM_END] := om[TO_END];
      om[TO_FREE] := fromFree;
      om[TO_END] := fromEnd;
      om[FROM_START] := om[TO_START];
      om[TO_START] := fromStart;
      om[TO_FREE] := om[TO_START];
      om[TO_END] := W.Wrap(om[TO_START] as int + om[SPACE_SIZE]);
    }

    /**
     A collection in the middle of a run.  `forward` is where the collector moves each value to,
     `filled` how far it fills the other space, and `code` where the byte codes of a moved
     method are.  Refused for a context that is not
     registered or has not the two-space layout; otherwise every root location, however
     many roles it has, ends with the forwarded value of what it held, the instruction pointer
     keeps its place in the byte codes, and the layout survives.
     */
    method CollectAndRetry(slots: seq<nat>, classTableAt: nat, methodAt: nat, ip: nat, base: nat,
                           forward: Word -> Word, filled: Word, code: Word -> nat)
      returns (ok: bool, ip1: nat, base1: nat)
      requires Valid(slots, classTableAt) && om != mem && base <= ip && methodAt in slots
      requires om.Length == CONTEXT_WORDS && om[TO_START] <= filled <= om[TO_END]
      modifies mem, om
      ensures ok == (om in registered && HasLayout(old(om[..])))
      ensures !ok ==> mem[..] == old(mem[..]) && om[..] == old(om[..]) && ip1 == ip && base1 == base
      ensures ok ==> RootsForwarded(old(mem[..]), mem[..], old(AllRoots(slots, classTableAt)), forward)
      ensures ok ==> Collected(old(mem[..]), mem[..], slots, handlers, ensureFrames, logs, classTableAt, forward)
      ensures ok ==> base <= ip && base1 <= ip1 && ip1 - base1 == ip - base
      ensures ok ==> methodAt < mem.Length && base1 == code(forward(old(mem[..])[methodAt]))
      ensures ok ==> HasLayout(om[..]) && om[FROM_START] == old(om[TO_START]) && om[TO_START] == old(om[FROM_START])
                     && om[FROM_FREE] == filled
    {
      if om !in registered || !HasLayout(om[..]) {
        return false, ip, base;
      }
      hide WriteAt, ReadAt, Forwarded, AllRoots, Valid, HandlerRoots, EnsureRoots, LogRoots, Collected, RootsForwarded;
      ghost var was, all := mem[..], AllRoots(slots, classTableAt);
      var roots := CollectRoots(slots, classTableAt);
      ForwardRoots(roots, forward);
      om[TO_FREE] := filled;
      RestoreRoots(slots, classTableAt, roots);
      ForwardAll(was, all, forward);
      IsRoot(slots, classTableAt, methodAt, was);
      AllCollected(was, mem[..], slots, handlers, ensureFrames, logs, classTableAt, forward);
      SwapSpaces();
      base1 := code(mem[methodAt]);
      ip1 := base1 + (ip - base);
      ok := true;
    }

    lemma IsRoot(slots: seq<nat>, classTableAt: nat, a: nat, was: seq<Word>)
      requires LogsFit(was, logs) && InMemory(slots, |was|) && a in slots
      ensures a < |was| && a in slots + HandlerRoots(handlers) + EnsureRoots(ensureFrames) + LogRoots(was, logs)
              + [classTableAt]
    {
    }
  }

  predicate OfHandler(h: Handler, a: nat) { a == h.classAt || a == h.blockAt || a == h.slotAt }

  predicate OfEnsure(f: EnsureFrame, a: nat) { a == f.classSlot || a == f.payloadSlot }

  /** The first and the third word of some entry of a log: its object and its value. */
  predicate OfEntries(log: nat, mem: seq<Word>, a: nat) {
    log < |mem| && log < a <= log + 3 * (mem[log] as int) && (a - log) % 3 != 2
  }

  /** The locations whose words a collection may move. */
  ghost predicate IsRootAt(mem: seq<Word>, slots: seq<nat>, handlers: seq<Handler>, frames: seq<EnsureFrame>,
                           logs: seq<LogFrame>, classTableAt: nat, a: nat) {
    || a in slots || a == classTableAt
    || (exists k :: 0 <= k < |handlers| && OfHandler(handlers[k], a))
    || (exists k :: 0 <= k < |frames| && OfEnsure(frames[k], a))
    || (exists k :: 0 <= k < |logs| && logs[k].LogFrame? && OfEntries(logs[k].log, mem, a))
  }

  lemma {:induction false} HandlersLocated(handlers: seq<Handler>, a: nat)
    ensures a in HandlerRoots(handlers) <==> exists k :: 0 <= k < |handlers| && OfHandler(handlers[k], a)
  {
    if handlers != [] {
      var last := |handlers| - 1;
      HandlersLocated(handlers[..last], a);
      assert a in HandlerRoots(handlers) <==> a in HandlerRoots(handlers[..last]) || OfHandler(handlers[last], a);
      assert forall k :: 0 <= k < last ==> handlers[..last][k] == handlers[k];
      hide HandlerRoots, OfHandler;
    }
  }

  lemma {:induction false} EnsuresLocated(frames: seq<EnsureFrame>, a: nat)
    ensures a in EnsureRoots(frames) <==> exists k :: 0 <= k < |frames| && OfEnsure(frames[k], a)
  {
    if frames != [] {
      var last := |frames| - 1;
      EnsuresLocated(frames[..last], a);
      assert a in EnsureRoots(frames) <==> a in EnsureRoots(frames[..last]) || OfEnsure(frames[last], a);
      assert forall k :: 0 <= k < last ==> frames[..last][k] == frames[k];
      hide EnsureRoots, OfEnsure;
    }
  }

  lemma {:induction false} EntriesLocated(log: nat, count: nat, a: nat)
    ensures a in EntryRoots(log, count) <==> log < a <= log + 3 * count && (a - log) % 3 != 2
  {
    if count > 0 {
      EntriesLocated(log, count - 1, a);
      assert a in EntryRoots(log, count)
             <==> a in EntryRoots(log, count - 1) || a == log + 3 * count - 2 || a == log + 3 * count;
    }
  }

  lemma {:induction false} LogsLocated(mem: seq<Word>, logs: seq<LogFrame>, a: nat)
    requires LogsFit(mem, logs)
    ensures a in LogRoots(mem, logs)
            <==> exists k :: 0 <= k < |logs| && logs[k].LogFrame? && OfEntries(logs[k].log, mem, a)
    decreases |logs|
  {
    hide EntryRoots;
    if logs != [] {
      var last := |logs| - 1;
      LogsLocated(mem, logs[..last], a);
      if logs[last].LogFrame? {
        EntriesLocated(logs[last].log, mem[logs[last].log], a);
      }
      assert a in LogRoots(mem, logs) <==> a in LogRoots(mem, logs[..last])
                                           || (logs[last].LogFrame? && OfEntries(logs[last].log, mem, a));
      assert forall k :: 0 <= k < last ==> logs[..last][k] == logs[k];
      hide LogRoots, OfEntries;
    }
  }

  /** The locations that the collector walks are the roots, and no others. */
  lemma Located(mem: seq<Word>, slots: seq<nat>, handlers: seq<Handler>, frames: seq<EnsureFrame>, logs: seq<LogFrame>,
                classTableAt: nat)
    requires LogsFit(mem, logs)
    ensures var all := slots + HandlerRoots(handlers) + EnsureRoots(frames) + LogRoots(mem, logs) + [classTableAt];
            forall a: nat :: a in all <==> IsRootAt(mem, slots, handlers, frames, logs, classTableAt, a)
  {
    hide HandlerRoots, EnsureRoots, LogRoots, OfHandler, OfEnsure, OfEntries;
    var all := slots + HandlerRoots(handlers) + EnsureRoots(frames) + LogRoots(mem, logs) + [classTableAt];
    forall a: nat ensures a in all <==> IsRootAt(mem, slots, handlers, frames, logs, classTableAt, a) {
      HandlersLocated(handlers, a);
      EnsuresLocated(frames, a);
      LogsLocated(mem, logs, a);
      assert a in all <==> a in slots || a in HandlerRoots(handlers) || a in EnsureRoots(frames)
                           || a in LogRoots(mem, logs) || a == classTableAt;
    }
  }

  /**
   Location by location: each stack slot, the class, block and signalled exception of each handler,
   both slots of each `ensure:` frame, the object and the value of each log entry and the class table
   hold the forwarded value of what they held.  Every word at none of these is as it was.
   */
  ghost predicate Collected(mem: seq<Word>, mem1: seq<Word>, slots: seq<nat>, handlers: seq<Handler>,
                            frames: seq<EnsureFrame>, logs: seq<LogFrame>, classTableAt: nat, forward: Word -> Word) {
    && |mem1| == |mem| && HandlersFit(handlers, |mem|) && EnsuresFit(frames, |mem|) && InMemory(slots, |mem|)
    && (forall i :: 0 <= i < |slots| ==> mem1[slots[i]] == forward(mem[slots[i]]))
    && (forall k :: 0 <= k < |handlers| ==>
          && mem1[handlers[k].classAt] == forward(mem[handlers[k].classAt])
          && mem1[handlers[k].blockAt] == forward(mem[handlers[k].blockAt])
          && mem1[handlers[k].slotAt] == forward(mem[handlers[k].slotAt]))
    && (forall k :: 0 <= k < |frames| ==>
          && mem1[frames[k].classSlot] == forward(mem[frames[k].classSlot])
          && mem1[frames[k].payloadSlot] == forward(mem[frames[k].payloadSlot]))
    && (forall k, a: nat :: 0 <= k < |logs| && logs[k].LogFrame? && OfEntries(logs[k].log, mem, a) && a < |mem| ==>
          mem1[a] == forward(mem[a]))
    && classTableAt < |mem| && mem1[classTableAt] == forward(mem[classTableAt])
    && (forall a :: 0 <= a < |mem| && !IsRootAt(mem, slots, handlers, frames, logs, classTableAt, a) ==>
          mem1[a] == mem[a])
  }

  lemma AllCollected(mem: seq<Word>, mem1: seq<Word>, slots: seq<nat>, handlers: seq<Handler>,
                     frames: seq<EnsureFrame>, logs: seq<LogFrame>, classTableAt: nat, forward: Word -> Word)
    requires HandlersFit(handlers, |mem|) && EnsuresFit(frames, |mem|) && InMemory(slots, |mem|) && LogsFit(mem, logs)
    requires classTableAt < |mem|
    requires var all := slots + HandlerRoots(handlers) + EnsureRoots(frames) + LogRoots(mem, logs) + [classTableAt];
             RootsForwarded(mem, mem1, all, forward)
    ensures Collected(mem, mem1, slots, handlers, frames, logs, classTableAt, forward)
  {
    hide HandlerRoots, EnsureRoots, LogRoots, OfHandler, OfEnsure, OfEntries;
    Located(mem, slots, handlers, frames, logs, classTableAt);
    var all := slots + HandlerRoots(handlers) + EnsureRoots(frames) + LogRoots(mem, logs) + [classTableAt];
    forall k | 0 <= k < |handlers|
      ensures handlers[k].classAt in all && handlers[k].blockAt in all && handlers[k].slotAt in all
    {
      HandlerHas(handlers[k]);
    }
    forall k | 0 <= k < |frames| ensures frames[k].classSlot in all && frames[k].payloadSlot in all {
      EnsureHas(frames[k]);
    }
  }

  lemma HandlerHas(h: Handler)
    ensures OfHandler(h, h.classAt) && OfHandler(h, h.blockAt) && OfHandler(h, h.slotAt)
  {
  }

  lemma EnsureHas(f: EnsureFrame)
    ensures OfEnsure(f, f.classSlot) && OfEnsure(f, f.payloadSlot)
  {
  }

  predicate CountsApart(logs: seq<LogFrame>, locations: seq<nat>) {
    forall k :: 0 <= k < |logs| && logs[k].LogFrame? ==> logs[k].log !in locations
  }

  /** Two stretches of roots, one after the other. */
  lemma FillRead(was: seq<Word>, mem: seq<Word>, a: seq<nat>, b: seq<nat>)
    requires InMemory(a, |mem|) && InMemory(b, |mem|) && |a| + |b| <= |was|
    ensures InMemory(a + b, |mem|)
    ensures Fill(Fill(was, 0, ReadAt(mem, a)), |a|, ReadAt(mem, b)) == Fill(was, 0, ReadAt(mem, a + b))
  {
    ReadBoth(mem, a, b);
  }

  lemma FillWhole(was: seq<Word>, values: seq<Word>)
    requires |values| == |was|
    ensures Fill(was, 0, values) == values
  {
  }

  /** Writing roots leaves the counts of the logs, and so the locations that they give. */
  lemma LogsKept(was: seq<Word>, locations: seq<nat>, others: seq<nat>, values: seq<Word>, logs: seq<LogFrame>)
    requires InMemory(locations, |was|) && |values| == |locations| && LogsFit(was, logs)
             && CountsApart(logs, locations + others)
    ensures LogsFit(WriteAt(was, locations, values), logs)
            && LogRoots(WriteAt(was, locations, values), logs) == LogRoots(was, logs)
    ensures others != [] ==> CountsApart(logs, others[..|others| - 1])
  {
    hide WriteAt;
    var now := WriteAt(was, locations, values);
    forall k | 0 <= k < |logs| && logs[k].LogFrame? ensures now[logs[k].log] == was[logs[k].log]
        && logs[k].log !in others {
      assert logs[k].log !in locations + others;
      WriteElsewhere(was, locations, values, logs[k].log);
    }
    SameCounts(was, now, logs);
  }

  lemma {:induction false} SameCounts(was: seq<Word>, now: seq<Word>, logs: seq<LogFrame>)
    requires |now| == |was| && LogsFit(was, logs)
    requires forall k :: 0 <= k < |logs| && logs[k].LogFrame? ==> now[logs[k].log] == was[logs[k].log]
    ensures LogsFit(now, logs) && LogRoots(now, logs) == LogRoots(was, logs)
    decreases |logs|
  {
    if logs != [] {
      SameCounts(was, now, logs[..|logs| - 1]);
    }
  }

  lemma NothingGiven(was: seq<Word>)
    ensures InMemory([], |was|) && WriteAt(was, [], []) == was
  {
  }

  /** The locations of a chain's prefix are a prefix of its locations. */
  lemma {:induction false} LogPrefix(mem: seq<Word>, logs: seq<LogFrame>, k: nat)
    requires LogsFit(mem, logs) && k <= |logs|
    ensures LogsFit(mem, logs[..k]) && LogRoots(mem, logs[..k]) <= LogRoots(mem, logs)
    decreases |logs|
  {
    if k == |logs| {
      assert logs[..k] == logs;
    } else {
      LogPrefix(mem, logs[..|logs| - 1], k);
      assert logs[..|logs| - 1][..k] == logs[..k];
    }
  }

  /** One more frame of a chain, and its log in memory. */
  lemma LogPart(mem: seq<Word>, logs: seq<LogFrame>, k: nat)
    requires LogsFit(mem, logs) && k < |logs|
    ensures LogsFit(mem, logs[..k]) && LogsFit(mem, logs[..k + 1])
    ensures LogRoots(mem, logs[..k + 1]) == LogRoots(mem, logs[..k]) + if logs[k].NoLog?
            then [] else EntryRoots(logs[k].log, mem[logs[k].log])
    ensures |LogRoots(mem, logs[..k + 1])| <= |LogRoots(mem, logs)|
    ensures logs[k].LogFrame? ==> logs[k].log < |mem| && logs[k].log + 3 * (mem[logs[k].log] as int) < |mem|
    ensures forall a :: a in LogRoots(mem, logs[..k]) ==> a in LogRoots(mem, logs)
  {
    hide EntryRoots;
    assert logs[..k + 1][..k] == logs[..k];
    assert LogsFit(mem, logs[..k]) && LogRoots(mem, logs[..k]) <= LogRoots(mem, logs) by { LogPrefix(mem, logs, k); }
    assert LogsFit(mem, logs[..k + 1]) && LogRoots(mem, logs[..k + 1]) <= LogRoots(mem, logs)
           by { LogPrefix(mem, logs, k + 1); }
  }

  lemma NoLogs(mem: seq<Word>, logs: seq<LogFrame>)
    ensures LogsFit(mem, logs[..0]) && LogRoots(mem, logs[..0]) == []
  {
  }

  lemma NoEntries(done: seq<nat>, log: nat)
    ensures done + EntryRoots(log, 0) == done
  {
  }

  lemma EntryMore(before: seq<nat>, log: nat, e: nat)
    ensures before + EntryRoots(log, e) + [log + 1 + 3 * e] + [log + 3 + 3 * e] == before + EntryRoots(log, e + 1)
  {
  }

  lemma NothingTaken(was: seq<Word>, at: nat, mem: seq<Word>)
    requires at <= |was|
    ensures InMemory([], |mem|) && Fill(was, at, ReadAt(mem, [])) == was
  {
  }
}
