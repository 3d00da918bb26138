/** PlayerLoopUpdateManager.cs: inserting a custom system into the engine's player
    loop, removing it again, and the list of updateables the custom system drives. */
module PlayerLoop {
  import opened ListExtensions

  type TypeId = nat

  /** A PlayerLoopSystem: its system `type`, its sub-systems, and `update`, which
      stands for the update delegate (compared, like every field, by struct equality). */
  datatype LoopSystem = LoopSystem(systemType: TypeId, subSystemList: seq<LoopSystem>, update: nat)

  /** How many entries of `s` have the given system type. */
  function CountOfType(s: seq<LoopSystem>, t: TypeId): nat
  {
    if s == [] then 0
    else CountOfType(s[..|s| - 1], t) + (if s[|s| - 1].systemType == t then 1 else 0)
  }

  /** The sub-system list after AddAfterSystem: each entry, followed by `toAdd`
      whenever the entry's type is `after`. */
  function InsertedAfter(s: seq<LoopSystem>, toAdd: LoopSystem, after: TypeId): seq<LoopSystem>
  {
    if s == [] then []
    else
      var last := s[|s| - 1];
      InsertedAfter(s[..|s| - 1], toAdd, after) + [last] + (if last.systemType == after then [toAdd] else [])
  }

  /** The new list grows by one entry per match. */
  lemma {:induction false} InsertedAfterLength(s: seq<LoopSystem>, toAdd: LoopSystem, after: TypeId)
    ensures |InsertedAfter(s, toAdd, after)| == |s| + CountOfType(s, after)
  {
    if s != [] {
      InsertedAfterLength(s[..|s| - 1], toAdd, after);
    }
  }

  /** With no entry of type `after`, the list is unchanged. */
  lemma {:induction false} InsertedAfterNoMatch(s: seq<LoopSystem>, toAdd: LoopSystem, after: TypeId)
    requires forall k :: 0 <= k < |s| ==> s[k].systemType != after
    ensures InsertedAfter(s, toAdd, after) == s
  {
    if s != [] {
      InsertedAfterNoMatch(s[..|s| - 1], toAdd, after);
      assert s == s[..|s| - 1] + [s[|s| - 1]];
    }
  }

  /** Entry `k` of the old list lands at `k` plus the number of matches before it, in
      the old order, and a matching entry is immediately followed by `toAdd`. */
  lemma {:induction false} InsertedAfterPlacement(s: seq<LoopSystem>, toAdd: LoopSystem, after: TypeId, k: nat)
    requires k < |s|
    ensures var r := InsertedAfter(s, toAdd, after);
            var p := k + CountOfType(s[..k], after);
            p < |r| && r[p] == s[k] &&
            (s[k].systemType == after ==> p + 1 < |r| && r[p + 1] == toAdd)
  {
    var init := s[..|s| - 1];
    InsertedAfterLength(init, toAdd, after);
    if k < |s| - 1 {
      InsertedAfterPlacement(init, toAdd, after, k);
      assert init[..k] == s[..k];
    } else {
      assert s[..k] == init;
    }
  }

  /** AddAfterSystem: rebuild the root's sub-system list, appending `systemToAdd`
      after every entry of type `updateAfterSystem`; the root comes back updated. */
  method AddAfterSystem(loopSystem: LoopSystem, systemToAdd: LoopSystem, updateAfterSystem: TypeId)
    returns (r: LoopSystem)
    ensures r == loopSystem.(subSystemList := InsertedAfter(loopSystem.subSystemList, systemToAdd, updateAfterSystem))
  {
    var subs := loopSystem.subSystemList;
    var newSubSystemList: seq<LoopSystem> := [];
    var i := 0;
    while i < |subs|
      invariant 0 <= i <= |subs|
      invariant newSubSystemList == InsertedAfter(subs[..i], systemToAdd, updateAfterSystem)
    {
      newSubSystemList := newSubSystemList + [subs[i]];
      if subs[i].systemType == updateAfterSystem {
        newSubSystemList := newSubSystemList + [systemToAdd];
      }
      assert subs[..i + 1][..i] == subs[..i];
      i := i + 1;
    }
    assert subs[..i] == subs;
    r := loopSystem.(subSystemList := newSubSystemList);
  }

  /** RemoveSystem: copy the sub-system list into a List, RemoveFast the system (the
      first equal entry is overwritten by the last one), and store the result back.
      RemoveFast throws on an absent system, so presence is required. */
  method RemoveSystem(loopSystem: LoopSystem, systemToRemove: LoopSystem) returns (r: LoopSystem)
    requires systemToRemove in loopSystem.subSystemList
    ensures var subs := loopSystem.subSystemList;
            r == loopSystem.(subSystemList := SwapRemoved(subs, IndexOf(subs, systemToRemove)))
  {
    var subSystemList := new FastList<LoopSystem>.FromSeq(loopSystem.subSystemList);
    subSystemList.RemoveFast(systemToRemove);
    r := loopSystem.(subSystemList := subSystemList.Elements());
  }

  /** RemoveSystem drops exactly one occurrence of the system. */
  lemma RemoveSystemDropsOne(subs: seq<LoopSystem>, system: LoopSystem)
    requires system in subs
    ensures |SwapRemoved(subs, IndexOf(subs, system))| == |subs| - 1
    ensures multiset(SwapRemoved(subs, IndexOf(subs, system))) == multiset(subs) - multiset{system}
  {
    SwapRemovedMultiset(subs, IndexOf(subs, system));
  }

  /** `List.Remove(x)`: drop the first occurrence of `x`, keeping the order of the rest. */
  function RemoveFirst<U(==)>(s: seq<U>, x: U): seq<U>
  {
    if x in s then s[..IndexOf(s, x)] + s[IndexOf(s, x) + 1..] else s
  }

  /** List.Remove takes away exactly one occurrence when there is one, else nothing. */
  lemma RemoveFirstMultiset<U>(s: seq<U>, x: U)
    ensures multiset(RemoveFirst(s, x)) == multiset(s) - multiset{x}
    ensures x !in s ==> RemoveFirst(s, x) == s
  {
    if x in s {
      var i := IndexOf(s, x);
      var a, b := s[..i], s[i + 1..];
      assert s == a + [x] + b;
      assert multiset(s) == multiset(a) + multiset{x} + multiset(b);
      assert RemoveFirst(s, x) == a + b;
    }
  }

  /** How many times `x` occurs in `s`. */
  function Occurrences<U(==)>(s: seq<U>, x: U): nat
  {
    if s == [] then 0 else Occurrences(s[..|s| - 1], x) + (if s[|s| - 1] == x then 1 else 0)
  }

  /** Occurrences is the multiplicity of `x` in the multiset of `s`. */
  lemma {:induction false} OccurrencesIsMultiplicity<U>(s: seq<U>, x: U)
    ensures Occurrences(s, x) == multiset(s)[x]
  {
    if s != [] {
      OccurrencesIsMultiplicity(s[..|s| - 1], x);
      assert s == s[..|s| - 1] + [s[|s| - 1]];
    }
  }

  /** An element occurs in `s` exactly when it is counted at least once. */
  lemma {:induction false} OccurrencesPositive<U>(s: seq<U>, x: U)
    ensures Occurrences(s, x) > 0 <==> x in s
  {
    if s != [] {
      OccurrencesPositive(s[..|s| - 1], x);
      assert s == s[..|s| - 1] + [s[|s| - 1]];
    }
  }

  /** Counting distributes over concatenation. */
  lemma {:induction false} OccurrencesConcat<U>(a: seq<U>, b: seq<U>, x: U)
    ensures Occurrences(a + b, x) == Occurrences(a, x) + Occurrences(b, x)
  {
    if b != [] {
      OccurrencesConcat(a, b[..|b| - 1], x);
      assert (a + b)[..|a + b| - 1] == a + b[..|b| - 1];
    } else {
      assert a + b == a;
    }
  }

  /** Register adds one to the count of the updateable it appends and nothing to any other. */
  lemma OccurrencesAppend<U>(s: seq<U>, y: U, x: U)
    ensures Occurrences(s + [y], x) == Occurrences(s, x) + (if y == x then 1 else 0)
  {
    assert (s + [y])[..|s|] == s;
  }

  /** Unregister takes one from the count of the updateable it removes, if present,
      and leaves every other count alone. */
  lemma RemoveFirstOccurrences<U>(s: seq<U>, y: U, x: U)
    ensures Occurrences(RemoveFirst(s, y), x) == Occurrences(s, x) - (if x == y && y in s then 1 else 0)
  {
    if y in s {
      var i := IndexOf(s, y);
      var a, b := s[..i], s[i + 1..];
      assert Occurrences(s, x) == Occurrences(a, x) + (if y == x then 1 else 0) + Occurrences(b, x) by {
        assert s == (a + [y]) + b;
        OccurrencesConcat(a + [y], b, x);
        OccurrencesAppend(a, y, x);
      }
      assert Occurrences(RemoveFirst(s, y), x) == Occurrences(a, x) + Occurrences(b, x) by {
        assert RemoveFirst(s, y) == a + b;
        OccurrencesConcat(a, b, x);
      }
    }
  }

  /** Whatever survives Unregister was there before. */
  lemma RemoveFirstSubset<U>(s: seq<U>, y: U, x: U)
    requires x in RemoveFirst(s, y)
    ensures x in s
  {
    RemoveFirstOccurrences(s, y, x);
    OccurrencesPositive(RemoveFirst(s, y), x);
    OccurrencesPositive(s, x);
  }

  /** The manager's list of registered updateables. */
  class PlayerLoopUpdateManager<U(==)> {
    var updateables: seq<U>

    constructor ()
      ensures updateables == []
    {
      updateables := [];
    }

    /** Register appends the updateable. */
    method Register(updateable: U)
      modifies this
      ensures updateables == old(updateables) + [updateable]
    {
      updateables := updateables + [updateable];
    }

    /** Unregister removes the first occurrence, if any. */
    method Unregister(updateable: U)
      modifies this
      ensures updateables == RemoveFirst(old(updateables), updateable)
    {
      updateables := RemoveFirst(updateables, updateable);
    }

    /** Dispose empties the list (the player-loop edit it also makes is engine state). */
    method Dispose()
      modifies this
      ensures updateables == []
    {
      updateables := [];
    }

    /** FeatureUpdateManager.OnUpdate: call Update on each registered updateable once,
        front to back; the result lists the calls in the order they were made. */
    method OnUpdate() returns (calls: seq<U>)
      ensures calls == updateables
    {
      calls := [];
      var featuresCount := |updateables|;
      if featuresCount == 0 {
        return;
      }
      var index := 0;
      while index < featuresCount
        invariant 0 <= index <= featuresCount
        invariant calls == updateables[..index]
      {
        calls := calls + [updateables[index]];
        index := index + 1;
      }
    }
  }
}
