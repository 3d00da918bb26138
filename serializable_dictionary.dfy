/** SerializableDictionary.cs: a dictionary that flattens itself into an entry array before
    serialisation and rebuilds itself from that array afterwards. */
module SerializableDictionaries {
  import opened Wrappers

  /** A SerializedEntry: one key/value pair. */
  datatype Entry<K, V> = Entry(key: K, value: V)

  /** The ArgumentException Dictionary.Add throws on a key it already holds. */
  datatype DictError = DuplicateKey

  /** No two entries share a key. */
  predicate DistinctKeys<K(==), V>(entries: seq<Entry<K, V>>) {
    forall i, j :: 0 <= i < j < |entries| ==> entries[i].key != entries[j].key
  }

  /** The entries are exactly the pairs of `m`, one entry per key. */
  predicate Flattens<K(==), V(==)>(entries: seq<Entry<K, V>>, m: map<K, V>) {
    && DistinctKeys(entries)
    && |entries| == |m|
    && (forall e :: e in entries ==> e.key in m && m[e.key] == e.value)
    && (forall k :: k in m ==> Entry(k, m[k]) in entries)
  }

  /** The keys of the entries, in order. */
  function KeysOf<K, V>(entries: seq<Entry<K, V>>): (ks: seq<K>)
    ensures |ks| == |entries| && forall i :: 0 <= i < |entries| ==> ks[i] == entries[i].key
  {
    seq(|entries|, i requires 0 <= i < |entries| => entries[i].key)
  }

  /** Clear, then Add each entry in order: the dictionary that results, or the error of
      the first Add that meets a key already present. */
  function Loaded<K(==), V>(entries: seq<Entry<K, V>>): Result<map<K, V>, DictError>
  {
    if entries == [] then Success(map[])
    else
      var last := entries[|entries| - 1];
      var prefix := Loaded(entries[..|entries| - 1]);
      if prefix.Failure? then prefix
      else if last.key in prefix.value then Failure(DuplicateKey)
      else Success(prefix.value[last.key := last.value])
  }

  /** Loading succeeds exactly when the keys are distinct, and then maps each entry's key
      to its value and holds no other key. */
  lemma {:induction false} LoadedContents<K, V>(entries: seq<Entry<K, V>>)
    ensures Loaded(entries).Success? <==> DistinctKeys(entries)
    ensures Loaded(entries).Success? ==>
              && (forall k :: k in Loaded(entries).value <==> k in KeysOf(entries))
              && (forall i :: 0 <= i < |entries| ==> Loaded(entries).value[entries[i].key] == entries[i].value)
  {
    if entries != [] {
      var n := |entries| - 1;
      var init := entries[..n];
      LoadedContents(init);
      assert forall i :: 0 <= i < n ==> init[i] == entries[i];
      assert KeysOf(entries) == KeysOf(init) + [entries[n].key];
      if DistinctKeys(init) && entries[n].key in Loaded(init).value {
        var i :| 0 <= i < n && KeysOf(init)[i] == entries[n].key;
        assert entries[i].key == entries[n].key;
      }
      if !DistinctKeys(init) {
        var i, j :| 0 <= i < j < n && init[i].key == init[j].key;
        assert entries[i].key == entries[j].key;
      }
    }
  }

  /** The round trip: rebuilding from a flattening of `m` gives back `m`. */
  lemma {:induction false} RoundTrip<K, V>(entries: seq<Entry<K, V>>, m: map<K, V>)
    requires Flattens(entries, m)
    ensures Loaded(entries) == Success(m)
  {
    if entries == [] {
      assert m == map[];
    } else {
      var n := |entries| - 1;
      var last := entries[n];
      FlattensInit(entries, m);
      RoundTrip(entries[..n], m - {last.key});
      assert m == (m - {last.key})[last.key := last.value];
    }
  }

  /** Dropping the last entry of a flattening flattens the map without that entry's key. */
  lemma FlattensInit<K, V>(entries: seq<Entry<K, V>>, m: map<K, V>)
    requires Flattens(entries, m) && entries != []
    ensures var last := entries[|entries| - 1];
            last.key in m && m[last.key] == last.value &&
            Flattens(entries[..|entries| - 1], m - {last.key})
  {
    var n := |entries| - 1;
    var init, last := entries[..n], entries[n];
    var rest := m - {last.key};
    assert entries[n] in entries;
    assert rest.Keys == m.Keys - {last.key};
    assert DistinctKeys(init) by {
      forall i, j | 0 <= i < j < n
        ensures init[i].key != init[j].key
      {
        assert init[i] == entries[i] && init[j] == entries[j];
      }
    }
    InitEntriesInRest(entries, m);
    RestInInit(entries, m);
  }

  /** Each entry but the last is a pair of the map without the last key. */
  lemma InitEntriesInRest<K, V>(entries: seq<Entry<K, V>>, m: map<K, V>)
    requires Flattens(entries, m) && entries != []
    ensures var n := |entries| - 1;
            forall e :: e in entries[..n] ==> e.key in m - {entries[n].key} && m[e.key] == e.value
  {
    var n := |entries| - 1;
    forall e | e in entries[..n]
      ensures e.key in m - {entries[n].key} && m[e.key] == e.value
    {
      var i :| 0 <= i < n && entries[..n][i] == e;
      assert entries[i] == e;
    }
  }

  /** Each pair of the map without the last key is an entry before the last. */
  lemma RestInInit<K, V>(entries: seq<Entry<K, V>>, m: map<K, V>)
    requires Flattens(entries, m) && entries != []
    ensures var n := |entries| - 1;
            forall k :: k in m - {entries[n].key} ==> Entry(k, m[k]) in entries[..n]
  {
    var n := |entries| - 1;
    forall k | k in m - {entries[n].key}
      ensures Entry(k, m[k]) in entries[..n]
    {
      var i :| 0 <= i < |entries| && entries[i] == Entry(k, m[k]);
      assert i != n;
      assert entries[..n][i] == entries[i];
    }
  }

  /** Two entries with the same key make the rebuild fail. */
  lemma DuplicateFails<K, V>(entries: seq<Entry<K, V>>, i: nat, j: nat)
    requires i < j < |entries| && entries[i].key == entries[j].key
    ensures Loaded(entries) == Failure(DuplicateKey)
  {
    LoadedContents(entries);
    LoadedFailsWithDuplicateKey(entries);
  }

  /** The only error loading can give is a duplicate key. */
  lemma {:induction false} LoadedFailsWithDuplicateKey<K, V>(entries: seq<Entry<K, V>>)
    ensures Loaded(entries).Failure? ==> Loaded(entries).error == DuplicateKey
  {
    if entries != [] {
      LoadedFailsWithDuplicateKey(entries[..|entries| - 1]);
    }
  }

  class SerializableDictionary<K(==), V(==)> {
    /** The dictionary contents. */
    var dict: map<K, V>
    var serializedEntries: seq<Entry<K, V>>

    constructor ()
      ensures dict == map[] && serializedEntries == []
    {
      dict := map[];
      serializedEntries := [];
    }

    /** OnBeforeSerialize: one entry per pair, in enumeration order; the dictionary is
        left as it is. */
    method OnBeforeSerialize()
      modifies this
      ensures dict == old(dict)
      ensures Flattens(serializedEntries, dict)
    {
      var serializationHelper: seq<Entry<K, V>> := [];
      var remaining := dict.Keys;
      while remaining != {}
        invariant remaining <= dict.Keys
        invariant |serializationHelper| + |remaining| == |dict|
        invariant DistinctKeys(serializationHelper)
        invariant forall e :: e in serializationHelper ==> e.key in dict && e.key !in remaining && dict[e.key] == e.value
        invariant forall k :: k in dict && k !in remaining ==> Entry(k, dict[k]) in serializationHelper
        decreases |remaining|
      {
        var k :| k in remaining;
        serializationHelper := serializationHelper + [Entry(k, dict[k])];
        remaining := remaining - {k};
      }
      serializedEntries := if |serializationHelper| > 0 then serializationHelper else [];
    }

    /** OnAfterDeserialize: Clear, Add each entry, then reset the entry array. An Add on
        a key already present throws, leaving the pairs added so far and the entries. */
    method OnAfterDeserialize() returns (r: Result<(), DictError>)
      modifies this
      ensures r.Success? <==> Loaded(old(serializedEntries)).Success?
      ensures r.Success? ==> dict == Loaded(old(serializedEntries)).value && serializedEntries == []
      ensures r.Failure? ==> r.error == DuplicateKey && serializedEntries == old(serializedEntries)
    {
      dict := map[];
      var i := 0;
      while i < |serializedEntries|
        invariant 0 <= i <= |serializedEntries|
        invariant serializedEntries == old(serializedEntries)
        invariant Loaded(serializedEntries[..i]) == Success(dict)
      {
        var entry := serializedEntries[i];
        assert serializedEntries[..i + 1][..i] == serializedEntries[..i];
        if entry.key in dict {
          LoadedStaysFailed(serializedEntries, i + 1);
          return Failure(DuplicateKey);
        }
        dict := dict[entry.key := entry.value];
        i := i + 1;
      }
      assert serializedEntries[..i] == serializedEntries;
      serializedEntries := [];
      r := Success(());
    }
  }

  /** Once a prefix fails to load, so does everything that extends it. */
  lemma {:induction false} LoadedStaysFailed<K, V>(entries: seq<Entry<K, V>>, n: nat)
    requires n <= |entries| && Loaded(entries[..n]).Failure?
    ensures Loaded(entries).Failure? && Loaded(entries).error == DuplicateKey
  {
    LoadedFailsWithDuplicateKey(entries[..n]);
    if n < |entries| {
      assert entries[..|entries| - 1][..n] == entries[..n];
      LoadedStaysFailed(entries[..|entries| - 1], n);
    } else {
      assert entries[..n] == entries;
    }
  }
}
