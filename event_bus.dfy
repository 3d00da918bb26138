/** EventBus.cs: per event type, a bucket of listeners keyed by a fresh id; publishing
    invokes the bucket's listeners in registration order, and a listen-once listener
    unregisters itself right after its call. */
module EventBuses {
  type TypeId = nat

  /** One registration in a bucket: its id (a Guid in the source, here drawn from a
      counter), the listener, and whether it was registered with RegisterListenOnce. A
      bucket's CachedDelegates dictionary and its multicast Listeners delegate hold the
      same registrations; the sequence keeps the delegate's invocation order. */
  datatype Registration<L> = Registration(id: nat, listener: L, once: bool)

  function Ids<L>(b: seq<Registration<L>>): (ids: seq<nat>)
    ensures |ids| == |b| && forall i :: 0 <= i < |b| ==> ids[i] == b[i].id
  {
    if b == [] then [] else Ids(b[..|b| - 1]) + [b[|b| - 1].id]
  }

  /** The listeners a Publish invokes, in invocation order. */
  function Listeners<L>(b: seq<Registration<L>>): (ls: seq<L>)
    ensures |ls| == |b| && forall i :: 0 <= i < |b| ==> ls[i] == b[i].listener
  {
    if b == [] then [] else Listeners(b[..|b| - 1]) + [b[|b| - 1].listener]
  }

  predicate DistinctIds<L>(b: seq<Registration<L>>) {
    forall i, j :: 0 <= i < j < |b| ==> b[i].id != b[j].id
  }

  /** The bucket after `Listeners -= wrapper; CachedDelegates.Remove(id)`. */
  function WithoutId<L>(b: seq<Registration<L>>, id: nat): seq<Registration<L>>
  {
    if b == [] then []
    else WithoutId(b[..|b| - 1], id) + (if b[|b| - 1].id == id then [] else [b[|b| - 1]])
  }

  /** The registrations that survive a Publish: all but the listen-once ones. */
  function Kept<L>(b: seq<Registration<L>>): seq<Registration<L>>
  {
    if b == [] then []
    else Kept(b[..|b| - 1]) + (if b[|b| - 1].once then [] else [b[|b| - 1]])
  }

  /** The map after a bucket became `b`: an emptied bucket is removed. */
  function Pruned<L>(m: map<TypeId, seq<Registration<L>>>, t: TypeId, b: seq<Registration<L>>)
    : map<TypeId, seq<Registration<L>>>
  {
    if b == [] then m - {t} else m[t := b]
  }

  /** No registration of `b` has the id. */
  predicate Lacks<L>(b: seq<Registration<L>>, id: nat) {
    forall k :: 0 <= k < |b| ==> b[k].id != id
  }

  /** Removing an id removes every registration with it and keeps the others in order:
      each survivor is a registration of `b` with another id, and a bucket without the
      id is left as it is. */
  lemma {:induction false} WithoutIdRemoves<L>(b: seq<Registration<L>>, id: nat)
    ensures forall r :: r in WithoutId(b, id) ==> r in b && r.id != id
    ensures Lacks(b, id) ==> WithoutId(b, id) == b
  {
    if b != [] {
      var init := b[..|b| - 1];
      WithoutIdRemoves(init, id);
      assert b == init + [b[|b| - 1]];
    }
  }

  lemma {:induction false} WithoutIdConcat<L>(a: seq<Registration<L>>, c: seq<Registration<L>>, id: nat)
    ensures WithoutId(a + c, id) == WithoutId(a, id) + WithoutId(c, id)
  {
    if c == [] {
      assert a + c == a;
    } else {
      WithoutIdConcat(a, c[..|c| - 1], id);
      assert (a + c)[..|a + c| - 1] == a + c[..|c| - 1];
    }
  }

  /** What a Publish leaves has no listen-once registration, and keeps every other one,
      in order. */
  lemma {:induction false} KeptIsPersistent<L>(b: seq<Registration<L>>)
    ensures forall k :: 0 <= k < |Kept(b)| ==> Kept(b)[k] in b && !Kept(b)[k].once
    ensures forall k :: 0 <= k < |b| && !b[k].once ==> b[k] in Kept(b)
  {
    if b != [] {
      var init := b[..|b| - 1];
      KeptIsPersistent(init);
      assert b == init + [b[|b| - 1]];
    }
  }

  /** A second Publish with no registration in between calls the same persistent
      listeners and removes nothing more. */
  lemma {:induction false} KeptIdempotent<L>(b: seq<Registration<L>>)
    ensures Kept(Kept(b)) == Kept(b)
  {
    if b != [] {
      var init := b[..|b| - 1];
      KeptIdempotent(init);
      var tail := if b[|b| - 1].once then [] else [b[|b| - 1]];
      KeptConcat(Kept(init), tail);
      if tail != [] {
        assert tail[..0] == [];
      }
    }
  }

  lemma {:induction false} KeptConcat<L>(a: seq<Registration<L>>, c: seq<Registration<L>>)
    ensures Kept(a + c) == Kept(a) + Kept(c)
  {
    if c == [] {
      assert a + c == a;
    } else {
      KeptConcat(a, c[..|c| - 1]);
      assert (a + c)[..|a + c| - 1] == a + c[..|c| - 1];
    }
  }

  /** Unregister undoes Register: removing the fresh id gives back the old bucket. */
  lemma UnregisterUndoesRegister<L>(b: seq<Registration<L>>, r: Registration<L>)
    requires r.id !in Ids(b)
    ensures WithoutId(b + [r], r.id) == b
  {
    WithoutIdRemoves(b, r.id);
    assert (b + [r])[..|b|] == b;
  }

  /** One step of Publish: after the first `i` registrations were called, the bucket is
      what survives of them followed by the rest; calling registration `i` (and removing
      it if it is listen-once) moves the boundary by one. */
  lemma PublishStep<L>(b: seq<Registration<L>>, i: nat)
    requires i < |b| && DistinctIds(b)
    ensures b[..i + 1][..i] == b[..i]
    ensures Listeners(b[..i + 1]) == Listeners(b[..i]) + [b[i].listener]
    ensures Kept(b[..i + 1]) == Kept(b[..i]) + (if b[i].once then [] else [b[i]])
    ensures b[i].once ==> WithoutId(Kept(b[..i]) + b[i..], b[i].id) == Kept(b[..i + 1]) + b[i + 1..]
    ensures !b[i].once ==> Kept(b[..i]) + b[i..] == Kept(b[..i + 1]) + b[i + 1..]
  {
    assert b[..i + 1][..i] == b[..i];
    assert b[i..] == [b[i]] + b[i + 1..];
    if b[i].once {
      RemovedOnce(b, i);
    }
  }

  /** Removing listen-once registration `i` by its id from the bucket in the middle of
      Publish removes exactly that registration. */
  lemma RemovedOnce<L>(b: seq<Registration<L>>, i: nat)
    requires i < |b| && DistinctIds(b)
    ensures WithoutId(Kept(b[..i]) + b[i..], b[i].id) == Kept(b[..i]) + b[i + 1..]
  {
    var id := b[i].id;
    var p := Kept(b[..i]);
    var q := b[i + 1..];
    LacksAround(b, i);
    assert b[i..] == [b[i]] + q;
    assert WithoutId(p + b[i..], id) == WithoutId(p, id) + WithoutId([b[i]] + q, id) by {
      WithoutIdConcat(p, [b[i]] + q, id);
    }
    assert WithoutId([b[i]] + q, id) == q by {
      WithoutIdConcat([b[i]], q, id);
      WithoutIdRemoves(q, id);
      assert [b[i]][..0] == [];
    }
    WithoutIdRemoves(p, id);
  }

  /** With unique ids, the id of registration `i` occurs neither among the survivors of
      the registrations before it nor after it. */
  lemma LacksAround<L>(b: seq<Registration<L>>, i: nat)
    requires i < |b| && DistinctIds(b)
    ensures Lacks(Kept(b[..i]), b[i].id) && Lacks(b[i + 1..], b[i].id)
  {
    var p := Kept(b[..i]);
    KeptIsPersistent(b[..i]);
    forall k | 0 <= k < |p|
      ensures p[k].id != b[i].id
    {
      assert p[k] in b[..i];
      var j :| 0 <= j < |b[..i]| && b[..i][j] == p[k];
      assert b[j] == p[k];
    }
    var q := b[i + 1..];
    forall k | 0 <= k < |q|
      ensures q[k].id != b[i].id
    {
      assert q[k] == b[i + 1 + k];
    }
  }

  class EventBus<L> {
    var buckets: map<TypeId, seq<Registration<L>>>
    /** The next id handed out; stands for Guid.NewGuid. */
    var nextId: nat

    /** Every bucket in the map holds at least one registration, ids are unique within
        a bucket, and every id was handed out already. */
    ghost predicate Valid()
      reads this
    {
      forall t :: t in buckets ==>
        && buckets[t] != []
        && DistinctIds(buckets[t])
        && (forall k :: 0 <= k < |buckets[t]| ==> buckets[t][k].id < nextId)
    }

    constructor ()
      ensures Valid() && buckets == map[] && nextId == 0
    {
      buckets := map[];
      nextId := 0;
    }

    /** The registrations of type `t`, none if it has no bucket. */
    function BucketOf(t: TypeId): seq<Registration<L>>
      reads this
    {
      if t in buckets then buckets[t] else []
    }

    /** Register<T>: create the bucket if absent, record a fresh id with the listener,
        and return the id. */
    method Register(t: TypeId, listener: L) returns (id: nat)
      requires Valid()
      modifies this
      ensures Valid() && id == old(nextId) && nextId == old(nextId) + 1
      ensures id !in Ids(old(BucketOf(t)))
      ensures buckets == old(buckets)[t := old(BucketOf(t)) + [Registration(id, listener, false)]]
    {
      id := AddRegistration(t, listener, false);
    }

    /** RegisterListenOnce<T>: as Register, for a listener that unregisters itself after
        its first call. */
    method RegisterListenOnce(t: TypeId, listener: L) returns (id: nat)
      requires Valid()
      modifies this
      ensures Valid() && id == old(nextId) && nextId == old(nextId) + 1
      ensures id !in Ids(old(BucketOf(t)))
      ensures buckets == old(buckets)[t := old(BucketOf(t)) + [Registration(id, listener, true)]]
    {
      id := AddRegistration(t, listener, true);
    }

    /** The body the two Register methods share. */
    method AddRegistration(t: TypeId, listener: L, once: bool) returns (id: nat)
      requires Valid()
      modifies this
      ensures Valid() && id == old(nextId) && nextId == old(nextId) + 1
      ensures id !in Ids(old(BucketOf(t)))
      ensures buckets == old(buckets)[t := old(BucketOf(t)) + [Registration(id, listener, once)]]
    {
      var bucket: seq<Registration<L>> := [];
      if t in buckets {
        bucket := buckets[t];
      }
      id := nextId;
      nextId := nextId + 1;
      buckets := buckets[t := bucket + [Registration(id, listener, once)]];
    }

    /** Unregister<T>(id): remove the registration with that id from the bucket of `t`,
        and the bucket itself once it is empty; an unknown type or id changes nothing. */
    method Unregister(t: TypeId, id: nat)
      requires Valid()
      modifies this
      ensures Valid() && nextId == old(nextId)
      ensures buckets == if t in old(buckets) && id in Ids(old(buckets)[t])
                         then Pruned(old(buckets), t, WithoutId(old(buckets)[t], id))
                         else old(buckets)
    {
      if t in buckets && id in Ids(buckets[t]) {
        var bucket := WithoutId(buckets[t], id);
        WithoutIdRemoves(buckets[t], id);
        WithoutIdDistinct(buckets[t], id);
        if |bucket| == 0 {
          buckets := buckets - {t};
        } else {
          buckets := buckets[t := bucket];
        }
      }
    }

    /** Publish: invoke the listeners of the bucket of `t` in order (none if there is no
        bucket); each listen-once listener is unregistered right after its call. The
        listeners called are returned in call order. */
    method Publish(t: TypeId) returns (invoked: seq<L>)
      requires Valid()
      modifies this
      ensures Valid() && nextId == old(nextId)
      ensures t !in old(buckets) ==> invoked == [] && buckets == old(buckets)
      ensures t in old(buckets) ==>
                invoked == Listeners(old(buckets)[t]) &&
                buckets == Pruned(old(buckets), t, Kept(old(buckets)[t]))
    {
      invoked := [];
      if t !in buckets {
        return;
      }
      var listeners := buckets[t];
      var i := 0;
      assert Kept(listeners[..0]) + listeners[0..] == listeners;
      while i < |listeners|
        invariant 0 <= i <= |listeners|
        invariant Valid() && nextId == old(nextId)
        invariant invoked == Listeners(listeners[..i])
        invariant buckets == Pruned(old(buckets), t, Kept(listeners[..i]) + listeners[i..])
      {
        var registration := listeners[i];
        ghost var before := Kept(listeners[..i]) + listeners[i..];
        PublishStep(listeners, i);
        invoked := invoked + [registration.listener];
        assert before != [] && buckets[t] == before;
        if registration.once {
          assert before[|Kept(listeners[..i])|] == registration;
          Unregister(t, registration.id);
          PrunedTwice(old(buckets), t, before, WithoutId(before, registration.id));
        }
        assert buckets == Pruned(old(buckets), t, Kept(listeners[..i + 1]) + listeners[i + 1..]);
        i := i + 1;
      }
      assert listeners[..i] == listeners;
      assert Kept(listeners) + listeners[i..] == Kept(listeners);
    }
  }

  /** Pruning a bucket that was just replaced is pruning the original map. */
  lemma PrunedTwice<L>(m: map<TypeId, seq<Registration<L>>>, t: TypeId, b: seq<Registration<L>>, c: seq<Registration<L>>)
    requires b != []
    ensures Pruned(Pruned(m, t, b), t, c) == Pruned(m, t, c)
  {
  }

  /** Removing registrations keeps ids unique. */
  lemma {:induction false} WithoutIdDistinct<L>(b: seq<Registration<L>>, id: nat)
    requires DistinctIds(b)
    ensures DistinctIds(WithoutId(b, id))
  {
    if b != [] {
      var n := |b| - 1;
      var init, last := b[..n], b[n];
      assert DistinctIds(init) by {
        forall i, j | 0 <= i < j < n
          ensures init[i].id != init[j].id
        {
          assert init[i] == b[i] && init[j] == b[j];
        }
      }
      WithoutIdDistinct(init, id);
      WithoutIdRemoves(init, id);
      var w := WithoutId(init, id);
      if last.id != id {
        forall k | 0 <= k < |w|
          ensures w[k].id != last.id
        {
          assert w[k] in init;
          var j :| 0 <= j < n && init[j] == w[k];
          assert b[j] == w[k];
        }
        assert WithoutId(b, id) == w + [last];
        DistinctSnoc(w, last);
      }
    }
  }

  /** Appending a registration whose id no earlier one has keeps ids unique. */
  lemma DistinctSnoc<L>(w: seq<Registration<L>>, last: Registration<L>)
    requires DistinctIds(w)
    requires forall k :: 0 <= k < |w| ==> w[k].id != last.id
    ensures DistinctIds(w + [last])
  {
    var b := w + [last];
    forall i, j | 0 <= i < j < |b|
      ensures b[i].id != b[j].id
    {
      assert b[i] == w[i];
    }
  }
}
