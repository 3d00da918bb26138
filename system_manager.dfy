/** SystemManager.cs: the registries of services (keyed by runtime type), managers
    (keyed by the type argument they were added under) and features (a set), their
    duplicate and not-found errors, and the reverse-order teardown. */
module Systems {
  import opened Wrappers
  import opened ListExtensions
  import opened PlayerLoop
  import opened Features

  /** AlreadyRegisteredException, the ArgumentException that Dictionary.Add throws on
      a duplicate key, NotFoundException, and the InvalidCastException of a cast to a
      type the value is not an instance of. */
  datatype RegistryError = AlreadyRegistered | DuplicateKey | NotFound | InvalidCast

  /** A service or manager instance: an identity, its runtime type, and whether it
      implements the initialise interface and IDisposable. */
  datatype Component = Component(id: nat, runtimeType: TypeId, initializable: bool, disposable: bool)

  /** The calls the registry makes into what it holds, in order. */
  datatype Effect = InitializeCalled(c: Component) | DisposeCalled(c: Component) | FeatureDestroyed(f: Feature)

  /** The log the feature pass of Dispose leaves: one entry per feature of the snapshot,
      last first. */
  function ReverseTeardown(fs: seq<Feature>): (log: seq<Effect>)
    ensures |log| == |fs|
    ensures forall k :: 0 <= k < |fs| ==> log[k] == FeatureDestroyed(fs[|fs| - 1 - k])
  {
    if fs == [] then [] else ReverseTeardown(fs[1..]) + [FeatureDestroyed(fs[0])]
  }

  /** The log a manager or service pass of Dispose leaves for a snapshot: walking it
      last first, one Dispose call per disposable entry. */
  function ReverseDisposal(cs: seq<Component>): (log: seq<Effect>)
    ensures |log| <= |cs|
  {
    if cs == [] then [] else ReverseDisposal(cs[1..]) + DisposalOf(cs[0])
  }

  /** The log of destroying one manager or service: its Dispose call when it is
      IDisposable. */
  function DisposalOf(c: Component): seq<Effect> {
    if c.disposable then [DisposeCalled(c)] else []
  }

  /** The pass disposes exactly the disposable entries of the snapshot and does nothing
      else, and its log for a snapshot is the log for the later part followed by the
      log for the earlier part. */
  lemma {:induction false} ReverseDisposalContents(cs: seq<Component>)
    ensures forall e :: e in ReverseDisposal(cs) ==> e.DisposeCalled? && e.c in cs && e.c.disposable
    ensures forall c :: c in cs && c.disposable ==> DisposeCalled(c) in ReverseDisposal(cs)
  {
    if cs != [] {
      ReverseDisposalContents(cs[1..]);
      assert forall c :: c in cs[1..] ==> c in cs;
      assert forall c :: c in cs ==> c == cs[0] || c in cs[1..];
    }
  }


  predicate Distinct<T(==)>(s: seq<T>) {
    forall i, j :: 0 <= i < j < |s| ==> s[i] != s[j]
  }

  /** Removing the one occurrence of an element of a duplicate-free sequence keeps it
      duplicate-free. */
  lemma RemoveFirstDistinct<T>(s: seq<T>, x: T)
    requires Distinct(s) && x in s
    ensures Distinct(RemoveFirst(s, x))
  {
    var i := IndexOf(s, x);
    var r := s[..i] + s[i + 1..];
    assert RemoveFirst(s, x) == r;
    ShiftedDown(s, i);
    forall p, q | 0 <= p < q < |r|
      ensures r[p] != r[q]
    {
      var p' := if p < i then p else p + 1;
      var q' := if q < i then q else q + 1;
      assert r[p] == s[p'];
      assert r[q] == s[q'];
    }
  }

  /** Taking the last element of a snapshot prefix out of a sequence with the same
      elements leaves the elements of the shorter prefix. */
  lemma SnapshotStep<T>(s: seq<T>, snapshot: seq<T>, i: int)
    requires 0 < i <= |snapshot| && multiset(s) == multiset(snapshot[..i])
    ensures snapshot[i - 1] in s
    ensures multiset(RemoveFirst(s, snapshot[i - 1])) == multiset(snapshot[..i - 1])
  {
    assert snapshot[..i] == snapshot[..i - 1] + [snapshot[i - 1]];
    assert snapshot[i - 1] in multiset(s);
    RemoveFirstMultiset(s, snapshot[i - 1]);
  }

  /** Cutting slot `i` out of `s` shifts every later slot down by one. */
  lemma ShiftedDown<T>(s: seq<T>, i: nat)
    requires i < |s|
    ensures |s[..i] + s[i + 1..]| == |s| - 1
    ensures forall k :: 0 <= k < |s| - 1 ==> (s[..i] + s[i + 1..])[k] == if k < i then s[k] else s[k + 1]
  {
  }

  /** ... and takes away exactly that element. */
  lemma RemoveFirstMember<T>(s: seq<T>, x: T, y: T)
    requires Distinct(s) && x in s
    ensures y in RemoveFirst(s, x) <==> y in s && y != x
  {
    var i := IndexOf(s, x);
    var r := s[..i] + s[i + 1..];
    assert RemoveFirst(s, x) == r;
    ShiftedDown(s, i);
    if y in r {
      var k :| 0 <= k < |r| && r[k] == y;
      var k' := if k < i then k else k + 1;
      assert s[k'] == y && k' != i;
    }
    if y in s && y != x {
      var k :| 0 <= k < |s| && s[k] == y;
      var k' := if k < i then k else k - 1;
      assert r[k'] == y;
    }
  }

  class SystemManager {
    var services: map<TypeId, Component>
    var managers: map<TypeId, Component>
    /** The HashSet of features, without duplicates; its enumeration order is not used. */
    var features: seq<Feature>
    const updateManager: PlayerLoopUpdateManager<Feature>
    var effects: seq<Effect>

    ghost predicate Valid()
      reads this, updateManager, features
    {
      && KeyedByRuntimeType(services)
      && Distinct(features)
      && (forall f :: f in features ==> f.updateManager == updateManager && f.live && f.Valid())
      && (forall g :: g in updateManager.updateables ==> g in features)
    }

    constructor ()
      ensures Valid() && fresh(updateManager)
      ensures services == map[] && managers == map[] && features == [] && effects == []
    {
      services, managers, features, effects := map[], map[], [], [];
      updateManager := new PlayerLoopUpdateManager<Feature>();
    }

    /** TryGetService<T>: the service stored under exactly `t`, or none. */
    method TryGetService(t: TypeId) returns (found: bool, service: Option<Component>)
      requires Valid()
      ensures found <==> t in services
      ensures found ==> service == Some(services[t]) && services[t].runtimeType == t
      ensures !found ==> service == None
    {
      found := t in services;
      if found {
        service := Some(services[t]);
      } else {
        service := None;
      }
    }

    /** TryGetManager<T>: the manager stored under exactly `t`, or none. A manager was
        stored under the type argument it was added with, so the cast back to `t` throws
        when it is not an instance of `t`; `isInstanceOf(a, b)` is the runtime's answer
        for a value of runtime type `a` and a type `b`. */
    method TryGetManager(t: TypeId, isInstanceOf: (TypeId, TypeId) -> bool)
      returns (r: Result<(bool, Option<Component>), RegistryError>)
      requires Valid()
      ensures r.Failure? <==> t in managers && !isInstanceOf(managers[t].runtimeType, t)
      ensures r.Failure? ==> r.error == InvalidCast
      ensures r.Success? ==> (r.value.0 <==> t in managers)
      ensures r.Success? && r.value.0 ==> r.value.1 == Some(managers[t])
      ensures r.Success? && !r.value.0 ==> r.value.1 == None
    {
      var isSuccess := t in managers;
      if isSuccess {
        var result := managers[t];
        if !isInstanceOf(result.runtimeType, t) {
          return Failure(InvalidCast);
        }
        r := Success((true, Some(result)));
      } else {
        r := Success((false, None));
      }
    }

    /** AddManager<T>: initialise the manager (if it can be), then Dictionary.Add under
        `t`, which fails on a duplicate key after the initialisation has happened. */
    method AddManager(t: TypeId, manager: Component) returns (r: Result<(), RegistryError>)
      requires Valid()
      modifies this
      ensures Valid() && services == old(services) && features == old(features)
      ensures effects == old(effects) + (if manager.initializable then [InitializeCalled(manager)] else [])
      ensures r.Failure? <==> t in old(managers)
      ensures r.Failure? ==> r.error == DuplicateKey && managers == old(managers)
      ensures r.Success? ==> managers == old(managers)[t := manager]
    {
      if manager.initializable {
        effects := effects + [InitializeCalled(manager)];
      }
      if t in managers {
        return Failure(DuplicateKey);
      }
      managers := managers[t := manager];
      r := Success(());
    }

    /** AddService: refuse a second service of the same runtime type, otherwise
        initialise it (if it can be) and store it under its runtime type. */
    method AddService(service: Component) returns (r: Result<(), RegistryError>)
      requires Valid()
      modifies this
      ensures Valid() && managers == old(managers) && features == old(features)
      ensures r.Failure? <==> service.runtimeType in old(services)
      ensures r.Failure? ==> r.error == AlreadyRegistered
                             && services == old(services) && effects == old(effects)
      ensures r.Success? ==> services == old(services)[service.runtimeType := service]
                             && effects == old(effects) + (if service.initializable then [InitializeCalled(service)] else [])
    {
      var serviceType := service.runtimeType;
      if serviceType in services {
        return Failure(AlreadyRegistered);
      }
      if service.initializable {
        effects := effects + [InitializeCalled(service)];
      }
      services := services[serviceType := service];
      r := Success(());
    }

    /** AddFeature: HashSet.Add refuses a feature already added, otherwise the feature
        is added and then initialised against the shared update manager. */
    method AddFeature(feature: Feature) returns (r: Result<(), RegistryError>)
      requires Valid()
      requires feature !in features ==> feature.Valid() && !feature.live && !feature.isEnabled
      modifies this, feature, updateManager
      ensures Valid() && services == old(services) && managers == old(managers) && effects == old(effects)
      ensures r.Failure? <==> feature in old(features)
      ensures r.Failure? ==> r.error == AlreadyRegistered && features == old(features)
      ensures r.Success? ==> features == old(features) + [feature] && feature.live
                             && feature.isEnabled == (feature.implementsEnableable && feature.featureAutoEnable)
    {
      if feature in features {
        return Failure(AlreadyRegistered);
      }
      ghost var before: seq<Feature> := updateManager.updateables;
      features := features + [feature];
      feature.Initialize_Internal(updateManager);
      forall g: Feature | g in features && g != feature
        ensures Occurrences(updateManager.updateables, g) == Occurrences(before, g)
      {
        if updateManager.updateables == before + [feature] {
          OccurrencesAppend(before, feature, g);
        } else {
          assert updateManager.updateables == before;
        }
      }
      r := Success(());
    }

    /** AddFeature(params Feature[]): add each feature in turn; the first one already
        added ends the call with its error, after the ones before it were added. Every
        feature not yet added must be a fresh one, never initialised. */
    method AddFeatures(fs: seq<Feature>) returns (r: Result<(), RegistryError>)
      requires Valid()
      requires forall f :: f in fs ==> f in features || (f.Valid() && f.updateManager == null && !f.isEnabled)
      modifies this, updateManager, fs
      ensures Valid() && services == old(services) && managers == old(managers) && effects == old(effects)
      ensures r.Success? <==> Distinct(old(features) + fs)
      ensures r.Success? ==> features == old(features) + fs
      ensures r.Failure? ==> r.error == AlreadyRegistered &&
                             exists k :: 0 <= k < |fs| && features == old(features) + fs[..k] && fs[k] in features
    {
      var i := 0;
      while i < |fs|
        invariant 0 <= i <= |fs|
        invariant Valid() && services == old(services) && managers == old(managers) && effects == old(effects)
        invariant features == old(features) + fs[..i]
        invariant forall f :: f in fs[i..] ==> f in features || (f.Valid() && f.updateManager == null && !f.isEnabled)
      {
        var feature := fs[i];
        r := AddFeature(feature);
        if r.Failure? {
          assert old(features) + fs[..i + 1] == features + [feature];
          DuplicateBreaksDistinct(features, feature, fs[i + 1..]);
          assert old(features) + fs == features + [feature] + fs[i + 1..] by {
            assert fs == fs[..i] + [feature] + fs[i + 1..];
          }
          return;
        }
        assert fs[..i + 1] == fs[..i] + [feature];
        i := i + 1;
      }
      assert fs[..i] == fs;
      r := Success(());
    }

    /** DestroyFeature: NotFound for a feature not added; otherwise remove it, run
        Deinitialize_Internal, and Dispose it when it is IDisposable. */
    method DestroyFeature(feature: Feature) returns (r: Result<(), RegistryError>)
      requires Valid()
      modifies this, feature, updateManager
      ensures Valid() && services == old(services) && managers == old(managers)
      ensures r.Failure? <==> feature !in old(features)
      ensures r.Failure? ==> r.error == NotFound && features == old(features) && effects == old(effects)
      ensures r.Success? ==> features == RemoveFirst(old(features), feature)
                             && effects == old(effects) + [FeatureDestroyed(feature)]
                             && !feature.live && feature !in updateManager.updateables
                             && feature.hooks == old(feature.hooks)
                                  + (if old(feature.isEnablable && feature.isEnabled) then [CalledOnFeatureDisable] else [])
                                  + (if feature.implementsDisposable then [CalledDispose] else [])
    {
      if feature !in features {
        return Failure(NotFound);
      }
      ghost var before: seq<Feature> := updateManager.updateables;
      ghost var oldFeatures := features;
      RemoveFirstDistinct(features, feature);
      features := RemoveFirst(features, feature);
      feature.Deinitialize_Internal();
      if feature.implementsDisposable {
        feature.Dispose();
      }
      effects := effects + [FeatureDestroyed(feature)];
      forall g: Feature | g in features
        ensures g.updateManager == updateManager && g.live && g.Valid()
      {
        RemoveFirstMember(oldFeatures, feature, g);
        RemoveFirstOccurrences(before, feature, g);
      }
      forall g: Feature | g in updateManager.updateables
        ensures g in features
      {
        if updateManager.updateables != before {
          RemoveFirstSubset(before, feature, g);
        }
        RemoveFirstMember(oldFeatures, feature, g);
      }
      r := Success(());
    }

    /** DestroyManager: looks the manager up by its runtime type. */
    method DestroyManager(manager: Component) returns (r: Result<(), RegistryError>)
      requires Valid()
      modifies this
      ensures Valid() && services == old(services) && features == old(features)
      ensures r.Failure? <==> manager.runtimeType !in old(managers)
      ensures r.Failure? ==> r.error == NotFound && managers == old(managers) && effects == old(effects)
      ensures r.Success? ==> managers == old(managers) - {manager.runtimeType}
                             && effects == old(effects) + DisposalOf(manager)
    {
      var managerType := manager.runtimeType;
      if managerType !in managers {
        return Failure(NotFound);
      }
      managers := managers - {managerType};
      if manager.disposable {
        effects := effects + [DisposeCalled(manager)];
      }
      r := Success(());
    }

    /** DestroyService: looks the service up by its runtime type. */
    method DestroyService(service: Component) returns (r: Result<(), RegistryError>)
      requires Valid()
      modifies this
      ensures Valid() && managers == old(managers) && features == old(features)
      ensures r.Failure? <==> service.runtimeType !in old(services)
      ensures r.Failure? ==> r.error == NotFound && services == old(services) && effects == old(effects)
      ensures r.Success? ==> services == old(services) - {service.runtimeType}
                             && effects == old(effects) + DisposalOf(service)
    {
      var serviceType := service.runtimeType;
      if serviceType !in services {
        return Failure(NotFound);
      }
      services := services - {serviceType};
      if service.disposable {
        effects := effects + [DisposeCalled(service)];
      }
      r := Success(());
    }

    /** One turn of the teardown loop: destroy entry `i - 1` of the snapshot, after the
        entries above it were destroyed. */
    method DestroySnapshotEntry(snapshot: seq<Feature>, i: int, ghost log: seq<Effect>)
      requires Valid() && 0 < i <= |snapshot| && multiset(features) == multiset(snapshot[..i])
      requires effects == log + ReverseTeardown(snapshot[i..])
      modifies this, updateManager, snapshot[i - 1]
      ensures Valid() && services == old(services) && managers == old(managers)
      ensures multiset(features) == multiset(snapshot[..i - 1])
      ensures effects == log + ReverseTeardown(snapshot[i - 1..])
    {
      var feature := snapshot[i - 1];
      SnapshotStep(features, snapshot, i);
      var r := DestroyFeature(feature);
      ReverseTeardownStep(log, snapshot, i);
    }

    /** The first pass of Dispose: destroy every feature of a snapshot of the set, last
        first. The snapshot is in the set's enumeration order, which the model leaves
        open; it holds each feature once. */
    method DestroyAllFeatures() returns (featuresArray: seq<Feature>)
      requires Valid()
      modifies this, updateManager, features
      ensures Valid() && features == [] && services == old(services) && managers == old(managers)
      ensures multiset(featuresArray) == multiset(old(features))
      ensures effects == old(effects) + ReverseTeardown(featuresArray)
    {
      ghost var all := features;
      featuresArray := SetSnapshot(features);
      var i := |featuresArray|;
      assert featuresArray[..i] == featuresArray;
      while i > 0
        invariant 0 <= i <= |featuresArray|
        invariant Valid() && multiset(features) == multiset(featuresArray[..i])
        invariant services == old(services) && managers == old(managers)
        invariant effects == old(effects) + ReverseTeardown(featuresArray[i..])
        modifies this, updateManager, all
      {
        assert featuresArray[i - 1] in featuresArray;
        DestroySnapshotEntry(featuresArray, i, old(effects));
        i := i - 1;
      }
      assert featuresArray[..i] == [];
      assert |features| == |multiset(features)| == 0;
    }

    /** The second pass of Dispose: destroy every manager of a snapshot of the values,
        last first, stopping at the first error. A manager is looked up by its runtime
        type, so the pass empties the registry whenever each manager was added under its
        own runtime type. */
    method DestroyAllManagers() returns (r: Result<(), RegistryError>, managersArray: seq<Component>,
                                         ghost keys: seq<TypeId>)
      requires Valid()
      modifies this
      ensures Valid() && services == old(services) && features == old(features)
      ensures KeyOrder(keys, managersArray, old(managers))
      ensures r.Failure? ==> r.error == NotFound
      ensures r.Failure? ==> old(effects) <= effects <= old(effects) + ReverseDisposal(managersArray)
      ensures r.Success? ==> managers == map[] && effects == old(effects) + ReverseDisposal(managersArray)
      ensures KeyedByRuntimeType(old(managers)) ==> r.Success?
    {
      managersArray, keys := ValuesSnapshot(managers);
      ghost var m0 := managers;
      var i := |managersArray|;
      while i > 0
        invariant 0 <= i <= |managersArray|
        invariant Valid() && services == old(services) && features == old(features)
        invariant effects == old(effects) + ReverseDisposal(managersArray[i..])
        invariant |managers| == i
        invariant KeyedByRuntimeType(m0) ==> forall j :: 0 <= j < i ==> keys[j] in managers
      {
        var manager := managersArray[i - 1];
        ghost var before := managers;
        assert KeyedByRuntimeType(m0) ==> manager.runtimeType == keys[i - 1] by {
          assert manager == m0[keys[i - 1]];
        }
        ReverseDisposalStep(old(effects), managersArray, i);
        r := DestroyManager(manager);
        if r.Failure? {
          ReverseDisposalPrefix(old(effects), managersArray, i);
          return;
        }
        MapRemoveCard(before, manager.runtimeType);
        i := i - 1;
      }
      EmptyMap(managers);
      r := Success(());
    }

    /** The third pass of Dispose: every service is stored under its runtime type, so
        destroying a snapshot of them, last first, always succeeds and empties the registry. */
    method DestroyAllServices() returns (servicesArray: seq<Component>, ghost keys: seq<TypeId>)
      requires Valid()
      modifies this
      ensures Valid() && managers == old(managers) && features == old(features)
      ensures KeyOrder(keys, servicesArray, old(services))
      ensures effects == old(effects) + ReverseDisposal(servicesArray)
      ensures services == map[]
    {
      servicesArray, keys := ValuesSnapshot(services);
      ghost var s0 := services;
      var i := |servicesArray|;
      while i > 0
        invariant 0 <= i <= |servicesArray|
        invariant Valid() && managers == old(managers) && features == old(features)
        invariant effects == old(effects) + ReverseDisposal(servicesArray[i..])
        invariant |services| == i
        invariant forall j :: 0 <= j < i ==> keys[j] in services
      {
        var service := servicesArray[i - 1];
        ghost var before := services;
        assert service.runtimeType == keys[i - 1] by {
          assert service == s0[keys[i - 1]];
        }
        var r := DestroyService(service);
        ReverseDisposalStep(old(effects), servicesArray, i);
        MapRemoveCard(before, keys[i - 1]);
        i := i - 1;
      }
      EmptyMap(services);
    }

    /** IDisposable.Dispose: the feature pass, the manager pass (whose NotFound escapes
        and ends the disposal), the service pass, then clearing the update list. The
        three snapshots are returned so that the contract can name their order. */
    method Dispose() returns (r: Result<(), RegistryError>, ghost featuresArray: seq<Feature>,
                              ghost managersArray: seq<Component>, ghost servicesArray: seq<Component>)
      requires Valid()
      modifies this, updateManager, features
      ensures features == [] && multiset(featuresArray) == multiset(old(features))
      ensures EnumerationOf(managersArray, old(managers))
      ensures r.Success? ==>
                && EnumerationOf(servicesArray, old(services))
                && effects == old(effects) + ReverseTeardown(featuresArray)
                                           + ReverseDisposal(managersArray) + ReverseDisposal(servicesArray)
                && managers == map[] && services == map[] && updateManager.updateables == []
      ensures r.Failure? ==>
                && r.error == NotFound && services == old(services)
                && old(effects) + ReverseTeardown(featuresArray) <= effects
                && effects <= old(effects) + ReverseTeardown(featuresArray) + ReverseDisposal(managersArray)
      ensures KeyedByRuntimeType(old(managers)) ==> r.Success?
    {
      featuresArray := DestroyAllFeatures();
      ghost var managerKeys, serviceKeys;
      r, managersArray, managerKeys := DestroyAllManagers();
      if r.Failure? {
        servicesArray := [];
        return;
      }
      servicesArray, serviceKeys := DestroyAllServices();
      updateManager.Dispose();
    }
  }

  /** Every entry is stored under its own runtime type, which is what looking an entry
      up by its runtime type needs. */
  ghost predicate KeyedByRuntimeType(m: map<TypeId, Component>) {
    forall t :: t in m ==> m[t].runtimeType == t
  }

  /** A sequence with an element repeated is not duplicate-free. */
  lemma DuplicateBreaksDistinct<T>(s: seq<T>, x: T, rest: seq<T>)
    requires x in s
    ensures !Distinct(s + [x] + rest)
  {
    var k :| 0 <= k < |s| && s[k] == x;
    assert (s + [x] + rest)[k] == (s + [x] + rest)[|s|];
  }

  /** One step of the feature pass: destroying entry `i - 1` after the later ones
      extends the log for the entries from `i` to the log for those from `i - 1`. */
  lemma ReverseTeardownStep(log: seq<Effect>, fs: seq<Feature>, i: nat)
    requires 0 < i <= |fs|
    ensures log + ReverseTeardown(fs[i..]) + [FeatureDestroyed(fs[i - 1])] == log + ReverseTeardown(fs[i - 1..])
  {
    assert fs[i - 1..][1..] == fs[i..];
  }

  /** One step of a manager or service pass, as ReverseTeardownStep. */
  lemma ReverseDisposalStep(log: seq<Effect>, cs: seq<Component>, i: nat)
    requires 0 < i <= |cs|
    ensures log + ReverseDisposal(cs[i..]) + DisposalOf(cs[i - 1]) == log + ReverseDisposal(cs[i - 1..])
  {
    assert cs[i - 1..][1..] == cs[i..];
  }

  /** A pass stopped early has logged a prefix of what the whole pass logs: the log for
      the entries from `k` on is a prefix of the log for all of them. */
  lemma {:induction false} ReverseDisposalPrefix(log: seq<Effect>, cs: seq<Component>, k: nat)
    requires k <= |cs|
    ensures log + ReverseDisposal(cs[k..]) <= log + ReverseDisposal(cs)
  {
    if k == 0 {
      assert cs[k..] == cs;
    } else {
      ReverseDisposalPrefix(log, cs[1..], k - 1);
      assert cs[1..][k - 1..] == cs[k..];
      assert log + ReverseDisposal(cs) == log + ReverseDisposal(cs[1..]) + DisposalOf(cs[0]);
    }
  }

  /** Removing a present key takes one entry away. */
  lemma MapRemoveCard(m: map<TypeId, Component>, k: TypeId)
    requires k in m
    ensures |m - {k}| == |m| - 1
  {
    assert (m - {k}).Keys == m.Keys - {k};
  }

  /** A map with no entries is the empty map. */
  lemma EmptyMap(m: map<TypeId, Component>)
    requires |m| == 0
    ensures m == map[]
  {
  }

  /** `values` lists the values of `m` in the order of some enumeration of its keys. */
  ghost predicate EnumerationOf(values: seq<Component>, m: map<TypeId, Component>) {
    exists keys: seq<TypeId> :: KeyOrder(keys, values, m)
  }

  /** `keys` enumerates the keys of `m` once each, and `values` follows it. */
  ghost predicate KeyOrder(keys: seq<TypeId>, values: seq<Component>, m: map<TypeId, Component>) {
    && |values| == |keys| == |m| && Distinct(keys)
    && (forall t :: t in keys <==> t in m)
    && (forall i :: 0 <= i < |keys| ==> values[i] == m[keys[i]])
  }

  /** `Dictionary.Values.ToArray()`: the values in some enumeration order; `keys` is
      that order. */
  method ValuesSnapshot(m: map<TypeId, Component>) returns (values: seq<Component>, ghost keys: seq<TypeId>)
    ensures KeyOrder(keys, values, m)
  {
    values, keys := [], [];
    var remaining := m.Keys;
    while remaining != {}
      invariant remaining <= m.Keys
      invariant |values| == |keys| && |keys| + |remaining| == |m| && Distinct(keys)
      invariant forall t :: t in keys <==> t in m && t !in remaining
      invariant forall i :: 0 <= i < |keys| ==> values[i] == m[keys[i]]
      decreases |remaining|
    {
      var t :| t in remaining;
      values, keys := values + [m[t]], keys + [t];
      remaining := remaining - {t};
    }
    assert KeyOrder(keys, values, m);
  }

  /** `HashSet.ToArray()`: the elements in the set's enumeration order, which the model
      leaves open; each element as often as it occurs. */
  method SetSnapshot<T(==)>(s: seq<T>) returns (elements: seq<T>)
    ensures multiset(elements) == multiset(s)
    ensures forall x :: x in elements <==> x in s
  {
    elements := [];
    var remaining := multiset(s);
    while remaining != multiset{}
      invariant multiset(elements) + remaining == multiset(s)
      decreases |remaining|
    {
      var x :| x in remaining;
      elements := elements + [x];
      remaining := remaining - multiset{x};
    }
    forall x
      ensures x in elements <==> x in s
    {
      assert x in elements <==> x in multiset(elements);
      assert x in s <==> x in multiset(s);
    }
  }
}
