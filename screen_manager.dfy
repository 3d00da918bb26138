/** ScreenManager.cs: the registry of screen objects by runtime type, the show and hide
    queues, and the two updaters that turn queued objects into round-robin transitions. */
module ScreenManagers {
  import opened Wrappers
  import opened PlayerLoop
  import opened UIObjects

  /** The SimplifiedNotSupportedException Register throws on a second object of a type. */
  datatype ScreenError = AlreadyRegistered

  /** The calls Register makes into the objects, in order. */
  datatype UIEvent = SetUp(setUpObject: UIObject) | Initialized(initializedObject: UIObject)

  /** A queued coroutine: the object it animates and how many MoveNext calls it has had. */
  datatype Transition = Transition(uiObject: UIObject, step: nat)

  function SetUps(objs: seq<UIObject>): (r: seq<UIEvent>)
    ensures |r| == |objs| && forall i :: 0 <= i < |objs| ==> r[i] == SetUp(objs[i])
  {
    if objs == [] then [] else SetUps(objs[..|objs| - 1]) + [SetUp(objs[|objs| - 1])]
  }

  function Inits(objs: seq<UIObject>): (r: seq<UIEvent>)
    ensures |r| == |objs| && forall i :: 0 <= i < |objs| ==> r[i] == Initialized(objs[i])
  {
    if objs == [] then [] else Inits(objs[..|objs| - 1]) + [Initialized(objs[|objs| - 1])]
  }

  /** The registry after TryAdd of each object in turn under its runtime type. */
  function RegisteredAll(m: map<nat, UIObject>, objs: seq<UIObject>): map<nat, UIObject>
  {
    if objs == [] then m
    else RegisteredAll(m, objs[..|objs| - 1])[objs[|objs| - 1].objectType := objs[|objs| - 1]]
  }

  /** Each TryAdd of the batch succeeds: every object's type is free once the objects
      before it have been added. */
  predicate Registrable(m: map<nat, UIObject>, objs: seq<UIObject>) {
    objs == [] ||
    (Registrable(m, objs[..|objs| - 1]) && objs[|objs| - 1].objectType !in RegisteredAll(m, objs[..|objs| - 1]))
  }

  /** The batch registers exactly when no type is registered already and no two objects
      of the batch share a type. */
  lemma {:induction false} RegistrableIff(m: map<nat, UIObject>, objs: seq<UIObject>)
    ensures Registrable(m, objs) <==>
              && (forall i :: 0 <= i < |objs| ==> objs[i].objectType !in m)
              && (forall i, j :: 0 <= i < j < |objs| ==> objs[i].objectType != objs[j].objectType)
  {
    if objs != [] {
      var n := |objs| - 1;
      var init := objs[..n];
      RegistrableIff(m, init);
      RegisteredAllKeys(m, init, objs[n].objectType);
      if objs[n].objectType in RegisteredAll(m, init) && objs[n].objectType !in m {
        var i :| 0 <= i < n && init[i].objectType == objs[n].objectType;
        assert objs[i].objectType == objs[n].objectType;
      }
      assert forall i :: 0 <= i < n ==> init[i] == objs[i];
    }
  }

  /** Once a prefix of the batch cannot be registered, neither can the batch. */
  lemma {:induction false} RegistrablePrefix(m: map<nat, UIObject>, objs: seq<UIObject>, k: nat)
    requires k <= |objs| && Registrable(m, objs)
    ensures Registrable(m, objs[..k])
  {
    if k < |objs| {
      assert objs[..|objs| - 1][..k] == objs[..k];
      RegistrablePrefix(m, objs[..|objs| - 1], k);
    } else {
      assert objs[..k] == objs;
    }
  }

  /** A type is registered after the batch iff it was before or some object of the batch
      has it, and what is stored under a type is an object of that type when the old
      registry had that property. */
  lemma {:induction false} RegisteredAllKeys(m: map<nat, UIObject>, objs: seq<UIObject>, t: nat)
    ensures t in RegisteredAll(m, objs) <==>
              t in m || exists i :: 0 <= i < |objs| && objs[i].objectType == t
    ensures (t in m ==> m[t].objectType == t) && t in RegisteredAll(m, objs) ==>
              RegisteredAll(m, objs)[t].objectType == t
  {
    if objs != [] {
      var n := |objs| - 1;
      RegisteredAllKeys(m, objs[..n], t);
      if exists i :: 0 <= i < n && objs[..n][i].objectType == t {
        var i :| 0 <= i < n && objs[..n][i].objectType == t;
        assert objs[i].objectType == t;
      }
      if exists i :: 0 <= i < |objs| && objs[i].objectType == t {
        var i :| 0 <= i < |objs| && objs[i].objectType == t;
        if i < n {
          assert objs[..n][i].objectType == t;
        }
      }
    }
  }

  /** Adding object `i` of a batch: it fails exactly when its type is taken already, and
      otherwise extends the registry and keeps the batch so far registrable. */
  lemma RegisterStep(m: map<nat, UIObject>, objs: seq<UIObject>, i: nat)
    requires i < |objs| && Registrable(m, objs[..i])
    ensures objs[..i + 1][..i] == objs[..i]
    ensures RegisteredAll(m, objs[..i + 1]) == RegisteredAll(m, objs[..i])[objs[i].objectType := objs[i]]
    ensures objs[i].objectType in RegisteredAll(m, objs[..i]) ==> !Registrable(m, objs)
    ensures objs[i].objectType !in RegisteredAll(m, objs[..i]) ==> Registrable(m, objs[..i + 1])
  {
    assert objs[..i + 1][..i] == objs[..i];
    if Registrable(m, objs) {
      RegistrablePrefix(m, objs, i + 1);
    }
  }

  class ScreenManager {
    var registered: map<nat, UIObject>
    var onScene: seq<UIObject>
    var toShow: seq<UIObject>
    var toHide: seq<UIObject>
    var isUIDirty: bool
    var isDisposed: bool
    /** How many times the update loop's cancellation was requested. */
    var cancellations: nat
    var sceneHooksSubscribed: bool
    var log: seq<UIEvent>

    /** The registry stores each object under its own runtime type (so Get's `as T`
        never yields null), and the update loop is cancelled exactly once after
        Deinitialize. */
    ghost predicate Valid()
      reads this
    {
      && (forall t :: t in registered ==> registered[t].objectType == t)
      && cancellations == (if isDisposed then 1 else 0)
      && (isDisposed ==> !sceneHooksSubscribed)
    }

    /** The manager as Initialize leaves it before it registers the scene's objects. */
    constructor ()
      ensures Valid() && registered == map[] && onScene == [] && toShow == [] && toHide == []
      ensures !isUIDirty && !isDisposed && sceneHooksSubscribed && log == []
    {
      registered := map[];
      onScene, toShow, toHide := [], [], [];
      isUIDirty, isDisposed := false, false;
      cancellations := 0;
      sceneHooksSubscribed := true;
      log := [];
    }

    /** Register: TryAdd each object under its runtime type and set it up, throwing at
        the first type already taken; only when all are set up is Init called on each,
        in order. The objects added before a failure stay registered and set up. */
    method Register(objs: seq<UIObject>) returns (r: Result<(), ScreenError>)
      requires Valid()
      modifies this`registered, this`log, set o | o in objs
      ensures Valid()
      ensures r.Success? <==> Registrable(old(registered), objs)
      ensures r.Success? ==>
                && registered == RegisteredAll(old(registered), objs)
                && log == old(log) + SetUps(objs) + Inits(objs)
      ensures r.Failure? ==> r.error == AlreadyRegistered
      ensures r.Failure? ==>
                exists k :: 0 <= k < |objs| && registered == RegisteredAll(old(registered), objs[..k]) &&
                  log == old(log) + SetUps(objs[..k])
    {
      var added := AddAndSetUpEach(objs);
      if added < |objs| {
        return Failure(AlreadyRegistered);
      }
      assert objs[..added] == objs;
      var k := 0;
      ghost var setUp := log;
      while k < |objs|
        modifies this`log
        invariant 0 <= k <= |objs|
        invariant log == setUp + Inits(objs[..k])
      {
        assert objs[..k + 1][..k] == objs[..k];
        log := log + [Initialized(objs[k])];
        k := k + 1;
      }
      assert objs[..k] == objs;
      r := Success(());
    }

    /** Register's first loop: TryAdd and set up the objects in order until a type is
        taken; the result is how many were added. */
    method AddAndSetUpEach(objs: seq<UIObject>) returns (added: nat)
      requires Valid()
      modifies this`registered, this`log, set o | o in objs
      ensures Valid() && added <= |objs|
      ensures added == |objs| <==> Registrable(old(registered), objs)
      ensures registered == RegisteredAll(old(registered), objs[..added])
      ensures log == old(log) + SetUps(objs[..added])
    {
      added := 0;
      while added < |objs|
        invariant 0 <= added <= |objs|
        invariant registered == RegisteredAll(old(registered), objs[..added])
        invariant forall t :: t in registered ==> registered[t].objectType == t
        invariant Registrable(old(registered), objs[..added])
        invariant log == old(log) + SetUps(objs[..added])
      {
        var uiObject := objs[added];
        RegisterStep(old(registered), objs, added);
        if uiObject.objectType in registered {
          return;
        }
        registered := registered[uiObject.objectType := uiObject];
        uiObject.Setup();
        log := log + [SetUp(uiObject)];
        added := added + 1;
      }
      assert objs[..added] == objs;
    }

    /** Unregister: remove whatever is stored under the object's runtime type. */
    method Unregister(uiObject: UIObject)
      requires Valid()
      modifies this`registered
      ensures Valid()
      ensures registered == old(registered) - {uiObject.objectType}
    {
      registered := registered - {uiObject.objectType};
    }

    /** Get<T>: the object registered under `t`; the indexer throws when there is none. */
    function Get(t: nat): (r: Option<UIObject>)
      requires Valid()
      reads this
      ensures r.Some? <==> t in registered
      ensures r.Some? ==> r.value in registered.Values && r.value.objectType == t
    {
      if t in registered then Some(registered[t]) else None
    }

    /** Show: queue the object for showing and mark the UI dirty. */
    method Show(uiObject: UIObject)
      modifies this`toShow, this`isUIDirty
      ensures toShow == old(toShow) + [uiObject] && isUIDirty
    {
      toShow := toShow + [uiObject];
      isUIDirty := true;
    }

    /** Hide: queue the object for hiding and mark the UI dirty. */
    method Hide(uiObject: UIObject)
      modifies this`toHide, this`isUIDirty
      ensures toHide == old(toHide) + [uiObject] && isUIDirty
    {
      toHide := toHide + [uiObject];
      isUIDirty := true;
    }

    /** Deinitialize: the first call cancels the update loop and drops the scene hooks;
        every later call returns at once. */
    method Deinitialize()
      requires Valid()
      modifies this`isDisposed, this`cancellations, this`sceneHooksSubscribed
      ensures Valid() && isDisposed && !sceneHooksSubscribed
      ensures cancellations == 1
      ensures old(isDisposed) ==> cancellations == old(cancellations)
    {
      if isDisposed {
        return;
      }
      isDisposed := true;
      cancellations := cancellations + 1;
      sceneHooksSubscribed := false;
    }
  }

  /** The transitions UpdateQueues creates for the queued objects: fresh coroutines. */
  function Fresh(objs: seq<UIObject>): (r: seq<Transition>)
    ensures |r| == |objs| && forall i :: 0 <= i < |objs| ==> r[i] == Transition(objs[i], 0)
  {
    seq(|objs|, i requires 0 <= i < |objs| => Transition(objs[i], 0))
  }

  /** The on-scene list after List.Remove of each hidden object in turn. */
  function RemovedAll(s: seq<UIObject>, hidden: seq<UIObject>): seq<UIObject>
    decreases |hidden|
  {
    if hidden == [] then s else RemovedAll(RemoveFirst(s, hidden[0]), hidden[1..])
  }

  /** Hiding takes one occurrence of each hidden object off the scene, when it is there. */
  lemma {:induction false} RemovedAllMultiset(s: seq<UIObject>, hidden: seq<UIObject>)
    ensures multiset(RemovedAll(s, hidden)) == multiset(s) - multiset(hidden)
    decreases |hidden|
  {
    if hidden != [] {
      RemoveFirstMultiset(s, hidden[0]);
      RemovedAllMultiset(RemoveFirst(s, hidden[0]), hidden[1..]);
      assert hidden == [hidden[0]] + hidden[1..];
    }
  }

  /** Hiding one more object removes it from what the earlier ones left. */
  lemma {:induction false} RemovedAllSnoc(s: seq<UIObject>, hidden: seq<UIObject>, x: UIObject)
    ensures RemovedAll(s, hidden + [x]) == RemoveFirst(RemovedAll(s, hidden), x)
    decreases |hidden|
  {
    if hidden == [] {
      assert ([] + [x])[1..] == [];
    } else {
      assert (hidden + [x])[1..] == hidden[1..] + [x];
      RemovedAllSnoc(RemoveFirst(s, hidden[0]), hidden[1..], x);
    }
  }

  /** The MoveNext calls the queued transitions still answer with true. */
  function PendingSteps(ts: seq<Transition>): nat
  {
    if ts == [] then 0
    else PendingSteps(ts[..|ts| - 1]) + (if ts[|ts| - 1].step < AnimationSteps then AnimationSteps - ts[|ts| - 1].step else 0)
  }

  lemma {:induction false} PendingStepsConcat(a: seq<Transition>, b: seq<Transition>)
    ensures PendingSteps(a + b) == PendingSteps(a) + PendingSteps(b)
  {
    if b == [] {
      assert a + b == a;
    } else {
      PendingStepsConcat(a, b[..|b| - 1]);
      assert (a + b)[..|a + b| - 1] == a + b[..|b| - 1];
    }
  }

  /** UIShowUpdater and UIHideUpdater: a queue of transitions fed from the manager's show
      or hide queue. */
  class UIUpdater {
    const direction: Direction
    const screenManager: ScreenManager
    var enumerators: seq<Transition>

    constructor (direction: Direction, screenManager: ScreenManager)
      ensures this.direction == direction && this.screenManager == screenManager
      ensures enumerators == []
    {
      this.direction := direction;
      this.screenManager := screenManager;
      enumerators := [];
    }

    /** UpdateQueues: drain the manager's show (hide) queue front to back, queueing a
        fresh coroutine per object and adding it to (removing it from) the on-scene list. */
    method UpdateQueues()
      modifies this`enumerators, screenManager`toShow, screenManager`toHide, screenManager`onScene
      ensures direction == ShowDirection ==>
                && enumerators == old(enumerators) + Fresh(old(screenManager.toShow))
                && screenManager.onScene == old(screenManager.onScene) + old(screenManager.toShow)
                && screenManager.toShow == [] && screenManager.toHide == old(screenManager.toHide)
      ensures direction == HideDirection ==>
                && enumerators == old(enumerators) + Fresh(old(screenManager.toHide))
                && screenManager.onScene == RemovedAll(old(screenManager.onScene), old(screenManager.toHide))
                && screenManager.toHide == [] && screenManager.toShow == old(screenManager.toShow)
    {
      if direction == ShowDirection {
        ShowQueued();
      } else {
        HideQueued();
      }
    }

    /** The UIShowUpdater loop. */
    method ShowQueued()
      modifies this`enumerators, screenManager`toShow, screenManager`onScene
      ensures enumerators == old(enumerators) + Fresh(old(screenManager.toShow))
      ensures screenManager.onScene == old(screenManager.onScene) + old(screenManager.toShow)
      ensures screenManager.toShow == []
    {
      ghost var queued := screenManager.toShow;
      ghost var n := 0;
      while screenManager.toShow != []
        invariant 0 <= n <= |queued| && screenManager.toShow == queued[n..]
        invariant enumerators == old(enumerators) + Fresh(queued[..n])
        invariant screenManager.onScene == old(screenManager.onScene) + queued[..n]
        decreases |screenManager.toShow|
      {
        var uiObject := screenManager.toShow[0];
        assert queued[..n + 1] == queued[..n] + [uiObject];
        assert Fresh(queued[..n + 1]) == Fresh(queued[..n]) + [Transition(uiObject, 0)];
        screenManager.toShow := screenManager.toShow[1..];
        enumerators := enumerators + [Transition(uiObject, 0)];
        screenManager.onScene := screenManager.onScene + [uiObject];
        n := n + 1;
      }
      assert queued[..n] == queued;
    }

    /** The UIHideUpdater loop. */
    method HideQueued()
      modifies this`enumerators, screenManager`toHide, screenManager`onScene
      ensures enumerators == old(enumerators) + Fresh(old(screenManager.toHide))
      ensures screenManager.onScene == RemovedAll(old(screenManager.onScene), old(screenManager.toHide))
      ensures screenManager.toHide == []
    {
      ghost var queued := screenManager.toHide;
      ghost var n := 0;
      while screenManager.toHide != []
        invariant 0 <= n <= |queued| && screenManager.toHide == queued[n..]
        invariant enumerators == old(enumerators) + Fresh(queued[..n])
        invariant screenManager.onScene == RemovedAll(old(screenManager.onScene), queued[..n])
        decreases |screenManager.toHide|
      {
        var uiObject := screenManager.toHide[0];
        assert queued[..n + 1] == queued[..n] + [uiObject];
        assert Fresh(queued[..n + 1]) == Fresh(queued[..n]) + [Transition(uiObject, 0)];
        RemovedAllSnoc(old(screenManager.onScene), queued[..n], uiObject);
        screenManager.toHide := screenManager.toHide[1..];
        enumerators := enumerators + [Transition(uiObject, 0)];
        screenManager.onScene := RemoveFirst(screenManager.onScene, uiObject);
        n := n + 1;
      }
      assert queued[..n] == queued;
    }

    /** MoveNext: take the front transition and advance its coroutine once, queueing it
        again at the back when the coroutine yielded. The answer is whether there was a
        transition at all, and each answer true uses up one pending step. */
    method MoveNext() returns (moveNext: bool)
      modifies this`enumerators, if enumerators == [] then {} else {enumerators[0].uiObject}
      ensures moveNext <==> old(enumerators) != []
      ensures !moveNext ==> enumerators == old(enumerators)
      ensures moveNext ==>
                var front := old(enumerators)[0];
                && enumerators == old(enumerators)[1..] + (if front.step == 0 then [front.(step := 1)] else [])
                && front.uiObject.state == Stepped(direction, front.step, old(front.uiObject.state))
      ensures moveNext && old(enumerators)[0].step < AnimationSteps ==>
                PendingSteps(enumerators) + 1 == PendingSteps(old(enumerators))
    {
      if enumerators == [] {
        return false;
      }
      var transitionData := enumerators[0];
      assert enumerators == [transitionData] + enumerators[1..];
      PendingStepsConcat([transitionData], enumerators[1..]);
      assert [transitionData][..0] == [];
      enumerators := enumerators[1..];
      var more := transitionData.uiObject.AnimationStep(direction, transitionData.step);
      if more {
        PendingStepsConcat(enumerators, [transitionData.(step := 1)]);
        assert [transitionData.(step := 1)][..0] == [];
        enumerators := enumerators + [transitionData.(step := 1)];
      }
      moveNext := true;
    }
  }
}
