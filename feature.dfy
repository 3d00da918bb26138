/** Feature.cs: the enable/disable state machine of a feature and how it keeps the
    feature's registration with the shared FeatureUpdateManager in step with it. */
module Features {
  import opened PlayerLoop

  /** The calls a Feature makes into its concrete subclass, recorded in order. */
  datatype Hook = CalledInitialize | CalledOnFeatureEnable | CalledOnFeatureDisable | CalledDispose

  class Feature {
    /** Which of IFeatureUpdateable, IFeatureEnableable, IFeatureInitializable and
        IDisposable the concrete feature implements, and its FeatureAutoEnable value.
        IFeatureInitializable extends IDisposable, so an initialisable feature is
        always disposable. */
    const implementsUpdateable: bool
    const implementsEnableable: bool
    const implementsInitializable: bool
    const implementsDisposable: bool
    const featureAutoEnable: bool

    var isUpdatable: bool
    var isEnablable: bool
    var isEnabled: bool
    var updateManager: PlayerLoopUpdateManager?<Feature>
    var hooks: seq<Hook>
    /** Between Initialize_Internal and Deinitialize_Internal. */
    ghost var live: bool

    /** IsEnabled: a feature that cannot be enabled counts as always enabled. */
    function IsEnabled(): bool
      reads this
    {
      !isEnablable || isEnabled
    }

    /** Whether the feature belongs in the update list: an enablable one while it is
        enabled, any other one while it is initialised, and only if updatable. */
    ghost predicate ShouldBeRegistered()
      reads this
    {
      isUpdatable && (if isEnablable then isEnabled else live)
    }

    /** The feature invariant: it appears in its manager's list exactly once when it
        should be registered and not at all otherwise. */
    ghost predicate Valid()
      reads this, updateManager
    {
      && (isEnabled ==> isEnablable)
      && (updateManager == null ==> !isUpdatable && !isEnablable && !live)
      && (live ==> isUpdatable == implementsUpdateable && isEnablable == implementsEnableable)
      && (updateManager != null ==>
            Occurrences(updateManager.updateables, this) == if ShouldBeRegistered() then 1 else 0)
    }

    constructor (updateable: bool, enableable: bool, initializable: bool, disposable: bool, autoEnable: bool)
      ensures Valid() && updateManager == null && hooks == [] && !live && !isEnabled
      ensures implementsUpdateable == updateable && implementsEnableable == enableable
      ensures implementsInitializable == initializable && featureAutoEnable == autoEnable
      ensures implementsDisposable == (initializable || disposable)
    {
      implementsUpdateable, implementsEnableable := updateable, enableable;
      implementsInitializable, featureAutoEnable := initializable, autoEnable;
      implementsDisposable := initializable || disposable;
      isUpdatable, isEnablable, isEnabled := false, false, false;
      updateManager := null;
      hooks := [];
      live := false;
    }

    /** For an initialised feature, the invariant is exactly "in the update list iff
        updatable and enabled". */
    lemma RegisteredIffUpdatableAndEnabled()
      requires Valid() && live
      ensures updateManager != null
      ensures this in updateManager.updateables <==> isUpdatable && IsEnabled()
    {
      OccurrencesPositive(updateManager.updateables, this);
    }

    /** Enable: only an enablable feature that is disabled registers for updates (when
        updatable), runs its enable hook and becomes enabled; otherwise nothing happens. */
    method Enable()
      requires Valid()
      modifies this, updateManager
      ensures Valid() && updateManager == old(updateManager) && live == old(live)
      ensures isUpdatable == old(isUpdatable) && isEnablable == old(isEnablable)
      ensures IsEnabled()
      ensures if old(isEnablable && !isEnabled) then
                && isEnabled
                && hooks == old(hooks) + [CalledOnFeatureEnable]
                && updateManager.updateables == old(updateManager.updateables) + (if isUpdatable then [this] else [])
              else
                && isEnabled == old(isEnabled) && hooks == old(hooks)
                && (updateManager != null ==> updateManager.updateables == old(updateManager.updateables))
    {
      if isEnablable && !isEnabled {
        if isUpdatable {
          OccurrencesAppend(updateManager.updateables, this, this);
          updateManager.Register(this);
        }
        hooks := hooks + [CalledOnFeatureEnable];
        isEnabled := true;
      }
    }

    /** Disable: the mirror image of Enable. */
    method Disable()
      requires Valid()
      modifies this, updateManager
      ensures Valid() && updateManager == old(updateManager) && live == old(live)
      ensures isUpdatable == old(isUpdatable) && isEnablable == old(isEnablable)
      ensures !isEnabled
      ensures if old(isEnablable && isEnabled) then
                && hooks == old(hooks) + [CalledOnFeatureDisable]
                && updateManager.updateables ==
                     if isUpdatable then RemoveFirst(old(updateManager.updateables), this)
                     else old(updateManager.updateables)
              else
                && hooks == old(hooks)
                && (updateManager != null ==> updateManager.updateables == old(updateManager.updateables))
    {
      if isEnablable && isEnabled {
        if isUpdatable {
          OccurrencesPositive(updateManager.updateables, this);
          RemoveFirstOccurrences(updateManager.updateables, this, this);
          updateManager.Unregister(this);
        }
        hooks := hooks + [CalledOnFeatureDisable];
        isEnabled := false;
      }
    }

    /** Initialize_Internal: record the manager and the capabilities, run the
        initialise hook, then either auto-enable an enablable feature or register a
        non-enablable updatable one directly. */
    method Initialize_Internal(featureUpdateManager: PlayerLoopUpdateManager<Feature>)
      requires Valid() && !live && !isEnabled
      requires this !in featureUpdateManager.updateables
      modifies this, featureUpdateManager
      ensures Valid() && live && updateManager == featureUpdateManager
      ensures isUpdatable == implementsUpdateable && isEnablable == implementsEnableable
      ensures isEnabled == (implementsEnableable && featureAutoEnable)
      ensures hooks == old(hooks) + (if implementsInitializable then [CalledInitialize] else [])
                                  + (if isEnabled then [CalledOnFeatureEnable] else [])
      ensures featureUpdateManager.updateables == old(featureUpdateManager.updateables) +
                (if implementsUpdateable && (!implementsEnableable || featureAutoEnable) then [this] else [])
    {
      updateManager := featureUpdateManager;
      isUpdatable := implementsUpdateable;
      isEnablable := implementsEnableable;
      if implementsInitializable {
        hooks := hooks + [CalledInitialize];
      }
      live := true;
      OccurrencesPositive(updateManager.updateables, this);
      if isEnablable && featureAutoEnable {
        Enable();
      } else if !isEnablable && isUpdatable {
        OccurrencesAppend(updateManager.updateables, this, this);
        updateManager.Register(this);
      }
    }

    /** Deinitialize_Internal: disable, and unregister a non-enablable updatable
        feature; afterwards the feature is in no update list position at all. */
    method Deinitialize_Internal()
      requires Valid() && live
      modifies this, updateManager
      ensures Valid() && !live && updateManager == old(updateManager)
      ensures updateManager != null && this !in updateManager.updateables
      ensures !isEnabled
      ensures hooks == old(hooks) + (if old(isEnablable && isEnabled) then [CalledOnFeatureDisable] else [])
      ensures updateManager.updateables ==
                if old(ShouldBeRegistered()) then RemoveFirst(old(updateManager.updateables), this)
                else old(updateManager.updateables)
    {
      Disable();
      if !isEnablable && isUpdatable {
        OccurrencesPositive(updateManager.updateables, this);
        RemoveFirstOccurrences(updateManager.updateables, this, this);
        updateManager.Unregister(this);
      }
      OccurrencesPositive(updateManager.updateables, this);
      live := false;
    }

    /** IDisposable.Dispose of the concrete feature. */
    method Dispose()
      modifies this`hooks
      ensures hooks == old(hooks) + [CalledDispose]
    {
      hooks := hooks + [CalledDispose];
    }
  }
}
