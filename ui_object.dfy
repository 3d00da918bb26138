/** UIObject.cs: the UIObjectState flags of a screen object, how SetTransitioning moves
    them, and the step sequences of the show and hide animations. */
module UIObjects {
  import opened EnumExtensions

  /** The UIObjectState members. */
  const Visible: Flags := 1
  const Interactable: Flags := 2
  const TransitioningIn: Flags := 4
  const TransitioningOut: Flags := 8
  const TransitioningFinished: Flags := 16
  const NonInteractable: Flags := 256

  const Transitioning: Flags := TransitioningIn | TransitioningOut

  /** IsTransitioning: either transitioning bit is set. */
  predicate IsTransitioning(state: Flags) {
    HasAnyFlag(state, Transitioning)
  }

  lemma IsTransitioningIff(state: Flags)
    ensures IsTransitioning(state) <==>
              HasFlagFast(state, TransitioningIn) || HasFlagFast(state, TransitioningOut)
  {
  }

  /** The state after SetTransitioning(arg): the switch compares `arg` with each single
      member; every other value, the default 0 included, resets the state. */
  function Transitioned(state: Flags, arg: Flags): Flags
  {
    if arg == TransitioningIn then TransitioningIn | Visible
    else if arg == TransitioningOut then TransitioningOut | Visible
    else if arg == Interactable then AddFlag(RemoveFlag(state, NonInteractable), Interactable)
    else if arg == NonInteractable then RemoveFlag(AddFlag(state, NonInteractable), Interactable)
    else if arg == TransitioningFinished then RemoveFlag(state, Transitioning)
    else 0
  }

  /** The single members the switch of SetTransitioning has a case for. */
  predicate HasCase(arg: Flags) {
    arg in {TransitioningIn, TransitioningOut, Interactable, NonInteractable, TransitioningFinished}
  }

  /** TransitioningIn and TransitioningOut set exactly their bit and Visible. */
  lemma TransitionedInOut(state: Flags)
    ensures var r := Transitioned(state, TransitioningIn);
            HasFlagFast(r, TransitioningIn | Visible) && HasFlagFast(TransitioningIn | Visible, r)
    ensures var r := Transitioned(state, TransitioningOut);
            HasFlagFast(r, TransitioningOut | Visible) && HasFlagFast(TransitioningOut | Visible, r)
  {
  }

  /** Interactable sets its bit and clears NonInteractable; every other bit is kept. */
  lemma TransitionedInteractable(state: Flags)
    ensures var r := Transitioned(state, Interactable);
            HasFlagFast(r, Interactable) && !HasAnyFlag(r, NonInteractable) &&
            r & !(Interactable | NonInteractable) == state & !(Interactable | NonInteractable)
  {
  }

  /** NonInteractable is the mirror image of Interactable. */
  lemma TransitionedNonInteractable(state: Flags)
    ensures var r := Transitioned(state, NonInteractable);
            HasFlagFast(r, NonInteractable) && !HasAnyFlag(r, Interactable) &&
            r & !(Interactable | NonInteractable) == state & !(Interactable | NonInteractable)
  {
  }

  /** TransitioningFinished ends any transition and keeps every other bit. */
  lemma TransitionedFinished(state: Flags)
    ensures var r := Transitioned(state, TransitioningFinished);
            !IsTransitioning(r) && r & !Transitioning == state & !Transitioning
  {
  }

  /** Any argument without a case, the default 0 and combinations of members included,
      resets the state. */
  lemma TransitionedOther(state: Flags, arg: Flags)
    requires !HasCase(arg)
    ensures Transitioned(state, arg) == 0
  {
  }

  /** Which of the two animation coroutines runs: OnAnimationInInner or OnAnimationOutInner. */
  datatype Direction = ShowDirection | HideDirection

  /** How many MoveNext calls each coroutine answers with true before it ends. */
  const AnimationSteps: nat := 2

  /** The state after MoveNext number `step` (counting from 0) of the coroutine: the
      first runs up to the yield, the second from the yield to the end, and a finished
      coroutine does nothing. */
  function Stepped(direction: Direction, step: nat, state: Flags): Flags
  {
    match direction
    case ShowDirection =>
      if step == 0 then Transitioned(state, TransitioningIn)
      else if step == 1 then Transitioned(Transitioned(state, TransitioningFinished), Interactable)
      else state
    case HideDirection =>
      if step == 0 then Transitioned(state, TransitioningOut)
      else if step == 1 then Transitioned(state, 0)
      else state
  }

  /** The show sequence ends visible and interactable from any state, and is
      transitioning in between. */
  lemma ShowSequence(state: Flags)
    ensures IsTransitioning(Stepped(ShowDirection, 0, state))
    ensures Stepped(ShowDirection, 1, Stepped(ShowDirection, 0, state)) == Visible | Interactable
  {
  }

  /** The hide sequence ends in the empty state, and is transitioning in between. */
  lemma HideSequence(state: Flags)
    ensures IsTransitioning(Stepped(HideDirection, 0, state))
    ensures Stepped(HideDirection, 1, Stepped(HideDirection, 0, state)) == 0
  {
  }

  /** The calls into the concrete object's animation coroutines. */
  datatype Animation = AnimationIn | AnimationOut

  class UIObject {
    /** The object's runtime type, under which ScreenManager registers it. */
    const objectType: nat
    var state: Flags
    /** The Canvas and CanvasGroup properties SetVisibility and SetTransitioning set. */
    var canvasEnabled: bool
    var overrideSorting: bool
    var sortingOrder: int
    var blocksRaycasts: bool
    /** The animation coroutines run so far. */
    var animations: seq<Animation>

    /** A scene object of the given runtime type, before ScreenManager sets it up; the
        canvas starts as the scene left it. */
    constructor (objectType: nat, canvasEnabled: bool, sortingOrder: int)
      ensures this.objectType == objectType && state == 0 && animations == []
      ensures this.canvasEnabled == canvasEnabled && this.sortingOrder == sortingOrder
    {
      this.objectType := objectType;
      state := 0;
      this.canvasEnabled := canvasEnabled;
      overrideSorting := false;
      this.sortingOrder := sortingOrder;
      blocksRaycasts := false;
      animations := [];
    }

    /** Setup: ScreenManager hands itself over and the object is hidden. */
    method Setup()
      modifies this
      ensures state == old(state) && animations == old(animations)
      ensures !canvasEnabled && !blocksRaycasts && sortingOrder == -0x8000_0000
    {
      SetVisibility(false);
    }

    /** SetVisibility: enable the canvas on top, or disable it, stop it catching rays and
        send it to the bottom (int.MinValue). */
    method SetVisibility(isVisible: bool)
      modifies this
      ensures state == old(state) && animations == old(animations)
      ensures isVisible ==> canvasEnabled && overrideSorting && sortingOrder == 0 && blocksRaycasts == old(blocksRaycasts)
      ensures !isVisible ==> !canvasEnabled && !blocksRaycasts && sortingOrder == -0x8000_0000 &&
                             overrideSorting == old(overrideSorting)
    {
      if isVisible {
        canvasEnabled := true;
        overrideSorting := true;
        sortingOrder := 0;
      } else {
        canvasEnabled := false;
        blocksRaycasts := false;
        sortingOrder := -0x8000_0000;
      }
    }

    /** SetTransitioning: move the state as Transitioned says and update the canvas. */
    method SetTransitioning(arg: Flags)
      modifies this
      ensures state == Transitioned(old(state), arg) && animations == old(animations)
      ensures canvasEnabled == if arg == TransitioningIn then true
                               else if HasCase(arg) then old(canvasEnabled) else false
      ensures sortingOrder == if arg == TransitioningIn then 0
                              else if HasCase(arg) then old(sortingOrder) else -0x8000_0000
      ensures overrideSorting == (arg == TransitioningIn || old(overrideSorting))
      ensures blocksRaycasts == if arg == Interactable then true
                                else if arg in {TransitioningOut, NonInteractable} || !HasCase(arg) then false
                                else old(blocksRaycasts)
    {
      if arg == TransitioningIn {
        state := TransitioningIn | Visible;
        SetVisibility(true);
      } else if arg == TransitioningOut {
        state := TransitioningOut | Visible;
        blocksRaycasts := false;
      } else if arg == Interactable {
        state := RemoveFlag(state, NonInteractable);
        state := AddFlag(state, Interactable);
        blocksRaycasts := true;
      } else if arg == NonInteractable {
        state := AddFlag(state, NonInteractable);
        state := RemoveFlag(state, Interactable);
        blocksRaycasts := false;
      } else if arg == TransitioningFinished {
        state := RemoveFlag(state, Transitioning);
      } else {
        SetVisibility(false);
        state := 0;
      }
    }

    /** MoveNext of the OnAnimationInInner or OnAnimationOutInner coroutine that has
        already answered `step` calls. The first call sets the transitioning state and
        stops at the yield of the object's own animation; the second finishes (showing:
        finished, then interactable; hiding: the reset); later calls do nothing. The
        result is MoveNext's: whether the coroutine yielded. */
    method AnimationStep(direction: Direction, step: nat) returns (more: bool)
      modifies this
      ensures more <==> step == 0
      ensures state == Stepped(direction, step, old(state))
      ensures animations == old(animations) +
                (if step > 0 then [] else if direction == ShowDirection then [AnimationIn] else [AnimationOut])
      ensures direction == ShowDirection && step == 0 ==> canvasEnabled && sortingOrder == 0
      ensures direction == ShowDirection && step == 1 ==>
                blocksRaycasts && canvasEnabled == old(canvasEnabled) && sortingOrder == old(sortingOrder)
      ensures direction == HideDirection && step == 0 ==>
                !blocksRaycasts && canvasEnabled == old(canvasEnabled) && sortingOrder == old(sortingOrder)
      ensures direction == HideDirection && step == 1 ==>
                !canvasEnabled && !blocksRaycasts && sortingOrder == -0x8000_0000
      ensures step >= AnimationSteps ==>
                canvasEnabled == old(canvasEnabled) && blocksRaycasts == old(blocksRaycasts) &&
                sortingOrder == old(sortingOrder)
    {
      more := false;
      if step == 0 {
        if direction == ShowDirection {
          SetTransitioning(TransitioningIn);
          animations := animations + [AnimationIn];
        } else {
          SetTransitioning(TransitioningOut);
          animations := animations + [AnimationOut];
        }
        more := true;
      } else if step == 1 {
        if direction == ShowDirection {
          SetTransitioning(TransitioningFinished);
          SetTransitioning(Interactable);
        } else {
          SetTransitioning(0);
        }
      }
    }
  }
}
