/** Bit-flag algebra over a [Flags] enum, viewed as its unsigned 64-bit value
    (every helper in EnumExtensions.cs reinterprets the enum as a ulong). */
module EnumExtensions {

  type Flags = bv64

  /** HasFlagFast: every bit of `flag` is set in `target`. */
  predicate HasFlagFast(target: Flags, flag: Flags) {
    target & flag == flag
  }

  /** HasAnyFlag: at least one bit of `flag` is set in `target`. */
  predicate HasAnyFlag(target: Flags, flag: Flags) {
    target & flag != 0
  }

  /** AddFlag writes `target | flag` back through its `ref` parameter, but only
      when some bit of `flag` is missing; the result is the new value of `target`.
      Skipping the write when nothing is missing loses nothing. */
  function AddFlag(target: Flags, flag: Flags): (r: Flags)
    ensures r == target | flag
    ensures HasFlagFast(target, flag) ==> r == target
  {
    if target & flag != flag then target | flag else target
  }

  /** RemoveFlag writes `target & ~flag` back, but only when some bit of `flag` is set. */
  function RemoveFlag(target: Flags, flag: Flags): (r: Flags)
    ensures r == target & !flag
    ensures !HasAnyFlag(target, flag) ==> r == target
  {
    if target & flag != 0 then target & !flag else target
  }

  /** After AddFlag the flag is present and no bit of the old value was cleared. */
  lemma AddFlagSetsFlag(target: Flags, flag: Flags)
    ensures HasFlagFast(AddFlag(target, flag), flag)
    ensures HasFlagFast(AddFlag(target, flag), target)
  {
  }

  /** After RemoveFlag no bit of the flag is left and no bit was set. */
  lemma RemoveFlagClearsFlag(target: Flags, flag: Flags)
    ensures !HasAnyFlag(RemoveFlag(target, flag), flag)
    ensures HasFlagFast(target, RemoveFlag(target, flag))
  {
  }

  /** The empty flag is contained in every value and intersects none. */
  lemma HasFlagOfZero(target: Flags)
    ensures HasFlagFast(target, 0)
    ensures !HasAnyFlag(target, 0)
  {
  }

  /** For a non-empty flag, containing all of its bits implies containing one of them. */
  lemma HasFlagImpliesHasAny(target: Flags, flag: Flags)
    requires flag != 0
    requires HasFlagFast(target, flag)
    ensures HasAnyFlag(target, flag)
  {
  }

  lemma AddFlagIdempotent(target: Flags, flag: Flags)
    ensures AddFlag(AddFlag(target, flag), flag) == AddFlag(target, flag)
  {
  }

  lemma RemoveFlagIdempotent(target: Flags, flag: Flags)
    ensures RemoveFlag(RemoveFlag(target, flag), flag) == RemoveFlag(target, flag)
  {
  }

  /** Removing a flag that was just added to a value without it gives the value back. */
  lemma RemoveUndoesAdd(target: Flags, flag: Flags)
    requires !HasAnyFlag(target, flag)
    ensures RemoveFlag(AddFlag(target, flag), flag) == target
  {
  }
}
