/** The lock states of an instance. */
module LockStates {

  datatype LockState = Unspecified | Uninitialized | Sealed | Unlocked | Locked

  /** The data encryption key is in memory: a weaker statement than "unlocked". */
  predicate IsUnsealed(s: LockState) {
    s == Unlocked || s == Locked
  }
}
