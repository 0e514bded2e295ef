/** What each lock operation does and when it succeeds, field by field, and what it takes to
    leave a state. */
module LockOutcomes {
  import opened Wrappers
  import opened LockStates
  import opened InstanceLock

  function NoStoreOutcome(v: Instance): Outcome {
    if v.state == Uninitialized then NotInitialised else StoreSealed
  }

  // ----- unlocking

  /** Unlocking a soft-locked instance lifts the lock exactly for the right passphrase, and
      changes nothing for a wrong one. */
  lemma LiftsExactlyForThePassphrase(v: Instance, store: Store)
    requires v.state == Locked && v.core.Some?
    ensures var (w, outcome) := Perform(v, Unlock(store));
            && (w.state == Unlocked && w.core.Some? && !w.core.value.suspended <==> store.opens)
            && (store.opens ==> outcome == Done
                                && w == v.(state := Unlocked, core := Some(v.core.value.(suspended := false))))
            && (!store.opens ==> outcome == StoreRefused && w == v)
  {
  }

  /** A store that can be adopted: it opens, the rest can be built around it, and so can its
      peer node if it wants one. */
  predicate Adoptable(store: Store) {
    store.opens && store.builds && (store.setting.spec == PEERING_OFF || store.bind.builds)
  }

  predicate Listens(v: Instance, store: Store) {
    v.serving && store.setting.spec != PEERING_OFF && store.bind.binds
  }

  /** Unlocking a sealed instance opens it exactly for a store that can be adopted: with a core
      on the store's setting, its prompts live, and its node listening if the instance serves
      and the port is free. A store that cannot be adopted leaves it sealed. */
  lemma OpensExactlyIfAdoptable(v: Instance, store: Store)
    requires v.state == Sealed && v.core.None?
    ensures var (w, outcome) := Perform(v, Unlock(store));
            && (w.state == Unlocked && w.core.Some? <==> Adoptable(store))
            && (Adoptable(store) ==>
                  var off := store.setting.spec == PEERING_OFF;
                  && w.state == Unlocked && w.serving == v.serving
                  && w.core == Some(CoreView(false, store.setting, if off then None else Some(v.nodes), Listens(v, store)))
                  && w.nodes == v.nodes + (if off then 0 else 1)
                  && w.listening == v.listening + (if Listens(v, store) then {v.nodes} else {})
                  && outcome == if !v.serving || off || store.bind.binds then Done else PeerDidNotStart)
            && (!Adoptable(store) ==> w == v && outcome == if !store.opens then StoreRefused else BuildFailed)
  {
  }

  /** Unlocking in any other state changes nothing. */
  lemma OtherwiseUnlockingChangesNothing(v: Instance, store: Store)
    requires v.state == Unlocked || v.state == Uninitialized || (v.state == Locked && v.core.None?)
    ensures Perform(v, Unlock(store)) ==
              (v, if v.state == Unlocked then AlreadyUnlocked else NoStoreOutcome(v))
  {
  }

  /** A store is created exactly once, and then opened like any other. */
  lemma InitialisesExactlyOnce(v: Instance, store: Store)
    requires v.state == Uninitialized ==> v.core.None?
    ensures var (w, outcome) := Perform(v, Initialise(store));
            && (v.state != Uninitialized ==> w == v && outcome == StoreExists)
            && (v.state == Uninitialized && !store.opens ==> w == v && outcome == StoreRefused)
            && (v.state == Uninitialized && store.opens && !Adoptable(store) ==> w == v && outcome == BuildFailed)
            && (v.state == Uninitialized && Adoptable(store) ==>
                  (w, outcome) == Perform(v.(state := Sealed), Unlock(store)) && w.state == Unlocked && w.core.Some?)
  {
  }

  // ----- locking

  /** A soft lock suspends the prompts of the core there is and says so; without one it
      changes nothing. */
  lemma SoftLocksExactlyWithACore(v: Instance)
    ensures Perform(v, SoftLock) ==
              if v.core.Some? then (v.(state := Locked, core := Some(v.core.value.(suspended := true))), Done)
              else (v, NoStoreOutcome(v))
  {
  }

  /** A seal takes the core and its listening node and says so; without a core it changes
      nothing. */
  lemma SealsExactlyWithACore(v: Instance)
    ensures Perform(v, Seal).0 ==
              if v.core.None? then v
              else v.(state := Sealed, core := None,
                      listening := if v.core.value.peer.Some? then v.listening - {v.core.value.peer.value} else v.listening)
  {
  }

  // ----- the peer channel

  /** Whether the channel can be moved to a setting. */
  predicate CanStart(serving: bool, setting: Setting, bind: Bind) {
    setting.spec == PEERING_OFF || (bind.builds && (serving ==> bind.binds))
  }

  /** A rebind is done exactly if the new setting can be started, and otherwise rolled back
      exactly if the old one can; and what is then on the setting. */
  lemma RebindsExactly(v: Instance, setting: Setting, first: Bind, restore: Bind)
    requires v.core.Some?
    ensures var (w, outcome) := Perform(v, Rebind(setting, first, restore));
            var moved := CanStart(v.serving, setting, first);
            var kept := if moved then setting else v.core.value.listen;
            && outcome == (if moved then Done
                           else if CanStart(v.serving, v.core.value.listen, restore) then RolledBack
                           else NothingListening)
            && w.state == v.state && w.serving == v.serving && w.core.Some?
            && w.core.value.listen == kept && w.core.value.suspended == v.core.value.suspended
            && (w.core.value.running <==> v.serving && outcome != NothingListening && kept.spec != PEERING_OFF)
            && (w.core.value.running ==> w.core.value.peer.Some? && w.core.value.peer.value in w.listening
                                         && w.core.value.peer.value >= v.nodes)
  {
  }

  lemma RebindNeedsACore(v: Instance, setting: Setting, first: Bind, restore: Bind)
    requires v.core.None?
    ensures Perform(v, Rebind(setting, first, restore)) == (v, StoreSealed)
  {
  }

  /** Serving starts the channel of the core there is, once. */
  lemma ServesExactlyOnce(v: Instance, binds: bool)
    ensures var (w, outcome) := Perform(v, Serve(binds));
            var starts := !v.serving && v.core.Some? && v.core.value.peer.Some?;
            && w.serving && w.state == v.state && w.nodes == v.nodes
            && (v.serving ==> w == v)
            && outcome == (if starts && !binds then BindFailed else Done)
            && w.listening == (if starts && binds then v.listening + {v.core.value.peer.value} else v.listening)
            && w.core == (if starts && binds then Some(v.core.value.(running := true)) else v.core)
  {
  }

  /** Closing takes the core and its listening node and leaves the state. */
  lemma ClosesExactly(v: Instance)
    ensures Closed(v) ==
              if v.core.None? then v
              else v.(core := None,
                      listening := if v.core.value.peer.Some? then v.listening - {v.core.value.peer.value} else v.listening)
  {
  }

  // ----- what it takes to leave a state

  predicate LiftsOrSeals(op: Operation) {
    op == Seal || (op.Unlock? && op.store.opens)
  }

  /** Over every run, a soft-locked instance is soft-locked until an unlock with the right
      passphrase, or a seal. */
  lemma {:induction false} LockedUntilLiftedOrSealed(v: Instance, ops: seq<Operation>)
    requires v.state == Locked && v.core.Some? && v.core.value.suspended
    requires forall i :: 0 <= i < |ops| ==> !LiftsOrSeals(ops[i])
    ensures var w := Run(v, ops); w.state == Locked && w.core.Some? && w.core.value.suspended
    decreases |ops|
  {
    if ops != [] {
      assert !LiftsOrSeals(ops[0]);
      StaysLocked(v, ops[0]);
      LockedUntilLiftedOrSealed(Perform(v, ops[0]).0, ops[1..]);
    }
  }

  lemma StaysLocked(v: Instance, op: Operation)
    requires v.state == Locked && v.core.Some? && v.core.value.suspended && !LiftsOrSeals(op)
    ensures var w := Perform(v, op).0; w.state == Locked && w.core.Some? && w.core.value.suspended
  {
    if op.Rebind? {
      RebindsExactly(v, op.setting, op.first, op.restore);
    }
  }

  /** Over every run, a sealed instance is sealed until an unlock with a store that can be
      adopted; until then nothing listens. */
  lemma {:induction false} SealedUntilOpened(v: Instance, ops: seq<Operation>)
    requires v.state == Sealed && v.core.None?
    requires forall i :: 0 <= i < |ops| ==> !(ops[i].Unlock? && Adoptable(ops[i].store))
    ensures var w := Run(v, ops); w.state == Sealed && w.core.None? && w.listening == v.listening
    decreases |ops|
  {
    if ops != [] {
      StaysSealed(v, ops[0]);
      SealedUntilOpened(Perform(v, ops[0]).0, ops[1..]);
    }
  }

  lemma StaysSealed(v: Instance, op: Operation)
    requires v.state == Sealed && v.core.None? && !(op.Unlock? && Adoptable(op.store))
    ensures var w := Perform(v, op).0; w.state == Sealed && w.core.None? && w.listening == v.listening
  {
  }
}
