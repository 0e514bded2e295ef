/** The instance's lock states and the peer channel that comes and goes with the store:
    unlock, soft lock, seal and rebind, one operation at a time. What the outside world
    answers - a passphrase, a store that opens, a port that binds - is a parameter. */
module InstanceLock {
  import opened Wrappers
  import opened LockStates

  type Node = nat

  datatype Source = Flag | Stored | Automatic

  datatype Setting = Setting(spec: string, allowPublic: bool, source: Source)

  /** The specification that switches the peer channel off. */
  const PEERING_OFF := "off"

  /** Everything that needs the data encryption key, as far as the lock machine moves it. */
  datatype CoreView = CoreView(suspended: bool, listen: Setting, peer: Option<Node>, running: bool)

  /** `nodes` counts the peer nodes built so far, `listening` holds those bound to a port. */
  datatype Instance = Instance(
    state: LockState, core: Option<CoreView>, serving: bool, nodes: nat, listening: set<Node>)

  /** Whether a peer node can be built, and whether it can then bind. */
  datatype Bind = Bind(builds: bool, binds: bool)

  /** A store about to be opened: whether it opens, whether the rest of the core can be
      built around it, and what it says about listening. */
  datatype Store = Store(opens: bool, builds: bool, setting: Setting, bind: Bind)

  datatype Outcome =
    | Done
    | AlreadyUnlocked
    | PeerDidNotStart
    | NotInitialised
    | StoreSealed
    | StoreExists
    | StoreRefused
    | BuildFailed
    | BindFailed
    | RolledBack
    | NothingListening

  datatype Operation =
    | Unlock(store: Store)
    | Initialise(store: Store)
    | SoftLock
    | Seal
    | Rebind(setting: Setting, first: Bind, restore: Bind)
    | Serve(binds: bool)

  // ----- the peer channel of one core

  datatype Channel = Channel(core: CoreView, nodes: nat, listening: set<Node>)

  function Stopped(c: Channel): Channel {
    var core := c.core.(peer := None, running := false);
    if c.core.peer.None? then c.(core := core)
    else c.(core := core, listening := c.listening - {c.core.peer.value})
  }

  function Started(c: Channel, binds: bool): (Channel, bool) {
    if c.core.peer.None? then (c, true)
    else if !binds then (c, false)
    else (c.(core := c.core.(running := true), listening := c.listening + {c.core.peer.value}), true)
  }

  /** Stops whatever the channel was and starts it on one setting. */
  function StartedOn(c: Channel, serving: bool, setting: Setting, bind: Bind): (Channel, bool) {
    var stopped := Stopped(c);
    var moved := stopped.(core := stopped.core.(listen := setting));
    if setting.spec == PEERING_OFF then (moved, true)
    else if !bind.builds then (moved, false)
    else
      var built := moved.(core := moved.core.(peer := Some(moved.nodes)), nodes := moved.nodes + 1);
      if !serving then (built, true) else Started(built, bind.binds)
  }

  /** Moves the channel to a new setting, or puts the old one back. */
  function Rebound(c: Channel, serving: bool, setting: Setting, first: Bind, restore: Bind): (Channel, Outcome) {
    var previous := c.core.listen;
    var (moved, ok) := StartedOn(c, serving, setting, first);
    if ok then (moved, Done)
    else
      var (restored, ok') := StartedOn(moved, serving, previous, restore);
      (restored, if ok' then RolledBack else NothingListening)
  }

  // ----- the operations

  function ChannelOf(v: Instance): Channel
    requires v.core.Some?
  {
    Channel(v.core.value, v.nodes, v.listening)
  }

  function WithChannel(v: Instance, c: Channel): Instance {
    v.(core := Some(c.core), nodes := c.nodes, listening := c.listening)
  }

  function NoStore(v: Instance): Outcome {
    if v.state == Uninitialized then NotInitialised else StoreSealed
  }

  /** Builds the rest of the instance around an opened store. */
  function Adopted(v: Instance, store: Store): (Instance, Outcome) {
    if !store.builds then (v, BuildFailed)
    else
      var off := store.setting.spec == PEERING_OFF;
      if !off && !store.bind.builds then (v, BuildFailed)
      else
        var built := if off then v else v.(nodes := v.nodes + 1);
        if v.core.Some? then (built, AlreadyUnlocked)
        else
          var core := CoreView(false, store.setting, if off then None else Some(v.nodes), false);
          var unlocked := built.(core := Some(core), state := Unlocked);
          if !v.serving then (unlocked, Done)
          else
            var (c, ok) := Started(ChannelOf(unlocked), store.bind.binds);
            (WithChannel(unlocked, c), if ok then Done else PeerDidNotStart)
  }

  function Lifted(v: Instance, store: Store): (Instance, Outcome) {
    if v.core.None? then (v, NoStore(v))
    else if !store.opens then (v, StoreRefused)
    else (v.(core := Some(v.core.value.(suspended := false)), state := Unlocked), Done)
  }

  function UnlockedWith(v: Instance, store: Store): (Instance, Outcome) {
    match v.state
    case Unlocked => (v, AlreadyUnlocked)
    case Locked => Lifted(v, store)
    case Uninitialized => (v, NotInitialised)
    case _ => if !store.opens then (v, StoreRefused) else Adopted(v, store)
  }

  function SealedUp(v: Instance): Instance {
    if v.core.None? then v
    else v.(core := None, state := Sealed, listening := Stopped(ChannelOf(v)).listening)
  }

  function Perform(v: Instance, op: Operation): (Instance, Outcome) {
    match op
    case Unlock(store) => UnlockedWith(v, store)
    case Initialise(store) =>
      if v.state != Uninitialized then (v, StoreExists)
      else if !store.opens then (v, StoreRefused)
      else Adopted(v, store)
    case SoftLock =>
      if v.core.None? then (v, NoStore(v))
      else (v.(core := Some(v.core.value.(suspended := true)), state := Locked), Done)
    case Seal => (SealedUp(v), Done)
    case Rebind(setting, first, restore) =>
      if v.core.None? then (v, StoreSealed)
      else
        var (c, outcome) := Rebound(ChannelOf(v), v.serving, setting, first, restore);
        (WithChannel(v, c), outcome)
    case Serve(binds) =>
      if v.serving then (v, Done)
      else
        var serving := v.(serving := true);
        if v.core.None? then (serving, Done)
        else
          var (c, ok) := Started(ChannelOf(serving), binds);
          (WithChannel(serving, c), if ok then Done else BindFailed)
  }

  function Run(v: Instance, ops: seq<Operation>): Instance
    decreases |ops|
  {
    if ops == [] then v else Run(Perform(v, ops[0]).0, ops[1..])
  }

  /** An instance as it starts: with a store or without one, nothing open either way. */
  function Fresh(hasStore: bool): Instance {
    Instance(if hasStore then Sealed else Uninitialized, None, false, 0, {})
  }

  // ----- the operations in place

  class Core {
    var suspended: bool
    var listen: Setting
    var peer: Option<Node>
    var running: bool

    function View(): CoreView
      reads this
    {
      CoreView(suspended, listen, peer, running)
    }

    constructor (listen: Setting, peer: Option<Node>)
      ensures View() == CoreView(false, listen, peer, false)
    {
      suspended, running := false, false;
      this.listen, this.peer := listen, peer;
    }
  }

  class App {
    var state: LockState
    var core: Core?
    var serving: bool
    var nodes: nat
    var listening: set<Node>

    function View(): Instance
      reads this, core
    {
      Instance(state, if core == null then None else Some(core.View()), serving, nodes, listening)
    }

    constructor (hasStore: bool)
      ensures View() == Fresh(hasStore)
    {
      state := if hasStore then Sealed else Uninitialized;
      core, serving, nodes, listening := null, false, 0, {};
    }

    function ChannelView(current: Core): Channel
      reads this, current
    {
      Channel(current.View(), nodes, listening)
    }

    method StopPeer(current: Core)
      modifies this`listening, current`peer, current`running
      ensures ChannelView(current) == Stopped(old(ChannelView(current)))
    {
      var node := current.peer;
      current.peer, current.running := None, false;
      if node == None {
        return;
      }
      listening := listening - {node.value};
    }

    method StartPeer(current: Core, binds: bool) returns (ok: bool)
      modifies this`listening, current`running
      ensures (ChannelView(current), ok) == Started(old(ChannelView(current)), binds)
    {
      if current.peer == None {
        return true;
      }
      if !binds {
        return false;
      }
      listening := listening + {current.peer.value};
      current.running := true;
      return true;
    }

    method StartPeerOn(current: Core, setting: Setting, bind: Bind) returns (ok: bool)
      modifies this`listening, this`nodes, current`listen, current`peer, current`running
      ensures (ChannelView(current), ok) == StartedOn(old(ChannelView(current)), serving, setting, bind)
    {
      StopPeer(current);
      current.listen := setting;
      if setting.spec == PEERING_OFF {
        return true;
      }
      if !bind.builds {
        return false;
      }
      current.peer := Some(nodes);
      nodes := nodes + 1;
      if !serving {
        return true;
      }
      ok := StartPeer(current, bind.binds);
    }

    method RebindPeer(setting: Setting, first: Bind, restore: Bind) returns (outcome: Outcome)
      modifies this`listening, this`nodes, core
      ensures (View(), outcome) == Perform(old(View()), Rebind(setting, first, restore))
    {
      var current := core;
      if current == null {
        return StoreSealed;
      }
      var previous := current.listen;
      var ok := StartPeerOn(current, setting, first);
      if ok {
        return Done;
      }
      var restored := StartPeerOn(current, previous, restore);
      return if restored then RolledBack else NothingListening;
    }

    method AdoptStore(store: Store) returns (outcome: Outcome)
      modifies this
      ensures (View(), outcome) == Adopted(old(View()), store)
    {
      if !store.builds {
        return BuildFailed;
      }
      var node := None;
      if store.setting.spec != PEERING_OFF {
        if !store.bind.builds {
          return BuildFailed;
        }
        node := Some(nodes);
        nodes := nodes + 1;
      }
      if core != null {
        return AlreadyUnlocked;
      }
      var built := new Core(store.setting, node);
      core := built;
      state := Unlocked;
      if serving {
        var ok := StartPeer(built, store.bind.binds);
        if !ok {
          return PeerDidNotStart;
        }
      }
      return Done;
    }

    method UnlockStore(store: Store) returns (outcome: Outcome)
      modifies this, core
      ensures (View(), outcome) == Perform(old(View()), Unlock(store))
    {
      match state {
        case Unlocked => return AlreadyUnlocked;
        case Locked => outcome := Lift(store.opens);
        case Uninitialized => return NotInitialised;
        case _ =>
          if !store.opens {
            return StoreRefused;
          }
          outcome := AdoptStore(store);
      }
    }

    method Lift(passphraseOk: bool) returns (outcome: Outcome)
      modifies this`state, core
      ensures forall store: Store :: store.opens == passphraseOk ==> (View(), outcome) == Lifted(old(View()), store)
    {
      var current := core;
      if current == null {
        return if state == Uninitialized then NotInitialised else StoreSealed;
      }
      if !passphraseOk {
        return StoreRefused;
      }
      current.suspended := false;
      state := Unlocked;
      return Done;
    }

    method LockSoftly() returns (outcome: Outcome)
      modifies this`state, core
      ensures (View(), outcome) == Perform(old(View()), SoftLock)
    {
      var current := core;
      if current == null {
        return if state == Uninitialized then NotInitialised else StoreSealed;
      }
      current.suspended := true;
      state := Locked;
      return Done;
    }

    method SealStore()
      modifies this, core
      ensures View() == Perform(old(View()), Seal).0
    {
      var current := core;
      core := null;
      if current == null {
        return;
      }
      state := Sealed;
      StopPeer(current);
    }

    /** Closing seals what is open without saying so: the state keeps its last value. */
    method CloseDown()
      modifies this, core
      ensures View() == Closed(old(View()))
    {
      var current := core;
      core := null;
      if current != null {
        StopPeer(current);
      }
    }
  }

  // ----- what every operation keeps

  /** State and core agree; the soft lock is the engine's suspended flag; at most the core's
      own node is listening, nothing before the sockets are served, nothing while sealed. */
  ghost predicate Agrees(v: Instance) {
    && (IsUnsealed(v.state) <==> v.core.Some?)
    && (v.state == Locked <==> v.core.Some? && v.core.value.suspended)
    && (v.core.None? ==> v.listening == {})
    && (v.core.Some? ==> OwnNodeOnly(ChannelOf(v), v.serving))
  }

  ghost predicate OwnNodeOnly(c: Channel, serving: bool) {
    && c.listening == (if c.core.running && c.core.peer.Some? then {c.core.peer.value} else {})
    && (c.core.running ==> serving && c.core.peer.Some?)
    && (c.core.peer.Some? ==> c.core.peer.value < c.nodes && c.core.listen.spec != PEERING_OFF)
  }

  lemma StartedOnKeepsOwnNode(c: Channel, serving: bool, setting: Setting, bind: Bind)
    requires OwnNodeOnly(c, serving)
    ensures var (r, ok) := StartedOn(c, serving, setting, bind);
            && OwnNodeOnly(r, serving)
            && r.core.listen == setting && r.core.suspended == c.core.suspended
            && (ok <==> setting.spec == PEERING_OFF || (bind.builds && (serving ==> bind.binds)))
            && (r.core.running <==> ok && serving && setting.spec != PEERING_OFF)
  {
  }

  /** A rebind that fails leaves the setting where it was, and one that works leaves the
      channel on the new setting; either way at most one node is listening. */
  lemma RebindKeepsOrMoves(c: Channel, serving: bool, setting: Setting, first: Bind, restore: Bind)
    requires OwnNodeOnly(c, serving)
    ensures var (r, outcome) := Rebound(c, serving, setting, first, restore);
            && OwnNodeOnly(r, serving) && |r.listening| <= 1
            && r.core.suspended == c.core.suspended
            && r.core.listen == (if outcome == Done then setting else c.core.listen)
            && (outcome == RolledBack && serving && c.core.listen.spec != PEERING_OFF ==> r.core.running)
            && (outcome == NothingListening ==> r.listening == {})
            && (outcome == Done && serving && setting.spec != PEERING_OFF ==> r.core.running)
  {
    StartedOnKeepsOwnNode(c, serving, setting, first);
    var (moved, ok) := StartedOn(c, serving, setting, first);
    StartedOnKeepsOwnNode(moved, serving, c.core.listen, restore);
  }

  lemma StepKeepsAgreement(v: Instance, op: Operation)
    requires Agrees(v)
    ensures Agrees(Perform(v, op).0)
  {
    hide StartedOn, Rebound;
    match op
    case Rebind(setting, first, restore) =>
      if v.core.Some? {
        RebindKeepsOrMoves(ChannelOf(v), v.serving, setting, first, restore);
      }
    case _ =>
  }

  lemma {:induction false} RunKeepsAgreement(v: Instance, ops: seq<Operation>)
    requires Agrees(v)
    ensures Agrees(Run(v, ops))
    decreases |ops|
  {
    if ops == [] {
    } else {
      StepKeepsAgreement(v, ops[0]);
      RunKeepsAgreement(Perform(v, ops[0]).0, ops[1..]);
    }
  }

  /** Over every run of operations that do not overlap, from an instance as it starts. */
  lemma StateAndCoreAgree(hasStore: bool, ops: seq<Operation>)
    ensures var v := Run(Fresh(hasStore), ops);
            && Agrees(v)
            && |v.listening| <= 1
            && (v.state == Sealed || v.state == Uninitialized <==> v.core.None?)
  {
    RunKeepsAgreement(Fresh(hasStore), ops);
    RunKeepsKnownState(Fresh(hasStore), ops);
  }

  lemma {:induction false} RunKeepsKnownState(v: Instance, ops: seq<Operation>)
    requires v.state != Unspecified
    ensures Run(v, ops).state != Unspecified
    decreases |ops|
  {
    if ops == [] {
    } else {
      RunKeepsKnownState(Perform(v, ops[0]).0, ops[1..]);
    }
  }

  /** Once a store exists the instance never goes back to having none. */
  lemma {:induction false} StoreNeverForgotten(v: Instance, ops: seq<Operation>)
    requires v.state != Uninitialized
    ensures Run(v, ops).state != Uninitialized
    decreases |ops|
  {
    if ops == [] {
    } else {
      StoreNeverForgotten(Perform(v, ops[0]).0, ops[1..]);
    }
  }

  function Closed(v: Instance): Instance {
    if v.core.None? then v else v.(core := None, listening := Stopped(ChannelOf(v)).listening)
  }

  /** Closing takes the core without publishing a state, so the two agree afterwards exactly
      when nothing was open. */
  lemma ClosedAgreesIffSealed(v: Instance)
    requires Agrees(v)
    ensures Closed(v).listening == {} && Closed(v).core.None?
    ensures Agrees(Closed(v)) <==> !IsUnsealed(v.state)
  {
  }

  // ----- what overlapping operations can leave behind

  /** An instance left unlocked or locked without a core stays so for good: unlocking finds it
      already unlocked or nothing to lift, sealing finds nothing to seal, and everything else
      finds no store. */
  lemma {:induction false} UnlockedWithoutCoreIsForGood(v: Instance, ops: seq<Operation>)
    requires IsUnsealed(v.state) && v.core.None?
    ensures Run(v, ops).state == v.state && Run(v, ops).core.None?
    decreases |ops|
  {
    if ops == [] {
    } else {
      UnlockedWithoutCoreIsForGood(Perform(v, ops[0]).0, ops[1..]);
    }
  }
}
