/** Approvers registered with the instance, attached to whichever engine exists. Engines come
    and go with the store; slots stay, and move from one engine to the next. The functions are
    the critical sections, the class performs them in place, and the machine interleaves them
    with the detach that an unregistration makes after leaving the mutex. */
module ApproverSlots {
  import opened Wrappers
  import opened Lists

  type Engine = nat
  type Slot = nat

  /** One handler on one engine. */
  datatype Registration = Registration(engine: Engine, slot: Slot)

  /** The fields under the mutex, with what the engines hold: `detach` maps each slot whose
      detach function is set to the engine it detaches from, `live` is every handler on every
      engine, and `released` counts the detach functions that have run. */
  datatype Registry = Registry(
    core: Option<Engine>,
    approvers: seq<Slot>,
    detach: map<Slot, Engine>,
    live: multiset<Registration>,
    released: multiset<Registration>)

  function On(engine: Engine, slots: seq<Slot>): seq<Registration> {
    seq(|slots|, i requires 0 <= i < |slots| => Registration(engine, slots[i]))
  }

  function AttachedTo(detach: map<Slot, Engine>, engine: Engine, slots: seq<Slot>): map<Slot, Engine> {
    detach + map s | s in slots :: engine
  }

  function SlotSet(slots: seq<Slot>): set<Slot> {
    set s | s in slots
  }

  /** What running the detach functions of the slots in order releases. */
  function Holders(detach: map<Slot, Engine>, slots: seq<Slot>): seq<Registration> {
    if slots == [] then []
    else
      var n := |slots| - 1;
      var front := Holders(detach, slots[..n]);
      if slots[n] in detach && slots[n] !in slots[..n] then
        front + [Registration(detach[slots[n]], slots[n])]
      else front
  }

  // ----- the critical sections

  function Register(r: Registry, slot: Slot): Registry {
    if r.core.Some? then
      r.(approvers := r.approvers + [slot],
         detach := r.detach[slot := r.core.value],
         live := r.live + multiset{Registration(r.core.value, slot)})
    else
      r.(approvers := r.approvers + [slot])
  }

  /** The part of an unregistration under the mutex; it returns what is still to detach. */
  function TakeSlot(r: Registry, slot: Slot): (Registry, Option<Registration>) {
    (r.(approvers := RemoveFirst(r.approvers, slot), detach := r.detach - {slot}),
     if slot in r.detach then Some(Registration(r.detach[slot], slot)) else None)
  }

  function Release(r: Registry, reg: Registration): Registry {
    r.(live := r.live - multiset{reg}, released := r.released + multiset{reg})
  }

  /** Publishing a core attaches every listed slot, unless another core got there first. */
  function Adopt(r: Registry, engine: Engine): (Registry, bool) {
    if r.core.Some? then (r, false)
    else (r.(core := Some(engine),
             detach := AttachedTo(r.detach, engine, r.approvers),
             live := r.live + multiset(On(engine, r.approvers))),
          true)
  }

  /** A slot's detach function, if it is set, is run and cleared. */
  function DetachSlot(r: Registry, slot: Slot): Registry {
    if slot in r.detach then
      Release(r.(detach := r.detach - {slot}), Registration(r.detach[slot], slot))
    else r
  }

  /** Sealing takes the core and detaches every listed slot that has something to detach. */
  function TakeCore(r: Registry): (Registry, Option<Engine>) {
    (DetachAll(r.(core := None), r.approvers), r.core)
  }

  function DetachAll(r: Registry, slots: seq<Slot>): Registry {
    var released := multiset(Holders(r.detach, slots));
    r.(detach := r.detach - SlotSet(slots), live := r.live - released, released := r.released + released)
  }

  /** The same sections as the instance performs them. */
  class Approvers {
    var core: Option<Engine>
    var approvers: seq<Slot>
    var detach: map<Slot, Engine>
    var live: multiset<Registration>
    var released: multiset<Registration>

    function View(): Registry
      reads this
    {
      Registry(core, approvers, detach, live, released)
    }

    constructor ()
      ensures View() == Registry(None, [], map[], multiset{}, multiset{})
    {
      core, approvers, detach := None, [], map[];
      live, released := multiset{}, multiset{};
    }

    method RegisterSlot(slot: Slot)
      modifies this
      ensures View() == Register(old(View()), slot)
    {
      approvers := approvers + [slot];
      if core.Some? {
        live := live + multiset{Registration(core.value, slot)};
        detach := detach[slot := core.value];
      }
    }

    method UnregisterSlot(slot: Slot) returns (toDetach: Option<Registration>)
      modifies this
      ensures (View(), toDetach) == TakeSlot(old(View()), slot)
    {
      toDetach := if slot in detach then Some(Registration(detach[slot], slot)) else None;
      detach := detach - {slot};
      approvers := CutFirst(approvers, slot);
    }

    method AdoptEngine(engine: Engine) returns (adopted: bool)
      modifies this
      ensures (View(), adopted) == Adopt(old(View()), engine)
    {
      if core.Some? {
        return false;
      }
      core := Some(engine);
      var slots := approvers;
      for i := 0 to |slots|
        invariant approvers == slots && core == Some(engine) && released == old(released)
        invariant detach == AttachedTo(old(detach), engine, slots[..i])
        invariant live == old(live) + multiset(On(engine, slots[..i]))
      {
        AttachOneMore(old(detach), old(live), engine, slots, i);
        live := live + multiset{Registration(engine, slots[i])};
        detach := detach[slots[i] := engine];
      }
      assert slots[..|slots|] == slots;
      return true;
    }

    method TakeCoreOut() returns (current: Option<Engine>)
      modifies this
      ensures (View(), current) == TakeCore(old(View()))
    {
      hide DetachAll, DetachSlot;
      current := core;
      core := None;
      var slots := approvers;
      ghost var before := View();
      DetachNone(before);
      for i := 0 to |slots|
        invariant View() == DetachAll(before, slots[..i])
      {
        DetachOneMore(before, slots, i);
        DetachOneSlot(slots[i]);
      }
      assert slots[..|slots|] == slots;
      assert TakeCore(old(View())) == (DetachAll(before, slots), current);
    }

    method DetachOneSlot(slot: Slot)
      modifies this
      ensures View() == DetachSlot(old(View()), slot)
    {
      if slot in detach {
        var reg := Registration(detach[slot], slot);
        live := live - multiset{reg};
        released := released + multiset{reg};
        detach := detach - {slot};
      }
    }
  }

  lemma OnAppend(engine: Engine, slots: seq<Slot>, i: nat)
    requires i < |slots|
    ensures On(engine, slots[..i + 1]) == On(engine, slots[..i]) + [Registration(engine, slots[i])]
  {
  }

  lemma AttachOneMore(detach: map<Slot, Engine>, live: multiset<Registration>, engine: Engine, slots: seq<Slot>, i: nat)
    requires i < |slots|
    ensures AttachedTo(detach, engine, slots[..i])[slots[i] := engine] == AttachedTo(detach, engine, slots[..i + 1])
    ensures live + multiset(On(engine, slots[..i])) + multiset{Registration(engine, slots[i])}
         == live + multiset(On(engine, slots[..i + 1]))
  {
    assert slots[..i + 1] == slots[..i] + [slots[i]];
    OnAppend(engine, slots, i);
  }

  lemma SlotSetAppend(detach: map<Slot, Engine>, slots: seq<Slot>, x: Slot)
    ensures detach - SlotSet(slots + [x]) == (detach - SlotSet(slots)) - {x}
  {
  }

  lemma MinusOneMore(all: multiset<Registration>, done: seq<Registration>, x: Registration)
    ensures all - multiset(done + [x]) == all - multiset(done) - multiset{x}
    ensures all + multiset(done + [x]) == all + multiset(done) + multiset{x}
  {
    assert multiset(done + [x]) == multiset(done) + multiset{x};
  }

  lemma DetachNone(r: Registry)
    ensures DetachAll(r, []) == r
  {
  }

  lemma DetachOneMore(r: Registry, slots: seq<Slot>, i: nat)
    requires i < |slots|
    ensures DetachSlot(DetachAll(r, slots[..i]), slots[i]) == DetachAll(r, slots[..i + 1])
  {
    var x, front := slots[i], slots[..i];
    assert slots[..i + 1] == front + [x];
    SlotSetAppend(r.detach, front, x);
    assert slots[..i + 1][..i] == front;
    var done := Holders(r.detach, front);
    if x in r.detach && x !in front {
      var reg := Registration(r.detach[x], x);
      assert Holders(r.detach, slots[..i + 1]) == done + [reg];
      MinusOneMore(r.live, done, reg);
      MinusOneMore(r.released, done, reg);
    } else {
      assert Holders(r.detach, slots[..i + 1]) == done;
      assert x !in DetachAll(r, front).detach;
    }
  }

  // ----- every interleaving

  /** `engines` and `slots` count those made so far, `building` holds the engines whose core
      is built but not published, `pending` the unregistrations past their critical section. */
  datatype World = World(
    reg: Registry, engines: nat, slots: nat, building: set<Engine>, pending: seq<Registration>)

  datatype Step =
    | RegisterNew
    | UnregisterUnderLock(slot: Slot)
    | UnregisterDetach(index: nat)
    | Build
    | PublishCore(engine: Engine)
    | SealTakesCore

  const START := World(Registry(None, [], map[], multiset{}, multiset{}), 0, 0, {}, [])

  /** Unregistering may happen again after it has happened, and for any slot ever made. */
  predicate Enabled(w: World, step: Step) {
    match step
    case UnregisterUnderLock(s) => s < w.slots
    case UnregisterDetach(i) => i < |w.pending|
    case PublishCore(e) => e in w.building
    case _ => true
  }

  function Apply(w: World, step: Step): World
    requires Enabled(w, step)
  {
    match step
    case RegisterNew => w.(reg := Register(w.reg, w.slots), slots := w.slots + 1)
    case UnregisterUnderLock(s) =>
      var (reg, toDetach) := TakeSlot(w.reg, s);
      w.(reg := reg, pending := if toDetach.Some? then w.pending + [toDetach.value] else w.pending)
    case UnregisterDetach(i) =>
      w.(reg := Release(w.reg, w.pending[i]), pending := w.pending[..i] + w.pending[i + 1..])
    case Build => w.(engines := w.engines + 1, building := w.building + {w.engines})
    case PublishCore(e) => w.(reg := Adopt(w.reg, e).0, building := w.building - {e})
    case SealTakesCore => w.(reg := TakeCore(w.reg).0)
  }

  ghost predicate Possible(w: World, steps: seq<Step>)
    decreases |steps|
  {
    steps == [] || (Enabled(w, steps[0]) && Possible(Apply(w, steps[0]), steps[1..]))
  }

  ghost function Run(w: World, steps: seq<Step>): World
    requires Possible(w, steps)
    decreases |steps|
  {
    if steps == [] then w else Run(Apply(w, steps[0]), steps[1..])
  }

  // ----- what every step keeps

  /** The listed slots are attached exactly when there is a core, to that core's engine. */
  ghost predicate Attached(r: Registry) {
    && (r.core.None? ==> r.detach == map[])
    && (r.core.Some? ==> r.detach.Keys == SlotSet(r.approvers)
                         && forall s :: s in r.detach ==> r.detach[s] == r.core.value)
  }

  /** Whether the slot's own detach function would release this registration. */
  ghost function HeldBySlot(r: Registry, g: Registration): nat {
    if g.slot in r.detach && r.detach[g.slot] == g.engine then 1 else 0
  }

  /** Every handler on an engine is held by its slot or by an unregistration in flight; it
      was put there once; and only engines that were published ever had one. */
  ghost predicate Accounted(w: World, g: Registration) {
    && w.reg.live[g] == HeldBySlot(w.reg, g) + multiset(w.pending)[g]
    && w.reg.live[g] + w.reg.released[g] <= 1
    && (g.engine >= w.engines || g.engine in w.building || g.slot >= w.slots
        ==> w.reg.live[g] + w.reg.released[g] == 0)
  }

  ghost predicate Inv(w: World) {
    && Distinct(w.reg.approvers)
    && (forall s :: s in w.reg.approvers ==> s < w.slots)
    && Attached(w.reg)
    && (forall e :: e in w.building ==> e < w.engines)
    && (w.reg.core.Some? ==> w.reg.core.value < w.engines && w.reg.core.value !in w.building)
    && PendingUnlisted(w)
    && (forall g :: Accounted(w, g))
  }

  /** A slot whose detach has been taken is off the list, for good. */
  ghost predicate PendingUnlisted(w: World) {
    forall i :: 0 <= i < |w.pending| ==> w.pending[i].slot < w.slots && w.pending[i].slot !in w.reg.approvers
  }

  lemma {:induction false} OnCount(engine: Engine, slots: seq<Slot>, g: Registration)
    ensures multiset(On(engine, slots))[g] == if g.engine == engine then multiset(slots)[g.slot] else 0
  {
    if slots == [] {
    } else {
      var n := |slots| - 1;
      OnCount(engine, slots[..n], g);
      assert slots[..n + 1] == slots == slots[..n] + [slots[n]];
      OnAppend(engine, slots, n);
      AppendCount(On(engine, slots[..n]), Registration(engine, slots[n]), g);
      AppendCount(slots[..n], slots[n], g.slot);
    }
  }

  lemma {:induction false} HoldersCount(detach: map<Slot, Engine>, slots: seq<Slot>, g: Registration)
    ensures multiset(Holders(detach, slots))[g]
         == if g.slot in slots && g.slot in detach && detach[g.slot] == g.engine then 1 else 0
  {
    if slots == [] {
    } else {
      var n := |slots| - 1;
      HoldersCount(detach, slots[..n], g);
      assert slots == slots[..n] + [slots[n]];
      if slots[n] in detach && slots[n] !in slots[..n] {
        AppendCount(Holders(detach, slots[..n]), Registration(detach[slots[n]], slots[n]), g);
      }
    }
  }

  lemma RegisterAccounts(w: World, g: Registration)
    requires Inv(w)
    ensures Accounted(Apply(w, RegisterNew), g)
  {
    assert Accounted(w, g);
  }

  lemma UnregisterAccounts(w: World, s: Slot, g: Registration)
    requires Inv(w) && Enabled(w, UnregisterUnderLock(s))
    ensures Accounted(Apply(w, UnregisterUnderLock(s)), g)
  {
    assert Accounted(w, g);
    if s in w.reg.detach {
      AppendCount(w.pending, Registration(w.reg.detach[s], s), g);
    }
  }

  lemma DetachAccounts(w: World, i: nat, g: Registration)
    requires Inv(w) && Enabled(w, UnregisterDetach(i))
    ensures Accounted(Apply(w, UnregisterDetach(i)), g)
  {
    assert Accounted(w, g);
    CutCount(w.pending, i, g);
  }

  lemma PublishAccounts(w: World, e: Engine, g: Registration)
    requires Inv(w) && Enabled(w, PublishCore(e))
    ensures Accounted(Apply(w, PublishCore(e)), g)
  {
    assert Accounted(w, g);
    if w.reg.core.None? {
      OnCount(e, w.reg.approvers, g);
    }
  }

  lemma SealAccounts(w: World, g: Registration)
    requires Inv(w)
    ensures Accounted(Apply(w, SealTakesCore), g)
  {
    assert Accounted(w, g);
    HoldersCount(w.reg.detach, w.reg.approvers, g);
  }

  lemma StepAccounts(w: World, step: Step, g: Registration)
    requires Inv(w) && Enabled(w, step)
    ensures Accounted(Apply(w, step), g)
  {
    match step
    case RegisterNew => RegisterAccounts(w, g);
    case UnregisterUnderLock(s) => UnregisterAccounts(w, s, g);
    case UnregisterDetach(i) => DetachAccounts(w, i, g);
    case Build => assert Accounted(w, g);
    case PublishCore(e) => PublishAccounts(w, e, g);
    case SealTakesCore => SealAccounts(w, g);
  }

  lemma CutCount<T>(s: seq<T>, i: nat, y: T)
    requires i < |s|
    ensures multiset(s)[y] == multiset(s[..i] + s[i + 1..])[y] + if s[i] == y then 1 else 0
  {
    assert s == s[..i] + [s[i]] + s[i + 1..];
  }

  lemma RemoveFirstDistinct(s: seq<Slot>, x: Slot)
    requires Distinct(s)
    ensures var r := RemoveFirst(s, x); Distinct(r) && forall y :: y in r <==> y in s && y != x
  {
    var r := RemoveFirst(s, x);
    forall y
      ensures (y in r ==> multiset(r)[y] == 1) && (y in r <==> y in s && y != x)
    {
      RemoveFirstCount(s, x, y);
      assert y in r <==> y in multiset(r);
      assert y in s <==> y in multiset(s);
    }
  }

  lemma AppendDistinct(s: seq<Slot>, x: Slot)
    requires Distinct(s) && x !in s
    ensures Distinct(s + [x])
  {
    forall y | y in s + [x]
      ensures multiset(s + [x])[y] == 1
    {
      AppendCount(s, x, y);
    }
  }

  /** What the list, the attachments and the detaches in flight have to do with one another. */
  ghost predicate ListedSoundly(w: World) {
    && Distinct(w.reg.approvers) && (forall s :: s in w.reg.approvers ==> s < w.slots)
    && Attached(w.reg) && PendingUnlisted(w)
  }

  lemma RegisterListed(w: World)
    requires ListedSoundly(w)
    ensures ListedSoundly(Apply(w, RegisterNew))
  {
    AppendDistinct(w.reg.approvers, w.slots);
    hide Distinct;
  }

  lemma UnregisterListed(w: World, s: Slot)
    requires ListedSoundly(w) && Enabled(w, UnregisterUnderLock(s))
    ensures ListedSoundly(Apply(w, UnregisterUnderLock(s)))
  {
    RemoveFirstDistinct(w.reg.approvers, s);
    hide Distinct;
  }

  lemma DetachListed(w: World, i: nat)
    requires ListedSoundly(w) && Enabled(w, UnregisterDetach(i))
    ensures ListedSoundly(Apply(w, UnregisterDetach(i)))
  {
    hide Distinct, Attached;
    assert Attached(Apply(w, UnregisterDetach(i)).reg) by {
      AttachedIgnoresEngines(w.reg, Apply(w, UnregisterDetach(i)).reg);
    }
  }

  lemma AttachedIgnoresEngines(r: Registry, t: Registry)
    requires Attached(r) && t == r.(live := t.live, released := t.released)
    ensures Attached(t)
  {
  }

  lemma PublishListed(w: World, e: Engine)
    requires ListedSoundly(w) && Enabled(w, PublishCore(e))
    ensures ListedSoundly(Apply(w, PublishCore(e)))
  {
    hide Distinct;
  }

  lemma SealListed(w: World)
    requires ListedSoundly(w)
    ensures ListedSoundly(Apply(w, SealTakesCore))
  {
    hide Distinct, Holders;
  }

  lemma StepKeepsListed(w: World, step: Step)
    requires ListedSoundly(w) && Enabled(w, step)
    ensures ListedSoundly(Apply(w, step))
  {
    match step
    case RegisterNew => RegisterListed(w);
    case UnregisterUnderLock(s) => UnregisterListed(w, s);
    case UnregisterDetach(i) => DetachListed(w, i);
    case PublishCore(e) => PublishListed(w, e);
    case SealTakesCore => SealListed(w);
    case Build =>
  }

  lemma StepKeepsInv(w: World, step: Step)
    requires Inv(w) && Enabled(w, step)
    ensures Inv(Apply(w, step))
  {
    StepKeepsListed(w, step);
    forall g
      ensures Accounted(Apply(w, step), g)
    {
      StepAccounts(w, step, g);
    }
  }

  lemma {:induction false} RunKeepsInv(w: World, steps: seq<Step>)
    requires Inv(w) && Possible(w, steps)
    ensures Inv(Run(w, steps))
    decreases |steps|
  {
    if steps == [] {
    } else {
      StepKeepsInv(w, steps[0]);
      RunKeepsInv(Apply(w, steps[0]), steps[1..]);
    }
  }

  // ----- over every run

  /** Each listed slot is attached exactly when a core is present, and then to that core's
      engine alone: no other engine holds its handler. */
  lemma ListedSlotsFollowTheCore(steps: seq<Step>, slot: Slot, engine: Engine)
    requires Possible(START, steps) && slot in Run(START, steps).reg.approvers
    ensures var r := Run(START, steps).reg;
            && (slot in r.detach <==> r.core.Some?)
            && (slot in r.detach ==> r.detach[slot] == r.core.value && r.live[Registration(r.core.value, slot)] == 1)
            && r.live[Registration(engine, slot)] == if r.core == Some(engine) then 1 else 0
  {
    RunKeepsInv(START, steps);
    var w := Run(START, steps);
    assert Registration(engine, slot) !in w.pending;
    assert Accounted(w, Registration(engine, slot));
    if w.reg.core.Some? {
      assert Accounted(w, Registration(w.reg.core.value, slot));
    }
  }

  /** No registration is released twice, and none is released that is still on its engine. */
  lemma ReleasedAtMostOnce(steps: seq<Step>, g: Registration)
    requires Possible(START, steps)
    ensures var r := Run(START, steps).reg; r.released[g] <= 1 && (r.released[g] == 1 ==> r.live[g] == 0)
  {
    RunKeepsInv(START, steps);
    assert Accounted(Run(START, steps), g);
  }

  /** An engine that is not the current core's keeps no handler, except those an
      unregistration has taken and is about to detach. */
  lemma OldEnginesAreEmpty(steps: seq<Step>, g: Registration)
    requires Possible(START, steps) && Run(START, steps).reg.core != Some(g.engine)
    ensures Run(START, steps).reg.live[g] == multiset(Run(START, steps).pending)[g]
  {
    RunKeepsInv(START, steps);
    assert Accounted(Run(START, steps), g);
  }

  /** What the steps bring about: a registered slot is listed, an unregistered one is not, a
      published core is the core unless there is one, and a sealed instance has none. */
  lemma StepsTakeEffect(steps: seq<Step>, step: Step)
    requires Possible(START, steps) && Enabled(Run(START, steps), step)
    ensures var w := Run(START, steps);
            var v := Apply(w, step);
            match step
            case RegisterNew => v.reg.approvers == w.reg.approvers + [w.slots] && v.reg.core == w.reg.core
            case UnregisterUnderLock(s) =>
              && (forall t :: t in v.reg.approvers <==> t in w.reg.approvers && t != s)
              && v.reg.core == w.reg.core
              && v.pending == if s in w.reg.approvers && w.reg.core.Some?
                              then w.pending + [Registration(w.reg.core.value, s)] else w.pending
            case UnregisterDetach(i) =>
              v.pending == w.pending[..i] + w.pending[i + 1..] && v.reg.released[w.pending[i]] == w.reg.released[w.pending[i]] + 1
            case PublishCore(e) =>
              v.reg.approvers == w.reg.approvers && v.reg.core == if w.reg.core.Some? then w.reg.core else Some(e)
            case SealTakesCore => v.reg.approvers == w.reg.approvers && v.reg.core == None
            case Build => v.reg == w.reg
  {
    RunKeepsInv(START, steps);
    var w := Run(START, steps);
    if step.UnregisterUnderLock? {
      RemoveFirstDistinct(w.reg.approvers, step.slot);
    }
    hide Distinct, Accounted, Holders;
  }
}
