/** Unlocking and sealing publish the core and the instance's state in two critical sections.
    This machine lets anything run between the two. */
module LockOverlap {
  import opened LockStates

  /** An operation's first section moves the core or finds that there is one; a soft lock and
      a lift then suspend or resume the prompts of the core they found; the last section
      publishes the state. */
  datatype Kind = Adopting | Sealing | SoftLocking | Lifting

  /** An operation past its first section, numbered by the clock. */
  datatype Op = Op(kind: Kind, since: nat)

  /** The operation changed the core, or the prompts of the core that was there, at that time. */
  datatype Effect = Effect(op: Op, at: nat)

  /** Anything may run between the sections of an operation; `clock` counts those that have
      run but for reads and publications. `core` says whether there is a core, `generation` is
      how many there have been, `suspended` whether the last one's prompts are. `unlocks` and
      `lifts` count the calls that have read a state to be unlocked or lifted from, `inFlight`
      are the operations between their first section and their last, `published` those past
      it, in the order they published. `coreOf` is the core an operation found, `done` the
      operations that have nothing left but to publish, `effects` what they did, in order. */
  datatype Overlap = Overlap(
    state: LockState, core: bool, generation: nat, suspended: bool, clock: nat, unlocks: nat, lifts: nat,
    inFlight: seq<Op>, published: seq<Op>, coreOf: map<nat, nat>, done: set<nat>, effects: seq<Effect>)

  datatype Section = ReadState | CoreSection(kind: Kind) | PromptSection(index: nat) | StateSection(index: nat)

  function Target(kind: Kind): LockState {
    match kind
    case Adopting => Unlocked
    case Lifting => Unlocked
    case SoftLocking => Locked
    case Sealing => Sealed
  }

  function Begun(o: Overlap, kind: Kind): Overlap {
    o.(clock := o.clock + 1, inFlight := o.inFlight + [Op(kind, o.clock)], coreOf := o.coreOf[o.clock := o.generation])
  }

  /** An operation that moves the core has had its effect when it has begun. */
  function Moved(o: Overlap, kind: Kind): Overlap {
    Begun(o.(done := o.done + {o.clock}, effects := o.effects + [Effect(Op(kind, o.clock), o.clock)]), kind)
  }

  /** The core an operation found is still the one there is. */
  predicate StillCore(o: Overlap, op: Op) {
    o.core && op.since in o.coreOf && o.coreOf[op.since] == o.generation
  }

  predicate Moves(kind: Kind) {
    kind == Adopting || kind == Sealing
  }

  /** An operation whose first section finds nothing to do ends there. */
  function Interleave(o: Overlap, s: Section): Overlap {
    match s
    case ReadState =>
      if o.state == Sealed then o.(unlocks := o.unlocks + 1)
      else if o.state == Locked then o.(lifts := o.lifts + 1)
      else o
    case CoreSection(Adopting) =>
      if o.unlocks == 0 then o
      else
        var p := o.(unlocks := o.unlocks - 1);
        if o.core then p
        else Moved(p.(core := true, generation := o.generation + 1, suspended := false), Adopting)
    case CoreSection(Lifting) =>
      if o.lifts == 0 then o
      else
        var p := o.(lifts := o.lifts - 1);
        if o.core then Begun(p, Lifting) else p
    case CoreSection(SoftLocking) => if o.core then Begun(o, SoftLocking) else o
    case CoreSection(Sealing) => if o.core then Moved(o.(core := false), Sealing) else o
    case PromptSection(i) => if i < |o.inFlight| then Prompted(o, o.inFlight[i]) else o
    case StateSection(i) =>
      if i >= |o.inFlight| || o.inFlight[i].since !in o.done then o
      else o.(state := Target(o.inFlight[i].kind), published := o.published + [o.inFlight[i]],
              inFlight := o.inFlight[..i] + o.inFlight[i + 1..])
  }

  /** The prompts of a core that has gone meanwhile are nobody's. */
  function Prompted(o: Overlap, op: Op): Overlap {
    if Moves(op.kind) || op.since in o.done then o
    else
      var p := o.(clock := o.clock + 1, done := o.done + {op.since});
      if StillCore(o, op) then
        p.(suspended := op.kind == SoftLocking, effects := o.effects + [Effect(op, o.clock)])
      else p
  }

  function Interleaved(o: Overlap, sections: seq<Section>): Overlap
    decreases |sections|
  {
    if sections == [] then o else Interleaved(Interleave(o, sections[0]), sections[1..])
  }

  /** A store that exists and has not been opened. */
  const SEALED_START := Overlap(Sealed, false, 0, false, 0, 0, 0, [], [], map[], {}, [])

  ghost predicate Started(o: Overlap, op: Op) {
    op in o.published || op in o.inFlight
  }

  /** No operation that moves the core started after this one. */
  ghost predicate MovedLast(o: Overlap, op: Op) {
    Started(o, op) && Moves(op.kind) && forall q :: Started(o, q) && Moves(q.kind) ==> q.since <= op.since
  }

  /** The core is what the last operation to move it left; without one nothing starts but an
      adoption; and no two operations have one number. */
  ghost predicate Tracks(o: Overlap) {
    && (forall q :: Started(o, q) ==> q.since < o.clock)
    && (forall q, r :: Started(o, q) && Started(o, r) && q.since == r.since ==> q == r)
    && (o.core ==> exists m :: MovedLast(o, m) && m.kind == Adopting)
    && (!o.core ==> NothingSinceSealing(o))
    && o.state == if o.published == [] then Sealed else Target(o.published[|o.published| - 1].kind)
  }

  /** Nothing has started at all, or nothing since a sealing. */
  ghost predicate NothingSinceSealing(o: Overlap) {
    || (o.published == [] && o.inFlight == [])
    || exists m :: MovedLast(o, m) && m.kind == Sealing && forall q :: Started(o, q) ==> q.since <= m.since
  }

  lemma BegunStarts(o: Overlap, kind: Kind)
    ensures forall q :: Started(Begun(o, kind), q) <==> Started(o, q) || q == Op(kind, o.clock)
  {
  }

  lemma PublishingStartsNothing(o: Overlap, i: nat)
    ensures forall q :: Started(Interleave(o, StateSection(i)), q) <==> Started(o, q)
  {
    if i < |o.inFlight| {
      var op := o.inFlight[i];
      assert o.inFlight == o.inFlight[..i] + [op] + o.inFlight[i + 1..];
    }
  }

  lemma BegunTracks(o: Overlap, p: Overlap, kind: Kind)
    requires Tracks(o) && p.published == o.published && p.inFlight == o.inFlight && p.clock == o.clock && p.state == o.state
    requires match kind
             case Adopting => !o.core && p.core
             case Sealing => o.core && !p.core
             case _ => o.core && p.core
    ensures Tracks(Begun(p, kind))
  {
    var r, op := Begun(p, kind), Op(kind, o.clock);
    BegunStarts(p, kind);
    assert forall q :: Started(p, q) <==> Started(o, q);
    assert Started(r, op);
    if Moves(kind) {
      assert MovedLast(r, op);
    } else {
      var m :| MovedLast(o, m) && m.kind == Adopting;
      assert MovedLast(r, m);
    }
  }

  /** Only what has started matters, and the last state published. */
  lemma TracksCarriesOver(o: Overlap, p: Overlap)
    requires Tracks(o) && p.clock >= o.clock && p.core == o.core
    requires forall q :: Started(p, q) <==> Started(o, q)
    requires p.state == if p.published == [] then Sealed else Target(p.published[|p.published| - 1].kind)
    ensures Tracks(p)
  {
    hide Started, Moves, Target;
    assert forall m :: MovedLast(o, m) <==> MovedLast(p, m);
    if o.published == [] && o.inFlight == [] {
      NothingStarted(o);
      NothingStarted(p);
    }
  }

  lemma NothingStarted(o: Overlap)
    ensures o.published == [] && o.inFlight == [] <==> forall q :: !Started(o, q)
  {
    if o.published != [] {
      assert Started(o, o.published[0]);
    }
    if o.inFlight != [] {
      assert Started(o, o.inFlight[0]);
    }
  }

  lemma PublishingTracks(o: Overlap, i: nat)
    requires Tracks(o) && i < |o.inFlight| && o.inFlight[i].since in o.done
    ensures Tracks(Interleave(o, StateSection(i)))
  {
    hide Tracks, Started;
    PublishingStartsNothing(o, i);
    TracksCarriesOver(o, Interleave(o, StateSection(i)));
  }

  lemma SectionTracks(o: Overlap, s: Section)
    requires Tracks(o)
    ensures Tracks(Interleave(o, s))
  {
    hide Tracks;
    var p := Interleave(o, s);
    match s
    case ReadState => NothingMoves(o, p);
    case PromptSection(i) => NothingMoves(o, p);
    case StateSection(i) =>
      if i < |o.inFlight| && o.inFlight[i].since in o.done {
        PublishingTracks(o, i);
      }
    case CoreSection(kind) =>
      if p.inFlight == o.inFlight {
        NothingMoves(o, p);
      } else {
        BegunTracks(o, p.(clock := o.clock, inFlight := o.inFlight, coreOf := o.coreOf), kind);
      }
  }

  lemma NothingMoves(o: Overlap, p: Overlap)
    requires Tracks(o) && p.clock >= o.clock && p.core == o.core
    requires p.inFlight == o.inFlight && p.published == o.published && p.state == o.state
    ensures Tracks(p)
  {
    assert forall q :: Started(p, q) <==> Started(o, q);
    TracksCarriesOver(o, p);
  }

  lemma {:induction false} InterleavedTracks(o: Overlap, sections: seq<Section>)
    requires Tracks(o)
    ensures Tracks(Interleaved(o, sections))
    decreases |sections|
  {
    if sections == [] {
    } else {
      SectionTracks(o, sections[0]);
      InterleavedTracks(Interleave(o, sections[0]), sections[1..]);
    }
  }

  /** The m-th operation to publish was the last to move the core. */
  predicate LastMover(published: seq<Op>, m: nat)
    ensures LastMover(published, m) ==> m < |published|
  {
    && m < |published| && Moves(published[m].kind)
    && forall k :: 0 <= k < |published| && Moves(published[k].kind) ==> published[k].since <= published[m].since
  }

  /** The last operation to publish ran its two sections around both of the m-th's, and the
      one of them seals and the other does not. */
  predicate EnclosesOpposite(published: seq<Op>, m: nat)
    requires m < |published|
  {
    var last := published[|published| - 1];
    && m < |published| - 1 && last.since < published[m].since
    && (last.kind == Sealing <==> published[m].kind != Sealing)
  }

  /** However the operations interleave, once all have finished the state disagrees with the
      core exactly when the last operation to publish encloses the last one to move the core,
      and one of the two seals while the other does not. */
  lemma DisagreementIsEnclosure(sections: seq<Section>)
    requires Interleaved(SEALED_START, sections).inFlight == []
    ensures var o := Interleaved(SEALED_START, sections);
            (IsUnsealed(o.state) <==> !o.core)
              <==> exists m: nat :: LastMover(o.published, m) && EnclosesOpposite(o.published, m)
  {
    InterleavedTracks(SEALED_START, sections);
    FinishedDisagreement(Interleaved(SEALED_START, sections));
  }

  /** Once all have finished the last mover has published; the core is what it left, and if
      it sealed nothing started after it. */
  lemma LastMoverPublished(o: Overlap) returns (m: nat)
    requires Tracks(o) && o.inFlight == [] && o.published != []
    ensures LastMover(o.published, m) && (o.published[m].kind == Adopting <==> o.core)
    ensures !o.core ==> forall k :: 0 <= k < |o.published| ==> o.published[k].since <= o.published[m].since
    ensures forall k: nat :: LastMover(o.published, k) ==> o.published[k] == o.published[m]
  {
    hide Moves;
    assert forall k :: 0 <= k < |o.published| ==> Started(o, o.published[k]);
    var op: Op;
    if o.core {
      op :| MovedLast(o, op) && op.kind == Adopting;
    } else {
      op :| MovedLast(o, op) && op.kind == Sealing && forall q :: Started(o, q) ==> q.since <= op.since;
    }
    m :| m < |o.published| && o.published[m] == op;
  }

  lemma FinishedDisagreement(o: Overlap)
    requires Tracks(o) && o.inFlight == []
    ensures (IsUnsealed(o.state) <==> !o.core)
              <==> exists m: nat :: LastMover(o.published, m) && EnclosesOpposite(o.published, m)
  {
    hide Tracks, LastMover, EnclosesOpposite;
    if o.published != [] {
      var m := LastMoverPublished(o);
      LastPublished(o, m);
      EnclosureDecides(o, m);
    } else {
      NothingPublished(o);
    }
  }

  lemma NothingPublished(o: Overlap)
    requires Tracks(o) && o.inFlight == [] && o.published == []
    ensures o.state == Sealed && !o.core && forall m: nat :: !LastMover(o.published, m)
  {
  }

  lemma EnclosureDecides(o: Overlap, m: nat)
    requires LastMover(o.published, m) && (o.published[m].kind == Adopting <==> o.core)
    requires !o.core ==> forall k :: 0 <= k < |o.published| ==> o.published[k].since <= o.published[m].since
    requires forall k: nat :: LastMover(o.published, k) ==> o.published[k] == o.published[m]
    requires var last := o.published[|o.published| - 1];
             && (IsUnsealed(o.state) <==> last.kind != Sealing)
             && (last.since == o.published[m].since ==> last == o.published[m])
    ensures (IsUnsealed(o.state) <==> !o.core)
              <==> exists k: nat :: LastMover(o.published, k) && EnclosesOpposite(o.published, k)
  {
    MoverIsNotBefore(o.published, m);
    hide LastMover;
    if IsUnsealed(o.state) <==> !o.core {
      assert EnclosesOpposite(o.published, m);
    } else {
      forall k: nat | LastMover(o.published, k)
        ensures !EnclosesOpposite(o.published, k)
      {
        assert o.published[k] == o.published[m];
      }
    }
  }

  lemma LastPublished(o: Overlap, m: nat)
    requires Tracks(o) && m < |o.published|
    ensures var last := o.published[|o.published| - 1];
            && (IsUnsealed(o.state) <==> last.kind != Sealing)
            && (last.since == o.published[m].since ==> last == o.published[m])
  {
    assert Started(o, o.published[|o.published| - 1]) && Started(o, o.published[m]);
  }

  lemma MoverIsNotBefore(published: seq<Op>, m: nat)
    requires LastMover(published, m)
    ensures m < |published| && Moves(published[m].kind)
    ensures var last := published[|published| - 1]; Moves(last.kind) ==> last.since <= published[m].since
  {
  }

  /** So operations that publish in the order of their first sections end in agreement. */
  lemma AgreementInOrder(sections: seq<Section>)
    requires var o := Interleaved(SEALED_START, sections);
             && o.inFlight == []
             && forall i, j :: 0 <= i < j < |o.published| ==> o.published[i].since < o.published[j].since
    ensures var o := Interleaved(SEALED_START, sections); IsUnsealed(o.state) <==> o.core
  {
    DisagreementIsEnclosure(sections);
  }

  /** The interleaving that leaves the instance unlocked without a core: a seal that runs
      between an unlock's two sections. */
  lemma SealInsideUnlock()
    ensures var o := Interleaved(SEALED_START,
                       [ReadState, CoreSection(Adopting), CoreSection(Sealing), StateSection(1), StateSection(0)]);
            o.inFlight == [] && o.state == Unlocked && !o.core
  {
  }

  /** And the other way round: with two unlocks under way, the second adopts and publishes
      between a seal's two sections and leaves the instance sealed with a core. */
  lemma UnlockInsideSeal()
    ensures var o := Interleaved(SEALED_START,
                       [ReadState, ReadState, CoreSection(Adopting), StateSection(0),
                        CoreSection(Sealing), CoreSection(Adopting), StateSection(1), StateSection(0)]);
            o.inFlight == [] && o.state == Sealed && o.core
  {
  }
}
