/** The other half of what overlapping operations can break: that the state is locked exactly
    while the prompts of the core there is are suspended. */
module PromptOverlap {
  import opened LockStates
  import opened LockOverlap

  predicate PromptsSuspended(o: Overlap) {
    o.core && o.suspended
  }

  /** The operation has had its effect, or something has had one since it began. */
  ghost predicate Covered(effects: seq<Effect>, op: Op) {
    exists k :: 0 <= k < |effects| && (effects[k].op == op || effects[k].at > op.since)
  }

  ghost predicate CoveredSince(effects: seq<Effect>, op: Op) {
    exists k :: 0 <= k < |effects| && effects[k].at > op.since
  }

  /** Effects come in the order of their times, each of an operation that has begun by then. */
  ghost predicate InOrder(o: Overlap) {
    && (forall k :: 0 <= k < |o.effects| ==>
          Started(o, o.effects[k].op) && o.effects[k].op.since <= o.effects[k].at < o.clock)
    && (forall k, m :: 0 <= k < m < |o.effects| ==> o.effects[k].at < o.effects[m].at)
  }

  /** Whether the prompts are suspended is what the last effect left. */
  ghost predicate FlagIsLastEffect(o: Overlap) {
    PromptsSuspended(o) <==> o.effects != [] && o.effects[|o.effects| - 1].op.kind == SoftLocking
  }

  /** An operation that has still to reach the prompts will reach those of the core there is,
      unless something has had an effect meanwhile; one that is done is covered. */
  ghost predicate OpRight(o: Overlap, q: Op) {
    && q.since < o.clock
    && (q.since in o.done ==> Covered(o.effects, q))
    && (q.since !in o.done ==> !Moves(q.kind) && (StillCore(o, q) || CoveredSince(o.effects, q)))
  }

  ghost predicate Follows(o: Overlap) {
    && InOrder(o) && FlagIsLastEffect(o)
    && (forall q :: Started(o, q) ==> OpRight(o, q))
    && (forall q :: q in o.published ==> q.since in o.done)
    && (forall d :: d in o.done ==> d < o.clock)
    && (o.state == Locked <==> o.published != [] && o.published[|o.published| - 1].kind == SoftLocking)
  }

  lemma CoveredStays(effects: seq<Effect>, e: Effect, op: Op)
    ensures Covered(effects, op) ==> Covered(effects + [e], op)
    ensures e.op == op || e.at > op.since ==> Covered(effects + [e], op)
    ensures e.at > op.since ==> CoveredSince(effects + [e], op)
  {
    var more := effects + [e];
    assert more[|effects|] == e;
    if k :| 0 <= k < |effects| && (effects[k].op == op || effects[k].at > op.since) {
      assert more[k] == effects[k];
    }
  }

  lemma InOrderOneMore(o: Overlap, p: Overlap, e: Effect)
    requires InOrder(o) && p.effects == o.effects + [e] && p.clock > o.clock && e.at == o.clock
    requires e.op.since <= e.at && Started(p, e.op) && forall q :: Started(o, q) ==> Started(p, q)
    ensures InOrder(p)
  {
    hide Started;
  }

  // ----- section by section

  lemma BegunFollows(o: Overlap, kind: Kind)
    requires Follows(o) && o.core && !Moves(kind)
    ensures Follows(Begun(o, kind))
  {
    var p := Begun(o, kind);
    BegunStarts(o, kind);
    hide Started;
    forall q | Started(p, q)
      ensures OpRight(p, q)
    {
      if Started(o, q) {
        assert OpRight(o, q);
      }
    }
  }

  lemma MovedFollows(o: Overlap, p: Overlap, kind: Kind)
    requires Follows(o) && Moves(kind)
    requires p == o.(core := p.core, generation := p.generation, suspended := p.suspended, unlocks := p.unlocks)
    requires p.core ==> !p.suspended
    ensures Follows(Moved(p, kind))
  {
    var r, op := Moved(p, kind), Op(kind, o.clock);
    BegunStarts(p, kind);
    assert forall q :: Started(r, q) <==> Started(o, q) || q == op;
    hide Started;
    InOrderOneMore(o, r, Effect(op, o.clock));
    forall q | Started(r, q)
      ensures OpRight(r, q)
    {
      CoveredStays(o.effects, Effect(op, o.clock), q);
      if q != op {
        assert OpRight(o, q);
      }
    }
  }

  lemma PromptedInOrder(o: Overlap, op: Op)
    requires InOrder(o) && op in o.inFlight && op.since < o.clock
    ensures InOrder(Prompted(o, op))
  {
    var r := Prompted(o, op);
    assert Started(o, op);
    assert forall q :: Started(r, q) <==> Started(o, q);
    hide Started;
    if !Moves(op.kind) && op.since !in o.done && StillCore(o, op) {
      InOrderOneMore(o, r, Effect(op, o.clock));
    }
  }

  lemma PromptedFlag(o: Overlap, op: Op)
    requires FlagIsLastEffect(o)
    ensures FlagIsLastEffect(Prompted(o, op))
  {
  }

  lemma PromptedOpRight(o: Overlap, op: Op, q: Op)
    requires OpRight(o, op) && OpRight(o, q) && !Moves(op.kind) && op.since !in o.done
    requires q.since == op.since ==> q == op
    ensures OpRight(Prompted(o, op), q)
  {
    hide Covered, CoveredSince;
    CoveredStays(o.effects, Effect(op, o.clock), q);
    SinceCovers(o.effects, op);
  }

  lemma PromptedFrame(o: Overlap, op: Op)
    requires !Moves(op.kind) && op.since !in o.done
    ensures var r := Prompted(o, op);
            && r.published == o.published && r.state == o.state && r.clock == o.clock + 1
            && r.done == o.done + {op.since} && forall q :: Started(r, q) <==> Started(o, q)
  {
  }

  lemma PromptedFollows(o: Overlap, op: Op)
    requires Follows(o) && op in o.inFlight && !Moves(op.kind) && op.since !in o.done && Distinct(o)
    ensures Follows(Prompted(o, op))
  {
    assert Started(o, op);
    hide Started, InOrder, OpRight, FlagIsLastEffect, Prompted;
    PromptedFrame(o, op);
    SinceIsPast(o, op);
    PromptedInOrder(o, op);
    PromptedFlag(o, op);
    forall q | Started(o, q)
      ensures OpRight(Prompted(o, op), q)
    {
      PromptedOpRight(o, op, q);
    }
  }

  lemma SinceIsPast(o: Overlap, q: Op)
    requires OpRight(o, q)
    ensures q.since < o.clock
  {
  }

  lemma SinceCovers(effects: seq<Effect>, op: Op)
    ensures CoveredSince(effects, op) ==> Covered(effects, op)
  {
  }

  /** No two operations have one number. */
  ghost predicate Distinct(o: Overlap) {
    forall q, r :: Started(o, q) && Started(o, r) && q.since == r.since ==> q == r
  }

  lemma PublishedFollows(o: Overlap, i: nat)
    requires Follows(o) && i < |o.inFlight| && o.inFlight[i].since in o.done
    ensures Follows(Interleave(o, StateSection(i)))
  {
    var r := Interleave(o, StateSection(i));
    PublishingStartsNothing(o, i);
    hide Started;
    forall q | Started(r, q)
      ensures OpRight(r, q)
    {
      assert OpRight(o, q);
    }
  }

  lemma CountsFollow(o: Overlap, p: Overlap)
    requires Follows(o) && p == o.(unlocks := p.unlocks, lifts := p.lifts)
    ensures Follows(p)
  {
    assert forall q :: Started(p, q) <==> Started(o, q);
    hide Started;
    forall q | Started(p, q)
      ensures OpRight(p, q)
    {
      assert OpRight(o, q);
    }
  }

  lemma SectionFollows(o: Overlap, s: Section)
    requires Follows(o) && Tracks(o)
    ensures Follows(Interleave(o, s))
  {
    assert Distinct(o);
    hide Follows, Tracks, Distinct;
    var p := Interleave(o, s);
    match s
    case ReadState => CountsFollow(o, p);
    case StateSection(i) =>
      if i < |o.inFlight| && o.inFlight[i].since in o.done {
        PublishedFollows(o, i);
      }
    case PromptSection(i) =>
      if i < |o.inFlight| && !Moves(o.inFlight[i].kind) && o.inFlight[i].since !in o.done {
        PromptedFollows(o, o.inFlight[i]);
      }
    case CoreSection(kind) => CoreSectionFollows(o, kind);
  }

  lemma CoreSectionFollows(o: Overlap, kind: Kind)
    requires Follows(o)
    ensures Follows(Interleave(o, CoreSection(kind)))
  {
    hide Follows;
    match kind
    case Adopting =>
      if o.unlocks > 0 {
        var p := o.(unlocks := o.unlocks - 1);
        CountsFollow(o, p);
        if !o.core {
          MovedFollows(o, p.(core := true, generation := o.generation + 1, suspended := false), Adopting);
        }
      }
    case Sealing =>
      if o.core {
        MovedFollows(o, o.(core := false), Sealing);
      }
    case SoftLocking =>
      if o.core {
        BegunFollows(o, SoftLocking);
      }
    case Lifting =>
      if o.lifts > 0 {
        var p := o.(lifts := o.lifts - 1);
        CountsFollow(o, p);
        if o.core {
          BegunFollows(p, Lifting);
        }
      }
  }

  lemma {:induction false} InterleavedFollows(o: Overlap, sections: seq<Section>)
    requires Follows(o) && Tracks(o)
    ensures Follows(Interleaved(o, sections)) && Tracks(Interleaved(o, sections))
    decreases |sections|
  {
    if sections != [] {
      hide Follows, Tracks, Interleave;
      SectionFollows(o, sections[0]);
      SectionTracks(o, sections[0]);
      InterleavedFollows(Interleave(o, sections[0]), sections[1..]);
    }
  }

  // ----- what is left in the end

  /** The last operation to publish began before the last effect of all and published after
      the operation, the m-th to publish, whose effect that was; and one of the two soft-locks
      while the other does not. */
  predicate EnclosesEffect(o: Overlap, m: nat) {
    && m < |o.published| - 1 && o.effects != []
    && o.effects[|o.effects| - 1].op == o.published[m]
    && o.published[|o.published| - 1].since < o.effects[|o.effects| - 1].at
    && (o.published[|o.published| - 1].kind == SoftLocking <==> o.published[m].kind != SoftLocking)
  }

  /** However the operations interleave, once all have finished the state is locked without
      suspended prompts, or prompts are suspended without it, exactly when the last operation
      to publish encloses the last effect. */
  lemma PromptDisagreementIsEnclosure(sections: seq<Section>)
    requires Interleaved(SEALED_START, sections).inFlight == []
    ensures var o := Interleaved(SEALED_START, sections);
            (o.state == Locked <==> !PromptsSuspended(o)) <==> exists m: nat :: EnclosesEffect(o, m)
  {
    InterleavedFollows(SEALED_START, sections);
    FinishedPrompts(Interleaved(SEALED_START, sections));
  }

  lemma FinishedPrompts(o: Overlap)
    requires Follows(o) && o.inFlight == []
    ensures (o.state == Locked <==> !PromptsSuspended(o)) <==> exists m: nat :: EnclosesEffect(o, m)
  {
    if o.published != [] {
      var last := o.published[|o.published| - 1];
      assert Started(o, last) && OpRight(o, last);
      var k :| 0 <= k < |o.effects| && (o.effects[k].op == last || o.effects[k].at > last.since);
      var final := o.effects[|o.effects| - 1];
      assert Started(o, final.op);
      var m: nat :| m < |o.published| && o.published[m] == final.op;
      if o.state == Locked <==> !PromptsSuspended(o) {
        assert final.op != last;
        assert k < |o.effects| - 1 ==> o.effects[k].at < final.at;
        assert o.effects[k].op.since <= o.effects[k].at;
        assert EnclosesEffect(o, m);
      }
    }
  }

  /** So where every effect comes before whatever publishes later begins, the two agree. */
  lemma PromptsAgreeInOrder(sections: seq<Section>)
    requires var o := Interleaved(SEALED_START, sections);
             && o.inFlight == []
             && forall i, j, k :: 0 <= i < j < |o.published| && 0 <= k < |o.effects| && o.effects[k].op == o.published[i]
                  ==> o.effects[k].at <= o.published[j].since
    ensures var o := Interleaved(SEALED_START, sections); o.state == Locked <==> PromptsSuspended(o)
  {
    PromptDisagreementIsEnclosure(sections);
  }

  // ----- a run that breaks it

  lemma {:induction false} InterleavedJoins(o: Overlap, a: seq<Section>, b: seq<Section>)
    ensures Interleaved(o, a + b) == Interleaved(Interleaved(o, a), b)
    decreases |a|
  {
    if a == [] {
      assert a + b == b;
    } else {
      hide Interleave;
      assert (a + b)[1..] == a[1..] + b;
      InterleavedJoins(Interleave(o, a[0]), a[1..], b);
    }
  }

  const UNLOCK_AND_SOFT_LOCK: seq<Section> :=
    [ReadState, CoreSection(Adopting), StateSection(0), CoreSection(SoftLocking), PromptSection(0), StateSection(0)]
  const SECOND_SOFT_LOCK: seq<Section> := [ReadState, CoreSection(SoftLocking), PromptSection(0)]
  const LIFT_INSIDE: seq<Section> := [CoreSection(Lifting), PromptSection(1), StateSection(1), StateSection(0)]

  const SOFT_LOCKED := Overlap(Locked, true, 1, true, 3, 0, 0, [], [Op(Adopting, 0), Op(SoftLocking, 1)],
                               map[0 := 1, 1 := 1], {0, 1},
                               [Effect(Op(Adopting, 0), 0), Effect(Op(SoftLocking, 1), 2)])

  lemma SoftLockedOnce()
    ensures Interleaved(SEALED_START, UNLOCK_AND_SOFT_LOCK) == SOFT_LOCKED
  {
  }

  lemma SuspendedTwice()
    ensures var o := Interleaved(SOFT_LOCKED, SECOND_SOFT_LOCK);
            && o.core && o.generation == 1 && o.lifts == 1 && o.clock == 5 && o.inFlight == [Op(SoftLocking, 3)]
            && o.done == {0, 1, 3}
  {
  }

  lemma ResumedInside(o: Overlap)
    requires o.core && o.generation == 1 && o.lifts == 1 && o.clock == 5 && o.inFlight == [Op(SoftLocking, 3)]
    requires o.done == {0, 1, 3}
    ensures var p := Interleaved(o, LIFT_INSIDE);
            p.inFlight == [] && p.state == Locked && p.core && !PromptsSuspended(p)
  {
  }

  /** An interleaving that leaves the instance locked with its prompts live: a second soft lock
      suspends them, a lift resumes them and publishes, and then the soft lock publishes. */
  lemma LiftInsideSoftLock()
    ensures var o := Interleaved(SEALED_START, UNLOCK_AND_SOFT_LOCK + SECOND_SOFT_LOCK + LIFT_INSIDE);
            o.inFlight == [] && o.state == Locked && o.core && !PromptsSuspended(o)
  {
    hide Interleaved;
    InterleavedJoins(SEALED_START, UNLOCK_AND_SOFT_LOCK + SECOND_SOFT_LOCK, LIFT_INSIDE);
    InterleavedJoins(SEALED_START, UNLOCK_AND_SOFT_LOCK, SECOND_SOFT_LOCK);
    SoftLockedOnce();
    SuspendedTwice();
    ResumedInside(Interleaved(SOFT_LOCKED, SECOND_SOFT_LOCK));
  }
}
