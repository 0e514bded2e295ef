/** The two kinds of waiter on an instance's lock state: channels closed when the data
    encryption key arrives, and channels closed on every transition. Each critical section
    is one function on the fields the mutex guards; the class performs them in place, and
    the machine below interleaves them with everything that happens outside the mutex. */
module LockWaiters {
  import opened Wrappers
  import opened LockStates
  import opened Lists

  type Chan = nat

  datatype Board = Board(state: LockState, unsealWaiters: seq<Chan>, stateWaiters: seq<Chan>)

  // ----- the critical sections

  /** A transition: the new board, and the channels the caller closes afterwards. */
  function Publish(b: Board, s: LockState): (Board, seq<Chan>) {
    if IsUnsealed(s) then (Board(s, [], []), b.unsealWaiters + b.stateWaiters)
    else (Board(s, b.unsealWaiters, []), b.stateWaiters)
  }

  /** The check of a state wait: the state if it is wanted, else the wait is on the list. */
  function CheckState(b: Board, want: set<LockState>, waiter: Chan): (Board, Option<LockState>) {
    if b.state in want then (b, Some(b.state))
    else (b.(stateWaiters := b.stateWaiters + [waiter]), None)
  }

  function ForgetStateWaiter(b: Board, waiter: Chan): Board {
    b.(stateWaiters := RemoveFirst(b.stateWaiters, waiter))
  }

  /** Interest in the unsealing: registered while sealed, else the caller closes at once. */
  function RegisterUnseal(b: Board, waiter: Chan): (Board, bool) {
    if b.state != Sealed then (b, false)
    else (b.(unsealWaiters := b.unsealWaiters + [waiter]), true)
  }

  function ForgetUnsealWaiter(b: Board, waiter: Chan): Board {
    b.(unsealWaiters := RemoveFirst(b.unsealWaiters, waiter))
  }

  /** The fields under the mutex, changed in place. */
  class LockBoard {
    var state: LockState
    var unsealWaiters: seq<Chan>
    var stateWaiters: seq<Chan>

    function View(): Board
      reads this
    {
      Board(state, unsealWaiters, stateWaiters)
    }

    constructor (state: LockState)
      ensures View() == Board(state, [], [])
    {
      this.state := state;
      unsealWaiters, stateWaiters := [], [];
    }

    method SetState(s: LockState) returns (toClose: seq<Chan>)
      modifies this
      ensures (View(), toClose) == Publish(old(View()), s)
    {
      state := s;
      var woken := [];
      if s == Unlocked || s == Locked {
        woken, unsealWaiters := unsealWaiters, [];
      }
      var changed := stateWaiters;
      stateWaiters := [];
      toClose := woken + changed;
      assert [] + changed == changed;
    }

    method Await(want: set<LockState>, waiter: Chan) returns (reached: Option<LockState>)
      modifies this
      ensures (View(), reached) == CheckState(old(View()), want, waiter)
    {
      if state in want {
        return Some(state);
      }
      stateWaiters := stateWaiters + [waiter];
      return None;
    }

    method GiveUpAwaiting(waiter: Chan)
      modifies this
      ensures View() == ForgetStateWaiter(old(View()), waiter)
    {
      stateWaiters := CutFirst(stateWaiters, waiter);
    }

    method UnsealNotify(waiter: Chan) returns (pending: bool)
      modifies this
      ensures (View(), pending) == RegisterUnseal(old(View()), waiter)
    {
      if state != Sealed {
        return false;
      }
      unsealWaiters := unsealWaiters + [waiter];
      return true;
    }

    method WithdrawUnsealNotify(waiter: Chan)
      modifies this
      ensures View() == ForgetUnsealWaiter(old(View()), waiter)
    {
      unsealWaiters := CutFirst(unsealWaiters, waiter);
    }
  }

  // ----- every interleaving

  /** One call waiting for a state: about to look, parked on a channel, or gone from the
      list and about to read the state it reports. `since` is the transition it began at. */
  datatype Wait =
    | Looking(want: set<LockState>, since: nat)
    | Parked(want: set<LockState>, since: nat, chan: Chan)
    | Leaving(want: set<LockState>, since: nat)

  /** What a wait returned, and the transition whose state that was. */
  datatype Report = Report(want: set<LockState>, since: nat, at: nat, state: LockState, reached: bool)

  /** `closing` holds, for each caller past its critical section, the channels it has still
      to close; `made` counts the channels ever created. */
  datatype World = World(
    board: Board,
    made: nat,
    closing: seq<seq<Chan>>,
    closed: multiset<Chan>,
    withdrawn: multiset<Chan>,
    waits: map<nat, Wait>,
    history: seq<LockState>,
    reports: seq<Report>)

  datatype Step =
    | SetState(state: LockState)
    | CloseNext(caller: nat)
    | UnsealNotify
    | WithdrawUnseal(chan: Chan)
    | BeginAwait(call: nat, want: set<LockState>)
    | Look(call: nat)
    | Wake(call: nat)
    | GiveUp(call: nat)
    | Leave(call: nat)

  function Start(s: LockState): World {
    World(Board(s, [], []), 0, [], multiset{}, multiset{}, map[], [s], [])
  }

  predicate Enabled(w: World, step: Step) {
    match step
    case SetState(s) => s == Sealed || s == Unlocked || s == Locked
    case CloseNext(i) => i < |w.closing| && w.closing[i] != []
    case UnsealNotify => true
    case WithdrawUnseal(c) => true
    case BeginAwait(t, _) => t !in w.waits && w.history != []
    case Look(t) => t in w.waits && w.waits[t].Looking? && w.history != []
    case Wake(t) => t in w.waits && w.waits[t].Parked? && w.waits[t].chan in w.closed
    case GiveUp(t) => t in w.waits && w.waits[t].Parked?
    case Leave(t) => t in w.waits && w.waits[t].Leaving? && w.history != []
  }

  function Removed(list: seq<Chan>, c: Chan): multiset<Chan> {
    if c in list then multiset{c} else multiset{}
  }

  function Apply(w: World, step: Step): World
    requires Enabled(w, step)
  {
    match step
    case SetState(s) =>
      var (board, toClose) := Publish(w.board, s);
      w.(board := board, closing := w.closing + [toClose], history := w.history + [s])
    case CloseNext(i) =>
      w.(closing := w.closing[i := w.closing[i][1..]], closed := w.closed + multiset{w.closing[i][0]})
    case UnsealNotify =>
      var (board, pending) := RegisterUnseal(w.board, w.made);
      w.(board := board, made := w.made + 1,
         closing := if pending then w.closing else w.closing + [[w.made]])
    case WithdrawUnseal(c) =>
      w.(board := ForgetUnsealWaiter(w.board, c),
         withdrawn := w.withdrawn + Removed(w.board.unsealWaiters, c))
    case BeginAwait(t, want) =>
      w.(waits := w.waits[t := Looking(want, |w.history| - 1)])
    case Look(t) =>
      var (board, reached) := CheckState(w.board, w.waits[t].want, w.made);
      if reached.Some? then
        var r := Report(w.waits[t].want, w.waits[t].since, |w.history| - 1, reached.value, true);
        w.(board := board, waits := w.waits - {t}, reports := w.reports + [r])
      else
        w.(board := board, made := w.made + 1,
           waits := w.waits[t := Parked(w.waits[t].want, w.waits[t].since, w.made)])
    case Wake(t) =>
      w.(waits := w.waits[t := Looking(w.waits[t].want, w.waits[t].since)])
    case GiveUp(t) =>
      var c := w.waits[t].chan;
      w.(board := ForgetStateWaiter(w.board, c),
         withdrawn := w.withdrawn + Removed(w.board.stateWaiters, c),
         waits := w.waits[t := Leaving(w.waits[t].want, w.waits[t].since)])
    case Leave(t) =>
      var r := Report(w.waits[t].want, w.waits[t].since, |w.history| - 1, w.board.state, false);
      w.(waits := w.waits - {t}, reports := w.reports + [r])
  }

  ghost predicate Possible(w: World, steps: seq<Step>)
    decreases |steps|
  {
    steps == [] || (Enabled(w, steps[0]) && Possible(Apply(w, steps[0]), steps[1..]))
  }

  ghost function Run(w: World, steps: seq<Step>): World
    requires Possible(w, steps)
    decreases |steps|
  {
    if steps == [] then w else Run(Apply(w, steps[0]), steps[1..])
  }

  // ----- what every step keeps

  /** How many times a channel occurs anywhere it can be. */
  ghost function Count(w: World, c: Chan): nat {
    multiset(w.board.unsealWaiters)[c] + multiset(w.board.stateWaiters)[c] + Flatten(w.closing)[c]
    + w.closed[c] + w.withdrawn[c]
  }

  /** Every channel made so far is in exactly one place, once, and no other is anywhere. */
  ghost predicate Conserved(w: World) {
    forall c: Chan :: Count(w, c) == if c < w.made then 1 else 0
  }

  /** A parked call's channel is still on its list, with the state not one it wants, or it
      is closed, or somebody is about to close it. */
  ghost predicate ParkedSafely(w: World, t: nat)
    requires t in w.waits && w.waits[t].Parked?
  {
    var p := w.waits[t];
    || (p.chan in w.board.stateWaiters && w.board.state !in p.want)
    || p.chan in Flatten(w.closing)
    || p.chan in w.closed
  }

  ghost predicate WaitsSound(w: World) {
    && (forall t :: t in w.waits ==> w.waits[t].since < |w.history|)
    && (forall t :: t in w.waits && w.waits[t].Parked? ==> ParkedSafely(w, t))
    && (forall t, u :: t in w.waits && u in w.waits && t != u && w.waits[t].Parked? && w.waits[u].Parked?
          ==> w.waits[t].chan != w.waits[u].chan)
  }

  /** A report names a state the instance really was in, at a moment during the call; a
      reached one names a wanted state. */
  ghost predicate Truthful(w: World, r: Report) {
    r.since <= r.at < |w.history| && w.history[r.at] == r.state && (r.reached ==> r.state in r.want)
  }

  ghost predicate Inv(w: World) {
    && Conserved(w)
    && w.history != [] && w.board.state == w.history[|w.history| - 1]
    && (w.board.unsealWaiters != [] ==> w.board.state == Sealed)
    && WaitsSound(w)
    && (forall i :: 0 <= i < |w.reports| ==> Truthful(w, w.reports[i]))
  }

  lemma SetStateMoves(w: World, s: LockState, c: Chan)
    requires Enabled(w, SetState(s))
    ensures Count(Apply(w, SetState(s)), c) == Count(w, c)
    ensures Flatten(Apply(w, SetState(s)).closing)[c]
         == Flatten(w.closing)[c] + multiset(Publish(w.board, s).1)[c]
  {
    FlattenAppend(w.closing, Publish(w.board, s).1);
    assert multiset(w.board.unsealWaiters + w.board.stateWaiters)
        == multiset(w.board.unsealWaiters) + multiset(w.board.stateWaiters);
  }

  lemma CloseMoves(w: World, i: nat, c: Chan)
    requires Enabled(w, CloseNext(i))
    ensures Count(Apply(w, CloseNext(i)), c) == Count(w, c)
    ensures var v := Apply(w, CloseNext(i));
            Flatten(w.closing)[c] + w.closed[c] == Flatten(v.closing)[c] + v.closed[c]
  {
    FlattenPop(w.closing, i);
  }

  lemma UnsealNotifyMakes(w: World, c: Chan)
    ensures Count(Apply(w, UnsealNotify), c) == Count(w, c) + if c == w.made then 1 else 0
    ensures Flatten(Apply(w, UnsealNotify).closing)[c] >= Flatten(w.closing)[c]
  {
    var (board, pending) := RegisterUnseal(w.board, w.made);
    if pending {
      AppendCount(w.board.unsealWaiters, w.made, c);
    } else {
      FlattenAppend(w.closing, [w.made]);
      AppendCount([], w.made, c);
      assert [] + [w.made] == [w.made];
    }
  }

  lemma LookMakes(w: World, t: nat, c: Chan)
    requires Enabled(w, Look(t))
    ensures var v := Apply(w, Look(t));
            Count(v, c) == Count(w, c) + if v.made > w.made && c == w.made then 1 else 0
  {
  }

  lemma StepCounts(w: World, step: Step, c: Chan)
    requires Enabled(w, step)
    ensures var v := Apply(w, step);
            && w.made <= v.made <= w.made + 1
            && Count(v, c) == Count(w, c) + if w.made <= c < v.made then 1 else 0
  {
    match step
    case SetState(s) => SetStateMoves(w, s, c);
    case CloseNext(i) => CloseMoves(w, i, c);
    case UnsealNotify => UnsealNotifyMakes(w, c);
    case WithdrawUnseal(x) => RemoveFirstCount(w.board.unsealWaiters, x, c);
    case GiveUp(t) => RemoveFirstCount(w.board.stateWaiters, w.waits[t].chan, c);
    case Look(t) => LookMakes(w, t, c);
    case _ =>
  }

  lemma StepConserves(w: World, step: Step)
    requires Conserved(w) && Enabled(w, step)
    ensures Conserved(Apply(w, step))
  {
    forall c: Chan
      ensures Count(Apply(w, step), c) == if c < Apply(w, step).made then 1 else 0
    {
      StepCounts(w, step, c);
      assert Count(w, c) == if c < w.made then 1 else 0;
    }
  }

  lemma SafeAcrossSetState(w: World, s: LockState, t: nat)
    requires Enabled(w, SetState(s)) && t in w.waits && w.waits[t].Parked? && ParkedSafely(w, t)
    ensures ParkedSafely(Apply(w, SetState(s)), t)
  {
    var c := w.waits[t].chan;
    SetStateMoves(w, s, c);
    if c in w.board.stateWaiters {
      assert c in Publish(w.board, s).1;
    }
  }

  lemma SafeAcrossGiveUp(w: World, g: nat, t: nat)
    requires Inv(w) && Enabled(w, GiveUp(g)) && g != t && t in w.waits && w.waits[t].Parked?
    ensures ParkedSafely(Apply(w, GiveUp(g)), t)
  {
    assert ParkedSafely(w, t);
    RemoveFirstCount(w.board.stateWaiters, w.waits[g].chan, w.waits[t].chan);
  }

  lemma SafeAcrossClose(w: World, i: nat, t: nat)
    requires Enabled(w, CloseNext(i)) && t in w.waits && w.waits[t].Parked? && ParkedSafely(w, t)
    ensures ParkedSafely(Apply(w, CloseNext(i)), t)
  {
    CloseMoves(w, i, w.waits[t].chan);
  }

  /** A call parked before and after a step is still safely parked. */
  lemma StaysSafe(w: World, step: Step, t: nat)
    requires Inv(w) && Enabled(w, step)
    requires t in w.waits && w.waits[t].Parked? && t in Apply(w, step).waits && Apply(w, step).waits[t] == w.waits[t]
    ensures ParkedSafely(Apply(w, step), t)
  {
    assert ParkedSafely(w, t);
    match step
    case SetState(s) => SafeAcrossSetState(w, s, t);
    case CloseNext(i) => SafeAcrossClose(w, i, t);
    case UnsealNotify => UnsealNotifyMakes(w, w.waits[t].chan);
    case GiveUp(g) => SafeAcrossGiveUp(w, g, t);
    case _ =>
  }

  /** A call that parks in a step waits on a channel nobody has had before. */
  lemma ParksSafely(w: World, step: Step, t: nat)
    requires Inv(w) && Enabled(w, step)
    requires t in Apply(w, step).waits && Apply(w, step).waits[t].Parked?
    requires t !in w.waits || Apply(w, step).waits[t] != w.waits[t]
    ensures step == Look(t) && ParkedSafely(Apply(w, step), t) && Apply(w, step).waits[t].chan == w.made
  {
  }

  lemma ParkedIsOld(w: World, t: nat)
    requires Inv(w) && t in w.waits && w.waits[t].Parked?
    ensures w.waits[t].chan < w.made
  {
    assert ParkedSafely(w, t);
    assert Count(w, w.waits[t].chan) == if w.waits[t].chan < w.made then 1 else 0;
  }

  lemma StepKeepsWaits(w: World, step: Step)
    requires Inv(w) && Enabled(w, step)
    ensures WaitsSound(Apply(w, step))
  {
    var v := Apply(w, step);
    forall t | t in v.waits && v.waits[t].Parked?
      ensures ParkedSafely(v, t)
      ensures || (step == Look(t) && v.waits[t].chan == w.made)
              || (t in w.waits && v.waits[t] == w.waits[t] && w.waits[t].chan < w.made)
    {
      if t in w.waits && v.waits[t] == w.waits[t] {
        StaysSafe(w, step, t);
        ParkedIsOld(w, t);
      } else {
        ParksSafely(w, step, t);
      }
    }
  }

  lemma StepKeepsInv(w: World, step: Step)
    requires Inv(w) && Enabled(w, step)
    ensures Inv(Apply(w, step))
  {
    StepConserves(w, step);
    StepKeepsWaits(w, step);
    StepKeepsReports(w, step);
    if step.WithdrawUnseal? {
      assert w.board.unsealWaiters != [] || Apply(w, step).board.unsealWaiters == [];
    }
  }

  lemma StepKeepsReports(w: World, step: Step)
    requires Inv(w) && Enabled(w, step)
    ensures var v := Apply(w, step); forall i :: 0 <= i < |v.reports| ==> Truthful(v, v.reports[i])
  {
    var v := Apply(w, step);
    assert w.history <= v.history;
    forall i | 0 <= i < |v.reports|
      ensures Truthful(v, v.reports[i])
    {
      if i < |w.reports| {
        assert v.reports[i] == w.reports[i] && Truthful(w, w.reports[i]);
      }
    }
  }

  lemma {:induction false} RunKeepsInv(w: World, steps: seq<Step>)
    requires Inv(w) && Possible(w, steps)
    ensures Inv(Run(w, steps))
    decreases |steps|
  {
    if steps == [] {
    } else {
      StepKeepsInv(w, steps[0]);
      RunKeepsInv(Apply(w, steps[0]), steps[1..]);
    }
  }

  /** An unseal channel leaves its list only by being given up or because the store was
      unsealed, and then somebody is about to close it. */
  lemma UnsealWaiterLeavesOnlyWhenUnsealed(w: World, step: Step, c: Chan)
    requires Inv(w) && Enabled(w, step)
    requires c in w.board.unsealWaiters && c !in Apply(w, step).board.unsealWaiters
    ensures || step == WithdrawUnseal(c)
            || (step.SetState? && (step.state == Unlocked || step.state == Locked) && c in Flatten(Apply(w, step).closing))
  {
    match step
    case SetState(s) =>
      SetStateMoves(w, s, c);
      assert IsUnsealed(s) ==> c in Publish(w.board, s).1;
    case WithdrawUnseal(x) =>
      RemoveFirstCount(w.board.unsealWaiters, x, c);
    case _ =>
  }

  /** A channel is made for an unsealing that is to come exactly while the store is sealed; else
      whoever made it is about to close it. */
  lemma UnsealWaiterRegistersIffSealed(w: World)
    ensures var v := Apply(w, UnsealNotify);
            && v.made == w.made + 1
            && (w.board.state == Sealed ==>
                  v.board.unsealWaiters == w.board.unsealWaiters + [w.made] && v.closing == w.closing)
            && (w.board.state != Sealed ==>
                  v.board.unsealWaiters == w.board.unsealWaiters && v.closing == w.closing + [[w.made]])
  {
  }

  // ----- over every run

  /** No channel is closed twice and none is lost: whatever the interleaving, each one made
      is in exactly one place, once. */
  lemma NoWaiterLostOrClosedTwice(s: LockState, steps: seq<Step>, c: Chan)
    requires Possible(Start(s), steps)
    ensures var w := Run(Start(s), steps);
            && w.closed[c] <= 1
            && Count(w, c) == if c < w.made then 1 else 0
  {
    StartInv(s);
    RunKeepsInv(Start(s), steps);
    assert Count(Run(Start(s), steps), c) == if c < Run(Start(s), steps).made then 1 else 0;
  }

  lemma StartInv(s: LockState)
    ensures Inv(Start(s))
  {
    assert forall c: Chan :: Count(Start(s), c) == 0;
  }

  /** Something still waiting for the key to arrive means the store is sealed. */
  lemma PendingUnsealMeansSealed(s: LockState, steps: seq<Step>)
    requires Possible(Start(s), steps)
    ensures var w := Run(Start(s), steps); w.board.unsealWaiters != [] ==> w.board.state == Sealed
  {
    RunKeepsInv(Start(s), steps);
  }

  /** No wake-up is missed: once nobody has a channel left to close, a call still parked
      while the instance is in a state it wants has had its channel closed. */
  lemma NoMissedWakeUp(s: LockState, steps: seq<Step>, t: nat)
    requires Possible(Start(s), steps)
    requires var w := Run(Start(s), steps);
             && Flatten(w.closing) == multiset{}
             && t in w.waits && w.waits[t].Parked? && w.board.state in w.waits[t].want
    ensures Enabled(Run(Start(s), steps), Wake(t))
  {
    RunKeepsInv(Start(s), steps);
    assert ParkedSafely(Run(Start(s), steps), t);
  }

  /** Every answer names a state the instance was in between the start of the call and its
      end, and one that says it was reached names a wanted state. */
  lemma ReportsAreTruthful(s: LockState, steps: seq<Step>, i: nat)
    requires Possible(Start(s), steps) && i < |Run(Start(s), steps).reports|
    ensures var w := Run(Start(s), steps); Truthful(w, w.reports[i])
  {
    RunKeepsInv(Start(s), steps);
  }
}
