/** Probing for a unique host and instance name (sections 8.1 and 9 of RFC 6762): one round of
    listening, and the loop that renames and probes again. What is heard is a parameter. */
module Probe {
  import opened Wrappers
  import opened RenameSuffix

  datatype Conflict = Conflict(hostname: bool, serviceName: bool) {
    predicate HasAny() {
      hostname || serviceName
    }
  }

  const NO_CONFLICT := Conflict(false, false)

  // ----- one round

  /** While a round listens: a response on a known interface, whether its addresses deny ours
      and whether it carries the service name; the context ending; or the query timer. */
  datatype Event = Response(denies: bool, takesName: bool) | ContextEnded | Timer

  /** What has been heard: a host conflict stays, a name conflict is whatever the last
      response said. */
  function Heard(events: seq<Event>): Conflict {
    if events == [] then NO_CONFLICT
    else
      var before := Heard(events[..|events| - 1]);
      match events[|events| - 1]
      case Response(denies, takesName) => Conflict(before.hostname || denies, takesName)
      case _ => before
  }

  function Timers(events: seq<Event>): nat {
    if events == [] then 0
    else Timers(events[..|events| - 1]) + if events[|events| - 1] == Timer then 1 else 0
  }

  function TimerAt(events: seq<Event>): set<int> {
    set i | 0 <= i < |events| && events[i] == Timer
  }

  lemma TimerAtOneMore(front: seq<Event>, e: Event)
    ensures TimerAt(front + [e]) == TimerAt(front) + (if e == Timer then {|front|} else {})
    ensures |front| !in TimerAt(front)
  {
  }

  /** That is how many of them are the timer. */
  lemma {:induction false} TimersExactly(events: seq<Event>)
    ensures Timers(events) == |TimerAt(events)|
  {
    if events != [] {
      hide TimerAt;
      var n := |events| - 1;
      TimersExactly(events[..n]);
      TimerAtOneMore(events[..n], events[n]);
      assert events == events[..n] + [events[n]];
    } else {
      assert TimerAt(events) == {};
    }
  }

  /** Listens until the timer finds a conflict or has fired a fourth time, or the context
      ends. `n` is where in the events that was. */
  method RunProbe(events: seq<Event>) returns (r: Option<Result<Conflict, ()>>, n: nat)
    ensures n <= |events| && (r == None <==> n == |events|)
    ensures forall m :: 0 <= m < n ==>
              events[m] != ContextEnded
              && (events[m] == Timer ==> !Heard(events[..m]).HasAny() && Timers(events[..m]) < 3)
    ensures r.Some? && r.value.Err? ==> events[n] == ContextEnded
    ensures r.Some? && r.value.Ok? ==>
              events[n] == Timer && r.value.value == Heard(events[..n])
              && (r.value.value.HasAny() || Timers(events[..n]) == 3)
  {
    var conflict := NO_CONFLICT;
    var queries := 1;
    for i := 0 to |events|
      invariant conflict == Heard(events[..i]) && queries == Timers(events[..i]) + 1 && queries <= 4
      invariant forall m :: 0 <= m < i ==>
                  events[m] != ContextEnded
                  && (events[m] == Timer ==> !Heard(events[..m]).HasAny() && Timers(events[..m]) < 3)
    {
      assert events[..i + 1][..i] == events[..i];
      match events[i] {
        case Response(denies, takesName) =>
          if denies {
            conflict := conflict.(hostname := true);
          }
          conflict := conflict.(serviceName := takesName);
        case ContextEnded =>
          return Some(Err(())), i;
        case Timer =>
          if conflict.HasAny() {
            return Some(Ok(conflict)), i;
          }
          if queries > 3 {
            return Some(Ok(conflict)), i;
          }
          queries := queries + 1;
      }
    }
    return None, |events|;
  }

  predicate DeniesAt(events: seq<Event>, i: nat)
    requires i < |events|
  {
    events[i].Response? && events[i].denies
  }

  predicate LastResponseAt(events: seq<Event>, i: nat)
    requires i < |events|
  {
    events[i].Response? && forall j :: i < j < |events| ==> !events[j].Response?
  }

  /** A denial of the host name is never lost; the service name counts as taken exactly when
      the last response in the round says so, whatever earlier ones said. */
  lemma {:induction false} HeardExactly(events: seq<Event>)
    ensures Heard(events).hostname <==> exists i :: 0 <= i < |events| && DeniesAt(events, i)
    ensures Heard(events).serviceName <==>
              exists i :: 0 <= i < |events| && LastResponseAt(events, i) && events[i].takesName
  {
    if events == [] {
    } else {
      var n := |events| - 1;
      var front := events[..n];
      HeardExactly(front);
      if Heard(front).hostname {
        var i :| 0 <= i < n && DeniesAt(front, i);
        assert DeniesAt(events, i);
      }
      if events[n].Response? {
        assert LastResponseAt(events, n);
        assert events[n].denies ==> DeniesAt(events, n);
      } else if Heard(front).serviceName {
        var i :| 0 <= i < n && LastResponseAt(front, i) && front[i].takesName;
        assert LastResponseAt(events, i);
      }
      if i :| 0 <= i < |events| && DeniesAt(events, i) && i < n {
        assert DeniesAt(front, i);
      }
      if i :| 0 <= i < |events| && LastResponseAt(events, i) && events[i].takesName && i < n {
        assert LastResponseAt(front, i);
      }
    }
  }

  // ----- round after round

  /** The two names a probe may change; everything else of the service is carried along. */
  datatype Candidate = Candidate(host: string, name: string)

  /** What a round gave: the context ended, or what was heard. */
  datatype Round = Failed | Finished(conflict: Conflict)

  datatype State = State(candidate: Candidate, previous: Conflict, hosts: nat, names: nat)

  const ZERO := Candidate("", "")

  const MAX_ROUNDS: nat := 100

  /** After a round with a conflict: a name is renamed on its second conflict in a row, or at
      once when probing once. None is a slice out of bounds. */
  function AfterConflict(st: State, conflict: Conflict, once: bool): Option<State> {
    var renameHost := conflict.hostname && (st.previous.hostname || once);
    var renameName := conflict.serviceName && (st.previous.serviceName || once);
    var hosts := if renameHost then st.hosts + 1 else st.hosts;
    var names := if renameName then st.names + 1 else st.names;
    var host := if renameHost then IncrementHostname(st.candidate.host, hosts + 1) else st.candidate.host;
    var name := if renameName then IncrementServiceName(st.candidate.name, names + 1) else Some(st.candidate.name);
    if name.None? then None
    else Some(State(Candidate(host, name.value),
                    Conflict(conflict.hostname && !renameHost, conflict.serviceName && !renameName),
                    hosts, names))
  }

  type Rounds = nat -> Round

  /** The first n rounds all ended in a conflict. */
  predicate Conflicted(rounds: Rounds, n: nat) {
    forall i: nat :: i < n ==> rounds(i).Finished? && rounds(i).conflict.HasAny()
  }

  /** The state in which round n starts, when every round before it was a conflict. */
  function StateAt(srv: Candidate, rounds: Rounds, once: bool, n: nat): Option<State>
    requires Conflicted(rounds, n)
  {
    if n == 0 then Some(State(srv, NO_CONFLICT, 0, 0))
    else match StateAt(srv, rounds, once, n - 1)
      case None => None
      case Some(st) => AfterConflict(st, rounds(n - 1).conflict, once)
  }

  lemma StateOneMore(srv: Candidate, rounds: Rounds, once: bool, n: nat)
    requires Conflicted(rounds, n + 1)
    ensures Conflicted(rounds, n) && rounds(n).Finished?
    ensures StateAt(srv, rounds, once, n + 1) == match StateAt(srv, rounds, once, n)
                                                 case None => None
                                                 case Some(st) => AfterConflict(st, rounds(n).conflict, once)
  {
    hide AfterConflict;
  }

  // ----- the same from the rounds alone

  /** Which of the two names is meant. */
  datatype Which = Host | Name

  predicate Contests(conflict: Conflict, which: Which) {
    match which
    case Host => conflict.hostname
    case Name => conflict.serviceName
  }

  /** How many rounds in a row, up to and with round n, heard the name contested. */
  function Streak(rounds: Rounds, which: Which, n: nat): nat {
    if rounds(n).Failed? || !Contests(rounds(n).conflict, which) then 0
    else if n == 0 then 1
    else 1 + Streak(rounds, which, n - 1)
  }

  predicate IsEven(n: nat) {
    n % 2 == 0
  }

  /** Round n renames: it heard a conflict, and that is the second of a pair of rounds in a
      row that did, or one is enough. */
  predicate Renames(rounds: Rounds, once: bool, which: Which, n: nat) {
    Streak(rounds, which, n) > 0 && (once || IsEven(Streak(rounds, which, n)))
  }

  /** How many of the first n rounds rename. */
  function Renamings(rounds: Rounds, once: bool, which: Which, n: nat): nat {
    if n == 0 then 0
    else Renamings(rounds, once, which, n - 1) + if Renames(rounds, once, which, n - 1) then 1 else 0
  }

  function HostInRound(srv: Candidate, rounds: Rounds, once: bool, n: nat): string {
    var count := Renamings(rounds, once, Host, n);
    if count == 0 then srv.host else HostAfter(TrimHostName(srv.host), count)
  }

  /** None if a rename before round n has run out of bounds. */
  function NameInRound(srv: Candidate, rounds: Rounds, once: bool, n: nat): Option<string> {
    var count := Renamings(rounds, once, Name, n);
    if count == 0 then Some(srv.name)
    else match TrimServiceName(srv.name)
      case None => None
      case Some(base) => Some(NameAfter(base, count))
  }

  datatype Outcome = Returned(service: Candidate, failed: bool) | OutOfBounds

  /** Probes until a round hears no conflict, at most a hundred times, and returns how many
      rounds there were. After a hundred conflicts the result is the zero service without an
      error, although no error is documented as verified unique. That is the only such case:
      otherwise the last round, of the very names returned, heard no conflict. */
  method ProbeService(srv: Candidate, rounds: Rounds, once: bool) returns (r: Outcome, probes: nat)
    ensures 1 <= probes <= MAX_ROUNDS
    ensures Conflicted(rounds, probes - 1) && StateAt(srv, rounds, once, probes - 1).Some?
    ensures match rounds(probes - 1)
            case Failed => r == Returned(ZERO, true)
            case Finished(conflict) =>
              if !conflict.HasAny() then
                r == Returned(StateAt(srv, rounds, once, probes - 1).value.candidate, false)
              else if StateAt(srv, rounds, once, probes).None? then r == OutOfBounds
              else probes == MAX_ROUNDS && r == Returned(ZERO, false)
    ensures r == OutOfBounds <==> NameInRound(srv, rounds, once, probes) == None
    ensures rounds(probes - 1) == Finished(NO_CONFLICT) ==>
              && NameInRound(srv, rounds, once, probes - 1).Some?
              && r == Returned(Candidate(HostInRound(srv, rounds, once, probes - 1),
                                         NameInRound(srv, rounds, once, probes - 1).value), false)
    ensures r.Returned? && !r.failed ==>
              (rounds(probes - 1) == Finished(NO_CONFLICT) <==> !Conflicted(rounds, MAX_ROUNDS))
  {
    hide IncrementServiceName, IncrementHostname, HostInRound, NameInRound;
    var candidate := srv;
    var previous := NO_CONFLICT;
    var hosts, names := 0, 0;
    probes := 0;
    while probes < MAX_ROUNDS
      invariant probes <= MAX_ROUNDS && Conflicted(rounds, probes)
      invariant StateAt(srv, rounds, once, probes) == Some(State(candidate, previous, hosts, names))
      invariant probes > 0 ==> StateAt(srv, rounds, once, probes - 1).Some?
      invariant probes > 0 ==> NameInRound(srv, rounds, once, probes) != None
    {
      var round := rounds(probes);
      RoundFollows(srv, rounds, once, probes);
      probes := probes + 1;
      if round.Failed? {
        return Returned(ZERO, true), probes;
      }
      var conflict := round.conflict;
      if !conflict.HasAny() {
        return Returned(candidate, false), probes;
      }
      if conflict.hostname && (previous.hostname || once) {
        hosts := hosts + 1;
        candidate := candidate.(host := IncrementHostname(candidate.host, hosts + 1));
        conflict := conflict.(hostname := false);
      }
      if conflict.serviceName && (previous.serviceName || once) {
        names := names + 1;
        var renamed := IncrementServiceName(candidate.name, names + 1);
        if renamed.None? {
          return OutOfBounds, probes;
        }
        candidate := candidate.(name := renamed.value);
        conflict := conflict.(serviceName := false);
      }
      previous := conflict;
    }
    return Returned(ZERO, false), probes;
  }

  // ----- what the rounds amount to

  /** Without probing once, each rename uses up two rounds, so there are at most fifty. */
  lemma {:induction false} RenamesNeedTwoConflicts(srv: Candidate, rounds: Rounds, n: nat)
    requires Conflicted(rounds, n) && StateAt(srv, rounds, false, n).Some?
    ensures var st := StateAt(srv, rounds, false, n).value;
            && 2 * st.hosts + (if st.previous.hostname then 1 else 0) <= n
            && 2 * st.names + (if st.previous.serviceName then 1 else 0) <= n
            && (n <= MAX_ROUNDS ==> st.hosts <= 50 && st.names <= 50)
            && (st.previous.hostname ==> n > 0 && rounds(n - 1).conflict.hostname)
            && (st.previous.serviceName ==> n > 0 && rounds(n - 1).conflict.serviceName)
  {
    if n == 0 {
    } else {
      RenamesNeedTwoConflicts(srv, rounds, n - 1);
    }
  }

  /** And a rename in a round means that round and the one before both heard the conflict. */
  lemma RenameMeansTwoInARow(srv: Candidate, rounds: Rounds, n: nat)
    requires Conflicted(rounds, n + 1) && StateAt(srv, rounds, false, n + 1).Some?
    ensures var before, after := StateAt(srv, rounds, false, n).value, StateAt(srv, rounds, false, n + 1).value;
            && (after.hosts != before.hosts ==>
                  n > 0 && rounds(n).conflict.hostname && rounds(n - 1).conflict.hostname)
            && (after.names != before.names ==>
                  n > 0 && rounds(n).conflict.serviceName && rounds(n - 1).conflict.serviceName)
            && (after.candidate.host != before.candidate.host ==> after.hosts == before.hosts + 1)
            && (after.candidate.name != before.candidate.name ==> after.names == before.names + 1)
  {
    RenamesNeedTwoConflicts(srv, rounds, n);
  }

  predicate NameIsNumbered(st: State, name: string, base: string) {
    st.candidate.name == if st.names == 0 then name else NameAfter(base, st.names)
  }

  lemma NameStaysNumbered(st: State, conflict: Conflict, once: bool, name: string, base: string)
    requires TrimServiceName(name) == Some(base) && NameIsNumbered(st, name, base)
    ensures AfterConflict(st, conflict, once).Some?
    ensures NameIsNumbered(AfterConflict(st, conflict, once).value, name, base)
  {
    hide TrimServiceName, IncrementServiceName, NameAfter, AllBlank, IncrementHostname;
    RenamesDoNotStack(name, base, st.names);
    assert IncrementServiceName(st.candidate.name, st.names + 2) == Some(NameAfter(base, st.names + 1));
  }

  lemma StartIsNumbered(srv: Candidate, rounds: Rounds, once: bool, base: string)
    ensures Conflicted(rounds, 0) && StateAt(srv, rounds, once, 0).Some?
    ensures NameIsNumbered(StateAt(srv, rounds, once, 0).value, srv.name, base)
    ensures HostIsNumbered(StateAt(srv, rounds, once, 0).value, srv.host, base)
  {
  }

  /** The names a run arrives at, for every name the trim is defined on: the base once trimmed
      with a single number behind it, or two behind a base of nothing but blanks. */
  lemma {:induction false} NamesDoNotStack(srv: Candidate, rounds: Rounds, once: bool, n: nat, base: string)
    requires Conflicted(rounds, n) && TrimServiceName(srv.name) == Some(base)
    ensures StateAt(srv, rounds, once, n).Some?
    ensures NameIsNumbered(StateAt(srv, rounds, once, n).value, srv.name, base)
  {
    hide TrimServiceName, AfterConflict, NameIsNumbered, StateAt, Conflicted;
    if n == 0 {
      StartIsNumbered(srv, rounds, once, base);
    } else {
      StateOneMore(srv, rounds, once, n - 1);
      NamesDoNotStack(srv, rounds, once, n - 1, base);
      var st := StateAt(srv, rounds, once, n - 1).value;
      NameStaysNumbered(st, rounds(n - 1).conflict, once, srv.name, base);
    }
  }

  predicate HostIsNumbered(st: State, host: string, base: string) {
    st.candidate.host == if st.hosts == 0 then host else HostAfter(base, st.hosts)
  }

  lemma HostStaysNumbered(st: State, conflict: Conflict, once: bool, host: string, base: string)
    requires TrimHostName(host) == base && HostIsNumbered(st, host, base)
    requires AfterConflict(st, conflict, once).Some?
    ensures HostIsNumbered(AfterConflict(st, conflict, once).value, host, base)
  {
    hide TrimHostName, IncrementHostname, HostAfter, IncrementServiceName;
    HostRenamesDoNotStack(host, base, st.hosts);
    assert IncrementHostname(st.candidate.host, st.hosts + 2) == HostAfter(base, st.hosts + 1);
  }

  lemma {:induction false} HostsDoNotStack(srv: Candidate, rounds: Rounds, once: bool, n: nat, base: string)
    requires Conflicted(rounds, n) && TrimHostName(srv.host) == base
    requires StateAt(srv, rounds, once, n).Some?
    ensures HostIsNumbered(StateAt(srv, rounds, once, n).value, srv.host, base)
  {
    hide TrimHostName, AfterConflict, HostIsNumbered, StateAt, Conflicted;
    if n == 0 {
      StartIsNumbered(srv, rounds, once, base);
    } else {
      StateOneMore(srv, rounds, once, n - 1);
      HostsDoNotStack(srv, rounds, once, n - 1, base);
      var st := StateAt(srv, rounds, once, n - 1).value;
      HostStaysNumbered(st, rounds(n - 1).conflict, once, srv.host, base);
    }
  }

  /** A probe runs out of bounds only at the first rename, and exactly when the trim is not
      defined on the name it started with. */
  lemma {:induction false} OutOfBoundsExactly(srv: Candidate, rounds: Rounds, once: bool, n: nat)
    requires Conflicted(rounds, n + 1) && StateAt(srv, rounds, once, n).Some?
    ensures var st := StateAt(srv, rounds, once, n).value;
            StateAt(srv, rounds, once, n + 1).None? <==>
              && rounds(n).conflict.serviceName && (st.previous.serviceName || once)
              && st.names == 0 && TrimServiceName(srv.name).None?
  {
    hide TrimServiceName, Suffixed, IncrementHostname;
    NameIsOwnOrNumbered(srv, rounds, once, n);
    var st := StateAt(srv, rounds, once, n).value;
    if st.names > 0 {
      var base, count :| st.candidate.name == Suffixed(base, count);
      TrimUndoesSuffix(base, count);
    }
  }

  ghost predicate OwnOrNumbered(st: State, name: string) {
    && (st.names == 0 ==> st.candidate.name == name)
    && (st.names > 0 ==> exists base, count :: st.candidate.name == Suffixed(base, count))
  }

  lemma StaysOwnOrNumbered(st: State, conflict: Conflict, once: bool, name: string)
    requires OwnOrNumbered(st, name) && AfterConflict(st, conflict, once).Some?
    ensures OwnOrNumbered(AfterConflict(st, conflict, once).value, name)
  {
    hide TrimServiceName, IncrementHostname, Suffixed;
  }

  lemma StartsOwn(srv: Candidate)
    ensures OwnOrNumbered(State(srv, NO_CONFLICT, 0, 0), srv.name)
  {
  }

  lemma {:induction false} NameIsOwnOrNumbered(srv: Candidate, rounds: Rounds, once: bool, n: nat)
    requires Conflicted(rounds, n) && StateAt(srv, rounds, once, n).Some?
    ensures OwnOrNumbered(StateAt(srv, rounds, once, n).value, srv.name)
  {
    hide AfterConflict, OwnOrNumbered, StateAt, Conflicted;
    if n == 0 {
      StartsAsGiven(srv, rounds, once);
      StartsOwn(srv);
    } else {
      StateOneMore(srv, rounds, once, n - 1);
      NameIsOwnOrNumbered(srv, rounds, once, n - 1);
      StaysOwnOrNumbered(StateAt(srv, rounds, once, n - 1).value, rounds(n - 1).conflict, once, srv.name);
    }
  }

  /** Where no round hears the service name taken, no round runs out of bounds. */
  lemma {:induction false} HostConflictsNeverFail(srv: Candidate, rounds: Rounds, once: bool, n: nat)
    requires Conflicted(rounds, n) && forall i: nat :: i < n ==> !rounds(i).conflict.serviceName
    ensures StateAt(srv, rounds, once, n).Some?
  {
    if n > 0 {
      HostConflictsNeverFail(srv, rounds, once, n - 1);
      OutOfBoundsExactly(srv, rounds, once, n - 1);
    }
  }

  // ----- the names a run arrives at, from its rounds

  lemma EvenNext(n: nat)
    ensures IsEven(0) && (IsEven(n + 1) <==> !IsEven(n))
  {
  }

  /** The rounds so far end in an unpaired conflict, which a further one would pair. */
  predicate Unpaired(rounds: Rounds, once: bool, which: Which, n: nat) {
    n > 0 && !once && !IsEven(Streak(rounds, which, n - 1))
  }

  lemma RenamesIff(rounds: Rounds, once: bool, which: Which, n: nat)
    requires rounds(n).Finished?
    ensures Renames(rounds, once, which, n) <==>
              Contests(rounds(n).conflict, which) && (once || Unpaired(rounds, once, which, n))
    ensures Unpaired(rounds, once, which, n + 1) <==>
              !once && Contests(rounds(n).conflict, which) && !Unpaired(rounds, once, which, n)
  {
    EvenNext(if n > 0 then Streak(rounds, which, n - 1) else 0);
    assert Streak(rounds, which, n) == if !Contests(rounds(n).conflict, which) then 0
                                       else 1 + if n > 0 then Streak(rounds, which, n - 1) else 0;
    hide IsEven, Streak;
  }

  lemma CountOneMore(st: State, conflict: Conflict, once: bool)
    requires AfterConflict(st, conflict, once).Some?
    ensures var after := AfterConflict(st, conflict, once).value;
            var renameHost := conflict.hostname && (st.previous.hostname || once);
            var renameName := conflict.serviceName && (st.previous.serviceName || once);
            && after.hosts == st.hosts + (if renameHost then 1 else 0)
            && after.names == st.names + (if renameName then 1 else 0)
            && after.previous == Conflict(conflict.hostname && !renameHost, conflict.serviceName && !renameName)
  {
    hide IncrementHostname, IncrementServiceName;
  }

  predicate CountsRight(st: State, rounds: Rounds, once: bool, n: nat) {
    && st.hosts == Renamings(rounds, once, Host, n) && st.names == Renamings(rounds, once, Name, n)
    && (st.previous.hostname <==> Unpaired(rounds, once, Host, n))
    && (st.previous.serviceName <==> Unpaired(rounds, once, Name, n))
  }

  lemma CountsStayRight(st: State, rounds: Rounds, once: bool, n: nat)
    requires CountsRight(st, rounds, once, n) && rounds(n).Finished?
    requires AfterConflict(st, rounds(n).conflict, once).Some?
    ensures CountsRight(AfterConflict(st, rounds(n).conflict, once).value, rounds, once, n + 1)
  {
    CountOneMore(st, rounds(n).conflict, once);
    RenamesIff(rounds, once, Host, n);
    RenamesIff(rounds, once, Name, n);
    hide AfterConflict, Streak, Renames, Unpaired;
  }

  lemma CountsStartRight(srv: Candidate, rounds: Rounds, once: bool)
    ensures CountsRight(State(srv, NO_CONFLICT, 0, 0), rounds, once, 0)
  {
  }

  /** A round renames exactly as the rounds say, with and without probing once. */
  lemma {:induction false} CountsFromRounds(srv: Candidate, rounds: Rounds, once: bool, n: nat)
    requires Conflicted(rounds, n) && StateAt(srv, rounds, once, n).Some?
    ensures CountsRight(StateAt(srv, rounds, once, n).value, rounds, once, n)
  {
    hide AfterConflict, StateAt, Conflicted, CountsRight;
    if n == 0 {
      StartsAsGiven(srv, rounds, once);
      CountsStartRight(srv, rounds, once);
    } else {
      StateOneMore(srv, rounds, once, n - 1);
      CountsFromRounds(srv, rounds, once, n - 1);
      CountsStayRight(StateAt(srv, rounds, once, n - 1).value, rounds, once, n - 1);
    }
  }

  predicate NotRenamed(st: State, name: string) {
    st.names == 0 && st.candidate.name == name
  }

  lemma StaysUnrenamed(st: State, conflict: Conflict, once: bool, name: string)
    requires TrimServiceName(name).None? && NotRenamed(st, name) && AfterConflict(st, conflict, once).Some?
    ensures NotRenamed(AfterConflict(st, conflict, once).value, name)
  {
    hide TrimServiceName, IncrementHostname;
  }

  /** Where the trim is not defined on the name, a run that is still going has renamed nothing. */
  lemma {:induction false} NoRenameWithoutTrim(srv: Candidate, rounds: Rounds, once: bool, n: nat)
    requires Conflicted(rounds, n) && StateAt(srv, rounds, once, n).Some? && TrimServiceName(srv.name).None?
    ensures NotRenamed(StateAt(srv, rounds, once, n).value, srv.name)
  {
    hide TrimServiceName, AfterConflict, StateAt, Conflicted, NotRenamed;
    if n == 0 {
      StartsAsGiven(srv, rounds, once);
      StartsUnrenamed(srv);
    } else {
      StateOneMore(srv, rounds, once, n - 1);
      NoRenameWithoutTrim(srv, rounds, once, n - 1);
      StaysUnrenamed(StateAt(srv, rounds, once, n - 1).value, rounds(n - 1).conflict, once, srv.name);
    }
  }

  lemma StartsUnrenamed(srv: Candidate)
    ensures NotRenamed(State(srv, NO_CONFLICT, 0, 0), srv.name)
  {
  }

  /** The names in every round follow from the rounds before it alone: the name as it was until
      the first rename, and then its base with the number of the last; and a run goes out of
      bounds exactly where the name cannot be trimmed at its first rename. */
  lemma {:induction false} CandidateFromRounds(srv: Candidate, rounds: Rounds, once: bool, n: nat)
    requires Conflicted(rounds, n)
    ensures StateAt(srv, rounds, once, n).Some? <==> NameInRound(srv, rounds, once, n).Some?
    ensures StateAt(srv, rounds, once, n).Some? ==>
              (StateAt(srv, rounds, once, n).value.candidate
               == Candidate(HostInRound(srv, rounds, once, n), NameInRound(srv, rounds, once, n).value))
  {
    hide TrimServiceName, TrimHostName, NameAfter, HostAfter, StateAt, Conflicted, Renames, HostInRound, AfterConflict;
    if n == 0 {
      StartsAsGiven(srv, rounds, once);
    } else {
      StateOneMore(srv, rounds, once, n - 1);
      CandidateFromRounds(srv, rounds, once, n - 1);
      if StateAt(srv, rounds, once, n - 1).Some? {
        CountsFromRounds(srv, rounds, once, n - 1);
        OutOfBoundsExactly(srv, rounds, once, n - 1);
        RenamesIff(rounds, once, Name, n - 1);
      }
    }
    if StateAt(srv, rounds, once, n).Some? {
      CandidateInRound(srv, rounds, once, n);
    }
  }

  lemma StartsAsGiven(srv: Candidate, rounds: Rounds, once: bool)
    ensures Conflicted(rounds, 0) && StateAt(srv, rounds, once, 0) == Some(State(srv, NO_CONFLICT, 0, 0))
  {
  }

  lemma CandidateInRound(srv: Candidate, rounds: Rounds, once: bool, n: nat)
    requires Conflicted(rounds, n) && StateAt(srv, rounds, once, n).Some?
    ensures NameInRound(srv, rounds, once, n).Some?
    ensures StateAt(srv, rounds, once, n).value.candidate
         == Candidate(HostInRound(srv, rounds, once, n), NameInRound(srv, rounds, once, n).value)
  {
    hide TrimServiceName, TrimHostName, NameAfter, HostAfter, StateAt, Conflicted;
    CountsFromRounds(srv, rounds, once, n);
    HostsDoNotStack(srv, rounds, once, n, TrimHostName(srv.host));
    if TrimServiceName(srv.name).Some? {
      NamesDoNotStack(srv, rounds, once, n, TrimServiceName(srv.name).value);
    } else {
      NoRenameWithoutTrim(srv, rounds, once, n);
    }
  }

  /** What the state of a round says of the names, before it and after it. */
  lemma RoundFollows(srv: Candidate, rounds: Rounds, once: bool, n: nat)
    requires Conflicted(rounds, n) && StateAt(srv, rounds, once, n).Some?
    ensures NameInRound(srv, rounds, once, n).Some?
    ensures StateAt(srv, rounds, once, n).value.candidate
         == Candidate(HostInRound(srv, rounds, once, n), NameInRound(srv, rounds, once, n).value)
    ensures NameInRound(srv, rounds, once, n + 1) == None <==>
              Conflicted(rounds, n + 1) && StateAt(srv, rounds, once, n + 1).None?
  {
    hide StateAt, HostInRound, Renames;
    CandidateFromRounds(srv, rounds, once, n);
    if Conflicted(rounds, n + 1) {
      CandidateFromRounds(srv, rounds, once, n + 1);
    } else {
      NothingRenamed(rounds, once, n);
    }
  }

  /** What a round that is not renamed in leaves of the counts. */
  lemma NothingRenamed(rounds: Rounds, once: bool, n: nat)
    requires rounds(n).Failed? || !rounds(n).conflict.HasAny()
    ensures forall which :: Renamings(rounds, once, which, n + 1) == Renamings(rounds, once, which, n)
  {
  }

  /** A run that ends with the zero service and no error: the host name taken every time. */
  method HostTakenEveryTime(srv: Candidate, once: bool) returns (r: Outcome, probes: nat)
    ensures r == Returned(ZERO, false) && probes == MAX_ROUNDS
  {
    var rounds: Rounds := _ => Finished(Conflict(true, false));
    r, probes := ProbeService(srv, rounds, once);
    HostConflictsNeverFail(srv, rounds, once, probes);
  }
}
