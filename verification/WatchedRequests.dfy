/** The prompts out on front ends' screens, by request, and how an answer finds the card it
    settles. The functions and the class are the map under its mutex; the machine runs any
    number of prompts and answers against it. */
module WatchedRequests {
  import opened Wrappers
  import opened Lists

  type Id = string
  type Token = string
  type Card = nat

  /** One prompt out on a stream: which card it is, and the token an answer names it by. */
  datatype Entry = Entry(card: Card, token: Token)

  type Table = map<Id, seq<Entry>>

  // ----- the map under its mutex

  function WaitingFor(table: Table, id: Id): seq<Entry> {
    if id in table then table[id] else []
  }

  function Added(table: Table, id: Id, entry: Entry): Table {
    table[id := WaitingFor(table, id) + [entry]]
  }

  function Removed(table: Table, id: Id, entry: Entry): Table {
    var left := RemoveFirst(WaitingFor(table, id), entry);
    if left == [] then table - {id} else table[id := left]
  }

  /** The first entry with the token, as a list of at most one. */
  function Named(entries: seq<Entry>, token: Token): seq<Entry> {
    if entries == [] then []
    else if entries[0].token == token then [entries[0]]
    else Named(entries[1..], token)
  }

  /** The prompts an answer belongs to, and whether it could not say which. */
  function Answered(table: Table, id: Id, token: Token): (seq<Entry>, bool) {
    var entries := WaitingFor(table, id);
    if token == "" then (entries, |entries| > 1) else (Named(entries, token), false)
  }

  class Watched {
    var byID: Table

    constructor ()
      ensures byID == map[]
    {
      byID := map[];
    }

    method Add(id: Id, entry: Entry)
      modifies this
      ensures byID == Added(old(byID), id, entry)
    {
      var waiting := if id in byID then byID[id] else [];
      byID := byID[id := waiting + [entry]];
    }

    method Remove(id: Id, entry: Entry)
      modifies this
      ensures byID == Removed(old(byID), id, entry)
    {
      var waiting := if id in byID then byID[id] else [];
      var left := CutFirst(waiting, entry);
      if left == [] {
        byID := byID - {id};
      } else {
        byID := byID[id := left];
      }
    }

    method Choose(id: Id, token: Token) returns (chosen: seq<Entry>, ambiguous: bool)
      ensures (chosen, ambiguous) == Answered(byID, id, token)
    {
      var waiting := if id in byID then byID[id] else [];
      if token == "" {
        return waiting, |waiting| > 1;
      }
      for i := 0 to |waiting|
        invariant Named(waiting, token) == Named(waiting[i..], token)
      {
        if waiting[i].token == token {
          return [waiting[i]], false;
        }
      }
      return [], false;
    }
  }

  // ----- what an answer may say

  datatype Decision = Approve | Deny

  datatype Reach = SessionReach | MachineReach

  /** What the request on the card asks for: a promise alone, and the longest one offered. */
  datatype Request = Request(grantOnly: bool, grantMax: int)

  /** An answer as the front end sends it. */
  datatype Ask = Ask(id: Id, token: Token, decision: Decision, ttl: int, reach: Reach)

  datatype Answer = Answer(decision: Decision, grantTTL: int, reach: Reach)

  datatype Refusal = NotWaiting | GrantNeedsLength | TooLong

  /** Checked against the request of the first prompt chosen. A length past the ceiling is
      refused rather than trimmed. */
  function Judged(request: Request, ask: Ask): Result<Answer, Refusal> {
    if request.grantOnly && ask.decision == Approve && ask.ttl <= 0 then Err(GrantNeedsLength)
    else if ask.ttl > 0 then
      if ask.ttl > request.grantMax then Err(TooLong)
      else Ok(Answer(ask.decision, ask.ttl, ask.reach))
    else Ok(Answer(ask.decision, 0, SessionReach))
  }

  predicate Respects(request: Request, answer: Answer) {
    && (request.grantOnly && answer.decision == Approve ==> answer.grantTTL > 0)
    && (answer.grantTTL > 0 ==> answer.grantTTL <= request.grantMax)
    && answer.grantTTL >= 0
  }

  /** What is delivered keeps the bounds, says what was asked, and is refused only when no
      answer of that decision and length could keep them. */
  lemma JudgedIsExact(request: Request, ask: Ask)
    ensures var r := Judged(request, ask);
            var length := if ask.ttl > 0 then ask.ttl else 0;
            && (r.Ok? <==> Respects(request, Answer(ask.decision, length, ask.reach)))
            && (r.Ok? ==> Respects(request, r.value) && r.value.decision == ask.decision && r.value.grantTTL == length
                          && r.value.reach == if ask.ttl > 0 then ask.reach else SessionReach)
            && (r == Err(GrantNeedsLength) <==> request.grantOnly && ask.decision == Approve && ask.ttl <= 0)
            && (r == Err(TooLong) <==> ask.ttl > 0 && ask.ttl > request.grantMax)
  {
  }

  // ----- every run of prompts and answers

  /** Where one Decide is: its prompt being sent, waiting for an answer, past its select with
      the prompt still listed, or returned. */
  datatype Phase = Sending | Waiting | Leaving | Returned

  /** One answer on its way to a card, with the token it came under. */
  datatype Delivery = Delivery(card: Card, answer: Answer, id: Id, token: Token)

  /** A card: `box` is its one-place channel, `offered` every answer handed to it in order,
      `taken` the one its Decide returned. */
  datatype CardState = CardState(
    id: Id, token: Token, phase: Phase,
    box: Option<Delivery>, offered: seq<Delivery>, taken: Option<Delivery>)

  /** `requests` is the request each id stands for: it is the same object on every card. */
  datatype World = World(
    requests: Id -> Request, table: Table, cards: seq<CardState>, inFlight: seq<Delivery>)

  datatype Step =
    | Begin(id: Id, token: Token)
    | PromptSent(card: Card)
    | PromptFailed(card: Card)
    | TakeAnswer(card: Card)
    | ContextEnds(card: Card)
    | Return(card: Card)
    | AnswerArrives(ask: Ask)
    | Deliver(index: nat)

  function Start(requests: Id -> Request): World {
    World(requests, map[], [], [])
  }

  /** Tokens are freshly minted, so never empty and never seen before. */
  predicate Enabled(w: World, step: Step) {
    match step
    case Begin(id, token) =>
      token != "" && forall c :: 0 <= c < |w.cards| ==> w.cards[c].token != token
    case PromptSent(c) => c < |w.cards| && w.cards[c].phase == Sending
    case PromptFailed(c) => c < |w.cards| && w.cards[c].phase == Sending
    case TakeAnswer(c) => c < |w.cards| && w.cards[c].phase == Waiting && w.cards[c].box.Some?
    case ContextEnds(c) => c < |w.cards| && w.cards[c].phase == Waiting
    case Return(c) => c < |w.cards| && w.cards[c].phase == Leaving
    case AnswerArrives(ask) => true
    case Deliver(i) => i < |w.inFlight| && w.inFlight[i].card < |w.cards|
  }

  function Deliveries(chosen: seq<Entry>, answer: Answer, ask: Ask): seq<Delivery> {
    seq(|chosen|, i requires 0 <= i < |chosen| => Delivery(chosen[i].card, answer, ask.id, ask.token))
  }

  /** An answer puts itself in flight to every prompt chosen, or is refused. */
  function Arrived(w: World, ask: Ask): Result<seq<Delivery>, Refusal> {
    var chosen := Answered(w.table, ask.id, ask.token).0;
    if chosen == [] then Err(NotWaiting)
    else match Judged(w.requests(ask.id), ask)
      case Err(e) => Err(e)
      case Ok(answer) => Ok(Deliveries(chosen, answer, ask))
  }

  /** The one-place channel: a full one drops what comes after. */
  function Offered(card: CardState, d: Delivery): CardState {
    card.(offered := card.offered + [d], box := if card.box.None? then Some(d) else card.box)
  }

  function Moved(w: World, c: Card, phase: Phase): World
    requires c < |w.cards|
  {
    w.(cards := w.cards[c := w.cards[c].(phase := phase)])
  }

  function Apply(w: World, step: Step): World
    requires Enabled(w, step)
  {
    match step
    case Begin(id, token) =>
      w.(table := Added(w.table, id, Entry(|w.cards|, token)),
         cards := w.cards + [CardState(id, token, Sending, None, [], None)])
    case PromptSent(c) => Moved(w, c, Waiting)
    case PromptFailed(c) => Moved(w, c, Leaving)
    case TakeAnswer(c) =>
      w.(cards := w.cards[c := w.cards[c].(phase := Leaving, taken := w.cards[c].box, box := None)])
    case ContextEnds(c) => Moved(w, c, Leaving)
    case Return(c) =>
      Moved(w, c, Returned).(table := Removed(w.table, w.cards[c].id, Entry(c, w.cards[c].token)))
    case AnswerArrives(ask) =>
      var r := Arrived(w, ask);
      if r.Ok? then w.(inFlight := w.inFlight + r.value) else w
    case Deliver(i) =>
      var d := w.inFlight[i];
      w.(inFlight := w.inFlight[..i] + w.inFlight[i + 1..],
         cards := w.cards[d.card := Offered(w.cards[d.card], d)])
  }

  ghost predicate Possible(w: World, steps: seq<Step>)
    decreases |steps|
  {
    steps == [] || (Enabled(w, steps[0]) && Possible(Apply(w, steps[0]), steps[1..]))
  }

  ghost function Run(w: World, steps: seq<Step>): World
    requires Possible(w, steps)
    decreases |steps|
  {
    if steps == [] then w else Run(Apply(w, steps[0]), steps[1..])
  }

  // ----- what every step keeps

  /** Whether an entry is a card of that id whose Decide is between its add and its remove. */
  ghost predicate IsOut(w: World, id: Id, e: Entry) {
    e.card < |w.cards| && w.cards[e.card].id == id && w.cards[e.card].token == e.token
    && w.cards[e.card].phase != Returned
  }

  ghost predicate ListedRight(w: World, id: Id, e: Entry) {
    multiset(WaitingFor(w.table, id))[e] == if IsOut(w, id, e) then 1 else 0
  }

  ghost predicate DeliveryRight(w: World, d: Delivery) {
    && d.card < |w.cards|
    && w.cards[d.card].id == d.id
    && (d.token == "" || d.token == w.cards[d.card].token)
    && Respects(w.requests(d.id), d.answer)
  }

  ghost predicate CardRight(w: World, c: Card)
    requires c < |w.cards|
  {
    var card := w.cards[c];
    && card.token != ""
    && (forall i :: 0 <= i < |card.offered| ==> card.offered[i].card == c && DeliveryRight(w, card.offered[i]))
    && (card.taken.Some? ==> card.offered != [] && card.taken.value == card.offered[0]
                             && (card.phase == Leaving || card.phase == Returned))
    && (card.taken.None? ==> card.box == if card.offered == [] then None else Some(card.offered[0]))
  }

  ghost predicate TokensDistinct(w: World) {
    forall c, d :: 0 <= c < d < |w.cards| ==> w.cards[c].token != w.cards[d].token
  }

  ghost predicate Inv(w: World) {
    && (forall id :: id in w.table ==> w.table[id] != [])
    && (forall id, e :: ListedRight(w, id, e))
    && (forall i :: 0 <= i < |w.inFlight| ==> DeliveryRight(w, w.inFlight[i]))
    && (forall c: Card :: c < |w.cards| ==> CardRight(w, c))
    && TokensDistinct(w)
  }

  lemma BeginFrame(w: World, id: Id, token: Token, id': Id, e: Entry)
    requires Enabled(w, Begin(id, token))
    ensures var v := Apply(w, Begin(id, token));
            && WaitingFor(v.table, id') == WaitingFor(w.table, id') + (if id' == id then [Entry(|w.cards|, token)] else [])
            && (IsOut(v, id', e) <==> IsOut(w, id', e) || (id' == id && e == Entry(|w.cards|, token)))
            && !IsOut(w, id', Entry(|w.cards|, token))
  {
  }

  lemma BeginListed(w: World, id: Id, token: Token, id': Id, e: Entry)
    requires ListedRight(w, id', e) && Enabled(w, Begin(id, token))
    ensures ListedRight(Apply(w, Begin(id, token)), id', e)
  {
    BeginFrame(w, id, token, id', e);
    hide Apply, IsOut, WaitingFor, Enabled;
    AppendCount(WaitingFor(w.table, id'), Entry(|w.cards|, token), e);
    assert WaitingFor(w.table, id') + [] == WaitingFor(w.table, id');
  }

  lemma ReturnListed(w: World, c: Card, id: Id, e: Entry)
    requires Inv(w) && Enabled(w, Return(c))
    ensures ListedRight(Apply(w, Return(c)), id, e)
  {
    var gone := Entry(c, w.cards[c].token);
    assert ListedRight(w, id, e) && ListedRight(w, w.cards[c].id, gone);
    var v := Apply(w, Return(c));
    assert WaitingFor(v.table, id)
        == if id == w.cards[c].id then RemoveFirst(WaitingFor(w.table, id), gone) else WaitingFor(w.table, id);
    if id == w.cards[c].id {
      RemoveFirstCount(WaitingFor(w.table, id), gone, e);
      assert gone in multiset(WaitingFor(w.table, id));
    }
  }

  lemma StepListed(w: World, step: Step, id: Id, e: Entry)
    requires Inv(w) && Enabled(w, step)
    ensures ListedRight(Apply(w, step), id, e)
  {
    match step
    case Begin(id', token) =>
      assert ListedRight(w, id, e);
      BeginListed(w, id', token, id, e);
    case Return(c) => ReturnListed(w, c, id, e);
    case _ => assert ListedRight(w, id, e);
  }

  lemma {:induction false} NamedIsThere(entries: seq<Entry>, token: Token)
    ensures var found := Named(entries, token);
            && |found| <= 1
            && (found == [] <==> forall e :: e in entries ==> e.token != token)
            && (found != [] ==> found[0] in entries && found[0].token == token)
  {
    if entries == [] {
    } else {
      NamedIsThere(entries[1..], token);
      assert entries == [entries[0]] + entries[1..];
    }
  }

  /** What an arriving answer puts in flight is right for every card it goes to. */
  lemma ArrivedRight(w: World, ask: Ask)
    requires Inv(w) && Arrived(w, ask).Ok?
    ensures forall i :: 0 <= i < |Arrived(w, ask).value| ==> DeliveryRight(w, Arrived(w, ask).value[i])
  {
    var chosen := Answered(w.table, ask.id, ask.token).0;
    var entries := WaitingFor(w.table, ask.id);
    NamedIsThere(entries, ask.token);
    JudgedIsExact(w.requests(ask.id), ask);
    forall i | 0 <= i < |chosen|
      ensures DeliveryRight(w, Deliveries(chosen, Judged(w.requests(ask.id), ask).value, ask)[i])
    {
      assert chosen[i] in entries;
      assert chosen[i] in multiset(entries);
      assert ListedRight(w, ask.id, chosen[i]);
    }
  }

  lemma StepDeliveries(w: World, step: Step)
    requires Inv(w) && Enabled(w, step)
    ensures var v := Apply(w, step); forall i :: 0 <= i < |v.inFlight| ==> DeliveryRight(v, v.inFlight[i])
  {
    var v := Apply(w, step);
    if step.AnswerArrives? && Arrived(w, step.ask).Ok? {
      ArrivedRight(w, step.ask);
    }
    forall i | 0 <= i < |v.inFlight|
      ensures DeliveryRight(v, v.inFlight[i])
    {
      assert DeliveryRight(w, v.inFlight[i]);
    }
  }

  /** Later the same cards are there under the same ids and tokens, for the same requests. */
  ghost predicate SameNames(w: World, v: World) {
    && |w.cards| <= |v.cards| && v.requests == w.requests
    && forall c :: 0 <= c < |w.cards| ==> v.cards[c].id == w.cards[c].id && v.cards[c].token == w.cards[c].token
  }

  lemma StepKeepsNames(w: World, step: Step)
    requires Enabled(w, step)
    ensures SameNames(w, Apply(w, step))
  {
  }

  lemma OffersCarryOver(w: World, v: World, c: Card, n: nat)
    requires SameNames(w, v) && c < |w.cards| && CardRight(w, c) && n <= |v.cards[c].offered|
    requires v.cards[c].offered[..n] == w.cards[c].offered
    ensures forall i :: 0 <= i < n ==> v.cards[c].offered[i].card == c && DeliveryRight(v, v.cards[c].offered[i])
  {
    forall i | 0 <= i < n
      ensures v.cards[c].offered[i].card == c && DeliveryRight(v, v.cards[c].offered[i])
    {
      assert v.cards[c].offered[i] == v.cards[c].offered[..n][i];
      assert DeliveryRight(w, w.cards[c].offered[i]);
    }
  }

  lemma OldCard(w: World, step: Step, c: Card)
    requires Enabled(w, step) && !step.Deliver? && c < |w.cards| && CardRight(w, c)
    ensures CardRight(Apply(w, step), c)
  {
    hide DeliveryRight;
    var v := Apply(w, step);
    StepKeepsNames(w, step);
    assert v.cards[c].offered == w.cards[c].offered;
    OffersCarryOver(w, v, c, |v.cards[c].offered|);
  }

  lemma DeliveredCard(w: World, i: nat, c: Card)
    requires Enabled(w, Deliver(i)) && c < |w.cards| && CardRight(w, c) && DeliveryRight(w, w.inFlight[i])
    ensures CardRight(Apply(w, Deliver(i)), c)
  {
    var v, d := Apply(w, Deliver(i)), w.inFlight[i];
    StepKeepsNames(w, Deliver(i));
    assert DeliveryRight(v, d);
    hide DeliveryRight;
    var before := w.cards[c].offered;
    assert (before + [d])[..|before|] == before;
    OffersCarryOver(w, v, c, |before|);
  }

  lemma StepCards(w: World, step: Step, c: Card)
    requires Inv(w) && Enabled(w, step) && c < |Apply(w, step).cards|
    ensures CardRight(Apply(w, step), c)
  {
    if c < |w.cards| {
      assert CardRight(w, c);
      if step.Deliver? {
        assert DeliveryRight(w, w.inFlight[step.index]);
        DeliveredCard(w, step.index, c);
      } else {
        OldCard(w, step, c);
      }
    }
  }

  lemma StepKeepsInv(w: World, step: Step)
    requires Inv(w) && Enabled(w, step)
    ensures Inv(Apply(w, step))
  {
    var v := Apply(w, step);
    forall id, e
      ensures ListedRight(v, id, e)
    {
      StepListed(w, step, id, e);
    }
    StepDeliveries(w, step);
    forall c: Card | c < |v.cards|
      ensures CardRight(v, c)
    {
      StepCards(w, step, c);
    }
  }

  lemma {:induction false} RunKeepsInv(w: World, steps: seq<Step>)
    requires Inv(w) && Possible(w, steps)
    ensures Inv(Run(w, steps))
    decreases |steps|
  {
    if steps == [] {
    } else {
      StepKeepsInv(w, steps[0]);
      RunKeepsInv(Apply(w, steps[0]), steps[1..]);
    }
  }

  // ----- over every run

  /** A prompt is listed, once, exactly while its Decide is between its add and its remove,
      and no id maps to an empty list. */
  lemma ListedExactlyWhileDeciding(requests: Id -> Request, steps: seq<Step>, id: Id, e: Entry)
    requires Possible(Start(requests), steps)
    ensures var w := Run(Start(requests), steps);
            && multiset(WaitingFor(w.table, id))[e] == (if IsOut(w, id, e) then 1 else 0)
            && (id in w.table ==> w.table[id] != [])
  {
    RunKeepsInv(Start(requests), steps);
    assert ListedRight(Run(Start(requests), steps), id, e);
  }

  /** An answer that carries a token is for the one card out under that id with that token,
      and for none when there is no such card. */
  lemma TokenNamesOneCard(requests: Id -> Request, steps: seq<Step>, id: Id, token: Token, e: Entry)
    requires Possible(Start(requests), steps) && token != ""
    ensures var w := Run(Start(requests), steps);
            Answered(w.table, id, token).0 == [e] <==> IsOut(w, id, e) && e.token == token
  {
    RunKeepsInv(Start(requests), steps);
    var w := Run(Start(requests), steps);
    var entries := WaitingFor(w.table, id);
    NamedIsThere(entries, token);
    assert ListedRight(w, id, e);
    assert e in entries <==> e in multiset(entries);
    var found := Named(entries, token);
    if IsOut(w, id, e) && e.token == token {
      assert found[0] in multiset(entries);
      assert ListedRight(w, id, found[0]);
      assert found == [found[0]];
    }
  }

  /** An answer without a token is for every card out under that id, and cannot say which
      exactly if there are several. */
  lemma NoTokenNamesAll(requests: Id -> Request, steps: seq<Step>, id: Id, e: Entry)
    requires Possible(Start(requests), steps)
    ensures var w := Run(Start(requests), steps);
            var (chosen, ambiguous) := Answered(w.table, id, "");
            && multiset(chosen)[e] == (if IsOut(w, id, e) then 1 else 0)
            && (ambiguous <==> |chosen| > 1)
  {
    RunKeepsInv(Start(requests), steps);
    assert ListedRight(Run(Start(requests), steps), id, e);
  }

  /** The cards an answer is meant for. */
  ghost predicate IsMeant(w: World, ask: Ask, e: Entry) {
    IsOut(w, ask.id, e) && (ask.token == "" || e.token == ask.token)
  }

  lemma ChosenAreMeant(w: World, ask: Ask, e: Entry)
    requires Inv(w)
    ensures e in Answered(w.table, ask.id, ask.token).0 <==> IsMeant(w, ask, e)
  {
    var entries := WaitingFor(w.table, ask.id);
    assert ListedRight(w, ask.id, e);
    assert e in entries <==> e in multiset(entries);
    if ask.token != "" {
      NamedIsThere(entries, ask.token);
      var found := Named(entries, ask.token);
      if found != [] {
        assert found[0] in multiset(entries);
        assert ListedRight(w, ask.id, found[0]);
      }
    }
  }

  lemma ChosenOnce(w: World, ask: Ask, i: nat, j: nat)
    requires Inv(w)
    ensures var chosen := Answered(w.table, ask.id, ask.token).0;
            i < j < |chosen| ==> chosen[i].card != chosen[j].card
  {
    var chosen := Answered(w.table, ask.id, ask.token).0;
    if i < j < |chosen| {
      var entries := WaitingFor(w.table, ask.id);
      assert |Named(entries, ask.token)| <= 1 by { NamedIsThere(entries, ask.token); }
      assert chosen == entries;
      assert chosen[i] in multiset(entries) && chosen[j] in multiset(entries);
      assert ListedRight(w, ask.id, chosen[i]) && ListedRight(w, ask.id, chosen[j]);
      if chosen[i] == chosen[j] {
        TwiceCounts(entries, i, j);
      }
    }
  }

  lemma TwiceCounts(s: seq<Entry>, i: nat, j: nat)
    requires i < j < |s| && s[i] == s[j]
    ensures multiset(s)[s[i]] >= 2
  {
    assert s == s[..j] + s[j..];
    assert s[..j][i] == s[i] && s[j..][0] == s[j];
    assert s[i] in multiset(s[..j]) && s[j] in multiset(s[j..]);
    assert multiset(s) == multiset(s[..j]) + multiset(s[j..]);
  }

  /** In every run an answer that arrives is put in flight, once, to every card it is meant
      for and to no other, with the decision, length and reach asked for; it is refused
      exactly if there is no such card or it breaks the request's bounds. */
  lemma AnswersReachThoseMeant(requests: Id -> Request, steps: seq<Step>, ask: Ask)
    requires Possible(Start(requests), steps)
    ensures var w := Run(Start(requests), steps);
            var v := Apply(w, AnswerArrives(ask));
            var request := requests(ask.id);
            var answer := Answer(ask.decision, if ask.ttl > 0 then ask.ttl else 0,
                                 if ask.ttl > 0 then ask.reach else SessionReach);
            var taken := (exists e :: IsMeant(w, ask, e)) && Respects(request, answer);
            && w.inFlight <= v.inFlight && v == w.(inFlight := v.inFlight)
            && (!taken ==> v == w)
            && (taken ==>
                  var sent := v.inFlight[|w.inFlight|..];
                  && (forall d :: d in sent <==> exists e :: IsMeant(w, ask, e)
                                                             && d == Delivery(e.card, answer, ask.id, ask.token))
                  && forall i, j :: 0 <= i < j < |sent| ==> sent[i].card != sent[j].card)
  {
    RunKeepsInv(Start(requests), steps);
    RunKeepsRequests(Start(requests), steps);
    var w := Run(Start(requests), steps);
    ArrivedExactly(w, ask);
  }

  lemma ArrivedExactly(w: World, ask: Ask)
    requires Inv(w)
    ensures var v := Apply(w, AnswerArrives(ask));
            var request := w.requests(ask.id);
            var answer := Answer(ask.decision, if ask.ttl > 0 then ask.ttl else 0,
                                 if ask.ttl > 0 then ask.reach else SessionReach);
            var taken := (exists e :: IsMeant(w, ask, e)) && Respects(request, answer);
            && w.inFlight <= v.inFlight && v == w.(inFlight := v.inFlight)
            && (!taken ==> v == w)
            && (taken ==>
                  var sent := v.inFlight[|w.inFlight|..];
                  && (forall d :: d in sent <==> exists e :: IsMeant(w, ask, e)
                                                             && d == Delivery(e.card, answer, ask.id, ask.token))
                  && forall i, j :: 0 <= i < j < |sent| ==> sent[i].card != sent[j].card)
  {
    var v := Apply(w, AnswerArrives(ask));
    var chosen := Answered(w.table, ask.id, ask.token).0;
    forall e
      ensures e in chosen <==> IsMeant(w, ask, e)
    {
      ChosenAreMeant(w, ask, e);
    }
    forall i: nat, j: nat | i < j < |chosen|
      ensures chosen[i].card != chosen[j].card
    {
      ChosenOnce(w, ask, i, j);
    }
    JudgedIsExact(w.requests(ask.id), ask);
    hide Inv, IsMeant, Respects, Judged, Answered;
    if chosen != [] {
      assert chosen[0] in chosen;
    }
    var r := Arrived(w, ask);
    if r.Ok? {
      var answer := Judged(w.requests(ask.id), ask).value;
      assert v.inFlight[|w.inFlight|..] == r.value == Deliveries(chosen, answer, ask);
      SentExactly(chosen, answer, ask);
    }
  }

  lemma SentExactly(chosen: seq<Entry>, answer: Answer, ask: Ask)
    ensures var sent := Deliveries(chosen, answer, ask);
            && |sent| == |chosen| && (forall i :: 0 <= i < |sent| ==> sent[i].card == chosen[i].card)
            && forall d :: d in sent <==> exists e :: e in chosen && d == Delivery(e.card, answer, ask.id, ask.token)
  {
    var sent := Deliveries(chosen, answer, ask);
    forall e | e in chosen
      ensures Delivery(e.card, answer, ask.id, ask.token) in sent
    {
      var i :| 0 <= i < |chosen| && chosen[i] == e;
      assert sent[i] == Delivery(e.card, answer, ask.id, ask.token);
    }
  }

  /** Each card takes at most one answer: the first handed to it. That answer came under the
      card's own request and, if it named a token, under this card's; and it keeps within
      the request's ceiling, approving a grant request only for a length of time. */
  lemma TakenAnswerIsFirstAndOwn(requests: Id -> Request, steps: seq<Step>, c: Card)
    requires Possible(Start(requests), steps)
    requires var w := Run(Start(requests), steps); c < |w.cards| && w.cards[c].taken.Some?
    ensures var card := Run(Start(requests), steps).cards[c];
            && card.offered != [] && card.taken.value == card.offered[0]
            && card.taken.value.id == card.id
            && (card.taken.value.token != "" ==> card.taken.value.token == card.token)
            && Respects(requests(card.id), card.taken.value.answer)
  {
    RunKeepsInv(Start(requests), steps);
    var w := Run(Start(requests), steps);
    RunKeepsRequests(Start(requests), steps);
    assert CardRight(w, c);
    assert DeliveryRight(w, w.cards[c].offered[0]);
  }

  lemma {:induction false} RunKeepsRequests(w: World, steps: seq<Step>)
    requires Possible(w, steps)
    ensures Run(w, steps).requests == w.requests
    decreases |steps|
  {
    if steps == [] {
    } else {
      RunKeepsRequests(Apply(w, steps[0]), steps[1..]);
    }
  }

  /** And every answer on its way, not only those taken, is within the ceiling. */
  lemma DeliveredAnswersRespectTheCeiling(requests: Id -> Request, steps: seq<Step>, i: nat)
    requires Possible(Start(requests), steps) && i < |Run(Start(requests), steps).inFlight|
    ensures var d := Run(Start(requests), steps).inFlight[i]; Respects(requests(d.id), d.answer)
  {
    RunKeepsInv(Start(requests), steps);
    RunKeepsRequests(Start(requests), steps);
    var w := Run(Start(requests), steps);
    assert DeliveryRight(w, w.inFlight[i]);
  }
}
