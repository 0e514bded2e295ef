/** Writing to a front end's stream. Many goroutines send on one stream, which stops being a
    valid thing to write to the moment the handler holding it open returns; one mutex and one
    flag stand between the two. */
module ApprovalStream {
  import opened Wrappers

  // ----- one send and one finish, each under the mutex

  datatype SendError = FrontEndGone | StreamFailed

  class SocketApprover<Event> {
    /** The handler holding the stream open has said it is about to return. */
    var gone: bool
    /** The handler has not returned: the stream may be written to. */
    var handlerRunning: bool
    var written: seq<Event>

    ghost predicate Valid()
      reads this
    {
      !handlerRunning ==> gone
    }

    constructor ()
      ensures Valid() && !gone && handlerRunning && written == []
    {
      gone, handlerRunning, written := false, true, [];
    }

    /** The stream itself: calling it after the handler returned is not an error it reports. */
    method WriteToStream(event: Event, ok: bool) returns (r: Result<(), SendError>)
      requires handlerRunning
      modifies this`written
      ensures r == if ok then Ok(()) else Err(StreamFailed)
      ensures written == if ok then old(written) + [event] else old(written)
    {
      if !ok {
        return Err(StreamFailed);
      }
      written := written + [event];
      return Ok(());
    }

    method Send(event: Event, streamOk: bool) returns (r: Result<(), SendError>)
      requires Valid()
      modifies this`written
      ensures Valid()
      ensures r == if gone then Err(FrontEndGone) else if streamOk then Ok(()) else Err(StreamFailed)
      ensures written == if r.Ok? then old(written) + [event] else old(written)
    {
      if gone {
        return Err(FrontEndGone);
      }
      r := WriteToStream(event, streamOk);
    }

    method Finish()
      requires Valid()
      modifies this`gone
      ensures Valid() && gone
    {
      gone := true;
    }

    method HandlerReturns()
      requires Valid() && gone
      modifies this`handlerRunning
      ensures Valid() && !handlerRunning
    {
      handlerRunning := false;
    }
  }

  // ----- every interleaving, step by step

  type Call = nat

  /** A send: waiting for the mutex, holding it with the flag not yet read, inside the
      stream's own Send, or over. `late` says it began after the handler had finished. */
  datatype Send =
    | Waiting(late: bool)
    | Holding(late: bool)
    | InStream(late: bool)
    | Over(late: bool, result: Result<(), SendError>)

  /** The handler: sending its attachment notice, holding the stream open until its context
      ends, on its way out, waiting for the mutex or holding it in `finish`, and gone. */
  datatype Handler =
    | Attaching(call: Call)
    | Serving
    | Unregistered
    | InFinish
    | Finished
    | Returned

  datatype Holder = NoOne | Sender(call: Call) | TheHandler

  datatype World = World(holder: Holder, gone: bool, handler: Handler, sends: map<Call, Send>)

  datatype Step =
    | BeginSend(call: Call)
    | LockForSend(call: Call)
    | ReadFlag(call: Call)
    | StreamReturns(call: Call, ok: bool)
    | AttachmentOver
    | ContextEnds
    | LockForFinish
    | SetGone
    | HandlerReturns

  /** The handler's own first send is under way. */
  const START := World(NoOne, false, Attaching(0), map[0 := Waiting(false)])

  predicate Enabled(w: World, step: Step) {
    match step
    case BeginSend(c) => c !in w.sends
    case LockForSend(c) => c in w.sends && w.sends[c].Waiting? && w.holder == NoOne
    case ReadFlag(c) => c in w.sends && w.sends[c].Holding?
    case StreamReturns(c, _) => c in w.sends && w.sends[c].InStream?
    case AttachmentOver => w.handler.Attaching? && w.handler.call in w.sends && w.sends[w.handler.call].Over?
    case ContextEnds => w.handler == Serving
    case LockForFinish => w.handler == Unregistered && w.holder == NoOne
    case SetGone => w.handler == InFinish
    case HandlerReturns => w.handler == Finished
  }

  function Apply(w: World, step: Step): World
    requires Enabled(w, step)
  {
    match step
    case BeginSend(c) => w.(sends := w.sends[c := Waiting(w.gone)])
    case LockForSend(c) => w.(holder := Sender(c), sends := w.sends[c := Holding(w.sends[c].late)])
    case ReadFlag(c) =>
      if w.gone then w.(holder := NoOne, sends := w.sends[c := Over(w.sends[c].late, Err(FrontEndGone))])
      else w.(sends := w.sends[c := InStream(w.sends[c].late)])
    case StreamReturns(c, ok) =>
      w.(holder := NoOne, sends := w.sends[c := Over(w.sends[c].late, if ok then Ok(()) else Err(StreamFailed))])
    case AttachmentOver =>
      w.(handler := if w.sends[w.handler.call].result.Ok? then Serving else Unregistered)
    case ContextEnds => w.(handler := Unregistered)
    case LockForFinish => w.(holder := TheHandler, handler := InFinish)
    case SetGone => w.(holder := NoOne, gone := true, handler := Finished)
    case HandlerReturns => w.(handler := Returned)
  }

  ghost predicate Possible(w: World, steps: seq<Step>)
    decreases |steps|
  {
    steps == [] || (Enabled(w, steps[0]) && Possible(Apply(w, steps[0]), steps[1..]))
  }

  ghost function Run(w: World, steps: seq<Step>): World
    requires Possible(w, steps)
    decreases |steps|
  {
    if steps == [] then w else Run(Apply(w, steps[0]), steps[1..])
  }

  ghost predicate SendSound(w: World, c: Call)
    requires c in w.sends
  {
    match w.sends[c]
    case Waiting(late) => late ==> w.gone
    case Holding(late) => w.holder == Sender(c) && (late ==> w.gone)
    case InStream(late) => w.holder == Sender(c) && !late && !w.gone
    case Over(late, result) => late ==> w.gone && result == Err(FrontEndGone)
  }

  ghost predicate Inv(w: World) {
    && (forall c :: c in w.sends ==> SendSound(w, c))
    && (w.holder == TheHandler <==> w.handler == InFinish)
    && (w.gone <==> w.handler == Finished || w.handler == Returned)
  }

  lemma StepKeepsInv(w: World, step: Step)
    requires Inv(w) && Enabled(w, step)
    ensures Inv(Apply(w, step))
  {
    var v := Apply(w, step);
    forall c | c in v.sends
      ensures SendSound(v, c)
    {
      if c in w.sends {
        assert SendSound(w, c);
      }
    }
  }

  lemma {:induction false} RunKeepsInv(w: World, steps: seq<Step>)
    requires Inv(w) && Possible(w, steps)
    ensures Inv(Run(w, steps))
    decreases |steps|
  {
    if steps == [] {
    } else {
      StepKeepsInv(w, steps[0]);
      RunKeepsInv(Apply(w, steps[0]), steps[1..]);
    }
  }

  /** In every run the stream's own Send is entered and left only while the handler has not
      returned, by one call at a time. */
  lemma StreamUsedOnlyWhileHandlerRuns(steps: seq<Step>, c: Call)
    requires Possible(START, steps)
    requires var w := Run(START, steps); c in w.sends && w.sends[c].InStream?
    ensures var w := Run(START, steps);
            && w.handler != Returned && w.handler != Finished
            && forall d :: d in w.sends && w.sends[d].InStream? ==> d == c
  {
    RunKeepsInv(START, steps);
    var w := Run(START, steps);
    assert SendSound(w, c);
    forall d | d in w.sends && w.sends[d].InStream?
      ensures d == c
    {
      assert SendSound(w, d);
    }
  }

  /** A send that begins after `finish` never reaches the stream: if it ends, it is refused. */
  lemma LateSendsAreRefused(steps: seq<Step>, c: Call)
    requires Possible(START, steps)
    requires var w := Run(START, steps); c in w.sends && w.sends[c].late
    ensures var w := Run(START, steps);
            !w.sends[c].InStream? && (w.sends[c].Over? ==> w.sends[c].result == Err(FrontEndGone))
  {
    RunKeepsInv(START, steps);
    assert SendSound(Run(START, steps), c);
  }

  /** And `late` means what it says: a send begun once the handler has set the flag is late,
      and no send begun before is. */
  lemma LateMeansAfterFinish(steps: seq<Step>, c: Call)
    requires Possible(START, steps) && Enabled(Run(START, steps), BeginSend(c))
    ensures var w := Run(START, steps);
            Apply(w, BeginSend(c)).sends[c].late <==> w.handler == Finished || w.handler == Returned
  {
    RunKeepsInv(START, steps);
  }

  /** Nothing is refused for this reason while the handler is still serving, so a refusal
      really does mean the front end is going away. */
  lemma RefusalMeansFinished(w: World, c: Call)
    requires Inv(w) && Enabled(w, ReadFlag(c))
    ensures Apply(w, ReadFlag(c)).sends[c].InStream? <==> !(w.handler == Finished || w.handler == Returned)
  {
  }
}
