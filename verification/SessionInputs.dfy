/**
 What reaches a session manager from outside: outcomes of transport operations,
 events, and the steps of other tasks; and what its calls should make of them.
 */
module SessionInputs {
  import opened Bytes
  import opened Wrappers
  import opened SessionTrace
  import Reassembly
  import ResponseCodec
  import Teardown

  datatype Failure =
    | SessionDied | DisconnectedByOperator | NeedsReconsent
    | InvalidFrame | NotConnected | TimedOut | Io | ConnectionFailed

  datatype TransportError = Unconnected | Expired | Broken | ModemError

  /** How an awaited transport operation ends. */
  datatype Outcome = Success | Fails(error: TransportError)

  /** What a receive brings: Data, Disconnected, or an error. */
  datatype Arrival = Bytes(bytes: seq<byte>) | PeerGone | Lost(error: TransportError)

  /** One atomic step of another task: a disconnect request, an answer to the prompt, the end of a disconnect. */
  datatype Op = RaiseAbort | Consent(accepted: bool) | ClearAgreed

  /** `transport_err_to_agwpe`. */
  function FailureOf(e: TransportError): (f: Failure)
    ensures f in {NotConnected, TimedOut, Io, ConnectionFailed}
  {
    match e
    case Unconnected => NotConnected
    case Expired => TimedOut
    case Broken => Io
    case ModemError => ConnectionFailed
  }

  // ----- Scripts that are used up from the front -----

  function Drop<T>(s: seq<T>, n: nat): seq<T> {
    if n <= |s| then s[n..] else []
  }

  function Rest<T>(s: seq<T>): seq<T> {
    if s == [] then [] else s[1..]
  }

  lemma NoneGone<T>(s: seq<T>)
    ensures Drop(s, 0) == s
  {
  }

  lemma HeadOf<T>(s: seq<T>, n: nat)
    ensures Drop(s, n) == [] <==> n >= |s|
    ensures n < |s| ==> Drop(s, n)[0] == s[n]
  {
  }

  lemma DropTwice<T>(s: seq<T>, n: nat, m: nat)
    ensures Drop(Drop(s, n), m) == Drop(s, n + m)
  {
  }

  lemma NextRound<T>(s: seq<T>, n: nat)
    ensures Rest(Drop(s, n)) == Drop(s, n + 1)
  {
  }

  lemma RestIsDrop<T>(s: seq<T>)
    ensures Drop(s, 1) == Rest(s)
  {
  }

  lemma RestTwice<T>(s: seq<T>)
    ensures Rest(Rest(s)) == Drop(s, 2)
  {
  }

  lemma RestFourTimes<T>(s: seq<T>)
    ensures Rest(Rest(Rest(Rest(s)))) == Drop(s, 4)
  {
    assert Rest(Rest(s)) == Drop(s, 2);
    assert Rest(Drop(s, 2)) == Drop(s, 3);
  }

  // ----- What operations come to -----

  function SendResult(outcomes: seq<Outcome>): (r: Result<(), Failure>)
    ensures r.Err? ==> r.error in {NotConnected, TimedOut, Io, ConnectionFailed}
  {
    if outcomes == [] then Err(Io)
    else if outcomes[0].Success? then Ok(()) else Err(FailureOf(outcomes[0].error))
  }

  /** The next `n` operations succeed. */
  predicate AllSucceed(outcomes: seq<Outcome>, n: nat) {
    n <= |outcomes| && forall i :: 0 <= i < n ==> outcomes[i].Success?
  }

  lemma SucceedFirst(outcomes: seq<Outcome>, n: nat)
    ensures AllSucceed(outcomes, 1 + n) <==> AllSucceed(outcomes, 1) && AllSucceed(Rest(outcomes), n)
    ensures Drop(Rest(outcomes), n) == Drop(outcomes, 1 + n)
  {
    if AllSucceed(outcomes, 1) && AllSucceed(Rest(outcomes), n) {
      assert forall i :: 1 <= i < 1 + n ==> outcomes[i] == Rest(outcomes)[i - 1];
    }
  }

  lemma SucceedTwice(outcomes: seq<Outcome>, n: nat, m: nat)
    ensures AllSucceed(outcomes, n + m) <==> AllSucceed(outcomes, n) && AllSucceed(Drop(outcomes, n), m)
    ensures Drop(Drop(outcomes, n), m) == Drop(outcomes, n + m)
  {
    if AllSucceed(outcomes, n) && AllSucceed(Drop(outcomes, n), m) {
      assert forall i :: n <= i < n + m ==> outcomes[i] == Drop(outcomes, n)[i - n];
    }
  }

  // ----- Batches of other tasks' steps -----

  /** The step is among the first `n` batches. */
  ghost predicate Among(op: Op, batches: seq<seq<Op>>, n: nat) {
    exists i :: 0 <= i < n && i < |batches| && op in batches[i]
  }

  /**
   While `n` of the batches went by and left `left`, no prompt being open, the
   flag and the stored agreement changed as those batches say.
   */
  ghost predicate Elapsed(v: View, w: View, batches: seq<seq<Op>>, left: seq<seq<Op>>, n: nat) {
    && left == Drop(batches, n)
    && w.raised == (v.raised || Among(RaiseAbort, batches, n))
    && w.stored == (if Among(ClearAgreed, batches, n) then None else v.stored)
  }

  lemma ElapsedMeans(v: View, w: View, batches: seq<seq<Op>>, left: seq<seq<Op>>, n: nat)
    requires Elapsed(v, w, batches, left, n)
    ensures w.raised <==> v.raised || Among(RaiseAbort, batches, n)
    ensures w.stored == if Among(ClearAgreed, batches, n) then None else v.stored
    ensures left == Drop(batches, n)
  {
    hide Among;
  }

  lemma ElapsedAlike(v: View, w: View, x: View, batches: seq<seq<Op>>, left: seq<seq<Op>>, n: nat)
    requires Elapsed(v, w, batches, left, n) && x.raised == w.raised && x.stored == w.stored
    ensures Elapsed(v, x, batches, left, n)
  {
    hide Among;
  }

  lemma NoneElapsed(v: View, batches: seq<seq<Op>>)
    ensures Elapsed(v, v, batches, batches, 0)
  {
  }

  lemma AmongTwice(op: Op, batches: seq<seq<Op>>, n: nat, m: nat)
    ensures Among(op, batches, n + m) <==> Among(op, batches, n) || Among(op, Drop(batches, n), m)
  {
    if Among(op, batches, n + m) {
      var i :| 0 <= i < n + m && i < |batches| && op in batches[i];
      assert i >= n ==> Drop(batches, n)[i - n] == batches[i];
    }
    if Among(op, Drop(batches, n), m) {
      var i :| 0 <= i < m && i < |Drop(batches, n)| && op in Drop(batches, n)[i];
      assert batches[n + i] == Drop(batches, n)[i];
    }
  }

  lemma ElapsedTwice(u: View, v: View, w: View,
                     batches: seq<seq<Op>>, mid: seq<seq<Op>>, left: seq<seq<Op>>, n: nat, m: nat)
    requires Elapsed(u, v, batches, mid, n) && Elapsed(v, w, mid, left, m)
    ensures Elapsed(u, w, batches, left, n + m)
  {
    AmongTwice(RaiseAbort, batches, n, m);
    AmongTwice(ClearAgreed, batches, n, m);
    hide Among;
  }

  // ----- The operator's answer to a prompt -----

  function Batch(batches: seq<seq<Op>>, n: nat): seq<Op> {
    if n < |batches| then batches[n] else []
  }

  /** The first answer in a batch. */
  function FirstAnswer(batch: seq<Op>): Option<bool> {
    if batch == [] then None
    else
      var n := |batch| - 1;
      var before := FirstAnswer(batch[..n]);
      if before.Some? then before else if batch[n].Consent? then Some(batch[n].accepted) else None
  }

  /** No answer in the first `n` rounds, and time for another one. */
  ghost predicate NoAnswer(batches: seq<seq<Op>>, outcomes: seq<Outcome>, n: nat) {
    forall i :: 0 <= i < n ==>
      FirstAnswer(Batch(batches, i)).None? && i < |outcomes| && outcomes[i] != Fails(Expired)
  }

  /** Round `n` of the wait for an answer is the first with one, and the time does not run out before. */
  ghost predicate AnsweredAfter(batches: seq<seq<Op>>, outcomes: seq<Outcome>, n: nat, accepted: bool) {
    FirstAnswer(Batch(batches, n)) == Some(accepted) && NoAnswer(batches, outcomes, n)
  }

  ghost predicate Answerable(batches: seq<seq<Op>>, outcomes: seq<Outcome>) {
    exists n: nat, b :: AnsweredAfter(batches, outcomes, n, b)
  }

  /** The operator accepts in round `n`, and AGREE can be sent. */
  ghost predicate AcceptedAfter(batches: seq<seq<Op>>, outcomes: seq<Outcome>, n: nat) {
    AnsweredAfter(batches, outcomes, n, true) && AllSucceed(Drop(outcomes, n + 1), 1)
  }

  ghost predicate Acceptable(batches: seq<seq<Op>>, outcomes: seq<Outcome>) {
    exists n: nat :: AcceptedAfter(batches, outcomes, n)
  }

  /** Only the first answer counts. */
  lemma OneAnswer(batches: seq<seq<Op>>, outcomes: seq<Outcome>, n: nat, accepted: bool)
    requires AnsweredAfter(batches, outcomes, n, accepted)
    ensures Acceptable(batches, outcomes) <==> accepted && AllSucceed(Drop(outcomes, n + 1), 1)
  {
    hide AllSucceed;
    if accepted && AllSucceed(Drop(outcomes, n + 1), 1) {
      assert AcceptedAfter(batches, outcomes, n);
    }
  }

  lemma NoneAccepted(batches: seq<seq<Op>>, outcomes: seq<Outcome>)
    requires !Answerable(batches, outcomes)
    ensures !Acceptable(batches, outcomes)
  {
    hide AllSucceed, AnsweredAfter;
  }

  lemma NextBatch(batches: seq<seq<Op>>, n: nat)
    ensures Batch(Drop(batches, n), 0) == Batch(batches, n)
  {
  }

  lemma NextAnswer(batch: seq<Op>, n: nat)
    requires n < |batch|
    ensures FirstAnswer(batch[..n + 1]) ==
            if FirstAnswer(batch[..n]).Some? then FirstAnswer(batch[..n])
            else if batch[n].Consent? then Some(batch[n].accepted) else None
  {
    assert batch[..n + 1][..n] == batch[..n];
  }

  // ----- What a receive loop should make of what arrives -----

  /** The pieces of the Data events before the first other event. */
  function DataRun(events: seq<Arrival>): (pieces: seq<seq<byte>>)
    ensures |pieces| <= |events|
  {
    if events == [] || !events[0].Bytes? then [] else [events[0].bytes] + DataRun(events[1..])
  }

  /** The failure that a receive reports when no Data event follows the run. */
  function Ending(events: seq<Arrival>): Failure {
    var n := |DataRun(events)|;
    if n == |events| || !events[n].Lost? || events[n].error == Expired then SessionDied
    else FailureOf(events[n].error)
  }

  /** The result of a call that got this far, if its wait ends with `ending`. */
  function ResultOf(p: Reassembly.Progress, ending: Failure): Result<seq<byte>, Failure> {
    match p
    case Complete(buf) => Ok(buf)
    case Died => Err(SessionDied)
    case Oversize => Err(InvalidFrame)
    case Waiting(_, _) => Err(ending)
    case Aborted => Err(DisconnectedByOperator)
  }

  /** What a call returns on these events: its reply to the Data events, or the failure that ends them. */
  function Answer(events: seq<Arrival>): Result<seq<byte>, Failure> {
    ResultOf(Reassembly.Reply(DataRun(events)), Ending(events))
  }

  /** How many events a call takes: those of its reply, or all Data events and the event that ends them. */
  function Used(events: seq<Arrival>): (n: nat)
    ensures n <= |events|
  {
    var run := DataRun(events);
    if Reassembly.Reply(run).Waiting? && |run| < |events| then |run| + 1 else Reassembly.Taken(run)
  }

  function CallResult(outcomes: seq<Outcome>, events: seq<Arrival>): Result<seq<byte>, Failure> {
    if SendResult(outcomes).Err? then Err(SendResult(outcomes).error) else Answer(events)
  }

  /** The first event to come is silence, a disconnect, or data that names the session's end. */
  predicate DiesAtOnce(events: seq<Arrival>) {
    || events == [] || events[0].PeerGone? || events[0] == Lost(Expired)
    || (&& events[0].Bytes? && |events[0].bytes| <= Reassembly.MAX_RESPONSE_SIZE
        && Teardown.IsSessionDead(events[0].bytes))
  }

  // ----- The receive loop, step by step -----

  lemma {:induction false} DataRunAt(events: seq<Arrival>, n: nat)
    requires n <= |DataRun(events)|
    ensures n < |DataRun(events)| <==> n < |events| && events[n].Bytes?
    ensures n < |DataRun(events)| ==> DataRun(events)[n] == events[n].bytes
  {
    if n > 0 {
      DataRunAt(events[1..], n - 1);
    }
  }

  /** After `n` pieces the loop waits, as it did before each of them. */
  ghost predicate WaitingAt(pieces: seq<seq<byte>>, n: nat, buf: seq<byte>, frame: Option<Reassembly.Frame>) {
    && n <= |pieces| && Reassembly.Receive(pieces[..n]) == Reassembly.Waiting(buf, frame)
    && forall m :: 0 <= m < n ==> Reassembly.Receive(pieces[..m]).Waiting?
  }

  lemma NothingReceived(pieces: seq<seq<byte>>)
    ensures WaitingAt(pieces, 0, [], None)
  {
    assert pieces[..0] == [];
  }

  /** The call's reply is what stops it first, or its waiting after the last piece. */
  lemma ReplyAt(pieces: seq<seq<byte>>, n: nat)
    requires n <= |pieces| && forall m :: 0 <= m < n ==> Reassembly.Receive(pieces[..m]).Waiting?
    requires n == |pieces| || !Reassembly.Receive(pieces[..n]).Waiting?
    ensures Reassembly.Taken(pieces) == n && Reassembly.Reply(pieces) == Reassembly.Receive(pieces[..n])
  {
    hide Reassembly.Receive;
  }

  /** No piece comes after `n`: the answer is the failure that ended the wait. */
  lemma EventEnds(events: seq<Arrival>, n: nat, buf: seq<byte>, frame: Option<Reassembly.Frame>)
    requires n == |DataRun(events)| && WaitingAt(DataRun(events), n, buf, frame)
    ensures Answer(events) == Err(Ending(events)) && Drop(events, Used(events)) == Rest(Drop(events, n))
  {
    ReplyAt(DataRun(events), n);

  }

  /** One more piece: the loop stops with the answer that `Feed` gives, or waits on. */
  lemma PieceEnds(events: seq<Arrival>, n: nat, buf: seq<byte>, frame: Option<Reassembly.Frame>)
    requires n < |DataRun(events)| && WaitingAt(DataRun(events), n, buf, frame)
    ensures var pieces := DataRun(events);
            var p := Reassembly.Feed(buf, frame, pieces[n], false);
            && (p.Waiting? ==> WaitingAt(pieces, n + 1, p.buf, p.frame))
            && (!p.Waiting? ==> Answer(events) == ResultOf(p, SessionDied) && Used(events) == n + 1)
  {
    hide DataRun, Reassembly.Receive, Reassembly.Feed, Answer, Used, ResultOf;
    var pieces := DataRun(events);
    ReceiveNext(pieces, n);
    var p := Reassembly.Feed(buf, frame, pieces[n], false);
    if !p.Waiting? {
      StopsAt(events, n + 1, p);
    }
  }

  /** The same, case by case as the loop finds out. */
  lemma PieceCases(events: seq<Arrival>, n: nat, buf: seq<byte>, frame: Option<Reassembly.Frame>)
    requires n < |DataRun(events)| && WaitingAt(DataRun(events), n, buf, frame)
    ensures var all := buf + DataRun(events)[n];
            var known := if frame.Some? then Ok(frame) else Reassembly.Announced(all);
            if |all| > Reassembly.MAX_RESPONSE_SIZE then Answer(events) == Err(InvalidFrame) && Used(events) == n + 1
            else if Teardown.IsSessionDead(all) || known.Err? then
              Answer(events) == Err(SessionDied) && Used(events) == n + 1
            else if known.value.Some? && |all| >= known.value.value.start + known.value.value.len then
              Answer(events) == Ok(all) && Used(events) == n + 1
            else WaitingAt(DataRun(events), n + 1, all, known.value)
  {
    PieceEnds(events, n, buf, frame);
    hide DataRun, WaitingAt, Answer, Used, Teardown.IsSessionDead, Reassembly.Announced;
  }

  lemma StopsAt(events: seq<Arrival>, n: nat, p: Reassembly.Progress)
    requires n <= |DataRun(events)| && p == Reassembly.Receive(DataRun(events)[..n]) && !p.Waiting?
    requires forall m :: 0 <= m < n ==> Reassembly.Receive(DataRun(events)[..m]).Waiting?
    ensures Answer(events) == ResultOf(p, SessionDied) && Used(events) == n
  {
    hide DataRun, Reassembly.Receive, Reassembly.Taken, Reassembly.Reply, Ending;
    ReplyAt(DataRun(events), n);
  }

  lemma ReceiveNext(pieces: seq<seq<byte>>, n: nat)
    requires n < |pieces| && Reassembly.Receive(pieces[..n]).Waiting?
    ensures var p := Reassembly.Receive(pieces[..n]);
            Reassembly.Receive(pieces[..n + 1]) == Reassembly.Feed(p.buf, p.frame, pieces[n], false)
  {
    assert pieces[..n + 1][..n] == pieces[..n];
    hide Reassembly.Feed;
  }

  // ----- What a call returns, event by event -----

  /** The first `n` events are Data. */
  predicate Brings(events: seq<Arrival>, n: nat) {
    n <= |events| && forall i :: 0 <= i < n ==> events[i].Bytes?
  }

  function FirstPieces(events: seq<Arrival>, n: nat): (pieces: seq<seq<byte>>)
    requires Brings(events, n)
    ensures |pieces| == n && forall i :: 0 <= i < n ==> pieces[i] == events[i].bytes
  {
    seq(n, i requires 0 <= i < n => events[i].bytes)
  }

  /** The first `n` events are Data, and before the last of them the call still waited. */
  ghost predicate Reaches(events: seq<Arrival>, n: nat) {
    Brings(events, n) && forall m :: 0 <= m < n ==> Reassembly.Receive(FirstPieces(events, m)).Waiting?
  }

  /** After `n` Data events and no response, silence or a disconnect. */
  ghost predicate BreaksOff(events: seq<Arrival>, n: nat) {
    && Reaches(events, n) && Reassembly.Receive(FirstPieces(events, n)).Waiting?
    && (n == |events| || events[n] == PeerGone || events[n] == Lost(Expired))
  }

  /** The data of the first `n` events end the session. */
  ghost predicate NamesEnd(events: seq<Arrival>, n: nat) {
    Reaches(events, n) && Reassembly.Receive(FirstPieces(events, n)) == Reassembly.Died
  }

  /** The session dies in this call, sooner or later. */
  ghost predicate Dies(events: seq<Arrival>) {
    exists n: nat :: BreaksOff(events, n) || NamesEnd(events, n)
  }

  /** After `n` Data events and no response, an error of the transport. */
  ghost predicate Faults(events: seq<Arrival>, n: nat, e: TransportError) {
    && Reaches(events, n) && Reassembly.Receive(FirstPieces(events, n)).Waiting?
    && n < |events| && events[n] == Lost(e) && e != Expired
  }

  lemma {:induction false} RunOfEvents(events: seq<Arrival>, n: nat)
    requires Brings(events, n)
    ensures n <= |DataRun(events)| && DataRun(events)[..n] == FirstPieces(events, n)
    ensures n == |events| || !events[n].Bytes? ==> n == |DataRun(events)|
  {
    if n > 0 {
      RunOfEvents(events[1..], n - 1);
      assert FirstPieces(events, n) == [events[0].bytes] + FirstPieces(events[1..], n - 1);
      assert DataRun(events)[..n] == [events[0].bytes] + DataRun(events[1..])[..n - 1];
    }
  }

  lemma RunsOfEvents(events: seq<Arrival>, n: nat)
    requires Brings(events, n)
    ensures n <= |DataRun(events)|
    ensures forall m :: 0 <= m <= n ==> Brings(events, m) && DataRun(events)[..m] == FirstPieces(events, m)
  {
    hide DataRun;
    RunOfEvents(events, n);
    forall m | 0 <= m <= n
      ensures Brings(events, m) && DataRun(events)[..m] == FirstPieces(events, m)
    {
      RunOfEvents(events, m);
    }
  }

  /** What ends the wait decides the answer. */
  lemma AnswerExactly(events: seq<Arrival>, n: nat)
    requires Reaches(events, n)
    ensures BreaksOff(events, n) || NamesEnd(events, n) ==> Answer(events) == Err(SessionDied)
    ensures Faults(events, n, Unconnected) ==> Answer(events) == Err(NotConnected)
    ensures Faults(events, n, Broken) ==> Answer(events) == Err(Io)
    ensures Faults(events, n, ModemError) ==> Answer(events) == Err(ConnectionFailed)
    ensures Reassembly.Receive(FirstPieces(events, n)) == Reassembly.Oversize ==> Answer(events) == Err(InvalidFrame)
    ensures Reassembly.Receive(FirstPieces(events, n)).Complete? ==>
              Answer(events) == Ok(Reassembly.Receive(FirstPieces(events, n)).buf)
    ensures !Reassembly.Receive(FirstPieces(events, n)).Waiting? ==> Used(events) == n
    ensures Reassembly.Receive(FirstPieces(events, n)).Waiting? && n < |events| && !events[n].Bytes? ==>
              Used(events) == n + 1
  {
    RunsOfEvents(events, n);
    RunOfEvents(events, n);
    var pieces := DataRun(events);
    if n == |pieces| || !Reassembly.Receive(pieces[..n]).Waiting? {
      ReplyAt(pieces, n);
    }
    hide DataRun, Reassembly.Receive, Reassembly.Reply, Reassembly.Taken;
  }

  /** Every call stops somewhere. */
  lemma StopsSomewhere(events: seq<Arrival>) returns (n: nat)
    ensures Reaches(events, n)
    ensures Reassembly.Receive(FirstPieces(events, n)).Waiting? ==> n == |events| || !events[n].Bytes?
  {
    hide DataRun, Reassembly.Receive, Reassembly.TakenFrom;
    n := Reassembly.Taken(DataRun(events));
    RunBrings(events);
    RunsOfEvents(events, n);
  }

  /** A call reports the session's death exactly when it dies. */
  lemma DeathExactly(events: seq<Arrival>)
    ensures Answer(events) == Err(SessionDied) <==> Dies(events)
  {
    hide Answer, Reassembly.Receive;
    if n: nat :| BreaksOff(events, n) || NamesEnd(events, n) {
      AnswerExactly(events, n);
    }
    var n := StopsSomewhere(events);
    AnswerExactly(events, n);
    NeverAborts(events, n);
    assert BreaksOff(events, n) || NamesEnd(events, n) ==> Dies(events);
    var p := Reassembly.Receive(FirstPieces(events, n));
    if p.Waiting? && n < |events| && events[n].Lost? && events[n].error != Expired {
      assert Faults(events, n, events[n].error);
    } else {
      assert p.Waiting? || p.Died? ==> BreaksOff(events, n) || NamesEnd(events, n);
    }
  }

  lemma NeverAborts(events: seq<Arrival>, n: nat)
    requires Reaches(events, n)
    ensures !Reassembly.Receive(FirstPieces(events, n)).Aborted?
  {
    hide Teardown.IsSessionDead, Reassembly.Announced;
    if n > 0 {
      assert FirstPieces(events, n)[..n - 1] == FirstPieces(events, n - 1);
    }
  }

  /** The call's result, whether the send fails or not. */
  lemma SendOrFail(outcomes: seq<Outcome>, events: seq<Arrival>)
    ensures AllSucceed(outcomes, 1) <==> SendResult(outcomes).Ok?
    ensures CallResult(outcomes, events) == Err(SessionDied) <==> AllSucceed(outcomes, 1) && Dies(events)
  {
    DeathExactly(events);
    hide Answer, Dies;
  }

  lemma {:induction false} RunBrings(events: seq<Arrival>)
    ensures Brings(events, |DataRun(events)|)
    ensures |DataRun(events)| == |events| || !events[|DataRun(events)|].Bytes?
  {
    if events != [] && events[0].Bytes? {
      RunBrings(events[1..]);
    }
  }

  function Events(pieces: seq<seq<byte>>): (events: seq<Arrival>)
    ensures |events| == |pieces| && forall i :: 0 <= i < |pieces| ==> events[i] == Bytes(pieces[i])
  {
    seq(|pieces|, i requires 0 <= i < |pieces| => Bytes(pieces[i]))
  }

  /** The events that the calls of a conversation take, one call after the other. */
  ghost function TakenEvents(run: seq<Reassembly.Exchange>): seq<Arrival> {
    if run == [] then []
    else Events(run[0].pieces[..Reassembly.Taken(run[0].pieces)]) + TakenEvents(run[1..])
  }

  lemma {:induction false} DataRunOfEvents(pieces: seq<seq<byte>>, later: seq<Arrival>)
    ensures DataRun(Events(pieces) + later) == pieces + DataRun(later)
  {
    if pieces == [] {
      assert Events(pieces) + later == later;
    } else {
      DataRunOfEvents(pieces[1..], later);
      EventsHead(pieces, later);
      DataRunHead(Events(pieces) + later);
      hide DataRun, Events;
      assert [pieces[0]] + (pieces[1..] + DataRun(later)) == pieces + DataRun(later);
    }
  }

  lemma EventsHead(pieces: seq<seq<byte>>, later: seq<Arrival>)
    requires pieces != []
    ensures var all := Events(pieces) + later;
            all != [] && all[0] == Bytes(pieces[0]) && all[1..] == Events(pieces[1..]) + later
  {
  }

  lemma DataRunHead(events: seq<Arrival>)
    requires events != [] && events[0].Bytes?
    ensures DataRun(events) == [events[0].bytes] + DataRun(events[1..])
  {
  }

  /** A call that is given the events another cutting's call would take returns the same reply. */
  lemma AnswerOnTaken(pieces: seq<seq<byte>>, later: seq<Arrival>)
    requires Reassembly.Reply(pieces).Complete?
    ensures var taken := pieces[..Reassembly.Taken(pieces)];
            && Answer(Events(taken) + later) == Ok(Reassembly.Reply(pieces).buf)
            && Used(Events(taken) + later) == |taken|
            && Drop(Events(taken) + later, |taken|) == later
  {
    hide Reassembly.Receive, Reassembly.Taken, DataRun, Answer, Used;
    var taken := pieces[..Reassembly.Taken(pieces)];
    var n := |taken|;
    DataRunOfEvents(taken, later);
    var all := taken + DataRun(later);
    assert all[..n] == taken;
    assert forall m :: 0 <= m < n ==> all[..m] == pieces[..m];
    StopsAt(Events(taken) + later, n, Reassembly.Reply(pieces));
  }

  lemma SendOk(outcomes: seq<Outcome>, arrivals: seq<Arrival>)
    requires outcomes != [] && outcomes[0].Success?
    ensures CallResult(outcomes, arrivals) == Answer(arrivals) && Rest(outcomes) == outcomes[1..]
  {
    hide Answer;
  }

  /** One turn of a conversation: the call is answered, and the conversation goes on with what it leaves. */
  lemma TurnTaken(pending: seq<byte>, run: seq<Reassembly.Exchange>, arrivals: seq<Arrival>) returns (left: seq<byte>)
    requires Reassembly.Conversation(pending, run) && run != []
    requires Reassembly.Harmless(pending) && |pending| + 3 <= Reassembly.MAX_NOISE
    requires TakenEvents(run) <= arrivals
    ensures Answer(arrivals).Ok? && ResponseCodec.Carries(Answer(arrivals).value, run[0].response)
    ensures Reassembly.Conversation(left, run[1..])
    ensures Reassembly.Harmless(left) && |left| + 3 <= Reassembly.MAX_NOISE
    ensures TakenEvents(run[1..]) <= Drop(arrivals, Used(arrivals))
  {
    Reassembly.ConversationStep(pending, run);
    hide Reassembly.Harmless, Reassembly.OnWire, Reassembly.Taken, Reassembly.Reply, Reassembly.Unread;
    hide Answer, Used, ResponseCodec.Carries, Events;
    var pieces := run[0].pieces;
    left := Reassembly.Unread(pieces);
    var taken := pieces[..Reassembly.Taken(pieces)];
    var later := SplitTaken(Events(taken), TakenEvents(run[1..]), arrivals);
    AnswerOnTaken(pieces, later);
  }

  lemma SplitTaken(mine: seq<Arrival>, others: seq<Arrival>, arrivals: seq<Arrival>) returns (later: seq<Arrival>)
    requires mine + others <= arrivals
    ensures arrivals == mine + later && others <= later
  {
    later := arrivals[|mine|..];
  }
}
