/**
 The session manager: a serial actor that drives the transport through
 handshakes, requests and reconnects while the operator consents, disconnects
 and clears agreements at any moment in between.
 */
module SessionActor {
  import opened Bytes
  import opened Wrappers
  import opened SessionInputs
  import opened SessionTrace
  import Reassembly
  import ResponseCodec
  import Teardown

  const MAX_HANDSHAKE_TEXT: nat := 64 * 1024
  // `callsign` and `AGREE`.
  const CALLSIGN_WORD: seq<byte> := [99, 97, 108, 108, 115, 105, 103, 110]
  const AGREE_WORD: seq<byte> := [65, 71, 82, 69, 69]

  datatype Command =
    | ConnectModem(callsign: Text)
    | DisconnectModem
    | QueryPorts
    | OpenSession
    | CloseSession
    | SendRequest(data: seq<byte>)
    | SendRequestWithReconnect(data: seq<byte>)

  /** What has happened and what is to come, at some moment. */
  datatype Moment = Moment(
    trace: seq<Event>, interruptions: seq<seq<Op>>, outcomes: seq<Outcome>, arrivals: seq<Arrival>)

  datatype Reply = Done(result: Result<(), Failure>) | Response(response: Result<seq<byte>, Failure>)

  /** What other tasks can do to the observer's view. */
  ghost predicate Interrupted(v: View, w: View) {
    && w.requests == v.requests && w.reopens == v.reopens && w.state == v.state && w.agreed == v.agreed
    && w.disclaimer == v.disclaimer && w.read == v.read && w.acts == v.acts && w.steps == v.steps
    && (v.accepted ==> w.accepted) && (v.raised ==> w.raised)
  }

  /** The view after the action `e` was started and awaited, with interruptions around it. */
  ghost predicate Acted(v: View, w: View, e: Event) {
    && w.requests == v.requests + (if e.Sent? && e.message.Request? then 1 else 0)
    && w.reopens == v.reopens + (if e.Reopen? then 1 else 0)
    && w.state == v.state && w.agreed == (v.agreed && !e.LinkOpen?)
    && w.steps == (if e.LinkOpen? then [e] else v.steps + [e])
    && OneMore(v, w, e)
  }

  /** At most the action `e` counts against a risen abort flag, and it does count if the flag was up before. */
  ghost predicate OneMore(v: View, w: View, e: Event) {
    && (v.raised ==> w.raised && w.acts == v.acts + [e])
    && (!v.raised ==> w.acts == [] || (w.raised && w.acts == [e]))
  }

  /** What a handshake does on an open link, in order. */
  function HandshakeSteps(skipBpqApp: bool): seq<Event> {
    (if skipBpqApp then [] else [Sent(AppCommand)]) + [Sent(Callsign), DisclaimerWait, Sent(Agree)]
  }

  lemma NotInterrupted(v: View)
    ensures Interrupted(v, v)
  {
  }

  lemma InterruptedTwice(u: View, v: View, w: View)
    requires Interrupted(u, v) && Interrupted(v, w)
    ensures Interrupted(u, w)
  {
  }

  /** From one trace to another only other tasks acted, in `n` batches. */
  ghost predicate Waited(before: seq<Event>, after: seq<Event>, batches: seq<seq<Op>>, left: seq<seq<Op>>, n: nat) {
    && before <= after && Interrupted(Observe(before), Observe(after))
    && Elapsed(Observe(before), Observe(after), batches, left, n)
  }

  lemma NotWaited(trace: seq<Event>, batches: seq<seq<Op>>)
    ensures Waited(trace, trace, batches, batches, 0)
  {
    hide Observe;
    NoneElapsed(Observe(trace), batches);
  }

  lemma WaitedOn(before: seq<Event>, mid: seq<Event>, after: seq<Event>,
                 batches: seq<seq<Op>>, midLeft: seq<seq<Op>>, left: seq<seq<Op>>, n: nat)
    requires Waited(before, mid, batches, midLeft, n) && Waited(mid, after, midLeft, left, 1)
    ensures Waited(before, after, batches, left, n + 1)
  {
    hide Observe;
    ElapsedTwice(Observe(before), Observe(mid), Observe(after), batches, midLeft, left, n, 1);
  }

  lemma WaitElapsed(before: seq<Event>, after: seq<Event>, batches: seq<seq<Op>>, left: seq<seq<Op>>, n: nat)
    requires Waited(before, after, batches, left, n)
    ensures Elapsed(Observe(before), Observe(after), batches, left, n)
  {
  }

  lemma ActedOn(u: View, v: View, w: View, e: Event)
    requires Acted(u, v, e) && Interrupted(v, w)
    ensures Acted(u, w, e)
  {
  }

  lemma WaitMeans(v: View, w: View)
    requires Acted(v, w, DisclaimerWait)
    ensures w.requests == v.requests && w.reopens == v.reopens && w.steps == v.steps + [DisclaimerWait]
    ensures !v.raised ==> |w.acts| <= 1 && (w.acts == [] || w.raised)
  {
  }

  lemma ActedLater(u: View, v: View, w: View, e: Event)
    requires Interrupted(u, v) && Acted(v, w, e) && (!u.raised ==> u.acts == [])
    ensures Acted(u, w, e)
  {
  }

  lemma DisclaimerNoted(u: View, v: View, e: Event, text: Text, batches: seq<seq<Op>>, left: seq<seq<Op>>, n: nat)
    requires Acted(u, v, e) && Elapsed(u, v, batches, left, n)
    ensures var w := Next(v, Disclaimer(text));
            Acted(u, w, e) && Elapsed(u, w, batches, left, n) && w.disclaimer == Some(text)
  {
    hide Among, Drop;
  }

  class Manager {
    // The shared application state.
    var connectionState: ConnectionState
    var lastAgreed: Option<Text>
    var pendingConsent: bool
    // The actor's own state, and the answer in the consent channel.
    var abort: bool
    var reply: Option<bool>
    var localCallsign: Text
    const skipBpqApp: bool
    // Foreign text functions: lossy UTF-8 decoding and upper case.
    const lossy: seq<byte> -> Text
    const upper: Text -> Text
    // The other tasks' steps, in batches between the actor's; the outcomes of operations; what receives bring.
    var interruptions: seq<seq<Op>>
    var outcomes: seq<Outcome>
    var arrivals: seq<Arrival>
    /** Everything that happened. */
    ghost var trace: seq<Event>

    constructor (skipBpqApp: bool, lossy: seq<byte> -> Text, upper: Text -> Text,
                 interruptions: seq<seq<Op>>, outcomes: seq<Outcome>, arrivals: seq<Arrival>)
      ensures Valid() && Idle() && trace == []
      ensures this.interruptions == interruptions && this.outcomes == outcomes && this.arrivals == arrivals
    {
      connectionState, lastAgreed, pendingConsent := Disconnected, None, false;
      abort, reply, localCallsign := false, None, [];
      this.skipBpqApp, this.lossy, this.upper := skipBpqApp, lossy, upper;
      this.interruptions, this.outcomes, this.arrivals := interruptions, outcomes, arrivals;
      trace := [];
    }

    ghost function View(): View
      reads this`trace
    {
      Observe(trace)
    }

    ghost predicate Valid()
      reads this
    {
      Agrees(View())
    }

    /** The fields are what the trace says, and the trace is safe. */
    ghost predicate Agrees(v: View)
      reads this
    {
      && v.safe && v.raised == abort && v.stored == lastAgreed && v.state == connectionState
      && (!v.raised ==> v.acts == [])
      && (pendingConsent ==>
            reply == None && connectionState.AwaitingConsent? && v.disclaimer == Some(connectionState.disclaimer))
      && (reply == Some(true) ==> v.accepted)
    }

    /** No consent prompt is open. */
    ghost predicate Idle()
      reads this
    {
      !pendingConsent && reply == None
    }

    ghost method Note(e: Event)
      modifies this`trace
      ensures trace == old(trace) + [e] && View() == Next(old(View()), e)
    {
      ObserveSnoc(trace, e);
      trace := trace + [e];
    }

    // ----- Other tasks -----

    /** The k-th coming batch of the other tasks' steps raises the abort flag. */
    ghost predicate AbortIn(k: nat)
      reads this`interruptions
    {
      k < |interruptions| && RaiseAbort in interruptions[k]
    }

    /** When a batch has gone by, the coming ones are one place nearer. */
    twostate lemma AbortsShift()
      requires interruptions == Rest(old(interruptions))
      ensures forall i: nat :: AbortIn(i) == old(AbortIn(i + 1))
    {
    }

    /** The operator will not disconnect any more. */
    ghost predicate NoAborts()
      reads this`interruptions
    {
      forall batch :: batch in interruptions ==> RaiseAbort !in batch
    }

    /** And will not clear the agreement either. */
    ghost predicate NoClears()
      reads this`interruptions
    {
      forall batch :: batch in interruptions ==> ClearAgreed !in batch
    }

    /** While no prompt is open the flag and the stored agreement change only by steps of other tasks. */
    twostate predicate Steady()
      reads this
    {
      && (old(NoAborts()) ==> NoAborts() && View().raised == old(View()).raised)
      && (old(Idle()) ==> View().stored == old(View()).stored || View().stored == None)
      && (old(Idle()) && old(NoClears()) ==> NoClears() && View().stored == old(View()).stored)
    }

    /** After a wait things are as in the method's contract. */
    twostate lemma AfterWait(n: nat)
      requires Waited(old(trace), trace, old(interruptions), interruptions, n)
      ensures Steady() && old(trace) <= trace && Interrupted(old(View()), View())
      ensures Elapsed(old(View()), View(), old(interruptions), interruptions, n)
    {
      assert interruptions == Drop(old(interruptions), n);
    }

    twostate lemma StaysDown()
      requires Steady() && old(NoAborts())
      ensures NoAborts() && View().raised == old(View()).raised
    {
    }

    /** What a step leaves in the trace; consent counts only while a prompt is open, and for the text it shows. */
    ghost function Effect(op: Op): seq<Event>
      reads this
    {
      match op
      case RaiseAbort => [AbortRaised]
      case ClearAgreed => [Cleared]
      case Consent(accepted) =>
        if accepted && pendingConsent && connectionState.AwaitingConsent? then
          [Accepted(connectionState.disclaimer)]
        else []
    }

    method Apply(op: Op)
      requires Valid()
      modifies this`abort, this`lastAgreed, this`pendingConsent, this`reply, this`trace
      ensures Valid() && old(trace) <= trace && Interrupted(old(View()), View())
      ensures Idle() == old(Idle())
      ensures trace == old(trace) + old(Effect(op))
      ensures op.Consent? && old(pendingConsent) ==> !pendingConsent && reply == Some(op.accepted)
      ensures !op.Consent? || !old(pendingConsent) ==> pendingConsent == old(pendingConsent) && reply == old(reply)
      ensures View().raised == (old(View()).raised || op == RaiseAbort)
      ensures old(Idle()) ==> View().stored == (if op == ClearAgreed then None else old(View()).stored)
    {
      hide Observe;
      match op {
        case RaiseAbort =>
          abort := true;
          Note(AbortRaised);
        case ClearAgreed =>
          lastAgreed := None;
          Note(Cleared);
        case Consent(accepted) =>
          if pendingConsent {
            pendingConsent := false;
            if accepted && connectionState.AwaitingConsent? {
              lastAgreed := Some(connectionState.disclaimer);
              Note(Accepted(connectionState.disclaimer));
            }
            reply := Some(accepted);
          }
      }
    }

    /** Another batch of the other tasks' steps happens now. */
    method Interleave()
      requires Valid()
      modifies this`abort, this`lastAgreed, this`pendingConsent, this`reply, this`trace, this`interruptions
      ensures Valid() && old(trace) <= trace && Interrupted(old(View()), View())
      ensures Idle() == old(Idle())
      ensures interruptions == Rest(old(interruptions))
      ensures View().raised == (old(View()).raised || old(AbortIn(0)))
      ensures Steady()
      ensures old(pendingConsent) ==>
                reply == FirstAnswer(Batch(old(interruptions), 0)) && pendingConsent == reply.None?
      ensures old(Idle()) ==> Elapsed(old(View()), View(), old(interruptions), interruptions, 1)
    {
      hide Observe;
      if interruptions == [] {
        return;
      }
      var batch := interruptions[0];
      interruptions := interruptions[1..];
      for i := 0 to |batch|
        invariant Valid() && old(trace) <= trace && Interrupted(old(View()), View())
        invariant Idle() == old(Idle())
        invariant old(pendingConsent) ==> reply == FirstAnswer(batch[..i]) && pendingConsent == reply.None?
        invariant interruptions == old(interruptions)[1..]
        invariant View().raised == (old(View()).raised || RaiseAbort in batch[..i])
        invariant old(Idle()) ==> View().stored == (if ClearAgreed in batch[..i] then None else old(View()).stored)
      {
        assert batch[..i + 1] == batch[..i] + [batch[i]];
        NextAnswer(batch, i);
        Apply(batch[i]);
      }
      assert batch[..|batch|] == batch;
      assert forall op :: Among(op, old(interruptions), 1) <==> op in batch by {
        assert old(interruptions)[0] == batch;
      }
    }

    /** Waiting for an operation of the transport; when nothing ever comes it fails. */
    method Await(exhausted: TransportError) returns (o: Outcome)
      requires Valid()
      modifies this`abort, this`lastAgreed, this`pendingConsent, this`reply, this`trace, this`interruptions,
               this`outcomes
      ensures Valid() && old(trace) <= trace && Interrupted(old(View()), View())
      ensures Idle() == old(Idle())
      ensures interruptions == Rest(old(interruptions))
      ensures View().raised == (old(View()).raised || old(AbortIn(0)))
      ensures Steady()
      ensures old(pendingConsent) ==>
                reply == FirstAnswer(Batch(old(interruptions), 0)) && pendingConsent == reply.None?
      ensures outcomes == Rest(old(outcomes))
      ensures o == if old(outcomes) == [] then Fails(exhausted) else old(outcomes)[0]
    {
      hide Observe;
      if outcomes == [] {
        o := Fails(exhausted);
      } else {
        o := outcomes[0];
        outcomes := outcomes[1..];
      }
      Interleave();
    }

    /** Waiting for the next event; when nothing ever comes the deadline ends the wait. */
    method Recv() returns (a: Arrival)
      requires Valid()
      modifies this`abort, this`lastAgreed, this`pendingConsent, this`reply, this`trace, this`interruptions,
               this`arrivals
      ensures Valid() && old(trace) <= trace && Interrupted(old(View()), View())
      ensures Idle() == old(Idle())
      ensures interruptions == Rest(old(interruptions))
      ensures View().raised == (old(View()).raised || old(AbortIn(0)))
      ensures Steady()
      ensures old(Idle()) ==> Waited(old(trace), trace, old(interruptions), interruptions, 1)
      ensures arrivals == Rest(old(arrivals))
      ensures a == if old(arrivals) == [] then Lost(Expired) else old(arrivals)[0]
    {
      hide Observe;
      if arrivals == [] {
        a := Lost(Expired);
      } else {
        a := arrivals[0];
        arrivals := arrivals[1..];
      }
      Interleave();
    }

    method IsAborted() returns (aborted: bool)
      requires Valid()
      modifies this`abort, this`lastAgreed, this`pendingConsent, this`reply, this`trace, this`interruptions
      ensures Valid() && old(trace) <= trace && Interrupted(old(View()), View())
      ensures Idle() == old(Idle())
      ensures interruptions == Rest(old(interruptions))
      ensures aborted == View().raised == (old(View()).raised || old(AbortIn(0)))
      ensures Steady()
      ensures old(Idle()) ==> Waited(old(trace), trace, old(interruptions), interruptions, 1)
    {
      Interleave();
      aborted := abort;
    }

    method SetState(state: ConnectionState)
      requires Valid() && Idle() && (state.Connected? ==> View().agreed)
      modifies this
      ensures Valid() && Idle() && old(trace) <= trace && outcomes == old(outcomes) && arrivals == old(arrivals)
      ensures Interrupted(old(View()).(state := state), View()) && Steady()
      ensures interruptions == Rest(old(interruptions))
    {
      hide Observe;
      Interleave();
      connectionState := state;
      Note(State(state));
    }

    // ----- The transport -----

    /** Starts an action and waits for its outcome; other tasks may step in before and after. */
    method Act(e: Event, exhausted: TransportError) returns (o: Outcome, ghost at: nat)
      requires Valid() && Idle() && IsAction(e) && Allowed(View(), e)
      modifies this
      ensures Valid() && Idle() && old(trace) <= trace
      ensures Acted(old(View()), View(), e)
      ensures |old(trace)| <= at < |trace| && trace[at] == e && Interrupted(old(View()), Observe(trace[..at]))
      ensures Elapsed(old(View()), Observe(trace[..at]), old(interruptions), Rest(old(interruptions)), 1)
      ensures outcomes == Rest(old(outcomes)) && arrivals == old(arrivals)
      ensures o == if old(outcomes) == [] then Fails(exhausted) else old(outcomes)[0]
      ensures interruptions == Rest(Rest(old(interruptions)))
      ensures !old(View()).raised ==> View().acts == if old(AbortIn(0)) then [e] else []
      ensures View().raised == (old(View()).raised || old(AbortIn(0)) || old(AbortIn(1)))
      ensures Steady()
    {
      hide Observe, Elapsed, AbortIn, NoAborts;
      Interleave();
      AbortsShift();
      at := |trace|;
      ghost var before := trace;
      assert trace[..at] == before;
      Note(e);
      o := Await(exhausted);
      assert trace[..at] == before;
    }

    method ReopenModemConnection() returns (r: Result<(), Failure>)
      requires Valid() && Idle()
      modifies this
      ensures r != Err(NeedsReconsent)
      ensures Valid() && Idle() && old(trace) <= trace
      ensures Acted(old(View()), View().(state := old(View()).state), Reopen) && Steady()
      ensures r.Ok? <==> AllSucceed(old(outcomes), 1)
      ensures outcomes == Rest(old(outcomes)) && arrivals == old(arrivals)
    {
      hide Observe;
      var o, at := Act(Reopen, ModemError);
      if o.Success? {
        SetState(AgwpeConnected);
        r := Ok(());
      } else {
        SetState(ErrorState);
        r := Err(FailureOf(o.error));
      }
    }

    method OpenLink() returns (r: Result<(), Failure>)
      requires Valid() && Idle() && View().state != Connected
      modifies this
      ensures r != Err(NeedsReconsent)
      ensures Valid() && Idle() && old(trace) <= trace
      ensures Acted(old(View()), View(), LinkOpen) && Steady()
      ensures r.Ok? <==> AllSucceed(old(outcomes), 1)
      ensures outcomes == Rest(old(outcomes)) && arrivals == old(arrivals)
      ensures interruptions == Rest(Rest(old(interruptions)))
    {
      hide Observe;
      var o, at := Act(LinkOpen, Expired);
      r := if o.Success? then Ok(()) else Err(FailureOf(o.error));
    }

    method Send(message: Message) returns (r: Result<(), Failure>, ghost at: nat)
      requires Valid() && Idle() && (message.Agree? ==> Justified(View()))
      modifies this
      ensures r != Err(NeedsReconsent)
      ensures Valid() && Idle() && old(trace) <= trace
      ensures Acted(old(View()), View(), Sent(message))
      ensures |old(trace)| <= at < |trace| && trace[at] == Sent(message)
      ensures Interrupted(old(View()), Observe(trace[..at]))
      ensures Elapsed(old(View()), Observe(trace[..at]), old(interruptions), Rest(old(interruptions)), 1)
      ensures r == SendResult(old(outcomes)) && (r.Ok? <==> AllSucceed(old(outcomes), 1))
      ensures outcomes == Rest(old(outcomes)) && arrivals == old(arrivals)
      ensures interruptions == Rest(Rest(old(interruptions)))
      ensures !old(View()).raised ==> View().acts == if old(AbortIn(0)) then [Sent(message)] else []
      ensures View().raised == (old(View()).raised || old(AbortIn(0)) || old(AbortIn(1)))
      ensures Steady()
    {
      hide Observe;
      var o;
      o, at := Act(Sent(message), Broken);
      r := if o.Success? then Ok(()) else Err(FailureOf(o.error));
    }

    /** Sending AGREE (at `sent`), and taking note of its delivery (at `delivered`). */
    method SendAgree() returns (r: Result<(), Failure>, ghost sent: nat, ghost delivered: nat)
      requires Valid() && Idle() && Justified(View())
      modifies this
      ensures r != Err(NeedsReconsent) && Steady()
      ensures r.Ok? <==> AllSucceed(old(outcomes), 1)
      ensures outcomes == Rest(old(outcomes)) && arrivals == old(arrivals)
      ensures Valid() && Idle() && old(trace) <= trace
      ensures Acted(old(View()), View().(agreed := old(View()).agreed), Sent(Agree))
      ensures |old(trace)| <= sent < |trace| && trace[sent] == Sent(Agree)
      ensures Elapsed(old(View()), Observe(trace[..sent]), old(interruptions), Rest(old(interruptions)), 1)
      ensures r.Ok? ==> View().agreed && |old(trace)| <= delivered < |trace| && trace[delivered] == AgreeDelivered
    {
      hide Observe;
      r, sent := Send(Agree);
      delivered := |trace|;
      ghost var before := trace;
      if r.Ok? {
        Note(AgreeDelivered);
      }
      assert trace[..sent] == before[..sent];
    }

    // ----- The handshake -----

    /** The text that a run of Data events brings. */
    ghost function Heard(pieces: seq<seq<byte>>): Text {
      if pieces == [] then [] else Heard(pieces[..|pieces| - 1]) + lossy(pieces[|pieces| - 1])
    }

    /** The first `n` pieces complete the prompt within the size limit. */
    ghost predicate PromptAt(disclaimer: bool, pieces: seq<seq<byte>>, n: nat) {
      && 0 < n <= |pieces| && Prompts(disclaimer, Heard(pieces[..n]))
      && |Heard(pieces[..n])| <= MAX_HANDSHAKE_TEXT
    }

    /** Some of the pieces complete it. */
    ghost predicate Completes(disclaimer: bool, pieces: seq<seq<byte>>) {
      exists n: nat :: PromptAt(disclaimer, pieces, n)
    }

    /** The first `n` do, and no fewer. */
    ghost predicate FirstPrompt(disclaimer: bool, pieces: seq<seq<byte>>, n: nat) {
      PromptAt(disclaimer, pieces, n) && forall m: nat :: m < n ==> !PromptAt(disclaimer, pieces, m)
    }

    /**
     The text of handshake events, up to the first that completes the prompt.
     It fails exactly if the Data events before the first other event do not
     complete it within the size limit.
     */
    method ReceiveText(disclaimer: bool) returns (r: Result<Text, Failure>, ghost n: nat)
      requires Valid() && Idle()
      modifies this
      ensures r != Err(NeedsReconsent) && Steady() && outcomes == old(outcomes)
      ensures Valid() && Idle() && old(trace) <= trace && Interrupted(old(View()), View())
      ensures r.Ok? ==>
                var pieces := DataRun(old(arrivals));
                && FirstPrompt(disclaimer, pieces, n) && r.value == Heard(pieces[..n])
                && arrivals == Drop(old(arrivals), n)
      ensures r.Ok? ==> Elapsed(old(View()), View(), old(interruptions), interruptions, n)
      ensures r.Err? ==> !Completes(disclaimer, DataRun(old(arrivals)))
    {
      hide Observe, Interrupted, Waited, Prompts, DataRun, SendResult, Agrees, Among, Drop, Elapsed;
      hide Rest, NoAborts, NoClears, Steady;
      var text: Text := [];
      n := 0;
      ghost var pieces := DataRun(old(arrivals));
      NotWaited(trace, interruptions);
      NoneGone(arrivals);
      while true
        invariant Valid() && Idle() && Waited(old(trace), trace, old(interruptions), interruptions, n)
        invariant n <= |pieces| && arrivals == Drop(old(arrivals), n)
        invariant text == Heard(pieces[..n]) && |text| <= MAX_HANDSHAKE_TEXT
        invariant forall m: nat :: m <= n ==> !PromptAt(disclaimer, pieces, m)
        invariant outcomes == old(outcomes)
        decreases |pieces| - n
      {
        DataRunAt(old(arrivals), n);
        NextRound(old(arrivals), n);
        HeadOf(old(arrivals), n);
        ghost var before, batches := trace, interruptions;
        var a := Recv();
        WaitedOn(old(trace), before, trace, old(interruptions), batches, interruptions, n);
        AfterWait(n + 1);
        if !a.Bytes? {
          return Err(if a.Lost? then FailureOf(a.error) else ConnectionFailed), n;
        }
        HeardNext(pieces, n);
        var more := lossy(a.bytes);
        if |text| + |more| > MAX_HANDSHAKE_TEXT {
          NoLaterPrompt(disclaimer, pieces, n + 1);
          return Err(ConnectionFailed), n;
        }
        text := text + more;
        n := n + 1;
        if Prompts(disclaimer, text) {
          return Ok(text), n;
        }
      }
    }

    lemma HeardNext(pieces: seq<seq<byte>>, n: nat)
      requires n < |pieces|
      ensures Heard(pieces[..n + 1]) == Heard(pieces[..n]) + lossy(pieces[n])
    {
      assert pieces[..n + 1][..n] == pieces[..n];
    }

    lemma {:induction false} HeardGrows(pieces: seq<seq<byte>>, n: nat, m: nat)
      requires n <= m <= |pieces|
      ensures |Heard(pieces[..n])| <= |Heard(pieces[..m])|
    {
      if n < m {
        HeardGrows(pieces, n, m - 1);
        HeardNext(pieces, m - 1);
      }
    }

    /** Text beyond the limit stays beyond it. */
    lemma NoLaterPrompt(disclaimer: bool, pieces: seq<seq<byte>>, n: nat)
      requires n <= |pieces| && |Heard(pieces[..n])| > MAX_HANDSHAKE_TEXT
      requires forall m: nat :: m < n ==> !PromptAt(disclaimer, pieces, m)
      ensures !Completes(disclaimer, pieces)
    {
      forall m: nat | n <= m <= |pieces|
        ensures !PromptAt(disclaimer, pieces, m)
      {
        HeardGrows(pieces, n, m);
      }
    }

    /** The callsign prompt names the callsign or AGREE; the disclaimer has AGREE in any case. */
    predicate Prompts(disclaimer: bool, text: Text) {
      if disclaimer then Find(upper(text), AGREE_WORD).Some?
      else Find(text, CALLSIGN_WORD).Some? || Find(text, AGREE_WORD).Some?
    }

    /** A prompt, word by word: within 64 KiB, `callsign` or AGREE as they stand, or AGREE in any case. */
    lemma PromptExactly(disclaimer: bool, pieces: seq<seq<byte>>, n: nat)
      ensures PromptAt(disclaimer, pieces, n) <==>
                && 0 < n <= |pieces| && |Heard(pieces[..n])| <= 65_536
                && (disclaimer ==> Contains(upper(Heard(pieces[..n])), Bytes.Text("AGREE")))
                && (!disclaimer ==>
                      || Contains(Heard(pieces[..n]), Bytes.Text("callsign"))
                      || Contains(Heard(pieces[..n]), Bytes.Text("AGREE")))
    {
      assert CALLSIGN_WORD == Bytes.Text("callsign") && AGREE_WORD == Bytes.Text("AGREE");
    }

    method AwaitPromptAndSendCallsign() returns (r: Result<(), Failure>, ghost n: nat)
      requires Valid() && Idle()
      modifies this
      ensures r != Err(NeedsReconsent) && Steady()
      ensures r.Ok? ==>
                && FirstPrompt(false, DataRun(old(arrivals)), n) && AllSucceed(old(outcomes), 1)
                && arrivals == Drop(old(arrivals), n) && outcomes == Rest(old(outcomes))
                && interruptions == Drop(old(interruptions), n + 2)
      ensures r.Err? && AllSucceed(old(outcomes), 1) ==> !Completes(false, DataRun(old(arrivals)))
      ensures Valid() && Idle() && old(trace) <= trace
      ensures Interrupted(old(View()), View()) || Acted(old(View()), View(), Sent(Callsign))
      ensures r.Ok? ==> Acted(old(View()), View(), Sent(Callsign))
    {
      hide Observe, Next, PromptAt, FirstPrompt, Completes, AbortIn, NoAborts, NoClears, DataRun, AllSucceed;
      hide Acted, Interrupted, Elapsed, Drop, Rest;
      var prompt;
      prompt, n := ReceiveText(false);
      if prompt.Err? {
        return Err(prompt.error), n;
      }
      ghost var view, batches, at := View(), interruptions, 0;
      ElapsedMeans(old(View()), view, old(interruptions), batches, n);
      DropTwice(old(interruptions), n, 2);
      RestTwice(batches);
      r, at := Send(Callsign);
      ActedLater(old(View()), view, View(), Sent(Callsign));
    }

    method AwaitDisclaimer() returns (r: Result<Text, Failure>, ghost n: nat)
      requires Valid() && Idle()
      modifies this
      ensures r != Err(NeedsReconsent) && Steady() && outcomes == old(outcomes)
      ensures Valid() && Idle() && old(trace) <= trace
      ensures Acted(old(View()), View(), DisclaimerWait)
      ensures r.Ok? ==> View().disclaimer == Some(r.value)
      ensures r.Ok? ==>
                var pieces := DataRun(old(arrivals));
                && FirstPrompt(true, pieces, n) && r.value == Heard(pieces[..n])
                && arrivals == Drop(old(arrivals), n)
      ensures r.Ok? ==> Elapsed(old(View()), View(), old(interruptions), interruptions, n + 1)
      ensures r.Err? ==> !Completes(true, DataRun(old(arrivals)))
    {
      hide Observe, Next, Agrees, Acted, Interrupted, PromptAt, FirstPrompt, DataRun, Drop, NoAborts, NoClears, Elapsed;
      BeginWait();
      ghost var view, batches := View(), interruptions;
      r, n := ReceiveText(true);
      ActedOn(old(View()), view, View(), DisclaimerWait);
      if r.Ok? {
        ElapsedTwice(old(View()), view, View(), old(interruptions), batches, interruptions, 1, n);
        DisclaimerNoted(old(View()), View(), DisclaimerWait, r.value, old(interruptions), interruptions, n + 1);
        NoteDisclaimer(r.value);
      }
    }

    method BeginWait()
      requires Valid() && Idle()
      modifies this`abort, this`lastAgreed, this`pendingConsent, this`reply, this`trace, this`interruptions
      ensures Valid() && Idle() && old(trace) <= trace && Steady()
      ensures Acted(old(View()), View(), DisclaimerWait)
      ensures Elapsed(old(View()), View(), old(interruptions), interruptions, 1)
    {
      hide Observe, NoAborts, NoClears, Elapsed;
      Interleave();
      ElapsedAlike(old(View()), View(), Next(View(), DisclaimerWait), old(interruptions), interruptions, 1);
      Note(DisclaimerWait);
    }

    ghost method NoteDisclaimer(text: Text)
      requires Valid() && Idle()
      modifies this`trace
      ensures Valid() && Idle() && old(trace) <= trace && Steady()
      ensures View() == Next(old(View()), Disclaimer(text))
    {
      hide Observe, NoAborts, NoClears;
      Note(Disclaimer(text));
    }

    /** Parks the handshake until the operator answers or five minutes pass. */
    method AwaitConsent(text: Text) returns (r: Result<bool, Failure>, ghost n: nat)
      requires Valid() && Idle() && View().disclaimer == Some(text)
      modifies this
      ensures Valid() && Idle() && old(trace) <= trace
      ensures View().state == AwaitingConsent(text) && View().disclaimer == Some(text)
      ensures r == Ok(true) ==> View().accepted
      ensures View().steps == old(View()).steps
      ensures View().requests == old(View()).requests && View().reopens == old(View()).reopens
      ensures r.Ok? ==>
                && AnsweredAfter(Rest(old(interruptions)), old(outcomes), n, r.value)
                && outcomes == Drop(old(outcomes), n + 1)
      ensures r.Err? ==> !Answerable(Rest(old(interruptions)), old(outcomes))
    {
      hide Observe, AbortIn, Elapsed, NoAborts, NoClears, Steady, AnsweredAfter, Answerable;
      Interleave();
      pendingConsent, reply := true, None;
      connectionState := AwaitingConsent(text);
      Note(State(connectionState));
      r, n := AwaitAnswer();
    }

    /** The wait itself, round by round. */
    method AwaitAnswer() returns (r: Result<bool, Failure>, ghost n: nat)
      requires Valid() && pendingConsent
      modifies this
      ensures Valid() && Idle() && old(trace) <= trace && Interrupted(old(View()), View())
      ensures r == Ok(true) ==> View().accepted
      ensures r.Ok? ==>
                && AnsweredAfter(old(interruptions), old(outcomes), n, r.value)
                && outcomes == Drop(old(outcomes), n + 1)
      ensures r.Err? ==> !Answerable(old(interruptions), old(outcomes))
    {
      hide Observe, Interrupted, AbortIn, Elapsed, NoAborts, NoClears, FirstAnswer, Batch, Drop, Steady;
      n := 0;
      NotInterrupted(View());
      NoneGone(outcomes);
      NoneGone(interruptions);
      while true
        invariant Valid() && old(trace) <= trace && pendingConsent && Interrupted(old(View()), View())
        invariant outcomes == Drop(old(outcomes), n) && interruptions == Drop(old(interruptions), n)
        invariant NoAnswer(old(interruptions), old(outcomes), n)
        decreases |outcomes|
      {
        NextRound(old(outcomes), n);
        NextRound(old(interruptions), n);
        NextBatch(old(interruptions), n);
        HeadOf(old(outcomes), n);
        var ended := outcomes == [];
        ghost var view := View();
        var o := Await(Expired);
        InterruptedTwice(old(View()), view, View());
        if reply.Some? {
          r := Ok(reply.value);
          reply := None;
          return;
        }
        if ended || o == Fails(Expired) {
          pendingConsent := false;
          return Err(ConnectionFailed), n;
        }
        n := n + 1;
      }
    }

    method PerformBpqHandshake() returns (r: Result<(), Failure>, ghost n: nat, ghost m: nat, ghost k: nat)
      requires Valid() && Idle()
      modifies this
      ensures Valid() && Idle() && old(trace) <= trace
      ensures r.Ok? ==> View().agreed && View().steps == old(View()).steps + HandshakeSteps(skipBpqApp)
      ensures View().requests == old(View()).requests && View().reopens == old(View()).reopens
      ensures r.Ok? ==> Agreed(old(outcomes), old(arrivals), old(interruptions), n, m, k)
      ensures r.Err? ==> !Agreeable(old(outcomes), old(arrivals), old(interruptions))
    {
      hide Observe, PromptAt, FirstPrompt, DataRun, AbortIn, SendResult, Elapsed, NoAborts, NoClears, Steady, Agrees;
      hide HandshakeSteps, AllSucceed, Drop, Rest, Completes, Next;
      hide Agreed, Agreeable, Acceptable, AcceptedAfter, ConsentBatches;
      JoinSteps(View().steps, skipBpqApp);
      AgreedNeeds(outcomes, arrivals, interruptions);
      n, m, k := 0, 0, 0;
      r, n := CallServer();
      if r.Err? {
        return;
      }
      AgreedBehind(old(outcomes), old(arrivals), old(interruptions), n);
      ghost var view, batches := View(), interruptions;
      var text;
      text, m := AwaitDisclaimer();
      if text.Err? {
        return Err(text.error), n, m, k;
      }
      ElapsedMeans(view, View(), batches, interruptions, m + 1);
      AgreedAt(old(outcomes), old(arrivals), old(interruptions), n, m);
      r, k := AskOperator(text.value);
    }

    /** The application command, unless it is skipped, and the callsign. */
    method CallServer() returns (r: Result<(), Failure>, ghost n: nat)
      requires Valid() && Idle()
      modifies this
      ensures Valid() && Idle() && old(trace) <= trace
      ensures View().requests == old(View()).requests && View().reopens == old(View()).reopens
      ensures r.Ok? ==>
                View().steps == (if skipBpqApp then old(View()).steps else old(View()).steps + [Sent(AppCommand)])
                                + [Sent(Callsign)]
      ensures r.Ok? ==>
                && FirstPrompt(false, DataRun(old(arrivals)), n) && AllSucceed(old(outcomes), CallOperations() - 1)
                && arrivals == Drop(old(arrivals), n) && outcomes == Drop(old(outcomes), CallOperations() - 1)
                && interruptions == Drop(old(interruptions), 2 * (CallOperations() - 1) + n)
      ensures r.Err? && AllSucceed(old(outcomes), CallOperations() - 1) ==>
                !Completes(false, DataRun(old(arrivals)))
    {
      hide Observe, PromptAt, FirstPrompt, DataRun, AbortIn, SendResult, Elapsed, NoAborts, NoClears, Steady;
      hide AllSucceed, Drop, Rest, Agrees;
      SucceedFirst(outcomes, 1);
      RestIsDrop(outcomes);
      n := 0;
      if !skipBpqApp {
        RestIsDrop(Rest(outcomes));
        RestTwice(interruptions);
        ghost var at;
        r, at := Send(AppCommand);
        if r.Err? {
          return;
        }
      }
      ghost var batches := interruptions;
      r, n := AwaitPromptAndSendCallsign();
      DropTwice(old(interruptions), 2, n + 2);
    }

    /** The operator's consent, and AGREE. */
    method AskOperator(text: Text) returns (r: Result<(), Failure>, ghost k: nat)
      requires Valid() && Idle() && View().disclaimer == Some(text)
      modifies this
      ensures Valid() && Idle() && old(trace) <= trace
      ensures View().requests == old(View()).requests && View().reopens == old(View()).reopens
      ensures r.Ok? ==> View().agreed && View().steps == old(View()).steps + [Sent(Agree)]
      ensures r.Ok? ==> AcceptedAfter(Rest(old(interruptions)), old(outcomes), k)
      ensures r.Err? ==> !Acceptable(Rest(old(interruptions)), old(outcomes))
    {
      hide Observe, AbortIn, SendResult, Elapsed, NoAborts, NoClears, Steady, AllSucceed, Drop, AnsweredAfter, Agrees;
      hide Answerable, Acceptable;
      ghost var batches := Rest(interruptions);
      var consent;
      consent, k := AwaitConsent(text);
      if consent.Ok? {
        OneAnswer(batches, old(outcomes), k, consent.value);
      }
      if consent.Err? {
        NoneAccepted(batches, old(outcomes));
      }
      if consent != Ok(true) {
        return Err(ConnectionFailed), k;
      }
      ghost var sent, delivered;
      r, sent, delivered := SendAgree();
    }

    /** What is awaited up to the callsign: the link, the application command unless it is skipped, and the callsign. */
    function CallOperations(): nat {
      if skipBpqApp then 2 else 3
    }

    /** The callsign prompt is complete with the next `n` events, and the disclaimer with `m` events behind it. */
    ghost predicate Prompted(events: seq<Arrival>, n: nat, m: nat) {
      FirstPrompt(false, DataRun(events), n) && FirstPrompt(true, DataRun(Drop(events, n)), m)
    }

    /** A handshake comes to its end: what it sends goes out, both prompts come, the operator accepts in round `k`. */
    ghost predicate Agreed(outcomes: seq<Outcome>, events: seq<Arrival>, batches: seq<seq<Op>>, n: nat, m: nat,
                           k: nat) {
      && AllSucceed(outcomes, CallOperations() - 1) && Prompted(events, n, m)
      && AcceptedAfter(ConsentBatches(batches, n, m), Drop(outcomes, CallOperations() - 1), k)
    }

    ghost predicate Agreeable(outcomes: seq<Outcome>, events: seq<Arrival>, batches: seq<seq<Op>>) {
      exists n: nat, m: nat, k: nat :: Agreed(outcomes, events, batches, n, m, k)
    }

    /** The batches that come while the operator is asked: two go by with each send, one with each event. */
    function ConsentBatches(batches: seq<seq<Op>>, n: nat, m: nat): seq<seq<Op>> {
      Drop(batches, 2 * (CallOperations() - 1) + n + m + 2)
    }

    /** It takes a prompt for the callsign, */
    lemma AgreedNeeds(outcomes: seq<Outcome>, events: seq<Arrival>, batches: seq<seq<Op>>)
      ensures Agreeable(outcomes, events, batches) ==>
                AllSucceed(outcomes, CallOperations() - 1) && Completes(false, DataRun(events))
    {
      hide AllSucceed, PromptAt, DataRun, AcceptedAfter;
    }

    /** a disclaimer behind it, */
    lemma AgreedBehind(outcomes: seq<Outcome>, events: seq<Arrival>, batches: seq<seq<Op>>, n: nat)
      requires FirstPrompt(false, DataRun(events), n)
      ensures Agreeable(outcomes, events, batches) ==> Completes(true, DataRun(Drop(events, n)))
    {
      hide AllSucceed, PromptAt, DataRun, AcceptedAfter;
    }

    /** and the operator. */
    lemma AgreedAt(outcomes: seq<Outcome>, events: seq<Arrival>, batches: seq<seq<Op>>, n: nat, m: nat)
      requires FirstPrompt(false, DataRun(events), n) && FirstPrompt(true, DataRun(Drop(events, n)), m)
      requires AllSucceed(outcomes, CallOperations() - 1)
      ensures var later := Rest(Drop(Drop(batches, 2 * (CallOperations() - 1) + n), m + 1));
              && (forall k: nat :: AcceptedAfter(later, Drop(outcomes, CallOperations() - 1), k) ==>
                    Agreed(outcomes, events, batches, n, m, k))
              && (Agreeable(outcomes, events, batches) ==> Acceptable(later, Drop(outcomes, CallOperations() - 1)))
    {
      hide AllSucceed, PromptAt, DataRun, AcceptedAfter, Acceptable, Drop, Rest, ConsentBatches;
      LaterBatches(batches, n, m);
      var out := Drop(outcomes, CallOperations() - 1);
      if Agreeable(outcomes, events, batches) {
        var i: nat, j: nat, k: nat :| Agreed(outcomes, events, batches, i, j, k);
        assert i == n && j == m;
        AcceptedSome(ConsentBatches(batches, n, m), out, k);
      }
    }

    lemma LaterBatches(batches: seq<seq<Op>>, n: nat, m: nat)
      ensures Rest(Drop(Drop(batches, 2 * (CallOperations() - 1) + n), m + 1)) == ConsentBatches(batches, n, m)
    {
      hide Drop, Rest;
      DropTwice(batches, 2 * (CallOperations() - 1) + n, m + 1);
      NextRound(batches, 2 * (CallOperations() - 1) + n + m + 1);
    }

    lemma AcceptedSome(batches: seq<seq<Op>>, outcomes: seq<Outcome>, k: nat)
      requires AcceptedAfter(batches, outcomes, k)
      ensures Acceptable(batches, outcomes)
    {
      hide AcceptedAfter;
    }

    // ----- Requests -----

    /**
     The operator's disconnect comes right after `checks` looks at the flag and
     before the send; the request still goes out, and its session dies at once.
     */
    ghost predicate Race(checks: nat)
      reads this
    {
      && (forall i :: 0 <= i < checks ==> !AbortIn(i)) && AbortIn(checks)
      && SendResult(outcomes).Ok? && DiesAtOnce(arrivals)
    }

    /** Sends a request (at `at`) and rebuilds the response. */
    method HandleSendRequest(data: seq<byte>) returns (r: Result<seq<byte>, Failure>, ghost at: nat)
      requires Valid() && Idle()
      modifies this
      ensures Valid() && Idle() && old(trace) <= trace && View().state == old(View()).state
      ensures Interrupted(old(View()), View()) || Acted(old(View()), View(), Sent(Request(data)))
      ensures old(View()).raised ==> Interrupted(old(View()), View()) && r == Err(DisconnectedByOperator)
      ensures View().requests > old(View()).requests ==>
                && |old(trace)| <= at < |trace| && trace[at] == Sent(Request(data))
                && Interrupted(old(View()), Observe(trace[..at]))
      ensures r.Ok? ==> Acted(old(View()), View(), Sent(Request(data)))
      ensures r == CallResult(old(outcomes), old(arrivals)) || (r == Err(DisconnectedByOperator) && View().raised)
      ensures !View().raised ==> r == CallResult(old(outcomes), old(arrivals))
      ensures r.Ok? ==> outcomes == Rest(old(outcomes)) && arrivals == Drop(old(arrivals), Used(old(arrivals)))
      ensures Steady()
      ensures !View().raised ==> outcomes == Rest(old(outcomes))
      ensures !View().raised || r != Err(DisconnectedByOperator) ==> View().requests == old(View()).requests + 1
      ensures !View().raised && AllSucceed(old(outcomes), 1) ==> (r == Err(SessionDied) <==> Dies(old(arrivals)))
      ensures !View().raised && SendResult(old(outcomes)).Ok? ==> arrivals == Drop(old(arrivals), Used(old(arrivals)))
      ensures !old(View()).raised ==>
                View().acts == if !old(AbortIn(0)) && old(AbortIn(1)) then [Sent(Request(data))] else []
      ensures !old(View()).raised && View().acts != [] ==> View().raised && (r == Err(SessionDied) <==> old(Race(1)))
    {
      hide Observe, AbortIn, NoAborts, Answer, Used, DiesAtOnce, Dies, Elapsed;
      at := 0;
      SendOrFail(outcomes, arrivals);
      var aborted := IsAborted();
      if aborted {
        return Err(DisconnectedByOperator), at;
      }
      AbortsShift();
      var sent;
      sent, at := Send(Request(data));
      if sent.Err? {
        return Err(sent.error), at;
      }
      ghost var before := trace;
      r := AwaitResponse();
      assert trace[..at] == before[..at];
    }

    /**
     The receive loop: unless the operator aborts it, it returns what the Data
     events that arrive come to, and takes no event after the one that
     completes the response.
     */
    method AwaitResponse() returns (r: Result<seq<byte>, Failure>)
      requires Valid() && Idle()
      modifies this
      ensures Valid() && Idle() && old(trace) <= trace && Interrupted(old(View()), View())
      ensures r == Answer(old(arrivals)) || (r == Err(DisconnectedByOperator) && View().raised)
      ensures !View().raised ==> r == Answer(old(arrivals))
      ensures r.Ok? || !View().raised ==> arrivals == Drop(old(arrivals), Used(old(arrivals)))
      ensures outcomes == old(outcomes)
      ensures Steady()
      ensures old(View()).raised ==> (r == Err(SessionDied) <==> DiesAtOnce(old(arrivals)))
    {
      hide Observe, Interrupted, Waited, AbortIn, NoAborts, NoClears, Steady, Agrees, Elapsed;
      hide Drop, Rest, DataRun, Answer, Used, WaitingAt, ResultOf;
      hide Reassembly.Receive, Reassembly.Announced, Reassembly.Feed, Teardown.IsSessionDead;
      var responseData: seq<byte> := [];
      var frame: Option<Reassembly.Frame> := None;
      ghost var pieces, n: nat := DataRun(old(arrivals)), 0;
      NothingReceived(pieces);
      NotWaited(trace, interruptions);
      NoneGone(arrivals);
      while true
        invariant Valid() && Idle() && Waited(old(trace), trace, old(interruptions), interruptions, 2 * n)
        invariant n <= |pieces| && arrivals == Drop(old(arrivals), n) && outcomes == old(outcomes)
        invariant WaitingAt(pieces, n, responseData, frame) && (n == 0 ==> frame == None)
        invariant old(View()).raised ==> n == 0 && responseData == [] && View().raised
        decreases |pieces| - n
      {
        DataRunAt(old(arrivals), n);
        NextRound(old(arrivals), n);
        HeadOf(old(arrivals), n);
        ghost var before, batches := trace, interruptions;
        var a := Recv();
        WaitedOn(old(trace), before, trace, old(interruptions), batches, interruptions, 2 * n);
        AfterWait(2 * n + 1);
        if !a.Bytes? {
          EventEnds(old(arrivals), n, responseData, frame);
          return Err(if a.PeerGone? || a.error == Expired then SessionDied else FailureOf(a.error));
        }
        var bytes := a.bytes;
        PieceCases(old(arrivals), n, responseData, frame);
        if |responseData| + |bytes| > Reassembly.MAX_RESPONSE_SIZE {
          return Err(InvalidFrame);
        }
        assert [] + bytes == bytes;
        responseData := responseData + bytes;
        if Teardown.IsSessionDead(responseData) {
          return Err(SessionDied);
        }
        before, batches := trace, interruptions;
        var aborted := IsAborted();
        WaitedOn(old(trace), before, trace, old(interruptions), batches, interruptions, 2 * n + 1);
        AfterWait(2 * n + 2);
        if aborted {
          return Err(DisconnectedByOperator);
        }
        n := n + 1;
        if frame.None? {
          var known := LookForHeader(responseData);
          if known.Err? {
            return Err(SessionDied);
          }
          frame := known.value;
        }
        if frame.Some? && |responseData| >= frame.value.start + frame.value.len {
          return Ok(responseData);
        }
      }
    }

    /** Where the response lies, once its header is in; too much text without one is no session any more. */
    method LookForHeader(data: seq<byte>) returns (known: Result<Option<Reassembly.Frame>, ()>)
      ensures known == Reassembly.Announced(data)
    {
      match ResponseCodec.DecodeHeader(data) {
        case Header(_, len, _, _, end) =>
          return Ok(Some(Reassembly.Frame(len, end)));
        case NeedMore =>
          if Find(data, ResponseCodec.MAGIC).None? && |data| > Reassembly.MAX_NOISE {
            return Err(());
          }
          return Ok(None);
        case Invalid =>
          return Err(());
      }
    }

    /**
     A session: one call per request. When the operator stays, every request is
     sent, and the Data events to come are those of a conversation with the
     server, cut and leaked between calls in any way, then call k returns a
     buffer that decodes to exactly response k.
     */
    method Converse(requests: seq<seq<byte>>, ghost pending: seq<byte>, ghost run: seq<Reassembly.Exchange>)
      returns (replies: seq<Result<seq<byte>, Failure>>)
      requires Valid() && Idle() && !View().raised && NoAborts()
      requires |run| == |requests| && Reassembly.Conversation(pending, run)
      requires Reassembly.Harmless(pending) && |pending| + 3 <= Reassembly.MAX_NOISE
      requires |outcomes| >= |requests| && forall i :: 0 <= i < |requests| ==> outcomes[i].Success?
      requires TakenEvents(run) <= arrivals
      modifies this
      ensures Valid() && Idle() && old(trace) <= trace
      ensures |replies| == |requests|
      ensures forall k :: 0 <= k < |run| ==>
                replies[k].Ok? && ResponseCodec.Carries(replies[k].value, run[k].response)
    {
      hide *;
      replies := [];
      ghost var before := pending;
      assert run[0..] == run;
      for i := 0 to |requests|
        invariant Valid() && Idle() && old(trace) <= trace && !View().raised && NoAborts()
        invariant Reassembly.Conversation(before, run[i..])
        invariant Reassembly.Harmless(before) && |before| + 3 <= Reassembly.MAX_NOISE
        invariant |outcomes| >= |requests| - i && forall j :: 0 <= j < |requests| - i ==> outcomes[j].Success?
        invariant TakenEvents(run[i..]) <= arrivals
        invariant |replies| == i
        invariant forall k :: 0 <= k < i ==>
                    replies[k].Ok? && ResponseCodec.Carries(replies[k].value, run[k].response)
      {
        before := TurnTaken(before, run[i..], arrivals);
        SendOk(outcomes, arrivals);
        label call:
        var reply, at := HandleSendRequest(requests[i]);
        StaysDown@call();
        replies := replies + [reply];
        assert run[i..][0] == run[i] && run[i..][1..] == run[i + 1..];
      }
    }

    // ----- Reconnecting -----

    /** Whether the stored agreement is this text, byte for byte, at this moment. */
    method StoredMatches(disclaimer: Text) returns (matched: bool)
      requires Valid() && Idle() && View().disclaimer == Some(disclaimer)
      modifies this
      ensures Valid() && Idle() && old(trace) <= trace
      ensures Interrupted(old(View()).(read := View().read), View())
      ensures matched <==> View().read
      ensures Steady() && outcomes == old(outcomes) && arrivals == old(arrivals)
      ensures Elapsed(old(View()), View(), old(interruptions), interruptions, 1)
      ensures matched <==> View().stored == Some(disclaimer)
    {
      hide Observe;
      Interleave();
      matched := MatchesStoredDisclaimer(disclaimer, lastAgreed);
      Note(ConsentRead);
    }

    /** What is awaited in a reconnect: the reopening, the link, the call, and AGREE. */
    function Operations(): nat {
      CallOperations() + 2
    }

    /** Both prompts come, and the disclaimer is the stored agreement. */
    ghost predicate Covered(stored: Option<Text>, events: seq<Arrival>, n: nat, m: nat) {
      Prompted(events, n, m) && stored == Some(Heard(DataRun(Drop(events, n))[..m]))
    }

    ghost predicate Coverable(stored: Option<Text>, events: seq<Arrival>) {
      exists n: nat, m: nat :: Covered(stored, events, n, m)
    }

    /** The disclaimer is the stored agreement. */
    ghost predicate Matches(stored: Option<Text>, pieces: seq<seq<byte>>) {
      exists m: nat :: FirstPrompt(true, pieces, m) && stored == Some(Heard(pieces[..m]))
    }

    /** Both prompts come, but the disclaimer is not the stored agreement: the operator has to be asked. */
    ghost predicate Differs(stored: Option<Text>, events: seq<Arrival>) {
      exists n: nat ::
        && FirstPrompt(false, DataRun(events), n) && Completes(true, DataRun(Drop(events, n)))
        && !Matches(stored, DataRun(Drop(events, n)))
    }

    /** From the reopened modem connection to AGREE, looking at the abort flag after every step. */
    method Reconnect() returns (r: Result<(), Failure>, ghost at: nat, ghost n: nat, ghost m: nat)
      requires Valid() && Idle()
      modifies this
      ensures Valid() && Idle() && old(trace) <= trace && Steady()
      ensures View().requests == old(View()).requests && View().reopens == old(View()).reopens + 1
      ensures old(View()).raised ==> View().acts == old(View()).acts + [Reopen] && r.Err?
      ensures !old(View()).raised ==> |View().acts| <= 1
      ensures r.Ok? ==> View().state == Connected && View().steps == [LinkOpen] + HandshakeSteps(skipBpqApp)
      ensures r == Err(NeedsReconsent) ==> View().state.AwaitingConsent? && !View().read
      ensures r.Ok? ==> View().agreed && |old(trace)| <= at < |trace| && trace[at] == AgreeDelivered
      ensures r.Ok? ==>
                && Covered(old(View()).stored, old(arrivals), n, m) && AllSucceed(old(outcomes), Operations())
                && outcomes == Drop(old(outcomes), Operations()) && arrivals == Drop(old(arrivals), n + m)
      ensures r == Err(NeedsReconsent) ==>
                && Prompted(old(arrivals), n, m)
                && View().state == AwaitingConsent(Heard(DataRun(Drop(old(arrivals), n))[..m]))
      ensures old(Undisturbed()) ==>
                (r == Err(NeedsReconsent) <==>
                   AllSucceed(old(outcomes), CallOperations() + 1) && Differs(old(View()).stored, old(arrivals)))
      ensures r.Err? && old(Undisturbed()) && AllSucceed(old(outcomes), Operations()) ==>
                !Coverable(old(View()).stored, old(arrivals))
    {
      hide Observe, AbortIn, NoAborts, NoClears, Covered, Coverable, Differs, Prompted, AllSucceed, Drop, Rest;
      at, n, m := 0, 0, 0;
      SucceedFirst(outcomes, CallOperations() + 1);
      SucceedFirst(outcomes, CallOperations());
      NeedsStored(arrivals);
      r := ReopenModemConnection();
      if r.Err? {
        return;
      }
      SetState(Reconnecting);
      var aborted := IsAborted();
      if aborted {
        return Err(DisconnectedByOperator), at, n, m;
      }
      StaysUndisturbed();
      r, at, n, m := CallAgain();
    }

    /** The part on the link, with the agreement the operator gave before. */
    method CallAgain() returns (r: Result<(), Failure>, ghost at: nat, ghost n: nat, ghost m: nat)
      requires Valid() && Idle() && !View().raised && View().state != Connected
      modifies this
      ensures Valid() && Idle() && old(trace) <= trace && Steady()
      ensures View().requests == old(View()).requests && View().reopens == old(View()).reopens
      ensures |View().acts| <= 1
      ensures r.Ok? ==> View().state == Connected && View().steps == [LinkOpen] + HandshakeSteps(skipBpqApp)
      ensures r == Err(NeedsReconsent) ==> View().state.AwaitingConsent? && !View().read
      ensures r.Ok? ==> View().agreed && |old(trace)| <= at < |trace| && trace[at] == AgreeDelivered
      ensures r.Ok? ==>
                && Covered(old(View()).stored, old(arrivals), n, m) && AllSucceed(old(outcomes), CallOperations() + 1)
                && outcomes == Drop(old(outcomes), CallOperations() + 1) && arrivals == Drop(old(arrivals), n + m)
      ensures r == Err(NeedsReconsent) ==>
                && Prompted(old(arrivals), n, m)
                && View().state == AwaitingConsent(Heard(DataRun(Drop(old(arrivals), n))[..m]))
      ensures old(Undisturbed()) ==>
                (r == Err(NeedsReconsent) <==>
                   AllSucceed(old(outcomes), CallOperations()) && Differs(old(View()).stored, old(arrivals)))
      ensures r.Err? && old(Undisturbed()) && AllSucceed(old(outcomes), CallOperations() + 1) ==>
                !Coverable(old(View()).stored, old(arrivals))
    {
      hide Observe, AbortIn, NoAborts, Elapsed, PromptAt, FirstPrompt, AgreesAfter, DataRun;
      hide Covered, Coverable, Matches, Differs, AllSucceed, AgreesUnasked, Completes;
      hide Drop, Rest, Heard, HandshakeSteps, NoClears;
      at, n, m := 0, 0, 0;
      SucceedTwice(outcomes, CallOperations(), 1);
      RestIsDrop(Drop(outcomes, CallOperations()));
      CoveredNeeds(View().stored, arrivals);
      DiffersNeeds(View().stored, arrivals);
      r, n := OpenAndCall();
      if r.Err? {
        return;
      }
      ghost var sent;
      CoveredBehind(old(View()).stored, old(arrivals), n);
      DiffersAt(old(View()).stored, old(arrivals), n);
      ConsentUndisturbed(View().stored, DataRun(arrivals));
      StaysUndisturbed();
      r, at, sent, m := AutoConsent();
      DropTwice(old(arrivals), n, m);
    }

    twostate lemma StaysUndisturbed()
      requires Steady() && old(Idle())
      ensures old(Undisturbed()) ==> Undisturbed() && View().stored == old(View()).stored
    {
    }

    /** Nothing stops the actor or takes the agreement away from it. */
    ghost predicate Undisturbed()
      reads this
    {
      !View().raised && NoAborts() && NoClears()
    }

    /** It takes a prompt for the callsign, and behind it the stored disclaimer. */
    lemma CoveredNeeds(stored: Option<Text>, events: seq<Arrival>)
      ensures Coverable(stored, events) ==> Completes(false, DataRun(events))
    {
      hide PromptAt, DataRun;
    }

    lemma CoveredBehind(stored: Option<Text>, events: seq<Arrival>, n: nat)
      requires FirstPrompt(false, DataRun(events), n)
      ensures Coverable(stored, events) ==> Matches(stored, DataRun(Drop(events, n)))
      ensures forall m: nat ::
                && FirstPrompt(true, DataRun(Drop(events, n)), m)
                && stored == Some(Heard(DataRun(Drop(events, n))[..m])) ==>
                  Covered(stored, events, n, m)
    {
      hide PromptAt, DataRun;
    }

    lemma DiffersNeeds(stored: Option<Text>, events: seq<Arrival>)
      ensures Differs(stored, events) ==> Completes(false, DataRun(events))
    {
      hide PromptAt, DataRun, Matches;
    }

    lemma DiffersAt(stored: Option<Text>, events: seq<Arrival>, n: nat)
      requires FirstPrompt(false, DataRun(events), n)
      ensures Differs(stored, events) <==>
              Completes(true, DataRun(Drop(events, n))) && !Matches(stored, DataRun(Drop(events, n)))
    {
      hide PromptAt, DataRun, Matches, Completes;
    }

    lemma MatchesAt(stored: Option<Text>, pieces: seq<seq<byte>>, n: nat)
      requires FirstPrompt(true, pieces, n)
      ensures Completes(true, pieces) && (Matches(stored, pieces) <==> stored == Some(Heard(pieces[..n])))
    {
      hide PromptAt;
    }

    lemma NeedsStored(events: seq<Arrival>)
      ensures forall n: nat, m: nat :: !Covered(None, events, n, m)
      ensures !Coverable(None, events)
    {
      hide Prompted;
    }

    /** Undisturbed, AGREE goes out exactly for the stored disclaimer. */
    lemma ConsentUndisturbed(stored: Option<Text>, pieces: seq<seq<byte>>)
      ensures forall m: nat :: AgreesAfter(stored, pieces, interruptions, m) ==>
                FirstPrompt(true, pieces, m) && stored == Some(Heard(pieces[..m]))
      ensures NoAborts() && NoClears() && Matches(stored, pieces) ==> AgreesUnasked(stored, pieces, interruptions)
    {
      if NoAborts() && NoClears() && Matches(stored, pieces) {
        var m: nat :| FirstPrompt(true, pieces, m) && stored == Some(Heard(pieces[..m]));
        assert AgreesAfter(stored, pieces, interruptions, m);
      }
    }

    /** The middle part of a reconnect: the link, the application and the callsign. */
    method OpenAndCall() returns (r: Result<(), Failure>, ghost n: nat)
      requires Valid() && Idle() && !View().raised && View().state != Connected
      modifies this
      ensures Valid() && Idle() && old(trace) <= trace && Steady()
      ensures View().requests == old(View()).requests && View().reopens == old(View()).reopens
      ensures r.Ok? ==>
                && FirstPrompt(false, DataRun(old(arrivals)), n) && AllSucceed(old(outcomes), CallOperations())
                && arrivals == Drop(old(arrivals), n) && outcomes == Drop(old(outcomes), CallOperations())
      ensures r.Err? && old(NoAborts()) && AllSucceed(old(outcomes), CallOperations()) ==>
                !Completes(false, DataRun(old(arrivals)))
      ensures |View().acts| <= 1 && (r.Ok? ==> !View().raised) && r != Err(NeedsReconsent)
      ensures r.Ok? ==> View().steps + [DisclaimerWait, Sent(Agree)] == [LinkOpen] + HandshakeSteps(skipBpqApp)
    {
      hide Observe, PromptAt, FirstPrompt, DataRun, AbortIn, NoAborts, NoClears, HandshakeSteps, Elapsed;
      hide AllSucceed, Drop;
      OpenSteps(skipBpqApp);
      SucceedTwice(outcomes, CallOperations() - 1, 1);
      n := 0;
      r := OpenApplication();
      if r.Err? {
        return;
      }
      RestIsDrop(outcomes);
      r, n := AwaitPromptAndSendCallsign();
      if r.Err? {
        return;
      }
      var aborted := IsAborted();
      if aborted {
        return Err(DisconnectedByOperator), n;
      }
    }

    /** The link and the application. */
    method OpenApplication() returns (r: Result<(), Failure>)
      requires Valid() && Idle() && !View().raised && View().state != Connected
      modifies this
      ensures Valid() && Idle() && old(trace) <= trace && Steady()
      ensures View().requests == old(View()).requests && View().reopens == old(View()).reopens
      ensures r.Ok? ==> AllSucceed(old(outcomes), CallOperations() - 1)
      ensures r.Ok? ==> outcomes == Drop(old(outcomes), CallOperations() - 1) && arrivals == old(arrivals)
      ensures r.Err? && old(NoAborts()) ==> !AllSucceed(old(outcomes), CallOperations() - 1)
      ensures |View().acts| <= 1 && (r.Ok? ==> !View().raised) && r != Err(NeedsReconsent)
      ensures r.Ok? ==> View().steps == if skipBpqApp then [LinkOpen] else [LinkOpen] + [Sent(AppCommand)]
    {
      hide Observe, AbortIn, NoAborts, NoClears, SendResult, Elapsed, AllSucceed, Drop;
      RestIsDrop(outcomes);
      SucceedFirst(outcomes, 1);
      r := OpenLink();
      if r.Err? {
        return;
      }
      var aborted := IsAborted();
      if aborted {
        return Err(DisconnectedByOperator);
      }
      if !skipBpqApp {
        RestIsDrop(outcomes);
        ghost var at;
        r, at := Send(AppCommand);
        if r.Err? {
          return;
        }
        aborted := IsAborted();
        if aborted {
          return Err(DisconnectedByOperator);
        }
      }
    }

    /** The last part of a reconnect: the disclaimer, the comparison with the stored agreement, and AGREE. */
    method AutoConsent() returns (r: Result<(), Failure>, ghost at: nat, ghost sent: Option<nat>, ghost n: nat)
      requires Valid() && Idle() && !View().raised
      modifies this
      ensures Valid() && Idle() && old(trace) <= trace
      ensures View().requests == old(View()).requests && View().reopens == old(View()).reopens
      ensures |View().acts| <= 1 && Steady()
      ensures r.Ok? <==> sent.Some? && AllSucceed(old(outcomes), 1)
      ensures r.Ok? ==> outcomes == Rest(old(outcomes)) && arrivals == Drop(old(arrivals), n)
      ensures r.Ok? ==> View().agreed && |old(trace)| <= at < |trace| && trace[at] == AgreeDelivered
      ensures r.Ok? ==> View().state == Connected
      ensures r.Ok? ==> View().steps == old(View()).steps + [DisclaimerWait, Sent(Agree)]
      ensures r == Err(NeedsReconsent) ==> View().state.AwaitingConsent? && !View().read
      ensures r == Err(NeedsReconsent) ==>
                && FirstPrompt(true, DataRun(old(arrivals)), n)
                && View().state == AwaitingConsent(Heard(DataRun(old(arrivals))[..n]))
      ensures old(Undisturbed()) ==>
                (r == Err(NeedsReconsent) <==>
                   && Completes(true, DataRun(old(arrivals)))
                   && !Matches(old(View()).stored, DataRun(old(arrivals))))
      ensures sent.None? ==> View().steps == old(View()).steps + [DisclaimerWait]
      ensures sent.None? ==>
                !AgreesUnasked(old(View()).stored, DataRun(old(arrivals)), old(interruptions))
      ensures sent.Some? ==>
                && AgreesAfter(old(View()).stored, DataRun(old(arrivals)), old(interruptions), n)
                && |old(trace)| <= sent.value < |trace| && trace[sent.value] == Sent(Agree)
                && Observe(trace[..sent.value]).stored ==
                   (if Among(ClearAgreed, Drop(old(interruptions), n + 3), 2) then None else old(View()).stored)
    {
      hide Observe, PromptAt, FirstPrompt, AbortIn, Rest, SendResult, DataRun, Among, Drop, NoAborts;
      hide AgreesAfter, AgreesUnasked, Completes, Matches, Elapsed, NoClears;
      at, sent := 0, None;
      var matched, text;
      matched, text, n := CompareDisclaimer();
      if matched.Err? {
        return Err(matched.error), at, sent, n;
      }
      MatchesAt(old(View()).stored, DataRun(old(arrivals)), n);
      StaysUndisturbed();
      AgreesOrNot(old(View()), View(), DataRun(old(arrivals)), old(interruptions), interruptions, n);
      if !matched.value {
        SetState(AwaitingConsent(text));
        return Err(NeedsReconsent), at, sent, n;
      }
      r, at, sent := AutoAgree();
    }

    /** Waits for the disclaimer and reads whether it is the stored agreement. */
    method CompareDisclaimer() returns (r: Result<bool, Failure>, text: Text, ghost n: nat)
      requires Valid() && Idle() && !View().raised
      modifies this
      ensures Valid() && Idle() && old(trace) <= trace && r != Err(NeedsReconsent)
      ensures Steady() && outcomes == old(outcomes)
      ensures View().requests == old(View()).requests && View().reopens == old(View()).reopens
      ensures |View().acts| <= 1 && (r.Ok? ==> View().acts == [] && View().disclaimer == Some(text))
      ensures View().steps == old(View()).steps + [DisclaimerWait] && (r.Ok? ==> r.value == View().read)
      ensures r.Ok? ==>
                && Elapsed(old(View()), View(), old(interruptions), interruptions, n + 3)
                && FirstPrompt(true, DataRun(old(arrivals)), n) && text == Heard(DataRun(old(arrivals))[..n])
                && arrivals == Drop(old(arrivals), n)
                && !Among(RaiseAbort, old(interruptions), n + 2) && r.value == (View().stored == Some(text))
      ensures r.Err? && old(NoAborts()) ==> !Completes(true, DataRun(old(arrivals)))
      ensures r.Err? ==>
                !AgreesUnasked(old(View()).stored, DataRun(old(arrivals)), old(interruptions))
    {
      hide Observe, PromptAt, FirstPrompt, AbortIn, Rest, SendResult, DataRun, Among, Drop, NoAborts;
      hide Acted, NoClears, AgreesAfter, AgreesUnasked, Completes, Elapsed, Waited, Agrees, Next;
      var disclaimer;
      disclaimer, n := AwaitDisclaimer();
      WaitMeans(old(View()), View());
      if disclaimer.Err? {
        NoPrompt(old(View()).stored, DataRun(old(arrivals)), old(interruptions));
        return Err(disclaimer.error), [], n;
      }
      text := disclaimer.value;
      ghost var before, batches := trace, interruptions;
      var aborted := IsAborted();
      WaitElapsed(before, trace, batches, interruptions, 1);
      ElapsedTwice(old(View()), Observe(before), View(), old(interruptions), batches, interruptions, n + 1, 1);
      ElapsedMeans(old(View()), View(), old(interruptions), interruptions, n + 2);
      OnlyPrompt(old(View()).stored, DataRun(old(arrivals)), old(interruptions), n);
      AmongTwice(RaiseAbort, old(interruptions), n + 2, 2);
      if aborted {
        return Err(DisconnectedByOperator), text, n;
      }
      before, batches := trace, interruptions;
      var matched := StoredMatches(text);
      ElapsedTwice(old(View()), Observe(before), View(), old(interruptions), batches, interruptions, n + 2, 1);
      r := Ok(matched);
    }

    /** Whether AGREE goes out, given the state after the comparison and the batch before the last look at the flag. */
    lemma AgreesOrNot(v: View, w: View, pieces: seq<seq<byte>>, batches: seq<seq<Op>>, left: seq<seq<Op>>, n: nat)
      requires Elapsed(v, w, batches, left, n + 3) && FirstPrompt(true, pieces, n) && !v.raised
      ensures w.stored == Some(Heard(pieces[..n])) && !(w.raised || Among(RaiseAbort, left, 1)) <==>
              AgreesAfter(v.stored, pieces, batches, n)
      ensures AgreesUnasked(v.stored, pieces, batches) <==> AgreesAfter(v.stored, pieces, batches, n)
      ensures w.stored.Some? ==> w.stored == v.stored
      ensures left == Drop(batches, n + 3)
    {
      AmongTwice(RaiseAbort, batches, n + 3, 1);
      OnlyPrompt(v.stored, pieces, batches, n);
      hide PromptAt, FirstPrompt, AgreesUnasked, Among, Drop;
    }

    /**
     AGREE is sent without asking the operator: the disclaimer is complete with
     `n` events, it is the stored agreement, which no batch before it is read
     clears, and no batch before the last look raises the abort flag.
     */
    ghost predicate AgreesAfter(stored: Option<Text>, pieces: seq<seq<byte>>, batches: seq<seq<Op>>, n: nat) {
      && FirstPrompt(true, pieces, n) && stored == Some(Heard(pieces[..n]))
      && !Among(ClearAgreed, batches, n + 3) && !Among(RaiseAbort, batches, n + 4)
    }

    ghost predicate AgreesUnasked(stored: Option<Text>, pieces: seq<seq<byte>>, batches: seq<seq<Op>>) {
      exists n: nat :: AgreesAfter(stored, pieces, batches, n)
    }

    lemma NoPrompt(stored: Option<Text>, pieces: seq<seq<byte>>, batches: seq<seq<Op>>)
      requires !Completes(true, pieces)
      ensures !AgreesUnasked(stored, pieces, batches)
    {
    }

    lemma OnlyPrompt(stored: Option<Text>, pieces: seq<seq<byte>>, batches: seq<seq<Op>>, n: nat)
      requires FirstPrompt(true, pieces, n)
      ensures AgreesUnasked(stored, pieces, batches) <==> AgreesAfter(stored, pieces, batches, n)
      ensures AgreesAfter(stored, pieces, batches, n) <==>
                && stored == Some(Heard(pieces[..n]))
                && !Among(ClearAgreed, batches, n + 3) && !Among(RaiseAbort, batches, n + 4)
    {
      hide PromptAt, Among;
    }

    /**
     The stored agreement covers the disclaimer: a last look at the abort flag,
     then AGREE (at `sent`). A disconnect that ends between the reading of the
     agreement and this point clears the agreement but does not stop AGREE.
     */
    method AutoAgree() returns (r: Result<(), Failure>, ghost at: nat, ghost sent: Option<nat>)
      requires Valid() && Idle() && View().acts == [] && Justified(View())
      modifies this
      ensures r != Err(NeedsReconsent) && Steady()
      ensures r.Ok? <==> sent.Some? && AllSucceed(old(outcomes), 1)
      ensures r.Ok? ==> outcomes == Rest(old(outcomes)) && arrivals == old(arrivals)
      ensures Valid() && Idle() && old(trace) <= trace
      ensures View().requests == old(View()).requests && View().reopens == old(View()).reopens
      ensures |View().acts| <= 1
      ensures r.Ok? ==> View().agreed && |old(trace)| <= at < |trace| && trace[at] == AgreeDelivered
      ensures r.Ok? ==> View().state == Connected && View().steps == old(View()).steps + [Sent(Agree)]
      ensures sent.None? ==> View().steps == old(View()).steps
      ensures sent.Some? <==> !(old(View()).raised || Among(RaiseAbort, old(interruptions), 1))
      ensures sent.Some? ==>
                && |old(trace)| <= sent.value < |trace| && trace[sent.value] == Sent(Agree)
                && Observe(trace[..sent.value]).stored ==
                   (if Among(ClearAgreed, old(interruptions), 2) then None else old(View()).stored)
    {
      hide Observe, Next, Agrees, Among, Drop, NoAborts, NoClears, AbortIn, Waited, Elapsed, AllSucceed;
      var aborted := IsAborted();
      WaitElapsed(old(trace), trace, old(interruptions), interruptions, 1);
      ElapsedMeans(old(View()), View(), old(interruptions), interruptions, 1);
      if aborted {
        return Err(DisconnectedByOperator), 0, None;
      }
      ghost var sentAt;
      ghost var view, batches := View(), interruptions;
      r, sentAt, at := SendAgree();
      sent := Some(sentAt);
      ElapsedTwice(old(View()), view, Observe(trace[..sentAt]), old(interruptions), batches, Rest(batches), 1, 1);
      ElapsedMeans(old(View()), Observe(trace[..sentAt]), old(interruptions), Rest(batches), 2);
      ghost var before := trace;
      if r.Ok? {
        SetState(Connected);
      }
      assert trace[..sentAt] == before[..sentAt];
    }

    method HandleReconnect() returns (r: Result<(), Failure>, ghost at: nat, ghost n: nat, ghost m: nat)
      requires Valid() && Idle()
      modifies this
      ensures Valid() && Idle() && old(trace) <= trace
      ensures View().requests == old(View()).requests && View().reopens == old(View()).reopens + 1
      ensures old(View()).raised ==> View().acts == old(View()).acts + [Reopen] && r.Err?
      ensures !old(View()).raised ==> |View().acts| <= 1
      ensures r.Ok? ==> View().state == Connected && View().steps == [LinkOpen] + HandshakeSteps(skipBpqApp)
      ensures r == Err(NeedsReconsent) ==> View().state.AwaitingConsent? && !View().read
      ensures r.Err? && r != Err(NeedsReconsent) ==> View().state == ErrorState
      ensures r.Ok? ==> View().agreed && |old(trace)| <= at < |trace| && trace[at] == AgreeDelivered
      ensures r.Ok? ==>
                && Covered(old(View()).stored, old(arrivals), n, m) && AllSucceed(old(outcomes), Operations())
                && outcomes == Drop(old(outcomes), Operations()) && arrivals == Drop(old(arrivals), n + m)
      ensures Steady()
      ensures r == Err(NeedsReconsent) ==>
                && Prompted(old(arrivals), n, m)
                && View().state == AwaitingConsent(Heard(DataRun(Drop(old(arrivals), n))[..m]))
      ensures old(Undisturbed()) ==>
                (r == Err(NeedsReconsent) <==>
                   AllSucceed(old(outcomes), CallOperations() + 1) && Differs(old(View()).stored, old(arrivals)))
      ensures r.Err? && old(Undisturbed()) && AllSucceed(old(outcomes), Operations()) ==>
                !Coverable(old(View()).stored, old(arrivals))
    {
      hide Observe, AbortIn, NoAborts, NoClears, Rest, SendResult, Elapsed, Covered, Differs, Prompted;
      NeedsStored(arrivals);
      SetState(Reconnecting);
      r, at, n, m := Reconnect();
      if r.Err? && r.error != NeedsReconsent {
        SetState(ErrorState);
      }
    }

    /** The second attempt, unless the operator disconnected during the reconnect. */
    method Retry(data: seq<byte>) returns (r: Result<seq<byte>, Failure>, ghost cut: nat)
      requires Valid() && Idle()
      modifies this
      ensures Valid() && Idle() && old(trace) <= trace
      ensures old(View()).requests <= View().requests <= old(View()).requests + 1
      ensures View().reopens == old(View()).reopens
      ensures View().requests == old(View()).requests + 1 ==>
                && |old(trace)| <= cut < |trace| && trace[cut] == Sent(Request(data))
                && Interrupted(old(View()), Observe(trace[..cut]))
      ensures !View().raised ==> r == CallResult(old(outcomes), old(arrivals))
      ensures Steady()
      ensures r.Ok? ==> View().requests == old(View()).requests + 1
      ensures old(View()).raised ==> View().acts == old(View()).acts && r.Err?
      ensures !old(View()).raised ==> View().acts == [] || View().acts == [Sent(Request(data))]
    {
      hide Observe, AbortIn, NoAborts, NoClears, Rest, SendResult, CallResult, Elapsed;
      var aborted := IsAborted();
      if aborted {
        return Err(DisconnectedByOperator), 0;
      }
      r, cut := HandleSendRequest(data);
    }

    /** What a request comes to when the first attempt's session died and these outcomes and events are to come. */
    ghost predicate Recovered(stored: Option<Text>, outcomes: seq<Outcome>, events: seq<Arrival>,
                              r: Result<seq<byte>, Failure>) {
      if AllSucceed(outcomes, Operations()) && Coverable(stored, events) then
        exists n: nat, m: nat ::
          && Covered(stored, events, n, m)
          && r == CallResult(Drop(outcomes, Operations()), Drop(events, n + m))
      else r.Err?
    }

    /** The session is brought back, and the request sent once more (at `cut`). */
    method ReconnectAndRetry(data: seq<byte>)
      returns (r: Result<seq<byte>, Failure>, ghost delivered: nat, ghost cut: nat)
      requires Valid() && Idle()
      modifies this
      ensures Valid() && Idle() && old(trace) <= trace
      ensures old(View()).requests <= View().requests <= old(View()).requests + 1
      ensures View().reopens == old(View()).reopens + 1
      ensures View().requests == old(View()).requests + 1 ==>
                Retransmitted(old(trace), trace, data, delivered, cut, 0)
      ensures r.Ok? ==> View().requests == old(View()).requests + 1
      ensures old(View()).raised ==> View().acts == old(View()).acts + [Reopen]
      ensures !old(View()).raised ==> |View().acts| <= 1
      ensures old(Undisturbed()) ==> Recovered(old(View()).stored, old(outcomes), old(arrivals), r)
    {
      hide Observe, Retransmitted, AbortIn, CallResult, Elapsed, NoAborts, NoClears, Covered, AllSucceed, Drop;
      delivered, cut := 0, 0;
      var again;
      ghost var n, m;
      again, delivered, n, m := HandleReconnect();
      if again.Err? {
        return Err(again.error), 0, 0;
      }
      ghost var before := trace;
      r, cut := Retry(data);
      if View().requests == old(View()).requests + 1 {
        RetransmittedAt(old(trace), before, trace, data, delivered, cut);
      }
    }

    /**
     A request with one retry. It is transmitted at most twice and the
     connection reopened at most once; a second transmission (at `cut`) comes
     after an AGREE delivered since the first one's connection was reopened;
     and once the abort flag rises at most one more action is started, unless
     the flag rises between the last look at it and the first send and the
     session then dies at once: exactly then the connection is still reopened.
     Undisturbed, a request whose session dies is answered by the second call
     exactly if everything comes that the reconnect awaits.
     */
    method HandleSendRequestWithReconnect(data: seq<byte>)
      returns (r: Result<seq<byte>, Failure>, ghost delivered: nat, ghost cut: nat, ghost at: nat)
      requires Valid() && Idle()
      modifies this
      ensures Valid() && Idle() && old(trace) <= trace
      ensures View().requests <= old(View()).requests + 2
      ensures View().reopens <= old(View()).reopens + 1
      ensures View().requests == old(View()).requests + 2 ==>
                Retransmitted(old(trace), trace, data, delivered, cut, 1)
      ensures r.Ok? ==> View().requests > old(View()).requests
      ensures View().requests > old(View()).requests ==>
                |old(trace)| <= at < |trace| && trace[at] == Sent(Request(data))
      ensures old(Undisturbed()) ==>
                && View().requests > old(View()).requests
                && View().reopens == old(View()).reopens +
                   (if AllSucceed(old(outcomes), 1) && Dies(old(arrivals)) then 1 else 0)
      ensures old(View()).raised ==> View().acts == old(View()).acts
      ensures !old(View()).raised ==> (|View().acts| <= 1 <==> !old(Race(2)))
      ensures !old(View()).raised && old(Race(2)) ==> View().acts == [Sent(Request(data)), Reopen]
      ensures (!View().raised || old(Undisturbed())) && CallResult(old(outcomes), old(arrivals)) != Err(SessionDied) ==>
                r == CallResult(old(outcomes), old(arrivals))
      ensures old(Undisturbed()) && CallResult(old(outcomes), old(arrivals)) == Err(SessionDied) ==>
                Recovered(old(View()).stored, Rest(old(outcomes)), Drop(old(arrivals), Used(old(arrivals))), r)
    {
      hide Observe, Retransmitted, AbortIn, Answer, DiesAtOnce, Dies, Elapsed, NoAborts, NoClears, Used;
      hide Recovered, Rest;
      SendOrFail(outcomes, arrivals);
      delivered, cut, at := 0, 0, 0;
      var aborted := IsAborted();
      if aborted {
        return Err(DisconnectedByOperator), 0, 0, 0;
      }
      AbortsShift();
      r, at := HandleSendRequest(data);
      if r.Ok? || r.error != SessionDied {
        return r, 0, 0, at;
      }
      ghost var before := trace;
      r, delivered, cut := ReconnectAndRetry(data);
      assert trace[at] == before[at];
      if View().requests == old(View()).requests + 2 {
        RetransmittedSince(old(trace), before, trace, data, delivered, cut);
      }
    }

    // ----- Commands -----

    /** Starting a modem connection clears the abort flag; it ends AGWPE-connected or in error. */
    method HandleConnectModem(callsign: Text) returns (r: Result<(), Failure>)
      requires Valid() && Idle()
      modifies this
      ensures Valid() && Idle() && old(trace) <= trace
      ensures View().requests == old(View()).requests && View().reopens == old(View()).reopens
      ensures r.Ok? <==> AllSucceed(old(outcomes), 1)
      ensures r.Ok? ==> View().state == AgwpeConnected && localCallsign == callsign
      ensures r.Err? ==> View().state == ErrorState
    {
      hide Observe, AbortIn, Rest, SendResult;
      ResetAbort();
      var o := Await(ModemError);
      if !o.Success? {
        SetState(ErrorState);
        return Err(FailureOf(o.error));
      }
      SetState(AgwpeConnected);
      localCallsign := callsign;
      r := Ok(());
    }

    method ResetAbort()
      requires Valid() && Idle()
      modifies this
      ensures Valid() && Idle() && old(trace) <= trace && !View().raised
      ensures outcomes == old(outcomes) && arrivals == old(arrivals) && interruptions == Rest(old(interruptions))
      ensures View().requests == old(View()).requests && View().reopens == old(View()).reopens
    {
      hide Observe;
      Interleave();
      abort := false;
      Note(AbortReset);
    }

    method HandleDisconnectModem() returns (r: Result<(), Failure>)
      requires Valid() && Idle()
      modifies this
      ensures Valid() && Idle() && old(trace) <= trace && View().state == Disconnected && r == Ok(())
      ensures View().requests == old(View()).requests && View().reopens == old(View()).reopens
    {
      hide Observe;
      SetState(Disconnected);
      r := Ok(());
    }

    method HandleQueryPorts() returns (r: Result<(), Failure>)
      requires Valid() && Idle()
      modifies this
      ensures Valid() && Idle() && old(trace) <= trace && Interrupted(old(View()), View())
      ensures r.Ok? <==> AllSucceed(old(outcomes), 1)
    {
      hide Observe, AbortIn, Rest, SendResult;
      var o := Await(Expired);
      r := if o.Success? then Ok(()) else Err(FailureOf(o.error));
    }

    /** A session is opened: Connected is reached only through the handshake's AGREE. */
    method HandleOpenSession() returns (r: Result<(), Failure>)
      requires Valid() && Idle()
      modifies this
      ensures Valid() && Idle() && old(trace) <= trace
      ensures View().requests == old(View()).requests && View().reopens == old(View()).reopens
      ensures r.Ok? <==> View().state == Connected
      ensures r.Ok? <==> Opens(old(Now()))
      ensures r.Err? ==> View().state == (if AllSucceed(old(outcomes), 1) then ErrorState else Connecting)
      ensures r.Ok? ==> View().agreed && View().steps == [LinkOpen] + HandshakeSteps(skipBpqApp)
    {
      hide Observe, AbortIn, NoAborts, NoClears, Steady, Rest, SendResult, Elapsed, Agreed;
      RestFourTimes(interruptions);
      ResetAbort();
      SetState(Connecting);
      r := OpenLink();
      if r.Err? {
        return;
      }
      ghost var n, m, k;
      r, n, m, k := PerformBpqHandshake();
      if r.Ok? {
        SetState(Connected);
      } else {
        SetState(ErrorState);
        r := Err(ConnectionFailed);
      }
    }

    /** What is to come when a command starts, and what has been. */
    ghost function Now(): Moment
      reads this
    {
      Moment(trace, interruptions, outcomes, arrivals)
    }

    /** The link opens, and the handshake comes to its end. */
    ghost predicate Opens(m: Moment) {
      AllSucceed(m.outcomes, 1) && Agreeable(Rest(m.outcomes), m.arrivals, Drop(m.interruptions, 4))
    }

    /** Closing raises the abort flag; a transport that was not connected leaves the state as it is. */
    method HandleCloseSession() returns (r: Result<(), Failure>)
      requires Valid() && Idle()
      modifies this
      ensures Valid() && Idle() && old(trace) <= trace && View().raised
      ensures View().requests == old(View()).requests && View().reopens == old(View()).reopens
      ensures r.Ok? <==> AllSucceed(old(outcomes), 1)
      ensures View().state == (if r.Ok? then AgwpeConnected else old(View()).state)
    {
      hide Observe, AbortIn, Rest, SendResult;
      Interleave();
      abort := true;
      Note(AbortRaised);
      var o := Await(Unconnected);
      if o.Success? {
        SetState(AgwpeConnected);
        r := Ok(());
      } else {
        r := Err(FailureOf(o.error));
      }
    }

    /** What a command does and answers, from the moment it starts to the moment it ends. */
    ghost predicate Handled(command: Command, a: Moment, b: Moment, reply: Reply) {
      var v, w := Observe(a.trace), Observe(b.trace);
      && a.trace <= b.trace
      && match command
         case ConnectModem(_) =>
           && Idles(v, w) && reply.Done? && (reply.result.Ok? <==> AllSucceed(a.outcomes, 1))
           && w.state == (if reply.result.Ok? then AgwpeConnected else ErrorState)
         case DisconnectModem => Idles(v, w) && reply == Done(Ok(())) && w.state == Disconnected
         case QueryPorts =>
           Idles(v, w) && w.state == v.state && reply.Done? && (reply.result.Ok? <==> AllSucceed(a.outcomes, 1))
         case OpenSession =>
           && Idles(v, w) && reply.Done? && (reply.result.Ok? <==> Opens(a))
           && (reply.result.Ok? <==> w.state == Connected)
           && (reply.result.Ok? && skipBpqApp ==>
                 w.agreed && w.steps == [LinkOpen, Sent(Callsign), DisclaimerWait, Sent(Agree)])
           && (reply.result.Ok? && !skipBpqApp ==>
                 w.agreed && w.steps == [LinkOpen, Sent(AppCommand), Sent(Callsign), DisclaimerWait, Sent(Agree)])
         case CloseSession =>
           && Idles(v, w) && w.raised && reply.Done? && (reply.result.Ok? <==> AllSucceed(a.outcomes, 1))
           && w.state == (if reply.result.Ok? then AgwpeConnected else v.state)
         case SendRequest(data) =>
           reply.Response? && w.state == v.state && w.reopens == v.reopens && Called(data, a, b, reply.response)
         case SendRequestWithReconnect(data) =>
           reply.Response? && CalledTwice(data, a, b, reply.response)
    }

    ghost predicate Idles(v: View, w: View) {
      w.requests == v.requests && w.reopens == v.reopens
    }

    /** The request goes out between the two moments. */
    ghost predicate GoesOut(data: seq<byte>, a: Moment, b: Moment) {
      exists at: nat :: |a.trace| <= at < |b.trace| && b.trace[at] == Sent(Request(data))
    }

    /** No disconnect has happened or is to come, and no clearing of the agreement either. */
    ghost predicate Quiet(m: Moment) {
      && !Observe(m.trace).raised
      && forall batch :: batch in m.interruptions ==> RaiseAbort !in batch && ClearAgreed !in batch
    }

    /** Undisturbed, a request is sent once and answered by what arrives; after a disconnect it is neither. */
    ghost predicate Called(data: seq<byte>, a: Moment, b: Moment, r: Result<seq<byte>, Failure>) {
      var v, w := Observe(a.trace), Observe(b.trace);
      && (Quiet(a) ==>
            && GoesOut(data, a, b) && w.requests == v.requests + 1
            && r == CallResult(a.outcomes, a.arrivals)
            && (AllSucceed(a.outcomes, 1) ==> (r == Err(SessionDied) <==> Dies(a.arrivals))))
      && (v.raised ==> w.requests == v.requests && r == Err(DisconnectedByOperator))
    }

    /** And with a retry: what the first call comes to, or the recovery if its session died. */
    ghost predicate CalledTwice(data: seq<byte>, a: Moment, b: Moment, r: Result<seq<byte>, Failure>) {
      var v, w := Observe(a.trace), Observe(b.trace);
      var died := AllSucceed(a.outcomes, 1) && Dies(a.arrivals);
      && (Quiet(a) ==>
            && GoesOut(data, a, b) && w.reopens == v.reopens + (if died then 1 else 0)
            && (if died then Recovered(v.stored, Rest(a.outcomes), Drop(a.arrivals, Used(a.arrivals)), r)
                else r == CallResult(a.outcomes, a.arrivals)))
      && (v.raised ==> w.acts == v.acts)
    }

    lemma QuietNow()
      ensures Quiet(Now()) ==> Undisturbed()
    {
      hide Observe;
    }

    /** One command. */
    method Execute(command: Command) returns (reply: Reply)
      requires Valid() && Idle()
      modifies this
      ensures Valid() && Idle() && old(trace) <= trace
      ensures View().requests <= old(View()).requests + 2 && View().reopens <= old(View()).reopens + 1
      ensures Handled(command, old(Now()), Now(), reply)
    {
      hide Observe, Retransmitted, AbortIn, Rest, SendResult, Opens, Recovered, Dies, AllSucceed, Quiet, NoAborts;
      hide NoClears, CallResult, Agrees, Elapsed;
      QuietNow();
      SendOrFail(outcomes, arrivals);
      ghost var at: nat, delivered, cut;
      match command {
        case ConnectModem(callsign) =>
          var r := HandleConnectModem(callsign);
          reply := Done(r);
        case DisconnectModem =>
          var r := HandleDisconnectModem();
          reply := Done(r);
        case QueryPorts =>
          var r := HandleQueryPorts();
          reply := Done(r);
        case OpenSession =>
          var r := HandleOpenSession();
          reply := Done(r);
        case CloseSession =>
          var r := HandleCloseSession();
          reply := Done(r);
        case SendRequest(data) =>
          var r;
          r, at := HandleSendRequest(data);
          reply := Response(r);
        case SendRequestWithReconnect(data) =>
          var r;
          r, delivered, cut, at := HandleSendRequestWithReconnect(data);
          reply := Response(r);
      }
    }

    /**
     The actor's life: any commands in any order, with any steps of the other
     tasks and any outcomes in between. Every command is handled, from the
     moment the one before it ended, and answered. The trace is safe throughout,
     so every AGREE was consented to and Connected always follows a delivered
     AGREE.
     */
    method BackgroundTask(commands: seq<Command>) returns (replies: seq<Reply>, ghost moments: seq<Moment>)
      requires Valid() && Idle()
      modifies this
      ensures Valid() && Idle() && old(trace) <= trace
      ensures View().requests <= old(View()).requests + 2 * |commands|
      ensures View().reopens <= old(View()).reopens + |commands|
      ensures |replies| == |commands| && |moments| == |commands| + 1
      ensures moments[0] == old(Now()) && moments[|commands|] == Now()
      ensures forall i :: 0 <= i < |commands| ==> Handled(commands[i], moments[i], moments[i + 1], replies[i])
    {
      hide Observe, Handled;
      replies, moments := [], [Now()];
      for i := 0 to |commands|
        invariant Valid() && Idle() && old(trace) <= trace
        invariant View().requests <= old(View()).requests + 2 * i
        invariant View().reopens <= old(View()).reopens + i
        invariant |replies| == i && |moments| == i + 1 && moments[0] == old(Now()) && moments[i] == Now()
        invariant forall j :: 0 <= j < i ==> Handled(commands[j], moments[j], moments[j + 1], replies[j])
      {
        var reply := Execute(commands[i]);
        replies, moments := replies + [reply], moments + [Now()];
      }
    }

    // ----- The promises over whole runs -----

    /** Every AGREE of a manager's run answers a text the operator consented to. */
    lemma EveryAgreeConsented(k: nat)
      requires Valid() && k < |trace| && trace[k] == Sent(Agree)
      ensures exists text :: Consented(trace[..k], text)
    {
      ConsentSafety(trace, k);
    }

    /** In every state of a manager's run, Connected means AGREE was delivered since the last link-open attempt. */
    lemma ConnectedAfterAgree(k: nat)
      requires Valid() && k <= |trace| && Observe(trace[..k]).state == Connected
      ensures exists i: nat :: LastAt(trace[..k], i, AgreeDelivered, IsLinkOpen)
    {
      ConnectedOnlyAgreed(trace, k);
    }
  }

  /**
   A run in which AGREE goes out although the agreement was cleared: the stored
   text arrives as the disclaimer, and a disconnect ends after it was compared.
   */
  method AgreeAfterClear(m: Manager, text: Text) returns (ghost k: nat)
    requires m.Valid() && m.Idle() && !m.View().raised && m.lastAgreed == Some(text)
    requires m.arrivals != [] && m.arrivals[0].Bytes? && m.lossy(m.arrivals[0].bytes) == text
    requires m.Prompts(true, text) && |text| <= MAX_HANDSHAKE_TEXT
    requires m.interruptions == [[], [], [], [], [ClearAgreed]]
    modifies m
    ensures m.Valid() && k < |m.trace| && m.trace[k] == Sent(Agree) && Observe(m.trace[..k]).stored == None
  {
    hide Observe;
    ghost var pieces, batches := DataRun(m.arrivals), m.interruptions;
    DataRunAt(m.arrivals, 0);
    m.HeardNext(pieces, 0);
    assert m.Heard(pieces[..0]) == [] && [] + text == text;
    assert m.PromptAt(true, pieces, 1);
    assert m.AgreesAfter(Some(text), pieces, batches, 1);
    assert ClearAgreed in Drop(batches, 4)[0];
    ghost var at, sent, n;
    var r;
    m.OnlyPrompt(Some(text), pieces, batches, 1);
    r, at, sent, n := m.AutoConsent();
    k := sent.value;
  }

  function MatchesStoredDisclaimer(serverText: Text, stored: Option<Text>): bool {
    stored.Some? && stored.value == serverText
  }

  /** A transmission at `cut`, on a link reopened since the start, with AGREE delivered on it, after `sent` others. */
  ghost predicate Retransmitted(start: seq<Event>, end: seq<Event>, data: seq<byte>, delivered: nat, cut: nat,
                                sent: nat) {
    && |start| <= delivered < cut < |end|
    && end[delivered] == AgreeDelivered && end[cut] == Sent(Request(data))
    && var v := Observe(end[..cut]);
       v.agreed && v.reopens == Observe(start).reopens + 1 && v.requests == Observe(start).requests + sent
  }

  lemma RetransmittedAt(start: seq<Event>, before: seq<Event>, end: seq<Event>, data: seq<byte>, delivered: nat,
                        cut: nat)
    requires start <= before <= end && |start| <= delivered < |before| <= cut < |end|
    requires before[delivered] == AgreeDelivered && end[cut] == Sent(Request(data))
    requires Interrupted(Observe(before), Observe(end[..cut])) && Observe(before).agreed
    requires Observe(before).reopens == Observe(start).reopens + 1
    requires Observe(before).requests == Observe(start).requests
    ensures Retransmitted(start, end, data, delivered, cut, 0)
  {
  }

  lemma RetransmittedSince(start: seq<Event>, before: seq<Event>, end: seq<Event>, data: seq<byte>,
                           delivered: nat, cut: nat)
    requires start <= before && Observe(before).reopens == Observe(start).reopens
    requires Observe(before).requests == Observe(start).requests + 1
    ensures Retransmitted(before, end, data, delivered, cut, 0) ==> Retransmitted(start, end, data, delivered, cut, 1)
  {
  }

  lemma OpenSteps(skip: bool)
    ensures (if skip then [LinkOpen] else [LinkOpen] + [Sent(AppCommand)]) + [Sent(Callsign)]
            + [DisclaimerWait, Sent(Agree)] == [LinkOpen] + HandshakeSteps(skip)
  {
  }

  lemma JoinSteps(before: seq<Event>, skip: bool)
    ensures (if skip then before else before + [Sent(AppCommand)]) + [Sent(Callsign)] + [DisclaimerWait] + [Sent(Agree)]
            == before + HandshakeSteps(skip)
  {
  }
}
