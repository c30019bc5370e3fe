/**
 What a session manager, its operator and its peer do to each other, as a
 trace of events, and the properties of traces that the session code keeps.
 */
module SessionTrace {
  import opened Bytes
  import opened Wrappers

  type Text = seq<byte>

  datatype Message = AppCommand | Callsign | Agree | Request(data: seq<byte>)

  datatype ConnectionState =
    | Disconnected
    | AgwpeConnected
    | Connecting
    | AwaitingConsent(disclaimer: Text)
    | Connected
    | Reconnecting
    | ErrorState

  datatype Event =
    // What the manager starts on the link.
    | Reopen
    | LinkOpen
    | Sent(message: Message)
    | DisclaimerWait
    // What comes of it.
    | AgreeDelivered
    | Disclaimer(text: Text)
    | ConsentRead
    | State(state: ConnectionState)
    // What the operator does.
    | Accepted(text: Text)
    | Cleared
    | AbortRaised
    | AbortReset

  predicate IsAction(e: Event) {
    e.Reopen? || e.LinkOpen? || e.Sent? || e.DisclaimerWait?
  }

  predicate IsLinkOpen(e: Event) {
    e.LinkOpen?
  }

  /** A disclaimer counts until the next one or the next link. */
  predicate EndsDisclaimer(e: Event) {
    e.LinkOpen? || e.Disclaimer?
  }

  predicate ChangesStored(e: Event) {
    e.Accepted? || e.Cleared?
  }

  /**
   An observer of the trace: the abort flag and the actions started since it
   rose, the requests sent and connections reopened, the stored agreement, the
   connection state, whether AGREE was delivered on this link, the disclaimer
   to be answered, whether the operator accepted it here or the stored
   agreement was read as equal to it, the actions since the last link-open
   attempt, and whether all was well so far.
   */
  datatype View = View(
    raised: bool, acts: seq<Event>, requests: nat, reopens: nat,
    stored: Option<Text>, state: ConnectionState, agreed: bool,
    disclaimer: Option<Text>, accepted: bool, read: bool, steps: seq<Event>, safe: bool)

  const START: View := View(false, [], 0, 0, None, Disconnected, false, None, false, false, [], true)

  /** AGREE may be sent now. */
  predicate Justified(v: View) {
    v.disclaimer.Some? && (v.accepted || v.read)
  }

  /** What may not happen: AGREE unjustified, Connected without AGREE, a link opened while Connected. */
  predicate Allowed(v: View, e: Event) {
    && (e == Sent(Agree) ==> Justified(v))
    && (e == State(Connected) ==> v.agreed)
    && (e.LinkOpen? ==> v.state != Connected)
  }

  function Next(v: View, e: Event): View {
    View(
      if e.AbortReset? then false else v.raised || e.AbortRaised?,
      if e.AbortReset? then [] else if v.raised && IsAction(e) then v.acts + [e] else v.acts,
      v.requests + (if e.Sent? && e.message.Request? then 1 else 0),
      v.reopens + (if e.Reopen? then 1 else 0),
      if e.Accepted? then Some(e.text) else if e.Cleared? then None else v.stored,
      if e.State? then e.state else v.state,
      e.AgreeDelivered? || (v.agreed && !e.LinkOpen?),
      if e.Disclaimer? then Some(e.text) else if e.LinkOpen? then None else v.disclaimer,
      !EndsDisclaimer(e) && (v.accepted || (e.Accepted? && v.disclaimer == Some(e.text))),
      if e.ConsentRead? then v.disclaimer.Some? && v.stored == v.disclaimer else v.read && !EndsDisclaimer(e),
      if e.LinkOpen? then [e] else if IsAction(e) then v.steps + [e] else v.steps,
      v.safe && Allowed(v, e))
  }

  function Observe(trace: seq<Event>): View {
    if trace == [] then START
    else
      var n := |trace| - 1;
      Next(Observe(trace[..n]), trace[n])
  }

  lemma ObserveSnoc(trace: seq<Event>, e: Event)
    ensures Observe(trace + [e]) == Next(Observe(trace), e)
  {
    assert (trace + [e])[..|trace|] == trace;
  }

  lemma Peel(trace: seq<Event>)
    requires trace != []
    ensures Observe(trace) == Next(Observe(trace[..|trace| - 1]), trace[|trace| - 1])
  {
  }

  // ----- What the observer's fields mean on the trace itself -----

  /** Event `i` is `e`, and no later event of the trace is one that `stop` picks. */
  ghost predicate LastAt(trace: seq<Event>, i: nat, e: Event, stop: Event -> bool) {
    i < |trace| && trace[i] == e && forall j :: i < j < |trace| ==> !stop(trace[j])
  }

  lemma LastAtEnd(trace: seq<Event>, e: Event, stop: Event -> bool)
    requires trace != [] && trace[|trace| - 1] == e
    ensures LastAt(trace, |trace| - 1, e, stop)
  {
  }

  lemma LastAtSnoc(trace: seq<Event>, i: nat, e: Event, stop: Event -> bool)
    requires trace != [] && i < |trace| - 1
    requires LastAt(trace[..|trace| - 1], i, e, stop) && !stop(trace[|trace| - 1])
    ensures LastAt(trace, i, e, stop)
  {
  }

  lemma {:induction false} AgreedMeans(trace: seq<Event>) returns (i: nat)
    requires Observe(trace).agreed
    ensures LastAt(trace, i, AgreeDelivered, IsLinkOpen)
  {
    assert trace != [];
    Peel(trace);
    hide Observe, LastAt;
    var n := |trace| - 1;
    if trace[n] == AgreeDelivered {
      i := n;
      LastAtEnd(trace, AgreeDelivered, IsLinkOpen);
    } else {
      i := AgreedMeans(trace[..n]);
      LastAtSnoc(trace, i, AgreeDelivered, IsLinkOpen);
    }
  }

  lemma {:induction false} StoredMeans(trace: seq<Event>) returns (i: nat)
    requires Observe(trace).stored.Some?
    ensures LastAt(trace, i, Accepted(Observe(trace).stored.value), ChangesStored)
  {
    assert trace != [];
    Peel(trace);
    hide Observe, LastAt;
    var n := |trace| - 1;
    if trace[n].Accepted? {
      i := n;
      LastAtEnd(trace, trace[n], ChangesStored);
    } else {
      i := StoredMeans(trace[..n]);
      LastAtSnoc(trace, i, Accepted(Observe(trace).stored.value), ChangesStored);
    }
  }

  lemma {:induction false} DisclaimerMeans(trace: seq<Event>) returns (i: nat)
    requires Observe(trace).disclaimer.Some?
    ensures LastAt(trace, i, Disclaimer(Observe(trace).disclaimer.value), EndsDisclaimer)
  {
    assert trace != [];
    Peel(trace);
    hide Observe, LastAt;
    var n := |trace| - 1;
    if trace[n].Disclaimer? {
      i := n;
      LastAtEnd(trace, trace[n], EndsDisclaimer);
    } else {
      i := DisclaimerMeans(trace[..n]);
      LastAtSnoc(trace, i, Disclaimer(Observe(trace).disclaimer.value), EndsDisclaimer);
    }
  }

  lemma {:induction false} AcceptedMeans(trace: seq<Event>) returns (i: nat)
    requires Observe(trace).accepted
    ensures Observe(trace).disclaimer.Some?
    ensures LastAt(trace, i, Accepted(Observe(trace).disclaimer.value), EndsDisclaimer)
  {
    assert trace != [];
    Peel(trace);
    hide Observe, LastAt;
    var n := |trace| - 1;
    if trace[n].Accepted? && Observe(trace[..n]).disclaimer == Some(trace[n].text) {
      i := n;
      LastAtEnd(trace, trace[n], EndsDisclaimer);
    } else {
      i := AcceptedMeans(trace[..n]);
      LastAtSnoc(trace, i, Accepted(Observe(trace).disclaimer.value), EndsDisclaimer);
    }
  }

  /** The read happened at `i`, on this disclaimer, and found it stored. */
  lemma {:induction false} ReadMeans(trace: seq<Event>) returns (i: nat)
    requires Observe(trace).read
    ensures Observe(trace).disclaimer.Some?
    ensures i < |trace| && LastAt(trace, i, ConsentRead, EndsDisclaimer)
    ensures Observe(trace[..i]).stored == Observe(trace).disclaimer
  {
    assert trace != [];
    Peel(trace);
    hide Observe, LastAt;
    var n := |trace| - 1;
    if trace[n].ConsentRead? {
      i := n;
      LastAtEnd(trace, ConsentRead, EndsDisclaimer);
    } else {
      i := ReadMeans(trace[..n]);
      LastAtSnoc(trace, i, ConsentRead, EndsDisclaimer);
      assert trace[..n][..i] == trace[..i];
    }
  }

  lemma {:induction false} SafeBefore(trace: seq<Event>, k: nat)
    requires Observe(trace).safe && k <= |trace|
    ensures Observe(trace[..k]).safe
  {
    if k < |trace| {
      SafeBefore(trace[..|trace| - 1], k);
      assert trace[..|trace| - 1][..k] == trace[..k];
    } else {
      assert trace[..k] == trace;
    }
  }

  // ----- The promises of a safe trace -----

  /**
   Consent: the text being answered was received on this link, and either the
   operator accepted it since, or the stored agreement was read since and was,
   at that moment, a text the operator had accepted, equal to this one byte
   for byte and not replaced or cleared in between.
   */
  ghost predicate Consented(before: seq<Event>, text: Text) {
    exists d: nat :: LastAt(before, d, Disclaimer(text), EndsDisclaimer) &&
      ((exists a: nat :: d < a && LastAt(before, a, Accepted(text), EndsDisclaimer))
       || (exists r: nat, a: nat :: d < r && LastAt(before, r, ConsentRead, EndsDisclaimer)
             && LastAt(before[..r], a, Accepted(text), ChangesStored)))
  }

  /** Within one disclaimer's time, an event that ends no disclaimer comes after it. */
  lemma AfterDisclaimer(trace: seq<Event>, d: nat, i: nat, text: Text, e: Event)
    requires LastAt(trace, d, Disclaimer(text), EndsDisclaimer) && LastAt(trace, i, e, EndsDisclaimer)
    requires !EndsDisclaimer(e)
    ensures d < i
  {
  }

  lemma ConsentedHere(before: seq<Event>, d: nat, a: nat, text: Text)
    requires LastAt(before, d, Disclaimer(text), EndsDisclaimer)
    requires d < a && LastAt(before, a, Accepted(text), EndsDisclaimer)
    ensures Consented(before, text)
  {
    hide LastAt;
  }

  lemma ConsentedBefore(before: seq<Event>, d: nat, r: nat, a: nat, text: Text)
    requires LastAt(before, d, Disclaimer(text), EndsDisclaimer)
    requires d < r && LastAt(before, r, ConsentRead, EndsDisclaimer)
    requires r <= |before| && LastAt(before[..r], a, Accepted(text), ChangesStored)
    ensures Consented(before, text)
  {
    hide LastAt;
  }

  /** Consent safety: in a safe trace every AGREE sent answers a text the operator consented to. */
  lemma ConsentSafety(trace: seq<Event>, k: nat)
    requires Observe(trace).safe && k < |trace| && trace[k] == Sent(Agree)
    ensures exists text :: Consented(trace[..k], text)
  {
    AgreeWasJustified(trace, k);
    hide Observe, Consented;
    JustifiedMeans(trace[..k], Observe(trace[..k]).disclaimer.value);
  }

  lemma JustifiedMeans(before: seq<Event>, text: Text)
    requires Justified(Observe(before)) && Observe(before).disclaimer == Some(text)
    ensures Consented(before, text)
  {
    hide Observe, LastAt, Consented;
    var d := DisclaimerMeans(before);
    if Observe(before).accepted {
      var a := AcceptedMeans(before);
      AfterDisclaimer(before, d, a, text, Accepted(text));
      ConsentedHere(before, d, a, text);
    } else {
      var r := ReadMeans(before);
      AfterDisclaimer(before, d, r, text, ConsentRead);
      var a := StoredMeans(before[..r]);
      ConsentedBefore(before, d, r, a, text);
    }
  }

  lemma AgreeWasJustified(trace: seq<Event>, k: nat)
    requires Observe(trace).safe && k < |trace| && trace[k] == Sent(Agree)
    ensures Justified(Observe(trace[..k]))
  {
    hide Observe;
    SafeBefore(trace, k + 1);
    assert trace[..k + 1] == trace[..k] + [trace[k]];
    ObserveSnoc(trace[..k], trace[k]);
  }

  lemma {:induction false} ConnectedKept(trace: seq<Event>)
    requires Observe(trace).safe
    ensures Observe(trace).state.Connected? ==> Observe(trace).agreed
  {
    if trace == [] {
      assert Observe(trace) == START;
    } else {
      Peel(trace);
      hide Observe;
      ConnectedKept(trace[..|trace| - 1]);
    }
  }

  /** At every point of a safe trace, Connected means that AGREE was delivered since the last link-open attempt. */
  lemma ConnectedOnlyAgreed(trace: seq<Event>, k: nat)
    requires Observe(trace).safe && k <= |trace| && Observe(trace[..k]).state.Connected?
    ensures exists i: nat :: LastAt(trace[..k], i, AgreeDelivered, IsLinkOpen)
  {
    SafeBefore(trace, k);
    ConnectedKept(trace[..k]);
    var i := AgreedMeans(trace[..k]);
  }

  // ----- The stored agreement may go between reading and sending -----

  /** From a read that found `text` on, it stays stored exactly while nothing changes the stored agreement. */
  lemma {:induction false} StoredSinceRead(trace: seq<Event>, r: nat, text: Text)
    requires LastAt(trace, r, ConsentRead, EndsDisclaimer) && Observe(trace[..r]).stored == Some(text)
    requires Observe(trace).disclaimer == Some(text) && !Observe(trace).accepted
    ensures Observe(trace).stored == Some(text) <==> forall j :: r < j < |trace| ==> !ChangesStored(trace[j])
  {
    Peel(trace);
    hide Observe;
    var n := |trace| - 1;
    var before := trace[..n];
    if r < n {
      assert before[..r] == trace[..r];
      assert !EndsDisclaimer(trace[n]);
      assert forall j :: r < j < n ==> before[j] == trace[j];
      StoredSinceRead(before, r, text);
    } else {
      assert trace[..r] == before;
    }
  }

  /**
   Every AGREE that no acceptance on this link covers rests on a read (at `r`)
   that found its text stored. The two are separate steps: when AGREE goes out
   the text is still the stored agreement exactly if nothing was cleared or
   accepted in between.
   */
  lemma StillStoredExactly(trace: seq<Event>, k: nat) returns (r: nat, text: Text)
    requires Observe(trace).safe && k < |trace| && trace[k] == Sent(Agree) && !Observe(trace[..k]).accepted
    ensures Observe(trace[..k]).disclaimer == Some(text)
    ensures LastAt(trace[..k], r, ConsentRead, EndsDisclaimer) && Observe(trace[..r]).stored == Some(text)
    ensures Observe(trace[..k]).stored == Some(text) <==> forall j :: r < j < k ==> !ChangesStored(trace[j])
  {
    hide Observe;
    AgreeWasJustified(trace, k);
    var before := trace[..k];
    text := Observe(before).disclaimer.value;
    r := ReadMeans(before);
    assert before[..r] == trace[..r];
    StoredSinceRead(before, r, text);
    assert forall j :: r < j < k ==> before[j] == trace[j];
  }
}
