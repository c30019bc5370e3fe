/**
 Connection admission: a global counter and a per-address table that the
 accept loop and the guards of finishing handlers change concurrently, one
 atomic step at a time.
 */
module Admission {
  import opened Wrappers

  const MAX_CONNECTIONS: nat := 50
  const MAX_CONNECTIONS_PER_IP: nat := 5

  /** Where the accept loop stands with the connection in its hands. */
  datatype Acceptor<Ip> =
    | Idle
    | PeerClaimed(peer: Option<Ip>)
    | Counted(peer: Option<Ip>)
    | Overfull(peer: Option<Ip>)
    | Uncounted(peer: Option<Ip>)

  /** One atomic step of some thread. */
  datatype Step<Ip> =
    | Accept(peer: Option<Ip>)
    | AcceptorGoesOn
    | HandlerEnds(peer: Option<Ip>)
    | HandlerLeaves

  /** The connections in the system: the one being accepted, those with a handler, and handlers about to be done. */
  datatype State<Ip(==)> = State(acceptor: Acceptor<Ip>, running: multiset<Option<Ip>>, leaving: nat)

  /**
   What a step should do, going by the connections themselves and not by any
   counter; a step that is not enabled does nothing.
   */
  ghost function After<Ip>(s: State<Ip>, step: Step<Ip>): State<Ip> {
    match step
    case Accept(peer) =>
      if s.acceptor.Idle? && (peer.None? || s.running[peer] < MAX_CONNECTIONS_PER_IP) then
        s.(acceptor := PeerClaimed(peer))
      else s
    case AcceptorGoesOn =>
      (match s.acceptor
       case Idle => s
       case PeerClaimed(peer) =>
         s.(acceptor := if |s.running| + s.leaving < MAX_CONNECTIONS then Counted(peer) else Overfull(peer))
       case Counted(peer) => s.(acceptor := Idle, running := s.running + multiset{peer})
       case Overfull(peer) => s.(acceptor := Uncounted(peer))
       case Uncounted(_) => s.(acceptor := Idle))
    case HandlerEnds(peer) =>
      if peer in s.running then s.(running := s.running - multiset{peer}, leaving := s.leaving + 1) else s
    case HandlerLeaves =>
      if s.leaving > 0 then s.(leaving := s.leaving - 1) else s
  }

  ghost function AfterAll<Ip>(s: State<Ip>, schedule: seq<Step<Ip>>): State<Ip> {
    if schedule == [] then s else After(AfterAll(s, schedule[..|schedule| - 1]), schedule[|schedule| - 1])
  }

  class Counters<Ip(==, !new)> {
    /** The atomic counter and the locked table. */
    var count: nat
    var peers: map<Ip, nat>

    /** The program counters: the accept loop, the handlers holding both guards, those that dropped the peer guard. */
    var acceptor: Acceptor<Ip>
    var running: multiset<Option<Ip>>
    var leaving: nat

    constructor ()
      ensures Valid() && Empty()
    {
      count, peers := 0, map[];
      acceptor, running, leaving := Idle, multiset{}, 0;
    }

    ghost function Connections(): State<Ip>
      reads this
    {
      State(acceptor, running, leaving)
    }

    /** Connections a handler thread exists for. */
    ghost function Handlers(): nat
      reads this
    {
      |running| + leaving
    }

    ghost function SlotsHeld(): nat
      reads this
    {
      Handlers() + if acceptor.Counted? || acceptor.Overfull? then 1 else 0
    }

    /** The address the accept loop has claimed a slot for. */
    ghost function Held(): Option<Ip>
      reads this
    {
      if acceptor.Idle? then None else acceptor.peer
    }

    ghost function PeerSlots(ip: Ip): nat
      reads this
    {
      Slots(running, Held(), ip)
    }

    /** The counters are exactly the slots held, a table entry exists only while positive, and both caps hold. */
    ghost predicate Valid()
      reads this
    {
      && count == SlotsHeld()
      && TableExact(peers, running, Held())
      && Handlers() + (if acceptor.Counted? then 1 else 0) <= MAX_CONNECTIONS
      && (acceptor.Overfull? ==> Handlers() + 1 <= count)
    }

    ghost predicate Quiet()
      reads this
    {
      acceptor.Idle? && running == multiset{} && leaving == 0
    }

    ghost predicate Empty()
      reads this
    {
      count == 0 && peers == map[]
    }

    // ----- The accept loop -----

    /** Under the table's lock: turned away exactly when the address holds all its slots. */
    method ClaimPeer(peer: Option<Ip>) returns (admitted: bool)
      requires Valid() && acceptor.Idle?
      modifies this`peers, this`acceptor
      ensures Valid()
      ensures admitted <==> peer.None? || old(PeerSlots(peer.value)) < 5
      ensures acceptor == (if admitted then PeerClaimed(peer) else Idle)
      ensures !admitted ==> peers == old(peers)
      ensures Connections() == After(old(Connections()), Accept(peer))
    {
      if peer.None? {
        acceptor := PeerClaimed(peer);
        return true;
      }
      var ip := peer.value;
      var entry := if ip in peers then peers[ip] else 0;
      if entry >= MAX_CONNECTIONS_PER_IP {
        peers := peers[ip := entry];
        return false;
      }
      peers := peers[ip := entry + 1];
      acceptor := PeerClaimed(peer);
      admitted := true;
    }

    /** `fetch_add`: over the cap exactly when fifty handlers exist. */
    method ClaimSlot() returns (over: bool)
      requires Valid() && acceptor.PeerClaimed?
      modifies this`count, this`acceptor
      ensures Valid()
      ensures over <==> Handlers() >= 50
      ensures acceptor == (if over then Overfull(old(acceptor).peer) else Counted(old(acceptor).peer))
    {
      var prev := count;
      count := count + 1;
      over := prev >= MAX_CONNECTIONS;
      acceptor := if over then Overfull(acceptor.peer) else Counted(acceptor.peer);
    }

    /** `fetch_sub` after busting the cap; the counter cannot wrap. */
    method UnclaimSlot()
      requires Valid() && acceptor.Overfull?
      modifies this`count, this`acceptor
      ensures Valid() && acceptor == Uncounted(old(acceptor).peer)
      ensures old(count) >= 1 && count == old(count) - 1
    {
      count := count - 1;
      acceptor := Uncounted(acceptor.peer);
    }

    method UnclaimPeer()
      requires Valid() && acceptor.Uncounted?
      modifies this`peers, this`acceptor
      ensures Valid() && acceptor.Idle?
      ensures old(acceptor).peer.Some? ==> Decremented(old(peers), peers, old(acceptor).peer.value)
    {
      if acceptor.peer.Some? {
        peers := Decrement(peers, acceptor.peer.value);
      }
      acceptor := Idle;
    }

    method Spawn()
      requires Valid() && acceptor.Counted?
      modifies this`acceptor, this`running
      ensures Valid() && acceptor.Idle?
      ensures running == old(running) + multiset{old(acceptor).peer}
    {
      running := running + multiset{acceptor.peer};
      acceptor := Idle;
    }

    // ----- A handler that ends; guards drop in reverse order of their creation -----

    method DropPeerGuard(peer: Option<Ip>)
      requires Valid() && peer in running
      modifies this`peers, this`running, this`leaving
      ensures Valid() && Handlers() == old(Handlers())
      ensures running == old(running) - multiset{peer} && leaving == old(leaving) + 1
      ensures Connections() == After(old(Connections()), HandlerEnds(peer))
      ensures peer.Some? ==> Decremented(old(peers), peers, peer.value)
    {
      FreeRunning(peers, running, Held(), peer);
      if peer.Some? {
        peers := Decrement(peers, peer.value);
      }
      running := running - multiset{peer};
      leaving := leaving + 1;
    }

    method DropConnGuard()
      requires Valid() && leaving > 0
      modifies this`count, this`leaving
      ensures Valid() && leaving == old(leaving) - 1
      ensures Connections() == After(old(Connections()), HandlerLeaves)
      ensures old(count) >= 1 && count == old(count) - 1
    {
      count := count - 1;
      leaving := leaving - 1;
    }

    // ----- Every interleaving -----

    predicate Enabled(step: Step<Ip>)
      reads this
    {
      match step
      case Accept(_) => acceptor.Idle?
      case AcceptorGoesOn => !acceptor.Idle?
      case HandlerEnds(peer) => peer in running
      case HandlerLeaves => leaving > 0
    }

    /** Whatever thread moves next, it does what the connections call for and the counters stay exact. */
    method Move(step: Step<Ip>)
      requires Valid() && Enabled(step)
      modifies this
      ensures Valid() && Connections() == After(old(Connections()), step)
      ensures !step.Accept? ==> Work() < old(Work())
    {
      hide After, TableExact;
      match step {
        case Accept(peer) =>
          var _ := ClaimPeer(peer);
        case AcceptorGoesOn =>
          GoOn();
        case HandlerEnds(peer) =>
          DropPeerGuard(peer);
        case HandlerLeaves =>
          DropConnGuard();
      }
    }

    /** The accept loop's own next step. */
    method GoOn()
      requires Valid() && !acceptor.Idle?
      modifies this
      ensures Valid() && Work() < old(Work())
      ensures Connections() == After(old(Connections()), AcceptorGoesOn)
    {
      match acceptor {
        case PeerClaimed(_) =>
          var _ := ClaimSlot();
        case Counted(_) => Spawn();
        case Overfull(_) => UnclaimSlot();
        case Uncounted(_) => UnclaimPeer();
      }
    }

    /**
     Any schedule of the threads' atomic steps, that is, every interleaving of
     accepts and guard drops (steps that are not enabled are passed over).
     */
    method Run(schedule: seq<Step<Ip>>)
      requires Valid()
      modifies this
      ensures Valid() && Connections() == AfterAll(old(Connections()), schedule)
    {
      for i := 0 to |schedule|
        invariant Valid() && Connections() == AfterAll(old(Connections()), schedule[..i])
      {
        assert schedule[..i + 1][..i] == schedule[..i];
        if Enabled(schedule[i]) {
          Move(schedule[i]);
        }
      }
      assert schedule[..|schedule|] == schedule;
    }

    /** Once nobody connects any more, however the remaining steps fall, all slots come back. */
    method WindDown()
      requires Valid()
      modifies this
      ensures Valid() && Quiet() && Empty()
    {
      while !acceptor.Idle? || running != multiset{} || leaving > 0
        invariant Valid()
        decreases Work()
      {
        SomeStepEnabled();
        var step: Step<Ip> :| !step.Accept? && Enabled(step);
        Move(step);
      }
      QuietIsEmpty();
    }

    /** While a connection is live some thread can move. */
    lemma SomeStepEnabled()
      requires !Quiet()
      ensures exists step: Step<Ip> :: !step.Accept? && Enabled(step)
    {
      if !acceptor.Idle? {
        assert Enabled(AcceptorGoesOn);
      } else if leaving > 0 {
        assert Enabled(HandlerLeaves);
      } else {
        var peer :| peer in running;
        assert Enabled(HandlerEnds(peer));
      }
    }

    /** The steps left until all is quiet, if nobody connects. */
    ghost function Work(): nat
      reads this
    {
      2 * |running| + leaving +
      match acceptor
      case Idle => 0
      case PeerClaimed(_) => 4
      case Counted(_) => 3
      case Overfull(_) => 2
      case Uncounted(_) => 1
    }

    /** With nobody connected, nothing is left in the counters. */
    lemma QuietIsEmpty()
      requires Valid() && Quiet()
      ensures Empty()
    {
      assert forall ip :: PeerSlots(ip) == 0;
    }
  }

  /** The slots of one address: its running handlers, and the connection being accepted. */
  ghost function Slots<Ip>(running: multiset<Option<Ip>>, held: Option<Ip>, ip: Ip): nat {
    running[Some(ip)] + if held == Some(ip) then 1 else 0
  }

  /** An entry exists only while positive, is the number of slots held, and is within the cap. */
  ghost predicate TableExact<Ip(!new)>(peers: map<Ip, nat>, running: multiset<Option<Ip>>, held: Option<Ip>) {
    && (forall ip :: ip in peers <==> Slots(running, held, ip) > 0)
    && (forall ip :: ip in peers ==> peers[ip] == Slots(running, held, ip) <= MAX_CONNECTIONS_PER_IP)
  }

  lemma FreeRunning<Ip(!new)>(peers: map<Ip, nat>, running: multiset<Option<Ip>>, held: Option<Ip>, peer: Option<Ip>)
    requires TableExact(peers, running, held) && peer in running
    ensures |running - multiset{peer}| == |running| - 1
    ensures peer.Some? ==> Decremented(peers, Decrement(peers, peer.value), peer.value)
    ensures TableExact(if peer.Some? then Decrement(peers, peer.value) else peers, running - multiset{peer}, held)
  {
    assert forall ip ::
        Slots(running - multiset{peer}, held, ip) == Slots(running, held, ip) - if peer == Some(ip) then 1 else 0;
  }

  /** The guards' decrement: `saturating_sub`, and the entry goes when it reaches zero. */
  function Decrement<Ip>(peers: map<Ip, nat>, ip: Ip): map<Ip, nat> {
    if ip !in peers then peers
    else
      var c := if peers[ip] == 0 then 0 else peers[ip] - 1;
      if c == 0 then peers - {ip} else peers[ip := c]
  }

  /** A decrement that found a positive entry and did not saturate. */
  ghost predicate Decremented<Ip>(before: map<Ip, nat>, after: map<Ip, nat>, ip: Ip) {
    && ip in before && before[ip] >= 1
    && after == (if before[ip] == 1 then before - {ip} else before[ip := before[ip] - 1])
  }
}
