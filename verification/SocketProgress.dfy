/** Progress of the client socket: from every reachable state the handshake, the upgrade and
    close() can still come to their end, except after an upgrade that failed too late. */
module SocketProgress {
  import opened EngineSocket

  // ----- what else holds in every reachable state

  /** An upgrade under way is either waiting for its transport to pause, or has failed. */
  ghost predicate UpgradeGoesOn(s: State) {
    && (s.upgrading && s.ready != Closed ==> s.phase.Pausing? || s.phase == Failed)
    && (s.phase.Pausing? ==> s.phase.poll || s.phase.drain)
    && (s.phase.Pausing? && s.phase.drain ==> s.cur.pendingDrains > 0)
    && (s.phase.Probing? || s.phase.Pausing? ==> s.cur.ready != TOpening)
  }

  /** A probe that has not been answered was sent nothing but the probe packet. */
  ghost predicate ProbeWaits(s: State) {
    && (s.phase.NoProbe? ==> s.probe == FreshTransport(false))
    && (s.phase.Probing? ==> s.probe == FreshTransport(false) || (s.probe.ready == TOpen && s.probe.sent == [ProbePing]))
    && (s.phase.Pausing? ==> s.probe.sent == [ProbePing])
  }

  ghost predicate Alive(s: State) {
    Inv(s) && Wakes(s) && UpgradeGoesOn(s) && ProbeWaits(s)
  }

  lemma ListenersLeaveUpgrade(s: State, acts: seq<Act>)
    requires Inv(s) && UpgradeGoesOn(s) && ProbeWaits(s)
    ensures UpgradeGoesOn(Listeners(s, acts)) && ProbeWaits(Listeners(s, acts))
    decreases |acts|
  {
    hide Inv;
    if acts != [] {
      var t := Listener(s, acts[0]);
      ListenerLeavesUpgrade(s, acts[0]);
      ListenersLeaveUpgrade(t, acts[1..]);
    }
  }

  lemma ListenerLeavesUpgrade(s: State, act: Act)
    requires Inv(s) && UpgradeGoesOn(s) && ProbeWaits(s)
    ensures Inv(Listener(s, act)) && UpgradeGoesOn(Listener(s, act)) && ProbeWaits(Listener(s, act))
  {
    hide Conserves, Contents;
    match act {
      case DoSend(content) => SendKeepsInv(s, content);
      case DoClose => CloseKeepsInv(s);
    }
  }

  /** The part of the invariant that this module adds. */
  ghost predicate Goes(s: State) {
    UpgradeGoesOn(s) && ProbeWaits(s)
  }

  lemma CloseGoes(s: State)
    requires Goes(s)
    ensures Goes(OnClose(s)) && Goes(ForceClose(s))
  {
  }

  lemma OnPausedGoes(s: State, acts: seq<Act>)
    requires Inv(s) && s.phase == Pausing(false, false)
    ensures Goes(OnPaused(s, acts))
  {
    hide Contents, Conserves, Flush, ForceClose, Listeners;
    if s.ready != Closed {
      var t := s.(retired := s.retired + s.cur.(ready := TPaused).sent,
                  cur := TransportSend(s.probe, [UpgradePacket]), probe := FreshTransport(false), phase := Switched);
      SwitchedStays(t, acts);
      FlushChanges(EmitUpgrade(t, acts).(upgrading := false));
    }
  }

  lemma FlushChanges(s: State)
    ensures Flush(s).phase == s.phase && Flush(s).upgrading == s.upgrading && Flush(s).ready == s.ready
  {
  }

  lemma SwitchedStays(s: State, acts: seq<Act>)
    requires s.phase == Switched
    ensures EmitUpgrade(s, acts).phase == Switched
  {
    hide ForceClose, Listeners;
    SwitchedListeners(s, acts);
    ForceClosePhase(Listeners(s, acts).(waiter := NotWaiting));
  }

  lemma {:induction false} SwitchedListeners(s: State, acts: seq<Act>)
    requires s.phase == Switched
    ensures Listeners(s, acts).phase == Switched
    decreases |acts|
  {
    if acts != [] {
      SwitchedListeners(Listener(s, acts[0]), acts[1..]);
    }
  }

  lemma PauseGoes(s: State, poll: bool, drain: bool, acts: seq<Act>)
    requires s.phase.Pausing? || s.phase.Probing?
    requires Inv(s.(phase := Pausing(poll, drain)))
    requires s.probe.sent == [ProbePing] && s.cur.ready != TOpening && (drain ==> s.cur.pendingDrains > 0)
    ensures Goes(PauseProgress(s, poll, drain, acts))
  {
    hide Inv, OnPaused;
    if !poll && !drain {
      OnPausedGoes(s.(phase := Pausing(poll, drain)), acts);
    }
  }

  /** While an upgrade is under way a drain event changes the buffer and the waiter alone. */
  lemma DrainWhileUpgrading(s: State, acts: seq<Act>)
    requires Draining(s) && s.upgrading
    ensures OnDrainEvent(s, acts).probe == s.probe && OnDrainEvent(s, acts).upgrading
    ensures OnDrainEvent(s, acts).phase == s.phase && OnDrainEvent(s, acts).cur == s.cur
  {
    hide Inv, Flush, EmitDrain, Draining, DrainDue;
    DrainingIsOpen(s);
    DropSentKeepsInv(s);
    var t := DropSent(s);
    if t.buffer == [] {
      EmitDrainKeepsInv(t, acts);
    } else {
      FlushWhenUpgrading(t);
    }
  }

  lemma DrainGoes(s: State, acts: seq<Act>)
    requires Draining(s) && !s.phase.Pausing? && Goes(s)
    ensures Goes(OnDrainEvent(s, acts))
  {
    hide Inv, Flush, Listeners, ForceClose, Draining, DrainDue;
    DropSentKeepsInv(s);
    var t := DropSent(s);
    if t.buffer == [] {
      if t.waiter == OnDrain {
        ListenersIdle(s, t, acts);
        CloseGoes(t.(waiter := NotWaiting));
      } else {
        DueMeansInv(t);
        ListenersLeaveUpgrade(t, acts);
      }
    } else {
      FlushGoes(t);
    }
  }

  lemma ListenersIdle(s: State, t: State, acts: seq<Act>)
    requires Draining(s) && s.prev <= |s.buffer| && t == DropSent(s) && t.waiter == OnDrain
    ensures Listeners(t, acts) == t
  {
    hide Conserves;
    ListenersWhenClosing(t, acts);
  }

  lemma DueMeansInv(s: State)
    requires DrainDue(s) && s.waiter != OnDrain
    ensures Inv(s)
  {
    hide Inv;
  }

  lemma FlushGoes(s: State)
    requires Goes(s)
    ensures Goes(Flush(s))
  {
  }

  lemma DrainedGoes(s: State, drainActs: seq<Act>, upgradeActs: seq<Act>)
    requires Inv(s) && Goes(s)
    ensures Goes(Step(s, Drained(drainActs, upgradeActs)))
  {
    hide Inv, Draining, OnDrainEvent, PauseProgress;
    if s.cur.pendingDrains > 0 {
      DrainStarts(s);
      if s.ready != Closed {
        var t := s.(cur := TransportDrain(s.cur));
        if s.phase.Pausing? {
          PausingIsUpgrading(s);
          OnDrainKeepsInv(t, drainActs);
          DrainWhileUpgrading(t, drainActs);
          if s.phase.drain {
            var u := OnDrainEvent(t, drainActs);
            PauseCounts(u, s.phase.poll, false);
            PauseGoes(u, s.phase.poll, false, upgradeActs);
          }
        } else {
          DrainGoes(t, drainActs);
        }
      } else {
        ClosedPausesNothing(s);
      }
    }
  }

  lemma ClosedPausesNothing(s: State)
    requires Inv(s) && s.ready == Closed
    ensures !s.phase.Pausing?
  {
  }

  lemma ProbeAnsweredGoes(s: State, isPong: bool, polling: bool, upgradingActs: seq<Act>, upgradeActs: seq<Act>)
    requires Inv(s) && Goes(s)
    ensures Goes(Step(s, ProbeAnswered(isPong, polling, upgradingActs, upgradeActs)))
  {
    hide Inv, Listeners, PauseProgress, ForceClose;
    if s.phase == Probing && s.probe.ready == TOpen {
      if isPong {
        PausePrepared(s, polling, upgradingActs);
        ListenersWhileUpgrading(s, upgradingActs);
        var t := Listeners(s.(upgrading := true), upgradingActs);
        var u := t.(cur := t.cur.(ready := TPausing));
        PauseGoes(u, polling, !u.cur.writable, upgradeActs);
      } else {
        CloseGoes(s.(phase := Failed, waiter := NotWaiting));
      }
    }
  }

  lemma ListenersWhileUpgrading(s: State, acts: seq<Act>)
    requires Inv(s) && Goes(s) && s.phase == Probing
    ensures Upgrading(s.(upgrading := true), Listeners(s.(upgrading := true), acts))
    ensures !s.cur.writable ==> s.cur.pendingDrains > 0
  {
    hide Conserves;
    ConservesFrame(s, s.(upgrading := true));
    ListenersKeepInv(s.(upgrading := true), acts);
  }

  lemma HandshakeGoes(s: State, probes: bool, acts: seq<Act>)
    requires Inv(s) && Goes(s)
    ensures Goes(Step(s, Handshake(probes, acts)))
  {
    hide Contents, Listeners, Flush;
    if s.cur.ready == TOpen && s.ready == Opening {
      ListenersKeepInv(s.(ready := Open), acts);
      ListenersLeaveUpgrade(s.(ready := Open), acts);
      var t := Listeners(s.(ready := Open), acts);
      FlushGoes(t);
      FlushChanges(t);
      FlushKeepsInv(t);
    }
  }

  lemma StepGoes(s: State, e: Event)
    requires Inv(s) && Goes(s)
    ensures Goes(Step(s, e))
  {
    hide Inv, SendPacket, CloseSocket, OnClose, ForceClose, PauseProgress, Listeners, Flush, OnDrainEvent;
    match e
    case Send(content) => ListenerLeavesUpgrade(s, DoSend(content));
    case Close => ListenerLeavesUpgrade(s, DoClose);
    case TransportOpened =>
    case Handshake(probes, acts) => HandshakeGoes(s, probes, acts);
    case Drained(drainActs, upgradeActs) => DrainedGoes(s, drainActs, upgradeActs);
    case PollCompleted(upgradeActs) =>
      if s.phase.Pausing? && s.phase.poll {
        PauseCountsFor(s);
        PauseGoes(s, false, s.phase.drain, upgradeActs);
      }
    case ProbeOpened(losesBinary) =>
    case ProbeDrained =>
    case ProbeAnswered(isPong, polling, upgradingActs, upgradeActs) =>
      ProbeAnsweredGoes(s, isPong, polling, upgradingActs, upgradeActs);
    case ProbeFailed =>
      if s.phase.Probing? || s.phase.Pausing? {
        CloseGoes(s.(phase := Failed, probe := TransportClose(s.probe), waiter := NotWaiting));
      }
    case Abort => CloseGoes(s);
  }

  lemma {:induction false} RunIsAlive(s: State, events: seq<Event>)
    requires Alive(s)
    ensures Alive(Run(s, events))
    decreases |events|
  {
    hide Step, Inv, Wakes, UpgradeGoesOn, ProbeWaits;
    if events != [] {
      StepKeepsInv(s, events[0]);
      StepWakes(s, events[0]);
      StepGoes(s, events[0]);
      RunIsAlive(Step(s, events[0]), events[1..]);
    }
  }

  lemma ReachableIsAlive(polling: bool, events: seq<Event>)
    ensures Alive(Run(Initial(polling), events))
  {
    hide Run;
    InitialInv(polling);
    RunIsAlive(Initial(polling), events);
  }

  // ----- single steps towards the end

  const DRAIN := Drained([], [])
  const POLL := PollCompleted([])

  /** The writes in flight complete, and so does the poll. */
  function Settling(): seq<Event> {
    [DRAIN, POLL, DRAIN, DRAIN]
  }

  lemma RunSettling(s: State)
    ensures Run(s, Settling()) == Step(Step(Step(Step(s, DRAIN), POLL), DRAIN), DRAIN)
  {
    hide Step;
    assert Settling()[1..] == [POLL, DRAIN, DRAIN] && [POLL, DRAIN, DRAIN][1..] == [DRAIN, DRAIN];
    assert [DRAIN, DRAIN][1..] == [DRAIN] && [DRAIN][1..] == [];
  }

  function Unsent(s: State): seq<nat> {
    if s.prev <= |s.buffer| then s.buffer[s.prev..] else []
  }

  lemma UnsentIsOutstanding(s: State)
    requires Inv(s) && s.ready != Closed
    ensures Handed(s) + Unsent(s) == s.accepted
  {
    hide Contents;
  }

  /** A drain event of an open socket hands over what was unsent. */
  lemma OpenDrains(s: State)
    requires Inv(s) && Wakes(s) && s.ready == Open && !s.upgrading && !s.phase.Pausing?
    ensures var t := Step(s, DRAIN);
            && t.ready == Open && !t.upgrading && t.phase == s.phase && t.probe == s.probe
            && t.retired == s.retired && t.cur.sent == s.cur.sent + ToPackets(Unsent(s))
            && t.accepted == s.accepted && Unsent(t) == [] && Inv(t) && Wakes(t)
  {
    hide Step, Inv, Wakes, ToPackets, Unsent;
    StepKeepsInv(s, DRAIN);
    StepWakes(s, DRAIN);
    OpenDrainStep(s);
  }

  lemma OpenDrainStep(s: State)
    requires Inv(s) && Wakes(s) && s.ready == Open && !s.upgrading && !s.phase.Pausing?
    ensures var t := Step(s, DRAIN);
            && t.ready == Open && !t.upgrading && t.phase == s.phase && t.probe == s.probe
            && t.retired == s.retired && t.cur.sent == s.cur.sent + ToPackets(Unsent(s))
            && t.accepted == s.accepted && Unsent(t) == []
  {
    hide *;
    OpenFacts(s);
    if s.cur.pendingDrains == 0 {
      NothingMore(s);
      NoDrainDue(s);
    } else {
      DrainFlushes(s);
    }
  }

  lemma OpenFacts(s: State)
    requires Inv(s) && Wakes(s) && s.ready == Open && !s.upgrading
    ensures s.waiter == NotWaiting && s.cur.ready == TOpen && (s.cur.pendingDrains == 0 ==> Unsent(s) == [])
  {
    hide Conserves;
  }

  lemma NoDrainDue(s: State)
    requires s.cur.pendingDrains == 0
    ensures Step(s, DRAIN) == s
  {
  }

  lemma DrainFlushes(s: State)
    requires s.ready == Open && !s.upgrading && !s.phase.Pausing? && s.waiter == NotWaiting
    requires s.cur.pendingDrains > 0 && s.cur.ready == TOpen
    ensures var t := Step(s, DRAIN);
            && t.ready == Open && !t.upgrading && t.phase == s.phase && t.probe == s.probe
            && t.retired == s.retired && t.cur.sent == s.cur.sent + ToPackets(Unsent(s))
            && t.accepted == s.accepted && Unsent(t) == []
  {
    hide ToPackets;
    var t := s.(cur := TransportDrain(s.cur), buffer := Unsent(s), prev := 0);
    assert Listeners(t, []) == t;
    if t.buffer == [] {
      NothingMore(s);
      assert Step(s, DRAIN) == t;
    } else {
      assert Step(s, DRAIN) == Flush(t);
    }
  }

  lemma NothingMore(s: State)
    requires Unsent(s) == []
    ensures s.cur.sent + ToPackets(Unsent(s)) == s.cur.sent
  {
    assert ToPackets([]) == [];
  }

  /** The state in which pause() calls back, once the writes in flight and the poll are over. */
  function ReadyToSwitch(s: State): State {
    s.(cur := TransportDrain(s.cur), buffer := Unsent(s), prev := 0, phase := Pausing(false, false),
       waiter := if s.waiter == OnDrain && Unsent(s) == [] then OnUpgrade else s.waiter)
  }

  lemma DrainWhilePausing(s: State)
    requires Inv(s) && Goes(s) && s.phase.Pausing?
    ensures s.phase.poll ==> Step(s, DRAIN) == ReadyToSwitch(s).(phase := Pausing(true, false))
    ensures !s.phase.poll ==> Step(s, DRAIN) == OnPaused(ReadyToSwitch(s), [])
  {
    hide OnPaused, Conserves;
    if s.cur.pendingDrains == 0 {
      assert s.buffer[0..] == s.buffer;
      assert ReadyToSwitch(s).(phase := Pausing(true, false)) == s;
    } else {
      var t := s.(cur := TransportDrain(s.cur), buffer := Unsent(s), prev := 0);
      assert Listeners(t, []) == t;
    }
  }

  lemma OnPausedEnds(s: State)
    requires s.phase.Pausing? && s.ready != Closed
    ensures !OnPaused(s, []).phase.Pausing?
  {
    hide Flush, ForceClose, Conserves;
    SwitchedStays(Switch(s), []);
    FlushChanges(EmitUpgrade(Switch(s), []).(upgrading := false));
  }

  /** The probed transport has taken over; the upgrade event is still to come. */
  function Switch(s: State): State {
    s.(retired := s.retired + s.cur.sent, cur := TransportSend(s.probe, [UpgradePacket]),
       probe := FreshTransport(false), phase := Switched)
  }

  lemma PauseEnds(s: State)
    requires Inv(s) && Goes(s) && s.phase.Pausing?
    ensures Step(Step(s, DRAIN), POLL) == OnPaused(ReadyToSwitch(s), [])
  {
    hide OnPaused, Conserves, TransportDrain, Unsent;
    DrainWhilePausing(s);
    if !s.phase.poll {
      OnPausedEnds(ReadyToSwitch(s));
    }
  }

  /** Taking over leaves an open socket open, with what is unsent still in its buffer. */
  lemma SwitchWhileOpen(s: State)
    requires s.phase.Pausing? && s.ready == Open && s.waiter == NotWaiting && s.probe.ready == TOpen
    ensures var t := OnPaused(s, []);
            && t.ready == Open && t.phase == Switched && !t.upgrading && t.buffer == s.buffer && t.prev == s.prev
            && t.retired == s.retired + s.cur.sent && t.cur.sent == s.probe.sent + [UpgradePacket]
            && t.accepted == s.accepted
  {
    hide Contents;
    var t := Switch(s.(cur := s.cur.(ready := TPaused)));
    assert Listeners(t, []) == t;
    assert OnPaused(s, []) == Flush(t.(upgrading := false));
  }

  /** The completed writes and the completed poll bring an upgrade to its end. */
  lemma PausingSettles(s: State)
    requires Alive(s) && s.ready == Open && s.phase.Pausing?
    ensures var t := Run(s, Settling());
            && t.ready == Open && t.phase == Switched && !t.upgrading && Unsent(t) == [] && Inv(t)
            && t.retired == s.retired + s.cur.sent && t.accepted == s.accepted
            && t.cur.sent == s.probe.sent + [UpgradePacket] + ToPackets(Unsent(s))
  {
    hide Step, Conserves, Wakes, OnPaused, ToPackets;
    RunSettling(s);
    PauseEnds(s);
    SwitchWhileOpen(ReadyToSwitch(s));
    var t := Step(Step(s, DRAIN), POLL);
    StepKeepsInv(s, DRAIN);
    StepKeepsInv(Step(s, DRAIN), POLL);
    StepWakes(s, DRAIN);
    StepWakes(Step(s, DRAIN), POLL);
    OpenDrains(t);
    OpenDrains(Step(t, DRAIN));
    NothingMore(Step(t, DRAIN));
  }

  /** The same without an upgrade: everything unsent is handed over. */
  lemma OpenSettles(s: State)
    requires Alive(s) && s.ready == Open && !s.upgrading
    ensures var t := Run(s, Settling());
            && t.ready == Open && t.phase == s.phase && !t.upgrading && Unsent(t) == [] && Inv(t)
            && t.retired == s.retired && t.accepted == s.accepted
            && t.cur.sent == s.cur.sent + ToPackets(Unsent(s))
  {
    hide Step, Conserves, Wakes, ToPackets;
    RunSettling(s);
    var t := Step(s, DRAIN);
    OpenDrains(s);
    PollIsIdle(t);
    OpenDrains(t);
    OpenDrains(Step(t, DRAIN));
    NothingMore(t);
    NothingMore(Step(t, DRAIN));
  }

  lemma PollIsIdle(s: State)
    requires !s.phase.Pausing?
    ensures Step(s, POLL) == s
  {
  }

  // ----- sending and upgrading

  lemma {:induction false} RunConcat(s: State, a: seq<Event>, b: seq<Event>)
    ensures Run(s, a + b) == Run(Run(s, a), b)
    decreases |a|
  {
    hide Step;
    if a == [] {
      assert a + b == b;
    } else {
      assert (a + b)[1..] == a[1..] + b;
      RunConcat(Step(s, a[0]), a[1..], b);
    }
  }

  lemma RunTwo(s: State, a: Event, b: Event)
    ensures Run(s, [a, b]) == Step(Step(s, a), b)
  {
    hide Step;
    assert [a, b][1..] == [b] && [b][1..] == [];
    assert Run(s, [a, b]) == Run(Step(s, a), [b]) == Run(Step(Step(s, a), b), []);
  }

  /** The transport opens and the server's handshake arrives. */
  function Connecting(probes: bool): seq<Event> {
    [TransportOpened, Handshake(probes, [])]
  }

  /** The probed transport opens and the server answers the probe. */
  function Probed(polling: bool): seq<Event> {
    [ProbeOpened(false), ProbeAnswered(true, polling, [], [])]
  }

  /** The handshake opens the socket and starts a probe exactly if there is something to upgrade. */
  lemma HandshakeOpens(s: State, probes: bool)
    requires Alive(s) && s.ready == EngineSocket.Opening
    ensures var t := Run(s, Connecting(probes));
            && t.ready == Open && !t.upgrading && Alive(t) && t.accepted == s.accepted && t.retired == s.retired
            && t.phase == if probes && s.cur.pauses then Probing else NoProbe
  {
    hide Conserves;
    RunTwo(s, TransportOpened, Handshake(probes, []));
    RunIsAlive(s, Connecting(probes));
    var t := Step(s, TransportOpened);
    assert t.cur.ready == TOpen && t.ready == EngineSocket.Opening;
    assert Listeners(t.(ready := Open), []) == t.(ready := Open);
  }

  /** A pong for the probe, and the upgrade runs to its end: the old transport gets nothing more, the
      new one the upgrade packet and then whatever is unsent. */
  lemma UpgradeCompletes(polling: bool, events: seq<Event>, polls: bool)
    requires var s := Run(Initial(polling), events); s.ready == Open && s.phase == Probing
    ensures var s := Run(Initial(polling), events);
            var t := Run(s, Probed(polls) + Settling());
            && t.ready == Open && t.phase == Switched && !t.upgrading
            && t.retired == s.retired + s.cur.sent
            && t.cur.sent == [ProbePing, UpgradePacket] + ToPackets(Unsent(s))
            && Handed(t) == t.accepted == s.accepted
  {
    hide Run, Step, Inv, Wakes, ToPackets, Handed;
    var s := Run(Initial(polling), events);
    ReachableIsAlive(polling, events);
    var t := Run(s, Probed(polls));
    RunConcat(s, Probed(polls), Settling());
    RunIsAlive(s, Probed(polls));
    RunTwo(s, ProbeOpened(false), ProbeAnswered(true, polls, [], []));
    PongBegins(s, polls);
    if t.phase.Pausing? {
      PausingSettles(t);
    } else {
      OpenSettles(t);
    }
    UnsentIsOutstanding(Run(t, Settling()));
  }

  /** The answer to the probe starts pausing, or takes over at once if there is nothing to wait for. */
  lemma PongBegins(s: State, polls: bool)
    requires Alive(s) && s.ready == Open && s.phase == Probing
    ensures var t := Step(Step(s, ProbeOpened(false)), ProbeAnswered(true, polls, [], []));
            && t.ready == Open && t.accepted == s.accepted && Unsent(t) == Unsent(s)
            && (polls || !s.cur.writable ==>
                  t.phase == Pausing(polls, !s.cur.writable) && t.probe.sent == [ProbePing]
                  && t.cur.sent == s.cur.sent && t.retired == s.retired)
            && (!polls && s.cur.writable ==>
                  t.phase == Switched && !t.upgrading && t.cur.sent == [ProbePing, UpgradePacket]
                  && t.retired == s.retired + s.cur.sent)
  {
    hide Step, Inv, Wakes, Unsent;
    ProbeOpens(s);
    NothingAwaited(s);
    PongAnswers(Step(s, ProbeOpened(false)), polls);
  }

  lemma NothingAwaited(s: State)
    requires Inv(s) && s.ready == Open
    ensures s.waiter == NotWaiting
  {
    hide Conserves;
  }

  lemma ProbeOpens(s: State)
    requires ProbeWaits(s) && s.phase == Probing
    ensures var t := Step(s, ProbeOpened(false));
            && t == s.(probe := t.probe) && t.probe.ready == TOpen && t.probe.sent == [ProbePing]
            && Unsent(t) == Unsent(s)
  {
  }

  lemma PongAnswers(s: State, polls: bool)
    requires s.ready == Open && s.phase == Probing && s.waiter == NotWaiting
    requires s.probe.ready == TOpen && s.probe.sent == [ProbePing]
    ensures var t := Step(s, ProbeAnswered(true, polls, [], []));
            && t.ready == Open && t.accepted == s.accepted && Unsent(t) == Unsent(s)
            && (polls || !s.cur.writable ==>
                  t.phase == Pausing(polls, !s.cur.writable) && t.probe.sent == [ProbePing]
                  && t.cur.sent == s.cur.sent && t.retired == s.retired)
            && (!polls && s.cur.writable ==>
                  t.phase == Switched && !t.upgrading && t.cur.sent == [ProbePing, UpgradePacket]
                  && t.retired == s.retired + s.cur.sent)
  {
    hide OnPaused;
    assert Listeners(s.(upgrading := true), []) == s.(upgrading := true);
    var u := s.(upgrading := true, cur := s.cur.(ready := TPausing), phase := Pausing(polls, !s.cur.writable));
    SwitchWhileOpen(u);
    assert [ProbePing] + [UpgradePacket] == [ProbePing, UpgradePacket];
  }

  /** The upgrade failed after it had begun: `upgrading` is never taken back. */
  ghost predicate Stuck(s: State) {
    s.upgrading && s.phase == Failed
  }

  lemma StuckStep(s: State, e: Event)
    requires Inv(s) && Stuck(s) && s.ready != Closed && e != Abort
    ensures Stuck(Step(s, e)) && Step(s, e).ready != Closed && Handed(Step(s, e)) == Handed(s)
  {
    hide Contents, Conserves, Listeners, ForceClose;
    match e
    case Drained(drainActs, upgradeActs) =>
      if s.cur.pendingDrains > 0 {
        StuckDrain(s, drainActs);
      }
    case _ =>
  }

  lemma StuckDrain(s: State, acts: seq<Act>)
    requires Inv(s) && Stuck(s) && s.ready != Closed && s.cur.pendingDrains > 0
    ensures var t := OnDrainEvent(s.(cur := TransportDrain(s.cur)), acts);
            Stuck(t) && t.ready != Closed && Handed(t) == Handed(s)
  {
    hide Inv, Draining, OnDrainEvent, Contents;
    DrainStarts(s);
    var t := s.(cur := TransportDrain(s.cur));
    OnDrainKeepsInv(t, acts);
    DrainWhileUpgrading(t, acts);
    DrainRetiresNothing(t, acts);
  }

  lemma DrainRetiresNothing(s: State, acts: seq<Act>)
    requires Draining(s) && s.upgrading
    ensures OnDrainEvent(s, acts).retired == s.retired
  {
    hide Inv, Flush, EmitDrain, Draining, DrainDue;
    DrainingIsOpen(s);
    DropSentKeepsInv(s);
    var t := DropSent(s);
    if t.buffer == [] {
      EmitDrainKeepsInv(t, acts);
    } else {
      FlushWhenUpgrading(t);
    }
  }

  /** Nothing is handed over any more, and no close comes to its end. */
  lemma {:induction false} StuckForever(s: State, events: seq<Event>)
    requires Inv(s) && Stuck(s) && s.ready != Closed && Abort !in events
    ensures Stuck(Run(s, events)) && Run(s, events).ready != Closed && Handed(Run(s, events)) == Handed(s)
    decreases |events|
  {
    hide Step, Inv, Handed;
    if events != [] {
      StuckStep(s, events[0]);
      StepKeepsInv(s, events[0]);
      StuckForever(Step(s, events[0]), events[1..]);
    }
  }

  /** Losing the probed transport while the old one is being paused leaves the socket stuck. */
  lemma LateFailureSticks(s: State)
    requires Inv(s) && s.ready == Open && s.phase.Pausing?
    ensures Stuck(Step(s, ProbeFailed)) && Step(s, ProbeFailed).ready == Open
  {
    hide Conserves;
  }

  lemma StuckIsReachable()
    ensures exists events :: Abort !in events && Stuck(Run(Initial(true), events)) && Run(Initial(true), events).ready == Open
  {
    hide Run, Step, Alive, Stuck;
    var s := Initial(true);
    var t := Run(s, Connecting(true));
    var u := Run(t, Probed(true));
    ReachableIsAlive(true, []);
    RunNone(s);
    HandshakeOpens(s, true);
    RunTwo(t, ProbeOpened(false), ProbeAnswered(true, true, [], []));
    PongBegins(t, true);
    RunConcat(s, Connecting(true), Probed(true));
    ReachableIsAlive(true, Connecting(true) + Probed(true));
    AliveMeansInv(u);
    LateFailureSticks(u);
    RunOne(u, ProbeFailed);
    RunConcat(s, Connecting(true) + Probed(true), [ProbeFailed]);
    var events := Connecting(true) + Probed(true) + [ProbeFailed];
    assert Abort !in events && Stuck(Run(s, events)) && Run(s, events).ready == Open;
  }

  lemma AliveMeansInv(s: State)
    requires Alive(s)
    ensures Inv(s)
  {
  }

  lemma RunNone(s: State)
    ensures Run(s, []) == s
  {
  }

  lemma RunOne(s: State, e: Event)
    ensures Run(s, [e]) == Step(s, e)
  {
    hide Step;
    assert [e][1..] == [];
  }

  ghost predicate HandsOver(s: State, content: nat, later: seq<Event>) {
    Handed(Run(Step(s, Send(content)), later)) == s.accepted + [content]
  }

  /** What brings an open or opening socket that is not stuck to rest. */
  function ToRest(s: State): seq<Event> {
    (if s.ready == EngineSocket.Opening then Connecting(false) else []) + Settling()
  }

  lemma ComesToRest(s: State)
    requires Alive(s) && AcceptsPackets(s) && !Stuck(s)
    ensures Handed(Run(s, ToRest(s))) == s.accepted
  {
    hide Run, Inv, Wakes, Handed, ToPackets;
    var before := if s.ready == EngineSocket.Opening then Connecting(false) else [];
    RunConcat(s, before, Settling());
    RunNone(s);
    if s.ready == EngineSocket.Opening {
      HandshakeOpens(s, false);
    }
    var t := Run(s, before);
    if t.phase.Pausing? {
      PausingSettles(t);
    } else {
      OpenSettles(t);
    }
    UnsentIsOutstanding(Run(t, Settling()));
  }

  lemma SendKeepsUpgrade(s: State, content: nat)
    ensures SendPacket(s, content).phase == s.phase && SendPacket(s, content).upgrading == s.upgrading
    ensures SendPacket(s, content).ready == s.ready
  {
  }

  lemma StepIsAlive(s: State, e: Event)
    requires Alive(s)
    ensures Alive(Step(s, e))
  {
    hide Step, Alive, Run;
    RunIsAlive(s, [e]);
    RunOne(s, e);
  }

  /** A packet sent to a socket that is not yet closing can be handed over, without a transport
      error, exactly if no upgrade has failed after it had begun. */
  lemma SentIsHandedOver(polling: bool, events: seq<Event>, content: nat)
    ensures var s := Run(Initial(polling), events);
            AcceptsPackets(s) ==>
              ((exists later :: Abort !in later && HandsOver(s, content, later)) <==> !Stuck(s))
  {
    hide Run, Inv, Wakes, Goes, UpgradeGoesOn, ProbeWaits, SendPacket, HandsOver;
    var s := Run(Initial(polling), events);
    ReachableIsAlive(polling, events);
    if AcceptsPackets(s) {
      var t := Step(s, Send(content));
      SendTakes(s, content);
      SendKeepsUpgrade(s, content);
      StepIsAlive(s, Send(content));
      if Stuck(s) {
        forall later | Abort !in later ensures !HandsOver(s, content, later) {
          StuckForever(t, later);
          StuckHandsOverLess(s, content, later);
        }
      } else {
        ComesToRest(t);
        RestHandsOver(s, content);
        assert Abort !in ToRest(t) && HandsOver(s, content, ToRest(t));
      }
    }
  }

  lemma RestHandsOver(s: State, content: nat)
    requires var t := Step(s, Send(content)); Handed(Run(t, ToRest(t))) == t.accepted == s.accepted + [content]
    ensures HandsOver(s, content, ToRest(Step(s, Send(content))))
  {
  }

  /** The packet stays behind in the buffer. */
  lemma StuckHandsOverLess(s: State, content: nat, later: seq<Event>)
    requires Inv(s) && AcceptsPackets(s) && s.upgrading
    requires Handed(Run(Step(s, Send(content)), later)) == Handed(Step(s, Send(content)))
    ensures !HandsOver(s, content, later)
  {
    hide Run, Contents, Conserves;
    UnsentIsOutstanding(s);
    assert Step(s, Send(content)).cur == s.cur && Step(s, Send(content)).retired == s.retired;
    assert |Handed(s)| <= |s.accepted|;
  }

  // ----- closing

  lemma CompletesIfClosed(t: State, events: seq<Event>)
    requires Inv(t) && Orderly(t) && !AcceptsPackets(t) && Abort !in events && Run(t, events).ready == Closed
    ensures Completes(t, events)
  {
    hide Run, Inv, Handed, DoneInAll;
    RunKeepsInv(t, events);
    RunOrderly(t, events);
    RunTakes(t, events);
    ForcedHandsOver(Run(t, events));
  }

  lemma ClosedStaysClosed(s: State)
    requires s.ready == Closed && !s.phase.Pausing?
    ensures Step(s, DRAIN).ready == Closed && !Step(s, DRAIN).phase.Pausing?
  {
  }

  /** close() waits for a drain that is due. */
  ghost predicate ClosingAfterDrain(s: State) {
    && Inv(s) && s.ready == Closing && s.waiter == OnDrain && !s.upgrading && !s.phase.Pausing?
    && s.cur.pendingDrains > 0
  }

  lemma DrainsTwice(s: State)
    requires ClosingAfterDrain(s)
    ensures var t := Step(s, DRAIN);
            Step(t, DRAIN).ready == Closed && (t.ready == Closed || ClosingAfterDrain(t)) && !t.phase.Pausing?
  {
    hide Contents, Conserves;
    StepKeepsInv(s, DRAIN);
    var t := s.(cur := TransportDrain(s.cur), buffer := Unsent(s), prev := 0);
    assert Listeners(t, []) == t;
    if t.buffer != [] {
      var u := Flush(t);
      assert Step(s, DRAIN) == u;
      var v := u.(cur := TransportDrain(u.cur), buffer := [], prev := 0);
      assert u.buffer[u.prev..] == [];
      assert Listeners(v, []) == v;
    }
  }

  /** Taking over ends a close that waits for the upgrade; one that waits for the drain goes on. */
  lemma SwitchWhileClosing(s: State)
    requires s.phase.Pausing? && s.ready == Closing && s.probe.ready == TOpen
    requires s.waiter == OnUpgrade || (s.waiter == OnDrain && s.buffer != [])
    ensures var t := OnPaused(s, []);
            && t.phase == Switched
            && (s.waiter == OnUpgrade ==> t.ready == Closed)
            && (s.waiter == OnDrain ==> t.ready == Closing && t.waiter == OnDrain && !t.upgrading && t.cur.pendingDrains > 0)
  {
    hide Contents;
    var t := Switch(s.(cur := s.cur.(ready := TPaused)));
    assert Listeners(t, []) == t;
  }

  lemma ClosingSettles(s: State)
    requires Inv(s) && Goes(s) && !Stuck(s)
    requires s.ready == Closed || ClosingAfterDrain(s) || (s.ready == Closing && s.waiter != NotWaiting && s.upgrading)
    ensures Run(s, Settling()).ready == Closed
  {
    hide Step, Conserves, OnPaused;
    RunSettling(s);
    var t := Step(Step(s, DRAIN), POLL);
    StepKeepsInv(s, DRAIN);
    StepKeepsInv(Step(s, DRAIN), POLL);
    if s.ready == Closed {
      ClosedStaysClosed(s);
      PollIsIdle(Step(s, DRAIN));
    } else if s.upgrading {
      PauseEnds(s);
      SwitchWhileClosing(ReadyToSwitch(s));
    } else {
      DrainsTwice(s);
      PollIsIdle(Step(s, DRAIN));
    }
    if t.ready == Closed {
      ClosedStaysClosed(t);
      ClosedStaysClosed(Step(t, DRAIN));
    } else {
      DrainsTwice(t);
    }
  }

  lemma CloseBegins(s: State)
    requires Alive(s) && s.ready == Open
    ensures var t := Step(s, Close);
            && (t.ready == Closed || ClosingAfterDrain(t) || (t.ready == Closing && t.waiter != NotWaiting && t.upgrading))
            && (Stuck(t) <==> Stuck(s)) && !AcceptsPackets(t) && (Stuck(s) ==> t.ready != Closed)
  {
    hide Contents, Conserves;
    StepKeepsInv(s, Close);
  }

  /** close() of an open socket comes to its end without a transport error, with everything
      accepted handed over, exactly if no upgrade has failed after it had begun. */
  lemma CloseCompletesWhenOpen(polling: bool, events: seq<Event>)
    ensures var s := Run(Initial(polling), events);
            s.ready == Open ==>
              ((exists later :: Abort !in later && Completes(Step(s, Close), later)) <==> !Stuck(s))
  {
    hide Run, Inv, Wakes, UpgradeGoesOn, ProbeWaits, CloseSocket, Completes, ClosingAfterDrain;
    var s := Run(Initial(polling), events);
    ReachableIsAlive(polling, events);
    if s.ready == Open {
      var t := Step(s, Close);
      StepIsAlive(s, Close);
      CloseBegins(s);
      if Stuck(s) {
        forall later | Abort !in later ensures !Completes(t, later) {
          StuckForever(t, later);
          NotCompleted(t, later);
        }
      } else {
        ClosingSettles(t);
        StepOrderly(s, Close);
        CompletesIfClosed(t, Settling());
        assert Abort !in Settling() && Completes(t, Settling());
      }
    }
  }
}
