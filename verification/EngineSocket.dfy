/** The engine.io client socket: a send buffer that is flushed to a transport, an upgrade
    from polling to WebSocket, and a close that waits for both.

    This module is the step system; `EngineSocketImpl` holds the methods and proves that
    each of them takes the corresponding step. */
module EngineSocket {
  /** What a transport is handed: packets accepted by sendPacket, and control packets
      that the socket writes past its buffer. */
  datatype Packet = Accepted(content: nat) | ProbePing | UpgradePacket | ClosePacket

  datatype TransportReady = TOpening | TOpen | TPausing | TPaused | TClosed

  /** A transport: `pendingDrains` counts the writes whose drain event is still to come, `sent`
      is everything it was handed; `threw` records a send on a transport that was not open. */
  datatype Transport = Transport(pauses: bool, ready: TransportReady, writable: bool,
                                 pendingDrains: nat, sent: seq<Packet>, threw: bool)

  datatype ReadyState = Opening | Open | Closing | Closed

  /** How far the upgrade has come. While pausing, `poll` and `drain` tell which of the old
      transport's events are still awaited. */
  datatype Phase = NoProbe | Probing | Pausing(poll: bool, drain: bool) | Switched | Failed

  /** The listener that close() left behind. */
  datatype Waiter = NotWaiting | OnDrain | OnUpgrade

  /** What a forced close found: the packets it threw away and whether an upgrade was pending. */
  datatype Forced = NotForced | WasForced(unsent: seq<nat>, pausing: bool)

  /** `retired`, `accepted`, `lost` and `forced` are histories: what the transport before an
      upgrade was handed, what sendPacket accepted, and what closing threw away. */
  datatype State = State(ready: ReadyState, buffer: seq<nat>, prev: nat, upgrading: bool,
                         cur: Transport, probe: Transport, phase: Phase, waiter: Waiter,
                         retired: seq<Packet>, accepted: seq<nat>, lost: seq<nat>, forced: Forced)

  /** What a listener of the application may do while the socket emits an event. */
  datatype Act = DoSend(content: nat) | DoClose

  datatype Event =
    | Send(content: nat)
    | Close
    | TransportOpened
    | Handshake(probes: bool, acts: seq<Act>)
    | Drained(drainActs: seq<Act>, upgradeActs: seq<Act>)
    | PollCompleted(upgradeActs: seq<Act>)
    | ProbeOpened(losesBinary: bool)
    | ProbeDrained
    | ProbeAnswered(isPong: bool, polling: bool, upgradingActs: seq<Act>, upgradeActs: seq<Act>)
    | ProbeFailed
    | Abort

  function FreshTransport(pauses: bool): Transport {
    Transport(pauses, TOpening, false, 0, [], false)
  }

  function Initial(polling: bool): State {
    State(Opening, [], 0, false, FreshTransport(polling), FreshTransport(false), NoProbe, NotWaiting,
          [], [], [], NotForced)
  }

  // ----- the transport's side

  function TransportSend(t: Transport, packets: seq<Packet>): Transport {
    if t.ready == TOpen then
      t.(writable := false, pendingDrains := t.pendingDrains + 1, sent := t.sent + packets)
    else
      t.(threw := true)
  }

  function TransportClose(t: Transport): Transport {
    if t.ready == TOpen && t.pauses then
      t.(ready := TClosed, writable := false, pendingDrains := t.pendingDrains + 1, sent := t.sent + [ClosePacket])
    else if t.ready == TOpen || t.ready == TOpening then t.(ready := TClosed)
    else t
  }

  function TransportDrain(t: Transport): Transport {
    if t.pendingDrains == 0 then t
    else t.(writable := true, pendingDrains := t.pendingDrains - 1)
  }

  // ----- the socket's side

  function ToPackets(contents: seq<nat>): (ps: seq<Packet>)
    ensures |ps| == |contents| && forall i | 0 <= i < |ps| :: ps[i] == Accepted(contents[i])
  {
    seq(|contents|, i requires 0 <= i < |contents| => Accepted(contents[i]))
  }

  function Flush(s: State): State {
    if s.ready != Closed && s.cur.writable && !s.upgrading && s.buffer != [] then
      s.(cur := TransportSend(s.cur, ToPackets(s.buffer)), prev := |s.buffer|)
    else s
  }

  function SendPacket(s: State, content: nat): State {
    if s.ready == Closing || s.ready == Closed then s
    else Flush(s.(buffer := s.buffer + [content], accepted := s.accepted + [content]))
  }

  function OnClose(s: State): State {
    if s.ready == Closed then s
    else
      s.(ready := Closed, cur := TransportClose(s.cur),
         probe := if s.phase.Probing? || s.phase.Pausing? then TransportClose(s.probe) else s.probe,
         phase := if s.phase.Probing? || s.phase.Pausing? then Failed else s.phase,
         waiter := NotWaiting, buffer := [], prev := 0,
         lost := if s.prev <= |s.buffer| then s.buffer[s.prev..] else [])
  }

  /** The close() inside close(): it records what it found before it tears the socket down. */
  function ForceClose(s: State): State {
    if s.ready == Closed then s
    else OnClose(s.(forced := WasForced(if s.prev <= |s.buffer| then s.buffer[s.prev..] else [], s.phase.Pausing?)))
  }

  function CloseSocket(s: State): State {
    if s.ready == Opening || s.ready == Open then
      var s := s.(ready := Closing);
      if s.buffer != [] then s.(waiter := OnDrain)
      else if s.upgrading then s.(waiter := OnUpgrade)
      else ForceClose(s)
    else s
  }

  function Listener(s: State, act: Act): State {
    match act
    case DoSend(content) => SendPacket(s, content)
    case DoClose => CloseSocket(s)
  }

  function Listeners(s: State, acts: seq<Act>): State
    decreases |acts|
  {
    if acts == [] then s else Listeners(Listener(s, acts[0]), acts[1..])
  }

  /** The socket's own drain event: the application's listeners, then close()'s. */
  function EmitDrain(s: State, acts: seq<Act>): State {
    var t := Listeners(s, acts);
    if s.waiter != OnDrain then t
    else if t.upgrading then t.(waiter := OnUpgrade)
    else ForceClose(t.(waiter := NotWaiting))
  }

  function OnDrainEvent(s: State, acts: seq<Act>): State {
    var t := s.(buffer := if s.prev <= |s.buffer| then s.buffer[s.prev..] else [], prev := 0);
    if t.buffer == [] then EmitDrain(t, acts) else Flush(t)
  }

  /** The callback of pause(): the probed transport takes over. */
  function OnPaused(s: State, acts: seq<Act>): State {
    var s := s.(cur := s.cur.(ready := TPaused));
    if s.ready == Closed || s.phase == Failed then s
    else
      var t := s.(retired := s.retired + s.cur.sent, cur := TransportSend(s.probe, [UpgradePacket]),
                  probe := FreshTransport(false), phase := Switched);
      var u := EmitUpgrade(t, acts);
      Flush(u.(upgrading := false))
  }

  function EmitUpgrade(s: State, acts: seq<Act>): State {
    var t := Listeners(s, acts);
    if s.waiter == OnUpgrade then ForceClose(t.(waiter := NotWaiting)) else t
  }

  function EmitUpgradeError(s: State): State {
    if s.waiter == OnUpgrade then ForceClose(s.(waiter := NotWaiting)) else s
  }

  /** One of the events that pause() waits for has happened. */
  function PauseProgress(s: State, poll: bool, drain: bool, acts: seq<Act>): State {
    var t := s.(phase := Pausing(poll, drain));
    if poll || drain then t else OnPaused(t, acts)
  }

  function Step(s: State, e: Event): State {
    match e
    case Send(content) => SendPacket(s, content)
    case Close => CloseSocket(s)
    case TransportOpened =>
      if s.cur.ready == TOpening then s.(cur := s.cur.(ready := TOpen, writable := true)) else s
    case Handshake(probes, acts) =>
      if s.cur.ready != TOpen || s.ready != Opening then s
      else
        var t := Flush(Listeners(s.(ready := Open), acts));
        if t.ready == Open && probes && t.cur.pauses && t.phase == NoProbe then t.(phase := Probing) else t
    case Drained(drainActs, upgradeActs) =>
      if s.cur.pendingDrains == 0 then s
      else
        var t := s.(cur := TransportDrain(s.cur));
        if s.ready == Closed then t
        else
          var u := OnDrainEvent(t, drainActs);
          // pause() registered its drain listener after the socket's own
          if s.phase.Pausing? && s.phase.drain then PauseProgress(u, s.phase.poll, false, upgradeActs) else u
    case PollCompleted(upgradeActs) =>
      if s.phase.Pausing? && s.phase.poll then PauseProgress(s, false, s.phase.drain, upgradeActs) else s
    case ProbeOpened(losesBinary) =>
      if s.phase == Probing && s.probe.ready == TOpening then
        var t := s.(probe := s.probe.(ready := TOpen, writable := true));
        if losesBinary then t.(phase := Failed)
        else t.(probe := TransportSend(t.probe, [ProbePing]))
      else s
    case ProbeDrained =>
      if s.phase.Probing? || s.phase.Pausing? then s.(probe := TransportDrain(s.probe)) else s
    case ProbeAnswered(isPong, polling, upgradingActs, upgradeActs) =>
      if s.phase != Probing || s.probe.ready != TOpen then s
      else if !isPong then EmitUpgradeError(s.(phase := Failed))
      else
        var t := Listeners(s.(upgrading := true), upgradingActs);
        var u := t.(cur := t.cur.(ready := TPausing));
        PauseProgress(u, polling, !u.cur.writable, upgradeActs)
    case ProbeFailed =>
      if s.phase.Probing? || s.phase.Pausing? then
        EmitUpgradeError(s.(phase := Failed, probe := TransportClose(s.probe)))
      else s
    case Abort => OnClose(s)
  }

  function Run(s: State, events: seq<Event>): State
    decreases |events|
  {
    if events == [] then s else Run(Step(s, events[0]), events[1..])
  }

  // ----- what holds in every reachable state

  /** The accepted packets among those handed to transports. */
  function Contents(packets: seq<Packet>): seq<nat> {
    if packets == [] then []
    else (if packets[0].Accepted? then [packets[0].content] else []) + Contents(packets[1..])
  }

  lemma {:induction false} ContentsConcat(a: seq<Packet>, b: seq<Packet>)
    ensures Contents(a + b) == Contents(a) + Contents(b)
  {
    if a == [] {
      assert a + b == b;
    } else {
      assert (a + b)[0] == a[0] && (a + b)[1..] == a[1..] + b;
      ContentsConcat(a[1..], b);
    }
  }

  lemma {:induction false} ContentsOfPackets(contents: seq<nat>)
    ensures Contents(ToPackets(contents)) == contents
  {
    if contents != [] {
      assert ToPackets(contents)[1..] == ToPackets(contents[1..]);
      ContentsOfPackets(contents[1..]);
    }
  }

  /** Everything accepted that was handed to a transport, in the order of handing over. */
  function Handed(s: State): seq<nat> {
    Contents(s.retired) + Contents(s.cur.sent)
  }

  /** What is still to be handed over, or was thrown away at the end. */
  function Outstanding(s: State): seq<nat> {
    if s.ready == Closed then s.lost
    else if s.prev <= |s.buffer| then s.buffer[s.prev..] else []
  }

  ghost predicate Conserves(s: State) {
    Handed(s) + Outstanding(s) == s.accepted
  }

  /** A write in flight blocks the next flush, so no packet is handed over twice. */
  ghost predicate BufferInv(s: State) {
    && s.prev <= |s.buffer|
    && (s.ready == Closed ==> s.buffer == [])
    && (s.prev > 0 ==> !s.cur.writable)
    && (s.phase.Pausing? && !s.phase.drain ==> s.prev == 0)
  }

  ghost predicate TransportInv(s: State) {
    && !s.cur.threw && !s.probe.threw
    && (s.cur.ready == TOpening ==> s.ready != Open && !s.cur.writable && s.cur.pendingDrains == 0 && s.prev == 0)
    && (s.ready != Closed && !s.upgrading ==> s.cur.ready == TOpen || s.cur.ready == TOpening)
    && (s.cur.ready == TOpen && !s.cur.writable ==> s.cur.pendingDrains > 0)
    && (s.probe.ready == TOpen && !s.probe.writable ==> s.probe.pendingDrains > 0)
    && (s.phase.Pausing? ==> s.probe.ready == TOpen)
    && (s.phase.NoProbe? || s.phase.Probing? || s.phase.Pausing? ==> Contents(s.probe.sent) == [])
  }

  ghost predicate UpgradeInv(s: State) {
    && (s.phase.Pausing? ==> s.upgrading)
    && (s.ready == Opening ==> s.phase.NoProbe? && !s.upgrading)
    && (s.ready == Closed ==> !s.phase.Probing? && !s.phase.Pausing?)
  }

  ghost predicate CloseInv(s: State) {
    && (s.waiter == OnDrain ==> s.ready == Closing && s.buffer != [])
    && (s.waiter == OnUpgrade ==> s.ready == Closing && s.buffer == [])
    && (s.forced.WasForced? ==> s.ready == Closed && s.forced == WasForced([], false) && s.lost == [])
  }

  ghost predicate Inv(s: State) {
    Conserves(s) && BufferInv(s) && TransportInv(s) && UpgradeInv(s) && CloseInv(s)
  }

  /** Conservation depends on the histories and the unsent part of the buffer alone. */
  lemma ConservesFrame(s: State, t: State)
    requires s.retired == t.retired && s.cur.sent == t.cur.sent && s.accepted == t.accepted
    requires s.ready == t.ready && s.buffer == t.buffer && s.prev == t.prev && s.lost == t.lost
    ensures Conserves(s) == Conserves(t)
  {
    hide Contents;
  }

  lemma ConservesIfOpen(s: State, t: State)
    requires s.retired == t.retired && s.cur.sent == t.cur.sent && s.accepted == t.accepted
    requires s.ready != Closed && t.ready != Closed && s.buffer == t.buffer && s.prev == t.prev
    ensures Conserves(s) == Conserves(t)
  {
    hide Contents;
  }

  lemma InitialInv(polling: bool)
    ensures Inv(Initial(polling))
  {
  }

  lemma FlushKeepsInv(s: State)
    requires Inv(s)
    ensures Inv(Flush(s))
    ensures Flush(s) == s.(cur := Flush(s).cur, prev := Flush(s).prev)
  {
    hide Contents;
    var t := Flush(s);
    if t != s {
      ContentsConcat(s.cur.sent, ToPackets(s.buffer));
      ContentsOfPackets(s.buffer);
      assert s.buffer[s.prev..] == s.buffer;
      assert Outstanding(t) == [];
      assert Handed(t) == Handed(s) + s.buffer;
    }
  }

  lemma SendKeepsInv(s: State, content: nat)
    requires Inv(s)
    ensures Inv(SendPacket(s, content))
  {
    hide Contents, Flush;
    if s.ready == Opening || s.ready == Open {
      var t := s.(buffer := s.buffer + [content], accepted := s.accepted + [content]);
      assert t.buffer[t.prev..] == s.buffer[s.prev..] + [content];
      assert Conserves(t);
      FlushKeepsInv(t);
    }
  }

  lemma ContentsOfClose(t: Transport)
    ensures Contents(TransportClose(t).sent) == Contents(t.sent)
    ensures TransportClose(t).threw == t.threw
  {
    ContentsConcat(t.sent, [ClosePacket]);
    assert Contents([ClosePacket]) == [];
  }

  lemma OnCloseKeepsInv(s: State)
    requires Inv(s)
    ensures Inv(OnClose(s)) && OnClose(s).ready == Closed
    ensures Handed(OnClose(s)) == Handed(s)
    ensures OnClose(s).forced == s.forced
  {
    hide Contents;
    ContentsOfClose(s.cur);
    ContentsOfClose(s.probe);
  }

  /** A forced close is safe when nothing is buffered and no upgrade is pending. */
  lemma ForceCloseKeepsInv(s: State)
    requires Inv(s) && s.buffer == [] && !s.phase.Pausing?
    ensures Inv(ForceClose(s)) && ForceClose(s).ready == Closed
    ensures ForceClose(s).accepted == s.accepted && ForceClose(s).retired == s.retired
  {
    hide Contents;
    ContentsOfClose(s.cur);
    ContentsOfClose(s.probe);
  }

  lemma CloseKeepsInv(s: State)
    requires Inv(s)
    ensures Inv(CloseSocket(s))
  {
    hide Conserves, ForceClose;
    if s.ready == Opening || s.ready == Open {
      var t := s.(ready := Closing);
      ConservesIfOpen(s, t);
      ConservesIfOpen(s, t.(waiter := OnDrain));
      ConservesIfOpen(s, t.(waiter := OnUpgrade));
      assert Inv(t);
      if t.buffer == [] && !t.upgrading {
        ForceCloseKeepsInv(t);
      }
    }
  }

  lemma {:induction false} ListenersKeepInv(s: State, acts: seq<Act>)
    requires Inv(s)
    ensures Inv(Listeners(s, acts))
    ensures s.upgrading ==> Upgrading(s, Listeners(s, acts))
    ensures s.ready == Closing || s.ready == Closed ==> Listeners(s, acts) == s
    decreases |acts|
  {
    if acts != [] {
      var t := Listener(s, acts[0]);
      match acts[0] {
        case DoSend(content) => SendKeepsInv(s, content);
        case DoClose => CloseKeepsInv(s);
      }
      ListenersKeepInv(t, acts[1..]);
    }
  }

  /** While an upgrade is under way listeners can neither write to a transport nor close it. */
  ghost predicate Upgrading(s: State, t: State) {
    && t.upgrading && t.cur == s.cur && t.probe == s.probe && t.phase == s.phase
    && t.retired == s.retired && t.prev == s.prev
    && (s.ready != Closed ==> t.ready != Closed)
  }

  /** `s` satisfies the invariant except that its drain event, awaited or not, is due. */
  ghost predicate DrainDue(s: State) {
    && Inv(s.(waiter := NotWaiting)) && s.buffer == []
    && (s.waiter == OnDrain ==> s.ready == Closing)
    && (s.waiter != OnDrain ==> Inv(s))
  }

  lemma EmitDrainKeepsInv(s: State, acts: seq<Act>)
    requires DrainDue(s)
    ensures Inv(EmitDrain(s, acts))
    ensures s.upgrading && s.ready != Closed ==> Upgrading(s, EmitDrain(s, acts))
  {
    hide Contents, ForceClose;
    if s.waiter == OnDrain {
      ListenersWhenClosing(s, acts);
      if s.upgrading {
        assert Inv(s.(waiter := OnUpgrade));
      } else {
        ForceCloseKeepsInv(s.(waiter := NotWaiting));
      }
    } else {
      ListenersKeepInv(s, acts);
    }
  }

  lemma ListenersWhenClosing(s: State, acts: seq<Act>)
    requires s.ready == Closing || s.ready == Closed
    ensures Listeners(s, acts) == s
    decreases |acts|
  {
  }

  /** A transport's drain callback has just run; the socket has not reacted yet. */
  ghost predicate Draining(s: State) {
    && s.ready != Closed && s.cur.ready != TOpening && s.cur.writable
    && Inv(s.(cur := s.cur.(writable := false, pendingDrains := s.cur.pendingDrains + 1)))
  }

  /** The socket's half of a drain event: what was in flight leaves the buffer. */
  function DropSent(s: State): State
    requires s.prev <= |s.buffer|
  {
    s.(buffer := s.buffer[s.prev..], prev := 0)
  }

  lemma DropSentKeepsInv(s: State)
    requires Draining(s)
    ensures s.prev <= |s.buffer|
    ensures DropSent(s).buffer == [] ==> DrainDue(DropSent(s))
    ensures DropSent(s).buffer != [] ==> Inv(DropSent(s))
  {
    hide Handed;
    var t := DropSent(s);
    assert t.buffer[t.prev..] == t.buffer;
    assert Handed(t) == Handed(s) == Handed(s.(cur := s.cur.(writable := false, pendingDrains := s.cur.pendingDrains + 1))) by {
      HandedOf(s, t);
      HandedOf(s, s.(cur := s.cur.(writable := false, pendingDrains := s.cur.pendingDrains + 1)));
    }
    HandedOf(t, t.(waiter := NotWaiting));
    assert Conserves(t) && Conserves(t.(waiter := NotWaiting));
  }

  lemma HandedOf(s: State, t: State)
    requires s.retired == t.retired && s.cur.sent == t.cur.sent
    ensures Handed(s) == Handed(t)
  {
  }

  lemma OnDrainKeepsInv(s: State, acts: seq<Act>)
    requires Draining(s)
    ensures Inv(OnDrainEvent(s, acts))
    ensures s.upgrading ==> OnDrainEvent(s, acts).phase == s.phase && OnDrainEvent(s, acts).prev == 0
    ensures s.upgrading ==> OnDrainEvent(s, acts).ready != Closed
  {
    hide Inv, Flush, EmitDrain, Draining, DrainDue;
    assert s.ready != Closed by { DrainingIsOpen(s); }
    DropSentKeepsInv(s);
    var t := DropSent(s);
    if t.buffer == [] {
      EmitDrainKeepsInv(t, acts);
    } else {
      FlushKeepsInv(t);
      if s.upgrading {
        FlushWhenUpgrading(t);
      }
    }
  }

  lemma DrainingIsOpen(s: State)
    requires Draining(s)
    ensures s.ready != Closed
  {
  }

  lemma FlushWhenUpgrading(s: State)
    requires s.upgrading
    ensures Flush(s) == s
  {
  }

  lemma OnPausedKeepsInv(s: State, acts: seq<Act>)
    requires Inv(s) && s.phase == Pausing(false, false)
    ensures Inv(OnPaused(s, acts))
  {
    hide Contents, Flush, EmitUpgrade, Listeners;
    var t := s.(retired := s.retired + s.cur.(ready := TPaused).sent,
                cur := TransportSend(s.probe, [UpgradePacket]), probe := FreshTransport(false), phase := Switched);
    ContentsConcat(s.retired, s.cur.sent);
    ContentsConcat(s.probe.sent, [UpgradePacket]);
    ContentsOfControl(UpgradePacket);
    assert Handed(t) == Handed(s);
    assert Inv(t);
    EmitUpgradeKeepsInv(t, acts);
    var u := EmitUpgrade(t, acts);
    FlushKeepsInv(u.(upgrading := false));
  }

  lemma ContentsOfControl(p: Packet)
    requires !p.Accepted?
    ensures Contents([p]) == []
  {
  }

  lemma EmitUpgradeKeepsInv(s: State, acts: seq<Act>)
    requires Inv(s) && s.phase == Switched && s.upgrading
    ensures Inv(EmitUpgrade(s, acts))
    ensures EmitUpgrade(s, acts).phase == Switched
    ensures EmitUpgrade(s, acts).ready == Closed || EmitUpgrade(s, acts).cur == s.cur
  {
    hide Contents, ForceClose;
    if s.waiter == OnUpgrade {
      ListenersWhenClosing(s, acts);
      ForceCloseKeepsInv(s.(waiter := NotWaiting));
      ForceClosePhase(s.(waiter := NotWaiting));
    } else {
      ListenersKeepInv(s, acts);
    }
  }

  lemma ForceClosePhase(s: State)
    requires s.phase == Switched
    ensures ForceClose(s).phase == Switched
  {
  }

  lemma EmitUpgradeErrorKeepsInv(s: State)
    requires Inv(s) && s.phase == Failed
    ensures Inv(EmitUpgradeError(s))
  {
    hide Contents, ForceClose;
    if s.waiter == OnUpgrade {
      ForceCloseKeepsInv(s.(waiter := NotWaiting));
    }
  }

  lemma PauseProgressKeepsInv(s: State, poll: bool, drain: bool, acts: seq<Act>)
    requires Inv(s.(phase := Pausing(poll, drain)))
    ensures Inv(PauseProgress(s, poll, drain, acts))
  {
    hide Inv, OnPaused;
    if !poll && !drain {
      OnPausedKeepsInv(s.(phase := Pausing(poll, drain)), acts);
    }
  }

  lemma DrainedKeepsInv(s: State, drainActs: seq<Act>, upgradeActs: seq<Act>)
    requires Inv(s)
    ensures Inv(Step(s, Drained(drainActs, upgradeActs)))
  {
    hide Inv, Draining, OnDrainEvent, PauseProgress;
    if s.cur.pendingDrains > 0 {
      DrainStarts(s);
      if s.ready != Closed {
        var t := s.(cur := TransportDrain(s.cur));
        OnDrainKeepsInv(t, drainActs);
        var u := OnDrainEvent(t, drainActs);
        if s.phase.Pausing? && s.phase.drain {
          PausingIsUpgrading(s);
          PauseCounts(u, s.phase.poll, false);
          PauseProgressKeepsInv(u, s.phase.poll, false, upgradeActs);
        }
      }
    }
  }

  lemma DrainStarts(s: State)
    requires Inv(s) && s.cur.pendingDrains > 0
    ensures s.ready != Closed ==> Draining(s.(cur := TransportDrain(s.cur)))
    ensures s.ready == Closed ==> Inv(s.(cur := TransportDrain(s.cur)))
  {
    hide Conserves;
    var t := s.(cur := TransportDrain(s.cur));
    var u := t.(cur := t.cur.(writable := false, pendingDrains := t.cur.pendingDrains + 1));
    ConservesFrame(s, t);
    ConservesFrame(s, u);
  }

  lemma PausingIsUpgrading(s: State)
    requires Inv(s) && s.phase.Pausing?
    ensures s.upgrading
  {
  }

  /** An awaited event of pause() leaves the list. */
  lemma PauseCounts(s: State, poll: bool, drain: bool)
    requires Inv(s) && s.phase.Pausing? && (drain || s.prev == 0)
    ensures Inv(s.(phase := Pausing(poll, drain)))
  {
    hide Contents;
  }

  /** What pause() waits for when the probed transport has answered. */
  lemma PausePrepared(s: State, polling: bool, acts: seq<Act>)
    requires Inv(s) && s.phase == Probing && s.probe.ready == TOpen
    ensures var t := Listeners(s.(upgrading := true), acts);
            var u := t.(cur := t.cur.(ready := TPausing));
            Inv(u.(phase := Pausing(polling, !u.cur.writable)))
  {
    hide Conserves, Listeners;
    ConservesFrame(s, s.(upgrading := true));
    ListenersKeepInv(s.(upgrading := true), acts);
    var t := Listeners(s.(upgrading := true), acts);
    ConservesFrame(t, t.(cur := t.cur.(ready := TPausing), phase := Pausing(polling, !t.cur.writable)));
  }

  lemma ProbeAnsweredKeepsInv(s: State, isPong: bool, polling: bool, upgradingActs: seq<Act>, upgradeActs: seq<Act>)
    requires Inv(s)
    ensures Inv(Step(s, ProbeAnswered(isPong, polling, upgradingActs, upgradeActs)))
  {
    hide Inv, Listeners, PauseProgress, EmitUpgradeError;
    if s.phase == Probing && s.probe.ready == TOpen {
      if isPong {
        PausePrepared(s, polling, upgradingActs);
        var t := Listeners(s.(upgrading := true), upgradingActs);
        var u := t.(cur := t.cur.(ready := TPausing));
        PauseProgressKeepsInv(u, polling, !u.cur.writable, upgradeActs);
      } else {
        PhaseFails(s);
        EmitUpgradeErrorKeepsInv(s.(phase := Failed));
      }
    }
  }

  lemma PhaseFails(s: State)
    requires Inv(s) && s.phase != NoProbe
    ensures Inv(s.(phase := Failed))
  {
    hide Conserves;
    ConservesFrame(s, s.(phase := Failed));
  }

  lemma HandshakeKeepsInv(s: State, probes: bool, acts: seq<Act>)
    requires Inv(s)
    ensures Inv(Step(s, Handshake(probes, acts)))
  {
    hide Contents, Listeners, Flush;
    if s.cur.ready == TOpen && s.ready == Opening {
      ListenersKeepInv(s.(ready := Open), acts);
      FlushKeepsInv(Listeners(s.(ready := Open), acts));
    }
  }

  lemma StepKeepsInv(s: State, e: Event)
    requires Inv(s)
    ensures Inv(Step(s, e))
  {
    hide Contents, SendPacket, CloseSocket, OnClose, EmitUpgradeError, PauseProgress, Listeners, Flush, OnDrainEvent;
    match e
    case Send(content) => SendKeepsInv(s, content);
    case Close => CloseKeepsInv(s);
    case TransportOpened =>
    case Handshake(probes, acts) => HandshakeKeepsInv(s, probes, acts);
    case Drained(drainActs, upgradeActs) => DrainedKeepsInv(s, drainActs, upgradeActs);
    case PollCompleted(upgradeActs) =>
      if s.phase.Pausing? && s.phase.poll {
        PauseCounts(s, false, s.phase.drain);
        PauseProgressKeepsInv(s, false, s.phase.drain, upgradeActs);
      }
    case ProbeOpened(losesBinary) =>
      ContentsConcat(s.probe.sent, [ProbePing]);
      ContentsOfControl(ProbePing);
    case ProbeDrained =>
    case ProbeAnswered(isPong, polling, upgradingActs, upgradeActs) =>
      ProbeAnsweredKeepsInv(s, isPong, polling, upgradingActs, upgradeActs);
    case ProbeFailed =>
      if s.phase.Probing? || s.phase.Pausing? {
        ContentsOfClose(s.probe);
        EmitUpgradeErrorKeepsInv(s.(phase := Failed, probe := TransportClose(s.probe)));
      }
    case Abort => OnCloseKeepsInv(s);
  }

  lemma {:induction false} RunKeepsInv(s: State, events: seq<Event>)
    requires Inv(s)
    ensures Inv(Run(s, events))
    decreases |events|
  {
    hide Inv, Step;
    if events != [] {
      StepKeepsInv(s, events[0]);
      RunKeepsInv(Step(s, events[0]), events[1..]);
    }
  }

  // ----- what is accepted

  predicate AcceptsPackets(s: State) {
    s.ready == Opening || s.ready == Open
  }

  /** What the application does in the course of an event: it sends, it closes, or its listeners
      act where the socket emits open, drain, upgrading or upgrade. Aborting counts as closing. */
  function Done(s: State, e: Event): seq<Act> {
    match e
    case Send(content) => [DoSend(content)]
    case Close => [DoClose]
    case Abort => [DoClose]
    case Handshake(_, acts) => if s.cur.ready == TOpen && s.ready == Opening then acts else []
    case Drained(drainActs, upgradeActs) =>
      if s.cur.pendingDrains == 0 || s.ready == Closed then []
      else
        (if s.prev == |s.buffer| then drainActs else []) + (if s.phase == Pausing(false, true) then upgradeActs else [])
    case PollCompleted(upgradeActs) => if s.phase == Pausing(true, false) then upgradeActs else []
    case ProbeAnswered(isPong, polling, upgradingActs, upgradeActs) =>
      if s.phase == Probing && s.probe.ready == TOpen && isPong then
        upgradingActs + if !polling && s.cur.writable then upgradeActs else []
      else []
    case _ => []
  }

  function DoneInAll(s: State, events: seq<Event>): seq<Act>
    decreases |events|
  {
    if events == [] then [] else Done(s, events[0]) + DoneInAll(Step(s, events[0]), events[1..])
  }

  /** The packets sent before the first close. */
  function SentBeforeClose(acts: seq<Act>): seq<nat> {
    if acts == [] || acts[0].DoClose? then [] else [acts[0].content] + SentBeforeClose(acts[1..])
  }

  lemma {:induction false} SentBeforeCloseConcat(a: seq<Act>, b: seq<Act>)
    ensures SentBeforeClose(a + b) == SentBeforeClose(a) + if DoClose in a then [] else SentBeforeClose(b)
  {
    if a == [] {
      assert a + b == b;
    } else {
      assert (a + b)[1..] == a[1..] + b && a == [a[0]] + a[1..];
      SentBeforeCloseConcat(a[1..], b);
    }
  }

  /** From `s` to `t` exactly the packets sent before a close are accepted, and none once the socket
      is closing or closed. */
  ghost predicate Takes(s: State, acts: seq<Act>, t: State) {
    if AcceptsPackets(s) then
      t.accepted == s.accepted + SentBeforeClose(acts) && (AcceptsPackets(t) <==> DoClose !in acts)
    else t.accepted == s.accepted && !AcceptsPackets(t)
  }

  lemma TakesNothing(s: State, t: State)
    requires t.accepted == s.accepted && AcceptsPackets(s) == AcceptsPackets(t)
    ensures Takes(s, [], t)
  {
    assert s.accepted + [] == s.accepted;
  }

  lemma TakesBoth(s: State, a: seq<Act>, t: State, b: seq<Act>, u: State)
    requires Takes(s, a, t) && Takes(t, b, u)
    ensures Takes(s, a + b, u)
  {
    SentBeforeCloseConcat(a, b);
    assert DoClose in a + b <==> DoClose in a || DoClose in b;
  }

  /** A packet offered before any close is accepted; afterwards an offer changes nothing. */
  lemma SendTakes(s: State, content: nat)
    ensures Takes(s, [DoSend(content)], SendPacket(s, content))
    ensures AcceptsPackets(s) ==> SendPacket(s, content).accepted == s.accepted + [content]
    ensures !AcceptsPackets(s) ==> SendPacket(s, content) == s
  {
    assert [DoSend(content)][1..] == [];
    assert [content] + [] == [content];
    assert SentBeforeClose([DoSend(content)]) == [content];
  }

  lemma CloseTakes(s: State)
    ensures Takes(s, [DoClose], CloseSocket(s)) && !AcceptsPackets(CloseSocket(s))
  {
    assert s.accepted + [] == s.accepted;
  }

  lemma {:induction false} ListenersTake(s: State, acts: seq<Act>)
    ensures Takes(s, acts, Listeners(s, acts))
    decreases |acts|
  {
    hide Takes, SendPacket, CloseSocket;
    if acts == [] {
      TakesNothing(s, s);
    } else {
      match acts[0] {
        case DoSend(content) => SendTakes(s, content);
        case DoClose => CloseTakes(s);
      }
      ListenersTake(Listener(s, acts[0]), acts[1..]);
      TakesBoth(s, [acts[0]], Listener(s, acts[0]), acts[1..], Listeners(s, acts));
      assert [acts[0]] + acts[1..] == acts;
    }
  }

  /** The states agree in what counts for accepting. */
  lemma TakesFrame(s: State, s': State, acts: seq<Act>, t: State, t': State)
    requires Takes(s, acts, t) && s.accepted == s'.accepted && AcceptsPackets(s) == AcceptsPackets(s')
    requires t.accepted == t'.accepted && AcceptsPackets(t) == AcceptsPackets(t')
    ensures Takes(s', acts, t')
  {
  }

  lemma FlushTakes(s: State)
    ensures Flush(s).accepted == s.accepted && Flush(s).ready == s.ready
  {
  }

  lemma ForceCloseTakes(s: State)
    requires !AcceptsPackets(s)
    ensures ForceClose(s).accepted == s.accepted && !AcceptsPackets(ForceClose(s))
  {
  }

  lemma EmitDrainTakes(s: State, acts: seq<Act>)
    requires s.waiter == OnDrain ==> !AcceptsPackets(s)
    ensures Takes(s, acts, EmitDrain(s, acts))
  {
    hide Listeners, ForceClose, SentBeforeClose;
    ListenersTake(s, acts);
    var t := Listeners(s, acts);
    if s.waiter == OnDrain {
      ForceCloseTakes(t.(waiter := NotWaiting));
    }
  }

  lemma EmitUpgradeTakes(s: State, acts: seq<Act>)
    requires s.waiter == OnUpgrade ==> !AcceptsPackets(s)
    ensures Takes(s, acts, EmitUpgrade(s, acts))
  {
    hide Listeners, ForceClose, SentBeforeClose;
    ListenersTake(s, acts);
    if s.waiter == OnUpgrade {
      ForceCloseTakes(Listeners(s, acts).(waiter := NotWaiting));
    }
  }

  /** The last of the events that pause() waits for. */
  lemma OnPausedTakes(s: State, acts: seq<Act>)
    requires (s.waiter == OnUpgrade ==> !AcceptsPackets(s)) && s.ready != Closed && s.phase != Failed
    ensures Takes(s, acts, OnPaused(s, acts))
  {
    hide EmitUpgrade, Flush, TransportSend, SentBeforeClose, Takes;
    var t := s.(retired := s.retired + s.cur.(ready := TPaused).sent, cur := TransportSend(s.probe, [UpgradePacket]),
                probe := FreshTransport(false), phase := Switched);
    EmitUpgradeTakes(t, acts);
    var u := EmitUpgrade(t, acts).(upgrading := false);
    FlushTakes(u);
    assert OnPaused(s, acts) == Flush(u);
    TakesFrame(t, s, acts, EmitUpgrade(t, acts), Flush(u));
  }

  lemma PauseTakes(s: State, poll: bool, drain: bool, acts: seq<Act>)
    requires (s.waiter == OnUpgrade ==> !AcceptsPackets(s)) && s.ready != Closed
    ensures Takes(s, if poll || drain then [] else acts, PauseProgress(s, poll, drain, acts))
  {
    hide OnPaused, SentBeforeClose, Takes;
    var t := s.(phase := Pausing(poll, drain));
    if poll || drain {
      TakesNothing(s, t);
    } else {
      OnPausedTakes(t, acts);
      TakesFrame(t, s, acts, OnPaused(t, acts), OnPaused(t, acts));
    }
  }

  lemma OnDrainTakes(s: State, acts: seq<Act>)
    requires (s.waiter == OnDrain ==> !AcceptsPackets(s)) && s.prev <= |s.buffer|
    ensures Takes(s, if s.prev == |s.buffer| then acts else [], OnDrainEvent(s, acts))
  {
    hide EmitDrain, Flush, SentBeforeClose, Takes;
    var t := s.(buffer := s.buffer[s.prev..], prev := 0);
    if t.buffer == [] {
      EmitDrainTakes(t, acts);
      TakesFrame(t, s, acts, EmitDrain(t, acts), EmitDrain(t, acts));
    } else {
      FlushTakes(t);
      TakesNothing(s, Flush(t));
    }
  }

  /** What stays of the invariant between the two halves of a drain event. */
  lemma DrainLeaves(s: State, acts: seq<Act>)
    requires Inv(s) && s.cur.pendingDrains > 0 && s.ready != Closed && s.phase.Pausing?
    ensures var u := OnDrainEvent(s.(cur := TransportDrain(s.cur)), acts);
            (u.waiter == OnUpgrade ==> !AcceptsPackets(u)) && u.ready != Closed
  {
    hide Inv, Draining, OnDrainEvent;
    DrainStarts(s);
    PausingIsUpgrading(s);
    OnDrainKeepsInv(s.(cur := TransportDrain(s.cur)), acts);
    WaitersMeanClosing(OnDrainEvent(s.(cur := TransportDrain(s.cur)), acts));
  }

  lemma WaitersMeanClosing(s: State)
    requires Inv(s)
    ensures (s.waiter != NotWaiting ==> !AcceptsPackets(s)) && s.prev <= |s.buffer|
    ensures s.phase.Pausing? || s.phase.Probing? ==> s.ready != Closed
  {
  }

  lemma DrainedTakes(s: State, drainActs: seq<Act>, upgradeActs: seq<Act>)
    requires Inv(s)
    ensures Takes(s, Done(s, Drained(drainActs, upgradeActs)), Step(s, Drained(drainActs, upgradeActs)))
  {
    hide Inv, OnDrainEvent, PauseProgress, Takes;
    WaitersMeanClosing(s);
    var t := s.(cur := TransportDrain(s.cur));
    if s.cur.pendingDrains == 0 || s.ready == Closed {
      TakesNothing(s, Step(s, Drained(drainActs, upgradeActs)));
    } else {
      var first := if s.prev == |s.buffer| then drainActs else [];
      OnDrainTakes(t, drainActs);
      var u := OnDrainEvent(t, drainActs);
      TakesFrame(t, s, first, u, u);
      if s.phase.Pausing? && s.phase.drain {
        DrainLeaves(s, drainActs);
        PauseTakes(u, s.phase.poll, false, upgradeActs);
        TakesBoth(s, first, u, if s.phase.poll then [] else upgradeActs, PauseProgress(u, s.phase.poll, false, upgradeActs));
      } else {
        assert first + [] == first;
      }
    }
  }

  lemma ProbeAnsweredTakes(s: State, isPong: bool, polling: bool, upgradingActs: seq<Act>, upgradeActs: seq<Act>)
    requires Inv(s)
    ensures var e := ProbeAnswered(isPong, polling, upgradingActs, upgradeActs); Takes(s, Done(s, e), Step(s, e))
  {
    hide Inv, Listeners, PauseProgress, EmitUpgradeError, Takes;
    WaitersMeanClosing(s);
    var e := ProbeAnswered(isPong, polling, upgradingActs, upgradeActs);
    if s.phase != Probing || s.probe.ready != TOpen {
      TakesNothing(s, s);
    } else if !isPong {
      EmitErrorTakes(s.(phase := Failed));
      TakesFrame(s.(phase := Failed), s, [], Step(s, e), Step(s, e));
    } else {
      var r := s.(upgrading := true);
      var t := Listeners(r, upgradingActs);
      var u := t.(cur := t.cur.(ready := TPausing));
      UpgradingListeners(s, upgradingActs);
      ListenersTake(r, upgradingActs);
      TakesFrame(r, s, upgradingActs, t, u);
      PauseTakes(u, polling, !u.cur.writable, upgradeActs);
      TakesBoth(s, upgradingActs, u, if polling || !u.cur.writable then [] else upgradeActs, Step(s, e));
    }
  }

  lemma UpgradingListeners(s: State, acts: seq<Act>)
    requires Inv(s) && s.phase == Probing
    ensures var t := Listeners(s.(upgrading := true), acts);
            t.cur == s.cur && t.ready != Closed && (t.waiter == OnUpgrade ==> !AcceptsPackets(t))
  {
    hide Conserves, Listeners;
    ConservesFrame(s, s.(upgrading := true));
    ListenersKeepInv(s.(upgrading := true), acts);
  }

  lemma EmitErrorTakes(s: State)
    requires s.waiter == OnUpgrade ==> !AcceptsPackets(s)
    ensures Takes(s, [], EmitUpgradeError(s))
  {
    hide ForceClose, SentBeforeClose;
    TakesNothing(s, s);
    if s.waiter == OnUpgrade {
      ForceCloseTakes(s.(waiter := NotWaiting));
    }
  }

  /** Every event: the packets sent in its course are accepted up to a close, and no others. */
  lemma StepTakes(s: State, e: Event)
    requires Inv(s)
    ensures Takes(s, Done(s, e), Step(s, e))
  {
    hide Inv, SendPacket, CloseSocket, OnClose, EmitUpgradeError, PauseProgress, Listeners, Flush, OnDrainEvent, Takes, TransportSend, TransportClose, TransportDrain;
    WaitersMeanClosing(s);
    match e
    case Send(content) => SendTakes(s, content);
    case Close => CloseTakes(s);
    case TransportOpened => TakesNothing(s, Step(s, e));
    case Handshake(probes, acts) => HandshakeTakes(s, probes, acts);
    case Drained(drainActs, upgradeActs) => DrainedTakes(s, drainActs, upgradeActs);
    case PollCompleted(upgradeActs) =>
      if s.phase.Pausing? && s.phase.poll {
        PauseTakes(s, false, s.phase.drain, upgradeActs);
      } else {
        TakesNothing(s, s);
      }
    case ProbeOpened(losesBinary) => TakesNothing(s, Step(s, e));
    case ProbeDrained => TakesNothing(s, Step(s, e));
    case ProbeAnswered(isPong, polling, upgradingActs, upgradeActs) =>
      ProbeAnsweredTakes(s, isPong, polling, upgradingActs, upgradeActs);
    case ProbeFailed =>
      if s.phase.Probing? || s.phase.Pausing? {
        var t := s.(phase := Failed, probe := TransportClose(s.probe));
        EmitErrorTakes(t);
        TakesFrame(t, s, [], EmitUpgradeError(t), EmitUpgradeError(t));
      } else {
        TakesNothing(s, s);
      }
    case Abort => AbortTakes(s);
  }

  lemma HandshakeTakes(s: State, probes: bool, acts: seq<Act>)
    ensures Takes(s, Done(s, Handshake(probes, acts)), Step(s, Handshake(probes, acts)))
  {
    hide Listeners, Flush, Takes;
    if s.cur.ready != TOpen || s.ready != Opening {
      TakesNothing(s, s);
    } else {
      var r := s.(ready := Open);
      ListenersTake(r, acts);
      FlushTakes(Listeners(r, acts));
      TakesFrame(r, s, acts, Listeners(r, acts), Step(s, Handshake(probes, acts)));
    }
  }

  lemma AbortTakes(s: State)
    ensures Takes(s, [DoClose], OnClose(s))
  {
    hide TransportClose;
    assert s.accepted + [] == s.accepted;
  }

  lemma {:induction false} RunTakes(s: State, events: seq<Event>)
    requires Inv(s)
    ensures Takes(s, DoneInAll(s, events), Run(s, events))
    decreases |events|
  {
    hide Inv, Step, Done, Takes;
    if events == [] {
      TakesNothing(s, s);
    } else {
      StepKeepsInv(s, events[0]);
      StepTakes(s, events[0]);
      RunTakes(Step(s, events[0]), events[1..]);
      TakesBoth(s, Done(s, events[0]), Step(s, events[0]), DoneInAll(Step(s, events[0]), events[1..]), Run(s, events));
    }
  }

  /** The packets that the application sent before the connection was closed or lost. */
  function Offered(polling: bool, events: seq<Event>): seq<nat> {
    SentBeforeClose(DoneInAll(Initial(polling), events))
  }

  /** What sendPacket has accepted along a run is what was sent before the first close; until then
      the socket goes on accepting. */
  lemma AcceptedIsOffered(polling: bool, events: seq<Event>)
    ensures Run(Initial(polling), events).accepted == Offered(polling, events)
    ensures AcceptsPackets(Run(Initial(polling), events)) <==> DoClose !in DoneInAll(Initial(polling), events)
  {
    hide Run, DoneInAll, SentBeforeClose, Inv;
    InitialInv(polling);
    RunTakes(Initial(polling), events);
    assert [] + Offered(polling, events) == Offered(polling, events);
  }

  // ----- safety over all runs

  /** Along every run, with errors, upgrades and closes at any point: what was handed to
      transports, followed by the unsent part of the buffer, is exactly what the application sent
      before the first close, in order; nothing is sent twice, and no send meets a transport that
      is not open. */
  lemma HandedOverInOrder(polling: bool, events: seq<Event>)
    ensures var s := Run(Initial(polling), events);
            && (s.ready != Closed ==> s.prev <= |s.buffer| && Handed(s) + s.buffer[s.prev..] == Offered(polling, events))
            && Handed(s) <= Offered(polling, events)
            && !s.cur.threw
  {
    hide Run, Contents, Offered;
    InitialInv(polling);
    RunKeepsInv(Initial(polling), events);
    AcceptedIsOffered(polling, events);
  }

  /** Without a transport error only a forced close ends the connection. */
  ghost predicate Orderly(s: State) {
    s.ready == Closed ==> s.forced.WasForced?
  }

  lemma {:induction false} ListenersOrderly(s: State, acts: seq<Act>)
    requires Orderly(s)
    ensures Orderly(Listeners(s, acts))
    decreases |acts|
  {
    if acts != [] {
      ListenersOrderly(Listener(s, acts[0]), acts[1..]);
    }
  }

  lemma DrainOrderly(s: State, acts: seq<Act>)
    requires Orderly(s)
    ensures Orderly(OnDrainEvent(s, acts))
  {
    var t := s.(buffer := if s.prev <= |s.buffer| then s.buffer[s.prev..] else [], prev := 0);
    hide Listeners;
    ListenersOrderly(t, acts);
  }

  lemma PauseOrderly(s: State, poll: bool, drain: bool, acts: seq<Act>)
    requires Orderly(s)
    ensures Orderly(PauseProgress(s, poll, drain, acts))
  {
    hide Listeners;
    var t := s.(phase := Pausing(poll, drain), cur := s.cur.(ready := TPaused));
    var u := t.(retired := t.retired + t.cur.sent, cur := TransportSend(t.probe, [UpgradePacket]),
                probe := FreshTransport(false), phase := Switched);
    ListenersOrderly(u, acts);
  }

  lemma StepOrderly(s: State, e: Event)
    requires Orderly(s) && e != Abort
    ensures Orderly(Step(s, e))
  {
    hide Listeners, PauseProgress, OnDrainEvent;
    match e
    case Handshake(probes, acts) =>
      ListenersOrderly(s.(ready := Open), acts);
    case Drained(drainActs, upgradeActs) =>
      if s.cur.pendingDrains > 0 {
        var t := s.(cur := TransportDrain(s.cur));
        DrainOrderly(t, drainActs);
        PauseOrderly(OnDrainEvent(t, drainActs), if s.phase.Pausing? then s.phase.poll else false, false, upgradeActs);
      }
    case PollCompleted(upgradeActs) =>
      if s.phase.Pausing? {
        PauseOrderly(s, false, s.phase.drain, upgradeActs);
      }
    case ProbeAnswered(isPong, polling, upgradingActs, upgradeActs) =>
      ListenersOrderly(s.(upgrading := true), upgradingActs);
      var t := Listeners(s.(upgrading := true), upgradingActs);
      var u := t.(cur := t.cur.(ready := TPausing));
      PauseOrderly(u, polling, !u.cur.writable, upgradeActs);
    case _ =>
  }

  lemma {:induction false} RunOrderly(s: State, events: seq<Event>)
    requires Orderly(s) && Abort !in events
    ensures Orderly(Run(s, events))
    decreases |events|
  {
    hide Step;
    if events != [] {
      StepOrderly(s, events[0]);
      RunOrderly(Step(s, events[0]), events[1..]);
    }
  }

  /** Graceful close: along every run, a forced close found the buffer empty and no upgrade
      pending, so every accepted packet had been handed to a transport. Without a transport
      error there is no other way for the socket to end up closed. */
  lemma GracefulClose(polling: bool, events: seq<Event>)
    ensures var s := Run(Initial(polling), events);
            && (s.forced.WasForced? ==> s.forced == WasForced([], false) && Handed(s) == s.accepted)
            && (Abort !in events && s.ready == Closed ==> Handed(s) == s.accepted)
  {
    hide Run, Contents;
    InitialInv(polling);
    RunKeepsInv(Initial(polling), events);
    if Abort !in events {
      RunOrderly(Initial(polling), events);
    }
  }

  // ----- progress

  /** An open socket with something left to send waits for a drain event. */
  ghost predicate Wakes(s: State) {
    s.ready == Open && !s.upgrading && s.prev <= |s.buffer| && s.buffer[s.prev..] != [] ==> !s.cur.writable
  }

  lemma FlushWakes(s: State)
    requires Inv(s)
    ensures Wakes(Flush(s))
  {
    hide Conserves;
  }

  lemma {:induction false} ListenersWake(s: State, acts: seq<Act>)
    requires Inv(s) && Wakes(s)
    ensures Wakes(Listeners(s, acts))
    decreases |acts|
  {
    hide Contents, Flush, ForceClose, Inv;
    if acts != [] {
      var t := Listener(s, acts[0]);
      match acts[0] {
        case DoSend(content) => SendKeepsInv(s, content); SendWakes(s, content);
        case DoClose => CloseKeepsInv(s); CloseWakes(s);
      }
      ListenersWake(t, acts[1..]);
    }
  }

  lemma SendWakes(s: State, content: nat)
    requires Inv(s) && Wakes(s)
    ensures Wakes(SendPacket(s, content))
  {
    hide Contents;
  }

  lemma CloseWakes(s: State)
    requires Wakes(s)
    ensures Wakes(CloseSocket(s))
  {
  }

  lemma DrainWakes(s: State, acts: seq<Act>)
    requires Draining(s)
    ensures Wakes(OnDrainEvent(s, acts))
  {
    hide Inv, Flush, Listeners, ForceClose;
    DropSentKeepsInv(s);
    var t := DropSent(s);
    if t.buffer != [] {
      FlushWakes(t);
    } else if t.waiter == OnDrain {
      ListenersWhenClosing(t, acts);
      ForceCloseWakes(t.(waiter := NotWaiting));
    } else {
      ListenersWake(t, acts);
    }
  }

  lemma ForceCloseWakes(s: State)
    ensures ForceClose(s).ready == Closed
  {
  }

  lemma PauseWakes(s: State, poll: bool, drain: bool, acts: seq<Act>)
    requires Inv(s.(phase := Pausing(poll, drain)))
    ensures Wakes(PauseProgress(s, poll, drain, acts))
  {
    hide Contents, Flush, EmitUpgrade;
    if !poll && !drain {
      var p := s.(phase := Pausing(false, false));
      var t := p.(retired := p.retired + p.cur.(ready := TPaused).sent,
                  cur := TransportSend(p.probe, [UpgradePacket]), probe := FreshTransport(false), phase := Switched);
      ContentsConcat(p.retired, p.cur.sent);
      ContentsConcat(p.probe.sent, [UpgradePacket]);
      ContentsOfControl(UpgradePacket);
      assert Handed(t) == Handed(p);
      EmitUpgradeKeepsInv(t, acts);
      FlushWakes(EmitUpgrade(t, acts).(upgrading := false));
    }
  }

  lemma DrainedWakes(s: State, drainActs: seq<Act>, upgradeActs: seq<Act>)
    requires Inv(s) && Wakes(s)
    ensures Wakes(Step(s, Drained(drainActs, upgradeActs)))
  {
    hide Inv, Draining, OnDrainEvent, PauseProgress;
    if s.cur.pendingDrains > 0 && s.ready != Closed {
      DrainStarts(s);
      var t := s.(cur := TransportDrain(s.cur));
      DrainWakes(t, drainActs);
      OnDrainKeepsInv(t, drainActs);
      if s.phase.Pausing? && s.phase.drain {
        PausingIsUpgrading(s);
        PauseCounts(OnDrainEvent(t, drainActs), s.phase.poll, false);
        PauseWakes(OnDrainEvent(t, drainActs), s.phase.poll, false, upgradeActs);
      }
    }
  }

  lemma ProbeAnsweredWakes(s: State, isPong: bool, polling: bool, upgradingActs: seq<Act>, upgradeActs: seq<Act>)
    requires Inv(s) && Wakes(s)
    ensures Wakes(Step(s, ProbeAnswered(isPong, polling, upgradingActs, upgradeActs)))
  {
    hide Inv, Listeners, ForceClose, PauseProgress;
    if s.phase == Probing && s.probe.ready == TOpen && isPong {
      PausePrepared(s, polling, upgradingActs);
      var t := Listeners(s.(upgrading := true), upgradingActs);
      var u := t.(cur := t.cur.(ready := TPausing));
      PauseWakes(u, polling, !u.cur.writable, upgradeActs);
    } else {
      ForceCloseWakes(s.(phase := Failed, waiter := NotWaiting));
    }
  }

  lemma HandshakeWakes(s: State, probes: bool, acts: seq<Act>)
    requires Inv(s) && Wakes(s)
    ensures Wakes(Step(s, Handshake(probes, acts)))
  {
    hide Contents, Listeners, Flush;
    if s.cur.ready == TOpen && s.ready == Opening {
      ListenersKeepInv(s.(ready := Open), acts);
      FlushWakes(Listeners(s.(ready := Open), acts));
    }
  }

  lemma StepWakes(s: State, e: Event)
    requires Inv(s) && Wakes(s)
    ensures Wakes(Step(s, e))
  {
    hide Inv, ForceClose, PauseProgress, SendPacket, CloseSocket, Listeners, OnDrainEvent, Flush;
    match e
    case Send(content) => SendWakes(s, content);
    case Close => CloseWakes(s);
    case TransportOpened => assert s.ready == Open ==> s.cur.ready != TOpening by { OpenIsOpen(s); }
    case Handshake(probes, acts) => HandshakeWakes(s, probes, acts);
    case Drained(drainActs, upgradeActs) => DrainedWakes(s, drainActs, upgradeActs);
    case PollCompleted(upgradeActs) =>
      if s.phase.Pausing? && s.phase.poll {
        PauseCountsFor(s);
        PauseWakes(s, false, s.phase.drain, upgradeActs);
      }
    case ProbeAnswered(isPong, polling, upgradingActs, upgradeActs) =>
      ProbeAnsweredWakes(s, isPong, polling, upgradingActs, upgradeActs);
    case ProbeFailed =>
      ForceCloseWakes(s.(phase := Failed, probe := TransportClose(s.probe), waiter := NotWaiting));
    case _ =>
  }

  lemma OpenIsOpen(s: State)
    requires Inv(s)
    ensures s.ready == Open ==> s.cur.ready != TOpening
  {
  }

  lemma PauseCountsFor(s: State)
    requires Inv(s) && s.phase.Pausing?
    ensures Inv(s.(phase := Pausing(false, s.phase.drain)))
  {
    PauseCounts(s, false, s.phase.drain) by { hide Contents; }
  }

  lemma {:induction false} RunWakes(s: State, events: seq<Event>)
    requires Inv(s) && Wakes(s)
    ensures Wakes(Run(s, events))
    decreases |events|
  {
    hide Step, Inv;
    if events != [] {
      StepWakes(s, events[0]);
      StepKeepsInv(s, events[0]);
      RunWakes(Step(s, events[0]), events[1..]);
    }
  }

  /** No lost wake-up: whenever an open socket outside an upgrade has unsent packets, a drain
      event is due, and that event hands over everything accepted so far. */
  lemma DrainHandsOverTheRest(polling: bool, events: seq<Event>)
    ensures var s := Run(Initial(polling), events);
            s.ready == Open && !s.upgrading && Handed(s) != s.accepted ==>
              && s.cur.pendingDrains > 0
              && var t := Step(s, Drained([], []));
                 Handed(t) == t.accepted == s.accepted && t.ready == Open
  {
    hide Run, Contents;
    InitialInv(polling);
    RunKeepsInv(Initial(polling), events);
    RunWakes(Initial(polling), events);
    var s := Run(Initial(polling), events);
    if s.ready == Open && !s.upgrading && Handed(s) != s.accepted {
      var t := Step(s, Drained([], []));
      StepKeepsInv(s, Drained([], []));
      var u := s.(cur := TransportDrain(s.cur), buffer := s.buffer[s.prev..], prev := 0);
      assert Listeners(u, []) == u;
      assert t == if u.buffer == [] then u else Flush(u);
      assert t.prev == |t.buffer|;
      assert t.buffer[t.prev..] == [];
    }
  }

  /** Nothing can empty the buffer any more: the handshake is ignored once the socket is closing,
      and no drain event is due. */
  ghost predicate Stranded(s: State) {
    && s.ready == Closing && s.waiter == OnDrain && s.phase == NoProbe
    && s.prev == 0 && s.buffer != [] && s.cur.pendingDrains == 0
  }

  lemma StrandedStep(s: State, e: Event)
    requires Stranded(s) && e != Abort
    ensures Stranded(Step(s, e)) && Handed(Step(s, e)) == Handed(s)
  {
    hide Contents;
  }

  lemma {:induction false} StrandedForever(s: State, events: seq<Event>)
    requires Stranded(s) && Abort !in events
    ensures Stranded(Run(s, events)) && Handed(Run(s, events)) == Handed(s)
    decreases |events|
  {
    hide Step, Handed, Stranded;
    if events != [] {
      StrandedStep(s, events[0]);
      StrandedForever(Step(s, events[0]), events[1..]);
    }
  }

  /** close() before the handshake completes at once exactly if the buffer is empty. If
      packets are buffered and no write is in flight, it never completes without a transport
      error, and none of the packets still unsent is ever handed over. */
  lemma CloseWhileOpening(polling: bool, events: seq<Event>, later: seq<Event>)
    requires Abort !in later
    ensures var s := Run(Initial(polling), events);
            var t := Step(s, Close);
            s.ready == Opening ==>
              && (t.ready == Closed <==> s.buffer == [])
              && (s.buffer != [] && s.cur.pendingDrains == 0 ==>
                    Run(t, later).ready == Closing && Handed(Run(t, later)) == Handed(s) != s.accepted)
  {
    hide Run, Contents;
    InitialInv(polling);
    RunKeepsInv(Initial(polling), events);
    var s := Run(Initial(polling), events);
    var t := Step(s, Close);
    if s.ready == Opening && s.buffer != [] && s.cur.pendingDrains == 0 {
      assert Stranded(t);
      StrandedForever(t, later);
    }
  }

  /** The events lead to the end, with everything accepted handed over. */
  ghost predicate Completes(t: State, events: seq<Event>) {
    Run(t, events).ready == Closed && Handed(Run(t, events)) == Run(t, events).accepted == t.accepted
  }

  /** Without a transport error close() before the handshake can come to its end exactly if nothing
      is buffered or a write is in flight. */
  lemma CloseCompletes(polling: bool, events: seq<Event>)
    ensures var s := Run(Initial(polling), events);
            s.ready == Opening ==>
              ((exists later :: Abort !in later && Completes(Step(s, Close), later))
               <==> s.buffer == [] || s.cur.pendingDrains > 0)
  {
    hide Run, Completes, Contents, Step;
    var s := Run(Initial(polling), events);
    if s.ready == Opening {
      InitialInv(polling);
      RunKeepsInv(Initial(polling), events);
      if s.buffer == [] {
        CompletesAtOnce(s);
        assert Abort !in [] && Completes(Step(s, Close), []);
      } else if s.cur.pendingDrains > 0 {
        var drains := [Drained([], []), Drained([], [])];
        CompletesWithDrains(s);
        assert Abort !in drains && Completes(Step(s, Close), drains);
      } else {
        forall later | Abort !in later ensures !Completes(Step(s, Close), later) {
          CloseWhileOpening(polling, events, later);
          NotCompleted(Step(s, Close), later);
        }
      }
    }
  }

  lemma NotCompleted(t: State, later: seq<Event>)
    requires Run(t, later).ready != Closed
    ensures !Completes(t, later)
  {
    hide Run;
  }

  lemma ForcedHandsOver(s: State)
    requires Inv(s) && s.ready == Closed && s.forced.WasForced?
    ensures Handed(s) == s.accepted
  {
    hide Handed;
  }

  lemma CompletesAtOnce(s: State)
    requires Inv(s) && s.ready == Opening && s.buffer == []
    ensures Completes(Step(s, Close), [])
  {
    hide Contents;
    StepKeepsInv(s, Close);
    ForcedHandsOver(Step(s, Close));
  }

  /** One drain event, or two if packets wait behind those in flight. */
  lemma CompletesWithDrains(s: State)
    requires Inv(s) && s.ready == Opening && s.buffer != [] && s.cur.pendingDrains > 0
    ensures Completes(Step(s, Close), [Drained([], []), Drained([], [])])
  {
    hide Contents, Handed, Inv;
    var drain := Drained([], []);
    var t := Step(s, Close);
    var u := Step(t, drain);
    var v := Step(u, drain);
    StepKeepsInv(s, Close);
    StepKeepsInv(t, drain);
    StepKeepsInv(u, drain);
    DrainsWhileClosing(s, t, u, v);
    ForcedHandsOver(v);
    assert [drain, drain][1..] == [drain] && [drain][1..] == [];
  }

  lemma DrainsWhileClosing(s: State, t: State, u: State, v: State)
    requires Inv(s) && s.ready == Opening && s.buffer != [] && s.cur.pendingDrains > 0
    requires t == Step(s, Close) && u == Step(t, Drained([], [])) && v == Step(u, Drained([], []))
    ensures v.ready == Closed && v.forced.WasForced? && v.accepted == t.accepted
  {
    hide Contents;
    assert t == s.(ready := Closing, waiter := OnDrain);
    var later := t.buffer[t.prev..];
    var drained := t.(cur := TransportDrain(t.cur), buffer := later, prev := 0);
    assert Listeners(drained, []) == drained;
    if later != [] {
      assert u == Flush(drained) && u.prev == |u.buffer| && u.cur.pendingDrains > 0;
      assert u.buffer[u.prev..] == [];
      var over := u.(cur := TransportDrain(u.cur), buffer := [], prev := 0);
      assert Listeners(over, []) == over;
    }
  }
}
