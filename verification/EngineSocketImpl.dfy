/** The methods of the engine.io client socket, each of which takes one step of `EngineSocket`. */
module EngineSocketImpl {
  import opened EngineSocket

  /** A polling or WebSocket transport. */
  class TransportObject {
    const pauses: bool
    var readyState: TransportReady
    var writable: bool
    ghost var pendingDrains: nat
    ghost var sent: seq<Packet>
    ghost var threw: bool

    ghost function State(): Transport
      reads this
    {
      Transport(pauses, readyState, writable, pendingDrains, sent, threw)
    }

    constructor (pauses: bool)
      ensures State() == FreshTransport(pauses)
    {
      this.pauses := pauses;
      readyState, writable, pendingDrains, sent, threw := TOpening, false, 0, [], false;
    }

    method Send(packets: seq<Packet>)
      modifies this
      ensures State() == TransportSend(old(State()), packets)
    {
      if readyState == TOpen {
        Write(packets);
      } else {
        threw := true;
      }
    }

    /** Polling.write and WS.write: the drain event comes later. */
    method Write(packets: seq<Packet>)
      modifies this
      ensures State() == old(State()).(writable := false, pendingDrains := old(pendingDrains) + 1,
                                       sent := old(sent) + packets)
    {
      writable := false;
      pendingDrains := pendingDrains + 1;
      sent := sent + packets;
    }

    method Close()
      modifies this
      ensures State() == TransportClose(old(State()))
    {
      if readyState == TOpening || readyState == TOpen {
        if readyState == TOpen && pauses {
          Write([ClosePacket]);
        }
        readyState := TClosed;
      }
    }

    /** Transport.onOpen. */
    method OnOpen()
      modifies this
      ensures State() == old(State()).(ready := TOpen, writable := true)
    {
      readyState := TOpen;
      writable := true;
    }

    /** The callback of a completed write, up to the drain event it emits. */
    method WriteCompleted()
      requires pendingDrains > 0
      modifies this
      ensures State() == TransportDrain(old(State()))
    {
      pendingDrains := pendingDrains - 1;
      writable := true;
    }

    /** The state that pause() sets. */
    method SetReadyState(r: TransportReady)
      modifies this
      ensures State() == old(State()).(ready := r)
    {
      readyState := r;
    }
  }

  /** Socket: `phase` and `waiter` stand for the listeners that probe(), pause() and close()
      have registered. */
  class Socket {
    var readyState: ReadyState
    var writeBuffer: seq<nat>
    var prevBufferLen: nat
    var upgrading: bool
    var transport: TransportObject
    var probed: TransportObject?
    var phase: Phase
    var waiter: Waiter
    ghost var retired: seq<Packet>
    ghost var accepted: seq<nat>
    ghost var lost: seq<nat>
    ghost var forced: Forced

    ghost predicate Valid()
      reads this
    {
      && probed != transport && prevBufferLen <= |writeBuffer|
      && (phase.Probing? || phase.Pausing? ==> probed != null)
    }

    ghost function Snapshot(): State
      reads this, transport, probed
    {
      State(readyState, writeBuffer, prevBufferLen, upgrading, transport.State(),
            if probed == null then FreshTransport(false) else probed.State(),
            phase, waiter, retired, accepted, lost, forced)
    }

    constructor (first: TransportObject)
      requires first.State() == FreshTransport(first.pauses)
      ensures Valid() && Snapshot() == Initial(first.pauses) && transport == first && probed == null
    {
      readyState, writeBuffer, prevBufferLen, upgrading := Opening, [], 0, false;
      transport, probed, phase, waiter := first, null, NoProbe, NotWaiting;
      retired, accepted, lost, forced := [], [], [], NotForced;
    }

    method Flush()
      requires Valid()
      modifies this`prevBufferLen, transport
      ensures Valid() && Snapshot() == EngineSocket.Flush(old(Snapshot()))
    {
      if readyState != Closed && transport.writable && !upgrading && |writeBuffer| > 0 {
        transport.Send(ToPackets(writeBuffer));
        // keep track of what the next drain event may drop
        prevBufferLen := |writeBuffer|;
      }
    }

    method SendPacket(content: nat)
      requires Valid()
      modifies this`writeBuffer, this`prevBufferLen, this`accepted, transport
      ensures Valid() && Snapshot() == EngineSocket.SendPacket(old(Snapshot()), content)
    {
      if readyState == Closing || readyState == Closed {
        return;
      }
      writeBuffer := writeBuffer + [content];
      accepted := accepted + [content];
      Flush();
    }

    method OnClose()
      requires Valid()
      modifies this, transport, probed
      ensures Valid() && transport == old(transport) && probed == old(probed)
      ensures Snapshot() == EngineSocket.OnClose(old(Snapshot()))
    {
      hide TransportClose;
      if readyState == Opening || readyState == Open || readyState == Closing {
        transport.Close();
        readyState := Closed;
        // the close event reaches a transport that is still being probed
        if phase.Probing? || phase.Pausing? {
          FreezeTransport();
        }
        waiter := NotWaiting;
        lost := writeBuffer[prevBufferLen..];
        writeBuffer := [];
        prevBufferLen := 0;
      }
    }

    /** freezeTransport: the probed transport is closed and ignored from now on. */
    method FreezeTransport()
      requires Valid() && (phase.Probing? || phase.Pausing?)
      modifies this`phase, probed
      ensures Valid() && phase == Failed
      ensures probed != null && probed.State() == TransportClose(old(probed.State()))
    {
      probed.Close();
      phase := Failed;
    }

    /** The inner close() of close(). */
    method ForceClose()
      requires Valid()
      modifies this, transport, probed
      ensures Valid() && transport == old(transport) && probed == old(probed)
      ensures Snapshot() == EngineSocket.ForceClose(old(Snapshot()))
    {
      if readyState != Closed {
        forced := WasForced(writeBuffer[prevBufferLen..], phase.Pausing?);
      }
      OnClose();
    }

    method Close()
      requires Valid()
      modifies this, transport, probed
      ensures Valid() && transport == old(transport) && probed == old(probed)
      ensures Snapshot() == CloseSocket(old(Snapshot()))
    {
      if readyState == Opening || readyState == Open {
        readyState := Closing;
        if |writeBuffer| > 0 {
          waiter := Waiter.OnDrain;
        } else if upgrading {
          waiter := OnUpgrade;
        } else {
          ForceClose();
        }
      }
    }

    /** What the application's listeners do while the socket emits an event. */
    method Emit(acts: seq<Act>)
      requires Valid()
      modifies this, transport, probed
      ensures Valid() && transport == old(transport) && probed == old(probed)
      ensures Snapshot() == Listeners(old(Snapshot()), acts)
    {
      hide EngineSocket.SendPacket, CloseSocket;
      var i := 0;
      assert acts[0..] == acts;
      while i < |acts|
        invariant 0 <= i <= |acts|
        invariant Valid() && transport == old(transport) && probed == old(probed)
        invariant Listeners(Snapshot(), acts[i..]) == Listeners(old(Snapshot()), acts)
      {
        assert acts[i..][1..] == acts[i + 1..];
        match acts[i] {
          case DoSend(content) => SendPacket(content);
          case DoClose => Close();
        }
        i := i + 1;
      }
    }

    /** The socket's drain event, first for the application, then for close(). */
    method DrainEvent(acts: seq<Act>)
      requires Valid()
      modifies this, transport, probed
      ensures Valid() && transport == old(transport) && probed == old(probed)
      ensures Snapshot() == EmitDrain(old(Snapshot()), acts)
    {
      hide Listeners, EngineSocket.ForceClose;
      var closing := waiter == Waiter.OnDrain;
      Emit(acts);
      if closing {
        if upgrading {
          waiter := OnUpgrade;
        } else {
          waiter := NotWaiting;
          ForceClose();
        }
      }
    }

    method OnDrain(acts: seq<Act>)
      requires Valid()
      modifies this, transport, probed
      ensures Valid() && transport == old(transport) && probed == old(probed)
      ensures Snapshot() == OnDrainEvent(old(Snapshot()), acts)
    {
      hide EmitDrain, EngineSocket.Flush;
      writeBuffer := writeBuffer[prevBufferLen..];
      prevBufferLen := 0;
      if |writeBuffer| == 0 {
        DrainEvent(acts);
      } else {
        Flush();
      }
    }

    /** The current transport has written everything: the socket reacts first, then pause(). */
    method TransportDrained(drainActs: seq<Act>, upgradeActs: seq<Act>)
      requires Valid() && transport.pendingDrains > 0
      modifies this, transport, probed
      ensures Valid()
      ensures Snapshot() == Step(old(Snapshot()), Drained(drainActs, upgradeActs))
    {
      hide OnDrainEvent, EngineSocket.PauseProgress;
      transport.WriteCompleted();
      if readyState != Closed {
        var pausing := phase.Pausing? && phase.drain;
        var poll := phase.Pausing? && phase.poll;
        OnDrain(drainActs);
        if pausing {
          EventWhilePausing(poll, false, upgradeActs);
        }
      }
    }

    /** The counting listener of Polling.pause: `--total || pause()`. */
    method EventWhilePausing(poll: bool, drain: bool, acts: seq<Act>)
      requires Valid() && probed != null
      modifies this, transport, probed
      ensures Valid()
      ensures Snapshot() == PauseProgress(old(Snapshot()), poll, drain, acts)
    {
      hide EngineSocket.OnPaused;
      phase := Pausing(poll, drain);
      if !poll && !drain {
        OnPaused(acts);
      }
    }

    /** The callback that probe() passes to pause(): the probed transport takes over. */
    method OnPaused(acts: seq<Act>)
      requires Valid() && probed != null
      modifies this, transport, probed
      ensures Valid()
      ensures Snapshot() == EngineSocket.OnPaused(old(Snapshot()), acts)
    {
      hide EmitUpgrade, EngineSocket.Flush, TransportSend;
      transport.SetReadyState(TPaused);
      if readyState == Closed || phase == Failed {
        return;
      }
      SetTransport();
      transport.Send([UpgradePacket]);
      UpgradeEvent(acts);
      upgrading := false;
      Flush();
    }

    /** cleanup() and setTransport(transport): the old transport's listeners are gone. */
    method SetTransport()
      requires Valid() && probed != null
      modifies this
      ensures Valid() && transport == old(probed) && probed == null
      ensures Snapshot() == old(Snapshot()).(retired := old(retired) + old(transport.sent),
                                             cur := old(Snapshot()).probe, probe := FreshTransport(false), phase := Switched)
    {
      retired := retired + transport.sent;
      transport := probed;
      probed := null;
      phase := Switched;
    }

    method UpgradeEvent(acts: seq<Act>)
      requires Valid()
      modifies this, transport, probed
      ensures Valid() && transport == old(transport) && probed == old(probed)
      ensures Snapshot() == EmitUpgrade(old(Snapshot()), acts)
    {
      hide Listeners, EngineSocket.ForceClose;
      var closing := waiter == Waiter.OnUpgrade;
      Emit(acts);
      if closing {
        waiter := NotWaiting;
        ForceClose();
      }
    }

    method UpgradeErrorEvent()
      requires Valid()
      modifies this, transport, probed
      ensures Valid() && transport == old(transport) && probed == old(probed)
      ensures Snapshot() == EmitUpgradeError(old(Snapshot()))
    {
      hide EngineSocket.ForceClose;
      if waiter == Waiter.OnUpgrade {
        waiter := NotWaiting;
        ForceClose();
      }
    }

    method PollComplete(acts: seq<Act>)
      requires Valid()
      modifies this, transport, probed
      ensures Valid()
      ensures Snapshot() == Step(old(Snapshot()), PollCompleted(acts))
    {
      hide PauseProgress;
      if phase.Pausing? && phase.poll {
        EventWhilePausing(false, phase.drain, acts);
      }
    }

    /** The first packet from the probed transport. */
    method OnProbePacket(isPong: bool, polling: bool, upgradingActs: seq<Act>, upgradeActs: seq<Act>)
      requires Valid()
      modifies this, transport, probed
      ensures Valid()
      ensures Snapshot() == Step(old(Snapshot()), ProbeAnswered(isPong, polling, upgradingActs, upgradeActs))
    {
      hide PauseProgress, Listeners, EmitUpgradeError;
      if phase == Probing && probed.readyState == TOpen {
        if isPong {
          upgrading := true;
          Emit(upgradingActs);
          transport.SetReadyState(TPausing);
          EventWhilePausing(polling, !transport.writable, upgradeActs);
        } else {
          phase := Failed;
          UpgradeErrorEvent();
        }
      }
    }

    /** onTransportOpen: unless the upgrade would lose binary support, ask the server. */
    method OnProbeOpen(losesBinary: bool)
      requires Valid()
      modifies this, probed
      ensures Valid()
      ensures Snapshot() == Step(old(Snapshot()), ProbeOpened(losesBinary))
    {
      if phase == Probing && probed.readyState == TOpening {
        probed.OnOpen();
        if losesBinary {
          phase := Failed;
        } else {
          probed.Send([ProbePing]);
        }
      }
    }

    /** onerror: the probed transport failed or closed. */
    method OnProbeError()
      requires Valid()
      modifies this, transport, probed
      ensures Valid()
      ensures Snapshot() == Step(old(Snapshot()), ProbeFailed)
    {
      hide EmitUpgradeError, TransportClose;
      if phase.Probing? || phase.Pausing? {
        FreezeTransport();
        UpgradeErrorEvent();
      }
    }

    /** onHandshake and onOpen; probe() creates the transport to be probed. */
    method OnHandshake(probes: bool, acts: seq<Act>)
      requires Valid() && probed == null
      modifies this, transport
      ensures Valid()
      ensures Snapshot() == Step(old(Snapshot()), Handshake(probes, acts))
    {
      hide Listeners, EngineSocket.Flush;
      if transport.readyState == TOpen && readyState == Opening {
        readyState := Open;
        Emit(acts);
        Flush();
        if readyState == Open && probes && transport.pauses && phase == NoProbe {
          probed := new TransportObject(false);
          phase := Probing;
        }
      }
    }
  }
}
