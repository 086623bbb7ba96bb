/** The client's half of a single-stream WebSocket: `SingleStreamConn`. The functions say what each event handler
    does to the connection's state; the class is the handlers themselves. */
module WsClient {
  import opened Common
  import opened WsFrames
  import opened WsServer

  const MAX_STATUS := 16

  /** `sent` is what was handed to the WebSocket and `log` the handler calls made so far, both in order. */
  datatype Client = Client(
    json: bool, pending: seq<WsData>, isOpen: bool, finished: bool, sent: seq<Inbound>, log: seq<Callback>)

  function Start(json: bool, headers: Meta, timeoutMillis: nat): Client {
    Client(json, [EncodeOpen(json, headers, timeoutMillis)], false, false, [], [])
  }

  function AsInbound(frames: seq<WsData>): seq<Inbound> {
    seq(|frames|, i requires 0 <= i < |frames| => DataIn(frames[i]))
  }

  function Opened(c: Client): Client {
    c.(isOpen := true, sent := c.sent + AsInbound(c.pending), pending := [])
  }

  function SendRaw(c: Client, d: WsData): Client {
    if c.finished then c
    else if c.isOpen then c.(sent := c.sent + [DataIn(d)])
    else c.(pending := c.pending + [d])
  }

  function Finished(c: Client, status: Callback): Client {
    if c.finished then c else c.(finished := true, log := c.log + [status])
  }

  function CloseSocket(c: Client): Client {
    if c.isOpen then c.(sent := c.sent + [CloseIn]) else c
  }

  function Terminated(c: Client, code: nat, details: string): Client {
    if c.finished then c
    else CloseSocket(Finished(SendRaw(c, EncodeReset(c.json, code, details)), OnStatus(code, details, map[])))
  }

  function Received(c: Client, d: WsData): Client {
    if c.finished || OnData(d).None? then c
    else if OnData(d).value.OnStatus? then Finished(c, OnData(d).value)
    else c.(log := c.log + [OnData(d).value])
  }

  /** A private close code carries a status; every other close, or an error without one, is unavailability. */
  function StatusForClose(code: Option<nat>, reason: string): Callback {
    if code.Some? && STATUS_BASE <= code.value <= STATUS_BASE + MAX_STATUS then
      OnStatus(code.value - STATUS_BASE, reason, map[])
    else OnStatus(UNAVAILABLE, "websocket closed", map[])
  }

  function Closed(c: Client, code: Option<nat>, reason: string): Client {
    Finished(c.(isOpen := false), StatusForClose(code, reason))
  }

  class SingleStreamConn {
    const json: bool
    var pending: seq<WsData>
    var isOpen: bool
    var finished: bool
    var sent: seq<Inbound>
    var log: seq<Callback>

    ghost function State(): Client
      reads this
    {
      Client(json, pending, isOpen, finished, sent, log)
    }

    constructor (json: bool, headers: Meta, timeoutMillis: nat)
      ensures State() == Start(json, headers, timeoutMillis)
    {
      this.json := json;
      isOpen, finished, sent, log := false, false, [], [];
      // Eager open frame: carries metadata and deadline, and starts the stream.
      pending := [EncodeOpen(json, headers, timeoutMillis)];
    }

    /** The WebSocket opened: flush what was queued, in order. */
    method OnOpen()
      modifies this
      ensures State() == Opened(old(State()))
    {
      isOpen := true;
      for i := 0 to |pending|
        invariant isOpen && pending == old(pending) && finished == old(finished) && log == old(log)
        invariant sent == old(sent) + AsInbound(pending[..i])
      {
        sent := sent + [DataIn(pending[i])];
        assert pending[..i + 1] == pending[..i] + [pending[i]];
      }
      assert pending[..|pending|] == pending;
      pending := [];
    }

    method SendFrame(d: WsData)
      modifies this
      ensures State() == SendRaw(old(State()), d)
    {
      if finished {
        return;
      }
      if isOpen {
        sent := sent + [DataIn(d)];
      } else {
        pending := pending + [d];
      }
    }

    method Send(payload: Bytes)
      modifies this
      ensures State() == SendRaw(old(State()), EncodeMessage(json, payload))
    {
      SendFrame(EncodeMessage(json, payload));
    }

    method EndSend()
      modifies this
      ensures State() == SendRaw(old(State()), EncodeHalfClose(json))
    {
      SendFrame(EncodeHalfClose(json));
    }

    method Finish(status: Callback)
      modifies this
      ensures State() == Finished(old(State()), status)
    {
      if !finished {
        finished := true;
        log := log + [status];
      }
    }

    /** Cancel or deadline. */
    method Terminate(code: nat, details: string)
      modifies this
      ensures State() == Terminated(old(State()), code, details)
    {
      if finished {
        return;
      }
      SendFrame(EncodeReset(json, code, details));
      Finish(OnStatus(code, details, map[]));
      Shut();
    }

    method Shut()
      modifies this
      ensures State() == CloseSocket(old(State()))
    {
      if isOpen {
        sent := sent + [CloseIn];
      }
    }

    method OnWsMessage(d: WsData)
      modifies this
      ensures State() == Received(old(State()), d)
    {
      if finished {
        return;
      }
      match OnData(d)
      case Some(OnStatus(code, details, md)) => Finish(OnStatus(code, details, md));
      case Some(cb) => log := log + [cb];
      case None =>
    }

    method OnClose(code: Option<nat>, reason: string)
      modifies this
      ensures State() == Closed(old(State()), code, reason)
    {
      isOpen := false;
      Finish(StatusForClose(code, reason));
    }
  }
}
