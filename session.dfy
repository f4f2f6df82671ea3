/** The unauthenticated danmaku session (`ExWebSocketUnLogin`) as an event machine. The
    socket, the browser's `FileReader` and `setInterval` are outside the model: their events
    arrive as method calls, and what the session hands to `ws.send`, to `callback` and to
    `callbackError` is recorded in fields. */
module Session {
  import opened Bytes
  import opened Wrappers
  import opened Transcoder
  import opened Packet
  import opened Inbound

  /** The login request sent first on open. */
  function LoginRequest(rid: JsString): JsString {
    Ascii("type@=loginreq/roomid@=") + rid
  }

  /** The join-group request sent second on open; -9999 is the group of all messages. */
  function JoinGroup(rid: JsString): JsString {
    Ascii("type@=joingroup/rid@=") + rid + Ascii("/gid@=-9999/")
  }

  /** The keep-alive command sent on every tick of the interval. */
  function Heartbeat(): JsString {
    Ascii("type@=mrkl/")
  }

  /** A room id of ASCII characters other than NUL, such as the decimal ids of rooms: one
      byte per unit and no separator inside. */
  ghost predicate AsciiRoomId(rid: JsString) {
    forall i :: 0 <= i < |rid| ==> 0 < rid[i] < 0x80
  }

  /** The login and join-group commands for an ASCII room id each travel as one frame whose
      body, split at NUL and filtered as the inbound path does, is the command itself: both
      are longer than 12 and free of NUL. */
  lemma CommandsReadBack(rid: JsString)
    requires AsciiRoomId(rid)
    ensures Delivered(Split(Frame(LoginRequest(rid)), 0)) == [LoginRequest(rid)]
    ensures Delivered(Split(Frame(JoinGroup(rid)), 0)) == [JoinGroup(rid)]
  {
    var login := LoginRequest(rid);
    var join := JoinGroup(rid);
    assert forall i :: 0 <= i < |login| ==> 0 < login[i] < 0x80;
    assert forall i :: 0 <= i < |join| ==> 0 < join[i] < 0x80;
    AsciiFrameReadBack(login);
    AsciiFrameReadBack(join);
  }

  /** The heartbeat is 11 bytes long, so a heartbeat frame (like the server's acknowledgement
      of one) never reaches the callback. */
  lemma HeartbeatIsNoise()
    ensures |Heartbeat()| == 11
    ensures Delivered(Split(Frame(Heartbeat()), 0)) == []
  {
    EncodeAscii(Heartbeat());
    assert 0 !in Heartbeat();
    ShortFrameIsNoise(Heartbeat());
  }

  class ExWebSocketUnLogin {
    const roomid: JsString
    /** The interval id `setInterval` returned, once the socket has opened. */
    var timer: Option<nat>
    /** Whether that interval is still scheduled. */
    var heartbeatArmed: bool
    /** The commands handed to `ws.send`, in order; each goes out framed by `webSocketPacket`. */
    var sent: seq<JsString>
    /** The arguments of the calls to `callback`, in order. */
    var delivered: seq<JsString>
    /** The number of calls to `callbackError`. */
    var errorCalls: nat
    /** Whether `ws.close()` has been requested. */
    var closeRequested: bool

    /** A scheduled interval has a browser interval id, which is never 0. */
    ghost predicate Valid()
      reads this
    {
      heartbeatArmed ==> timer.Some? && timer.value != 0
    }

    /** The constructor: the socket is created and the handlers are installed; nothing is
        sent before the socket opens. */
    constructor (rid: JsString)
      ensures Valid()
      ensures roomid == rid && timer == None && !heartbeatArmed
      ensures sent == [] && delivered == [] && errorCalls == 0 && !closeRequested
    {
      roomid := rid;
      timer := None;
      heartbeatArmed := false;
      sent := [];
      delivered := [];
      errorCalls := 0;
      closeRequested := false;
    }

    /** `onopen`: log in, join the group, start the heartbeat with the id `setInterval`
        returned. A socket fires `open` at most once, so no interval has been started yet. */
    method OnOpen(intervalId: nat)
      requires Valid() && intervalId != 0 && timer.None?
      modifies this
      ensures Valid()
      ensures sent == old(sent) + [LoginRequest(roomid), JoinGroup(roomid)]
      ensures timer == Some(intervalId) && heartbeatArmed
      ensures delivered == old(delivered) && errorCalls == old(errorCalls)
      ensures closeRequested == old(closeRequested)
    {
      sent := sent + [LoginRequest(roomid)];
      sent := sent + [JoinGroup(roomid)];
      timer := Some(intervalId);
      heartbeatArmed := true;
    }

    /** One 40-second period of the interval elapses: a scheduled heartbeat sends `type@=mrkl/`;
        a cleared one does nothing. */
    method Tick()
      requires Valid()
      modifies this
      ensures Valid()
      ensures sent == if old(heartbeatArmed) then old(sent) + [Heartbeat()] else old(sent)
      ensures timer == old(timer) && heartbeatArmed == old(heartbeatArmed)
      ensures delivered == old(delivered) && errorCalls == old(errorCalls)
      ensures closeRequested == old(closeRequested)
    {
      if heartbeatArmed {
        sent := sent + [Heartbeat()];
      }
    }

    /** `reader.onload` for one received chunk, given the text `readAsText` produced: split
        at NUL and pass on, in order, each piece longer than 12. */
    method OnMessage(text: JsString)
      requires Valid()
      modifies this
      ensures Valid()
      ensures delivered == old(delivered) + Messages(text)
      ensures sent == old(sent) && timer == old(timer) && heartbeatArmed == old(heartbeatArmed)
      ensures errorCalls == old(errorCalls) && closeRequested == old(closeRequested)
    {
      var arr := Split(text, 0);
      for i := 0 to |arr|
        invariant delivered == old(delivered) + Delivered(arr[..i])
        invariant sent == old(sent) && timer == old(timer) && heartbeatArmed == old(heartbeatArmed)
        invariant errorCalls == old(errorCalls) && closeRequested == old(closeRequested)
      {
        DeliveredAppend(arr[..i], [arr[i]]);
        assert arr[..i + 1] == arr[..i] + [arr[i]];
        if |arr[i]| > 12 {
          delivered := delivered + [arr[i]];
        }
      }
      assert arr[..|arr|] == arr;
    }

    /** `onclose`: report the end once; the heartbeat interval is left as it is. */
    method OnClose()
      requires Valid()
      modifies this
      ensures Valid()
      ensures errorCalls == old(errorCalls) + 1
      ensures sent == old(sent) && timer == old(timer) && heartbeatArmed == old(heartbeatArmed)
      ensures delivered == old(delivered) && closeRequested == old(closeRequested)
    {
      errorCalls := errorCalls + 1;
    }

    /** `close()`: clear the interval if one was started, and ask the socket to close. */
    method Close()
      requires Valid()
      modifies this
      ensures Valid()
      ensures !heartbeatArmed && closeRequested
      ensures timer == old(timer)
      ensures sent == old(sent) && delivered == old(delivered) && errorCalls == old(errorCalls)
    {
      if timer.Some? && timer.value != 0 {
        heartbeatArmed := false;
      }
      closeRequested := true;
    }
  }

  /** A session as its owner sees it: open, one heartbeat, an explicit close, then any number
      of further periods, and the close event the socket then delivers. */
  method SessionLifecycle(rid: JsString, intervalId: nat, laterTicks: nat)
    returns (sent: seq<JsString>, errorCalls: nat)
    requires intervalId != 0
    ensures sent == [LoginRequest(rid), JoinGroup(rid), Heartbeat()]
    ensures errorCalls == 1
  {
    var session := new ExWebSocketUnLogin(rid);
    session.OnOpen(intervalId);
    session.Tick();
    session.Close();
    var k := 0;
    while k < laterTicks
      invariant session.Valid() && !session.heartbeatArmed
      invariant session.sent == [LoginRequest(rid), JoinGroup(rid), Heartbeat()]
      invariant session.errorCalls == 0
    {
      session.Tick();
      k := k + 1;
    }
    session.OnClose();
    sent, errorCalls := session.sent, session.errorCalls;
  }
}
