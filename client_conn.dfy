/** `EvRvClient` (src/ev_rv_client.cpp) as a class whose methods update its fields in place.
    The fields the protocol functions of ClientProtocol read and write (`rv_state`,
    `no_write`, the stored parameters, `session`, `control`, the socket's write queue,
    `save_buf` and the forwarded frames) are kept together in the record `conn`, so each
    method is tied to those functions directly; `Side()` gathers the other fields, which a
    method that does not name them leaves as they were. */
module ClientConn {
  import opened Base
  import opened Subject
  import opened ClientRules
  import opened ClientProtocol

  /** `sizeof(gob)`. */
  const GobSize: nat := 16
  /** `sizeof(control)`, the buffer `make_inbox` writes. */
  const ControlSize: nat := 64

  /** The fields of the client outside `conn`. */
  datatype Rest = Rest(recv: seq<byte>, off: nat, version: Version, gobLen: nat, timerId: int,
                       timerRuns: nat, fdOpen: bool, dialed: Option<(Option<string>, int)>,
                       prefix: string, fwdAllMsgs: bool, interSubs: seq<string>,
                       listenSubs: seq<string>)

  /** The seven words `send_info` flips into big-endian order. */
  const InfoPrefix: seq<uint32> := [3, 2, 0, 1, 0, 4 * 0x100_0000, 4 * 0x100_0000]

  class EvRvClient {
    var conn: Conn
    /** The receive buffer and the read offset into it. */
    var recv: seq<byte>
    var off: nat
    var version: Version
    const gob: array<char>
    var gobLen: nat
    var timerId: int
    /** How often `sub_db.process_events` ran. */
    var timerRuns: nat
    /** Whether the socket descriptor is set (`fd != -1`). */
    var fdOpen: bool
    /** Where `rv_connect` asked the TCP layer to connect: the host (none for the local
        daemon) and the port. */
    var dialed: Option<(Option<string>, int)>
    /** `msg_in.prefix_start()`: the service prefix, `prefix_len` bytes long. */
    var prefix: string
    var fwdAllMsgs: bool
    var interSubs: seq<string>
    var listenSubs: seq<string>

    ghost predicate Valid()
      reads this
    {
      gob.Length == GobSize && off <= |recv|
    }

    function Side(): Rest
      reads this
    {
      Rest(recv, off, version, gobLen, timerId, timerRuns, fdOpen, dialed, prefix, fwdAllMsgs,
           interSubs, listenSubs)
    }

    /** The constructor: `VERS_RECV`, no parameters, no save buffer, no timer. */
    constructor ()
      ensures Valid() && fresh(gob)
      ensures conn == Conn(VersRecv, false, Params(None, None, None, []), "", "", [], [], [])
      ensures recv == [] && off == 0 && !fdOpen && timerId == 0 && !fwdAllMsgs && prefix == []
    {
      conn := Conn(VersRecv, false, Params(None, None, None, []), "", "", [], [], []);
      recv, off := [], 0;
      version := InitialVersion();
      gob := new char[GobSize];
      gobLen, timerId, timerRuns := 0, 0, 0;
      fdOpen, dialed := false, None;
      prefix, fwdAllMsgs := [], false;
      interSubs, listenSubs := [], [];
    }

    // ------------------------------------------------------------ the write queue

    /** `queue_send(buf, msg)`. `appended` is true exactly when the bytes went to the socket's
        write queue; the source then returns what `idle_push_write` reports. */
    method QueueSend(buf: seq<byte>, msg: seq<byte>) returns (appended: bool)
      modifies this
      ensures conn == ClientProtocol.QueueSend(old(conn), buf, msg)
      ensures Side() == old(Side())
      ensures appended <==> Rank(old(conn.state)) >= Rank(DataRecv)
    {
      if Rank(conn.state) >= Rank(DataRecv) {
        conn := conn.(out := conn.out + [buf + msg]);
        return true;
      }
      if conn.state == ErrClose {
        return false;
      }
      conn := conn.(save := conn.save + buf + msg);
      appended := false;
    }

    /** `flush_pending_send`. */
    method FlushPendingSend()
      modifies this
      ensures conn == Flush(old(conn))
      ensures Side() == old(Side())
    {
      if |conn.save| > 0 {
        conn := conn.(out := conn.out + [conn.save], save := []);
      }
    }

    // ------------------------------------------------------------ subscriptions

    /** `subscribe(sub, sublen, rep, replen)`. */
    method Subscribe(sub: string, rep: string, encode: Envelope -> seq<byte>)
      modifies this
      ensures conn == ClientProtocol.Subscribe(old(conn), sub, rep, encode)
      ensures Side() == old(Side())
    {
      if conn.noWrite {
        return;
      }
      var s := if |sub| > 0 && sub[|sub| - 1] == '\0' then sub[..|sub| - 1] else sub;
      var r: Option<string> := None;
      if |rep| > 0 {
        r := Some(if rep[|rep| - 1] == '\0' then rep[..|rep| - 1] else rep);
      }
      var _ := QueueSend(encode(ListenMsg(s, r)), []);
    }

    /** `unsubscribe(sub, sublen)`. */
    method Unsubscribe(sub: string, encode: Envelope -> seq<byte>)
      modifies this
      ensures conn == ClientProtocol.Unsubscribe(old(conn), sub, encode)
      ensures Side() == old(Side())
    {
      if conn.noWrite {
        return;
      }
      var s := if |sub| > 0 && sub[|sub| - 1] == '\0' then sub[..|sub| - 1] else sub;
      var _ := QueueSend(encode(CancelMsg(s)), []);
    }

    /** `match_filter(sub, sublen)`: the interactive feed patterns are tried in order, each
        with `match_rv_wildcard` (the parameter `matches`). */
    method MatchFilter(sub: string, matches: (string, string) -> bool) returns (fwd: bool)
      ensures fwd == Forwardable(sub, interSubs, |conn.params.bcastSubs|, |listenSubs|, matches)
    {
      if IsInboxSubject(sub) {
        return false;
      }
      if |interSubs| == 0 && |conn.params.bcastSubs| == 0 && |listenSubs| == 0 {
        return true;
      }
      var i := 0;
      while i < |interSubs|
        invariant 0 <= i <= |interSubs|
        invariant forall j :: 0 <= j < i ==> !matches(interSubs[j], sub)
      {
        if matches(interSubs[i], sub) {
          return true;
        }
        i := i + 1;
      }
      fwd := false;
    }

    /** `on_sub(nsub)`, with `get_nsub` handing back the stripped reply (see `GetNsub`). */
    method OnSub(sub: string, reply: string, matches: (string, string) -> bool,
                 encode: Envelope -> seq<byte>)
      modifies this
      ensures var a := GetNsub(sub, reply, old(prefix));
        conn ==
          if !old(conn.noWrite) && a.Some? &&
             Forwardable(a.value.0, old(interSubs), |old(conn.params.bcastSubs)|, |old(listenSubs)|, matches)
          then ClientProtocol.Subscribe(old(conn), a.value.0, a.value.1, encode)
          else old(conn)
      ensures Side() == old(Side())
    {
      if conn.noWrite {
        return;
      }
      var a := GetNsub(sub, reply, prefix);
      if a.Some? {
        var fwd := MatchFilter(a.value.0, matches);
        if fwd {
          Subscribe(a.value.0, a.value.1, encode);
        }
      }
    }

    /** `on_unsub(nsub)`: only when no route is left for the subject. */
    method OnUnsub(sub: string, reply: string, subCount: nat, matches: (string, string) -> bool,
                   encode: Envelope -> seq<byte>)
      modifies this
      ensures var a := GetNsub(sub, reply, old(prefix));
        conn ==
          if !old(conn.noWrite) && subCount == 0 && a.Some? &&
             Forwardable(a.value.0, old(interSubs), |old(conn.params.bcastSubs)|, |old(listenSubs)|, matches)
          then ClientProtocol.Unsubscribe(old(conn), a.value.0, encode)
          else old(conn)
      ensures Side() == old(Side())
    {
      if conn.noWrite || subCount != 0 {
        return;
      }
      var a := GetNsub(sub, reply, prefix);
      if a.Some? {
        var fwd := MatchFilter(a.value.0, matches);
        if fwd {
          Unsubscribe(a.value.0, encode);
        }
      }
    }

    /** `fwd_pat(pat, start)`: a listen (`start`) or cancel message for the pattern's RV
        subject, when it carries the service prefix and passes `match_filter`. */
    method FwdPat(rvFormat: bool, pattern: string, prefixLen: nat, start: bool,
                  matches: (string, string) -> bool, encode: Envelope -> seq<byte>)
      requires prefixLen <= |pattern|
      modifies this
      ensures var q := FwdPatQueued(rvFormat, pattern, prefixLen, old(prefix), old(interSubs),
                                    |old(conn.params.bcastSubs)|, |old(listenSubs)|, matches);
        conn ==
          if q.None? then old(conn)
          else ClientProtocol.QueueSend(old(conn), encode(if start then ListenMsg(q.value, None) else CancelMsg(q.value)), [])
      ensures Side() == old(Side())
    {
      var p := FwdPatSubject(rvFormat, pattern, prefixLen);
      var stripped := StripServicePrefix(p, prefix);
      if stripped.Some? {
        var fwd := MatchFilter(stripped.value, matches);
        if fwd {
          var msg := if start then ListenMsg(stripped.value, None) else CancelMsg(stripped.value);
          var _ := QueueSend(encode(msg), []);
        }
      }
    }

    /** `on_psub(pat)`. */
    method OnPsub(rvFormat: bool, pattern: string, prefixLen: nat,
                  matches: (string, string) -> bool, encode: Envelope -> seq<byte>)
      requires prefixLen <= |pattern|
      modifies this
      ensures var q := FwdPatQueued(rvFormat, pattern, prefixLen, old(prefix), old(interSubs),
                                    |old(conn.params.bcastSubs)|, |old(listenSubs)|, matches);
        conn ==
          if old(conn.noWrite) || q.None? then old(conn)
          else ClientProtocol.QueueSend(old(conn), encode(ListenMsg(q.value, None)), [])
      ensures Side() == old(Side())
    {
      if conn.noWrite {
        return;
      }
      FwdPat(rvFormat, pattern, prefixLen, true, matches, encode);
    }

    /** `on_punsub(pat)`: the unsubscribe is forwarded only as `PunsubForward` allows. */
    method OnPunsub(rvFormat: bool, pattern: string, prefixLen: nat, subCount: nat,
                    matches: (string, string) -> bool, encode: Envelope -> seq<byte>)
      requires prefixLen <= |pattern|
      modifies this
      ensures var q := FwdPatQueued(rvFormat, pattern, prefixLen, old(prefix), old(interSubs),
                                    |old(conn.params.bcastSubs)|, |old(listenSubs)|, matches);
        conn ==
          if old(conn.noWrite) || !PunsubForward(subCount, pattern, prefixLen, old(fwdAllMsgs)) || q.None?
          then old(conn)
          else ClientProtocol.QueueSend(old(conn), encode(CancelMsg(q.value)), [])
      ensures Side() == old(Side())
    {
      if conn.noWrite {
        return;
      }
      var fwd := false;
      if subCount == 0 {
        if prefixLen > 0 && pattern[prefixLen - 1] == '.' {
          fwd := true;
        }
      } else if subCount == 1 {
        if fwdAllMsgs && prefixLen == 0 {
          fwd := true;
        }
      }
      if !fwd {
        return;
      }
      FwdPat(rvFormat, pattern, prefixLen, false, matches, encode);
    }

    /** `do_psub(prefix, prefix_len)`: a listen message for "prefix.>" (">" for no prefix);
        the prefix length is a `uint8_t`. */
    method DoPsub(pre: string, encode: Envelope -> seq<byte>)
      requires |pre| < 256
      modifies this
      ensures conn ==
        if old(conn.noWrite) then old(conn)
        else ClientProtocol.QueueSend(old(conn), encode(ListenMsg(PatternSubject(pre), None)), [])
      ensures Side() == old(Side())
    {
      if conn.noWrite {
        return;
      }
      var sub := pre;
      if |sub| != 0 {
        sub := sub + ".";
      }
      sub := sub + ">";
      assert sub == PatternSubject(pre);
      var _ := QueueSend(encode(ListenMsg(sub, None)), []);
    }

    /** `publish(pub)`: the outgoing subject and reply lose the prefix length (see
        `ClientRules.Publish`); `frame` stands for `publish2`'s encoding of the message,
        the header and the payload, or none when the encoder reports an error; `pushOk`
        is what `idle_push_write` reports. */
    method Publish(sub: string, reply: string, frame: (string, string) -> Option<(seq<byte>, seq<byte>)>,
                   pushOk: bool) returns (ok: bool)
      modifies this
      ensures var a := ClientRules.Publish(old(conn.noWrite), sub, reply, |old(prefix)|);
        if a.Dropped? || frame(a.sub, a.reply).None? then
          ok && conn == old(conn)
        else
          var f := frame(a.sub, a.reply).value;
          conn == ClientProtocol.QueueSend(old(conn), f.0, f.1) &&
          (ok <==> Rank(old(conn.state)) >= Rank(DataRecv) && pushOk)
      ensures Side() == old(Side())
    {
      if conn.noWrite {
        return true;
      }
      var prelen := |prefix|;
      if |sub| < prelen {
        return true;
      }
      var s := sub[prelen..];
      var r := if |reply| > prelen then reply[prelen..] else reply;
      var f := frame(s, r);
      if f.None? {
        return true;
      }
      assert ClientRules.Publish(conn.noWrite, sub, reply, prelen) == Send(s, r);
      var appended := QueueSend(f.value.0, f.value.1);
      ok := appended && pushOk;
    }

    /** `timer_expire(timer_id)`: the subscription timer runs the listen database's events. */
    method TimerExpire(id: int) returns (fired: bool)
      modifies this
      ensures fired <==> id == old(timerId)
      ensures timerRuns == old(timerRuns) + (if fired then 1 else 0)
      ensures conn == old(conn)
      ensures Side() == old(Side()).(timerRuns := timerRuns)
    {
      if timerId == id {
        timerRuns := timerRuns + 1;
        return true;
      }
      fired := false;
    }

    // ------------------------------------------------------------ connection set-up

    /** `make_inbox(inbox, num)`: "_INBOX.", the session, '.', the number in decimal and a
        NUL, written into `inbox`; the length without the NUL is returned. */
    method MakeInbox(inbox: array<char>, num: uint32) returns (len: nat)
      requires inbox.Length > |InboxName(conn.session, num)|
      modifies inbox
      ensures len == |InboxName(conn.session, num)|
      ensures inbox[..len] == InboxName(conn.session, num) && inbox[len] == '\0'
    {
      var o := CopyInto(inbox, 0, InboxPrefix);
      o := CopyInto(inbox, o, conn.session);
      ghost var acc := inbox[..o];
      inbox[o] := '.';
      assert inbox[..o + 1] == acc + ".";
      o := CopyInto(inbox, o + 1, Decimal(num));
      inbox[o] := '\0';
      len := o;
    }

    /** `initialize_state(is_null)`, storing the version 5.4.2 it evidently means to (see
        `VersionAfterResetAsWritten`): the handshake starts over with every parameter and
        feed list cleared; in null mode the gob is fifteen 1 bytes, the control inbox is
        "_INBOX..1", and the client is at once in `DataRecv` with writing disabled. */
    method InitializeState(isNull: bool)
      requires Valid()
      modifies this, gob
      ensures Valid()
      ensures conn == Conn(if isNull then DataRecv else VersRecv, isNull, Params(None, None, None, []),
                           "", if isNull then InboxName("", 1) else "", old(conn.out), [], old(conn.forwarded))
      ensures recv == old(recv) && off == old(off) && timerId == old(timerId) && timerRuns == old(timerRuns)
      ensures prefix == old(prefix) && fwdAllMsgs == old(fwdAllMsgs) && fdOpen == old(fdOpen) && dialed == old(dialed)
      ensures version == InitialVersion() && gobLen == (if isNull then GobSize - 1 else 0)
      ensures interSubs == [] && listenSubs == []
      ensures isNull ==> (forall i :: 0 <= i < GobSize - 1 ==> gob[i] == '\U{01}') && gob[GobSize - 1] == '\0'
      ensures !isNull ==> gob[..] == old(gob[..])
    {
      conn := Conn(VersRecv, false, Params(None, None, None, []), "", "", conn.out, [], conn.forwarded);
      gobLen := 0;
      version := InitialVersion();
      interSubs, listenSubs := [], [];
      if isNull {
        gobLen := FillGob();
        NullControlInbox();
        var inbox := new char[ControlSize];
        var len := MakeInbox(inbox, 1);
        conn := conn.(control := inbox[..len], state := DataRecv, noWrite := true);
      }
    }

    /** The null-mode gob: `gob[0..15)` set to 1, then a NUL; the length 15 is returned. */
    method FillGob() returns (len: nat)
      requires gob.Length == GobSize
      modifies gob
      ensures len == GobSize - 1
      ensures (forall i :: 0 <= i < GobSize - 1 ==> gob[i] == '\U{01}') && gob[GobSize - 1] == '\0'
    {
      len := 0;
      while len < GobSize - 1
        invariant len <= GobSize - 1
        invariant forall i :: 0 <= i < len ==> gob[i] == '\U{01}'
      {
        gob[len] := '\U{01}';
        len := len + 1;
      }
      gob[len] := '\0';
    }

    /** Where `rv_connect` connects: with an address given (`ai`) the daemon string is not
        looked at; otherwise it is parsed as `ParseDaemon` says. */
    static function Target(ai: bool, daemon: Option<string>, port: int): Daemon
    {
      if ai then Daemon(None, port, false) else ParseDaemon(daemon, port)
    }

    /** `rv_connect(p, n, c)`. `connectOk` is the outcome of the TCP connect, `userCap` the
        size of the `userid` buffer. A client already holding a socket refuses; a failed
        connect leaves the reset state in `ErrClose` without storing any parameter. */
    method RvConnect(ai: bool, daemon: Option<string>, port: int, svc: Option<string>,
                     net: Option<string>, user: Option<string>, userCap: nat, connectOk: bool)
      returns (ok: bool)
      requires Valid() && userCap >= 1
      modifies this, gob
      ensures Valid()
      ensures old(fdOpen) ==> !ok && conn == old(conn) && Side() == old(Side())
      ensures !old(fdOpen) ==>
        var d := Target(ai, daemon, port);
        && (ok <==> d.isNull || connectOk)
        && conn.state == (if d.isNull then DataRecv else if connectOk then VersRecv else ErrClose)
        && conn.noWrite == d.isNull && fdOpen == ok
        && dialed == (if d.isNull || ai then old(dialed) else Some((d.host, ConnectPort(d))))
        && conn.session == "" && conn.control == (if d.isNull then InboxName("", 1) else "")
        && conn.out == old(conn.out) && conn.save == [] && conn.forwarded == old(conn.forwarded)
        && conn.params == Params(if ok && user.Some? then Some(UserIdCopy(user.value, userCap).0) else None,
                                 if ok && svc.Some? then Some(ServiceName(svc.value)) else None,
                                 if ok then net else None, [])
      ensures !old(fdOpen) ==>
        recv == old(recv) && off == old(off) && timerId == old(timerId) && timerRuns == old(timerRuns) &&
        prefix == old(prefix) && fwdAllMsgs == old(fwdAllMsgs) && version == InitialVersion() &&
        interSubs == [] && listenSubs == []
    {
      if fdOpen {
        return false;
      }
      var d := Target(ai, daemon, port);
      InitializeState(d.isNull);
      if !d.isNull {
        if !ai {
          dialed := Some((d.host, ConnectPort(d)));
        }
        if !connectOk {
          conn := conn.(state := ErrClose);
          return false;
        }
      }
      fdOpen := true;
      var u := if user.Some? then Some(UserIdCopy(user.value, userCap).0) else None;
      var s := if svc.Some? then Some(ServiceName(svc.value)) else None;
      conn := conn.(params := conn.params.(userid := u, service := s, network := net));
      ok := true;
    }

    // ------------------------------------------------------------ the protocol engine

    /** `send_vers`: the version record {0, 4, 0} in big-endian order. */
    method SendVers()
      modifies this
      ensures conn == old(conn).(out := old(conn.out) + [VersionRecord])
      ensures Side() == old(Side())
    {
      var rec := Words([0, 4, 0]);
      VersionRecordWords();
      conn := conn.(out := conn.out + [rec]);
    }

    /** `send_info`: the seven prefix words flipped to big-endian, the other nine zero. */
    method SendInfo()
      modifies this
      ensures conn == old(conn).(out := old(conn.out) + [InfoRecord])
      ensures Side() == old(Side())
    {
      var rec := BuildInfoRecord();
      conn := conn.(out := conn.out + [rec]);
    }

    /** `send_init_rec`. */
    method SendInitRec(encode: Envelope -> seq<byte>)
      modifies this
      ensures conn == old(conn).(out := old(conn.out) + [encode(InitEnvelope(old(conn)))])
      ensures Side() == old(Side())
    {
      conn := conn.(out := conn.out + [encode(InitEnvelope(conn))]);
    }

    /** `recv_info`. */
    method RecvInfo(u: Unpacked, encode: Envelope -> seq<byte>) returns (st: DStatus)
      modifies this
      ensures (st, conn) == ClientProtocol.RecvInfo(u, old(conn), encode)
      ensures Side() == old(Side())
    {
      if u.sub != InitResp {
        if u.sub == InitRefused && u.refusedError.Some? {
          return if u.refusedError.value == 0 then Ok else Refused(u.refusedError.value);
        }
        return HostFailed;
      }
      if u.session.None? {
        return HostFailed;
      }
      var sess := u.session.value;
      conn := conn.(session := sess, control := InboxName(sess, 1));
      SendInitRec(encode);
      conn := conn.(state := ConnRecv);
      st := Ok;
    }

    /** `recv_conn`: the control listen, `DataRecv`, the broadcast feeds, then the save buffer. */
    method RecvConn(u: Unpacked, encode: Envelope -> seq<byte>) returns (st: DStatus)
      modifies this
      ensures (st, conn) == ClientProtocol.RecvConn(u, old(conn), encode)
      ensures Side() == old(Side())
    {
      if u.sub != Connected {
        return HostFailed;
      }
      conn := conn.(out := conn.out + [encode(ListenMsg(ControlListen(conn.control), None))], state := DataRecv);
      ghost var c1 := conn;
      var subs := conn.params.bcastSubs;
      var i := 0;
      while i < |subs|
        invariant 0 <= i <= |subs|
        invariant conn == SubscribeAll(c1, subs[..i], encode)
        invariant Side() == old(Side())
      {
        Subscribe(subs[i], [], encode);
        assert subs[..i + 1][..i] == subs[..i];
        i := i + 1;
      }
      assert subs[..i] == subs;
      FlushPendingSend();
      st := Ok;
    }

    /** `dispatch_msg(msgbuf, msglen)`. */
    method DispatchMsg(frame: seq<byte>, decode: seq<byte> -> Unpacked, encode: Envelope -> seq<byte>)
      returns (st: DStatus)
      modifies this
      ensures (st, conn) == Dispatch(frame, old(conn), decode, encode)
      ensures Side() == old(Side())
    {
      var u := decode(frame);
      if u.status != 0 {
        if |frame| == 8 {
          return Ok;
        }
        return UnpackFailed(u.status);
      }
      if Rank(conn.state) < Rank(DataRecv) {
        if conn.state == InitRecv {
          st := RecvInfo(u, encode);
        } else {
          st := RecvConn(u, encode);
        }
        return;
      }
      if u.mtype == 'D' || u.mtype == 'A' {
        conn := conn.(forwarded := conn.forwarded + [frame]);
        return Ok;
      }
      st := NotData;
    }

    /** `process`: the handshake loop until the data phase, then the data loop, over the
        bytes from `off`; a stopping status moves the client to `ErrClose` (`closed`, where
        the source pushes `EV_CLOSE`). `need` is the frame length given to `recv_need`. */
    method Process(decode: seq<byte> -> Unpacked, encode: Envelope -> seq<byte>)
      returns (need: Option<nat>, closed: bool)
      requires Valid() && decode([]).status != 0
      modifies this
      ensures Valid()
      ensures var o := ClientProtocol.Process(old(recv), old(off), old(conn), decode, encode);
        conn == Finish(o) && off == o.off && need == o.need && (closed <==> o.status != Ok)
      ensures Side() == old(Side()).(off := off)
    {
      var status := Ok;
      need := None;
      var inData := true;
      if Rank(conn.state) < Rank(InitRecv) {
        inData := HandshakeLoop(decode, encode);
      }
      if inData {
        need, status := DataRecvLoop(decode, encode);
      }
      closed := status != Ok;
      if closed {
        conn := conn.(state := ErrClose);
      }
    }

    /** The handshake part of `process`; `inData` is true when it handed over to the data
        loop, false when it stopped for want of bytes. */
    method HandshakeLoop(decode: seq<byte> -> Unpacked, encode: Envelope -> seq<byte>)
      returns (inData: bool)
      requires Valid() && decode([]).status != 0
      modifies this
      ensures Valid()
      ensures inData ==> DataLoop(recv, off, conn, decode, encode) == Handshake(old(recv), old(off), old(conn), decode, encode)
      ensures !inData ==> Handshake(old(recv), old(off), old(conn), decode, encode) == Outcome(conn, off, None, Ok)
      ensures Side() == old(Side()).(off := off)
    {
      ghost var target := Handshake(recv, off, conn, decode, encode);
      var data := recv;
      inData := false;
      var more := true;
      while more
        invariant recv == data && off <= |data|
        invariant more ==> !inData && Handshake(data, off, conn, decode, encode) == target
        invariant !more && inData ==> DataLoop(data, off, conn, decode, encode) == target
        invariant !more && !inData ==> target == Outcome(conn, off, None, Ok)
        invariant Side() == old(Side()).(off := off)
        decreases |data| - off, if more then 1 else 0
      {
        more, inData := HandshakeStep(data, decode, encode);
      }
    }

    /** One pass of the handshake loop of `process`: `more` is true when a record was
        consumed, `inData` when the state is past the handshake. */
    method HandshakeStep(data: seq<byte>, decode: seq<byte> -> Unpacked, encode: Envelope -> seq<byte>)
      returns (more: bool, inData: bool)
      requires recv == data && off <= |data| && decode([]).status != 0
      modifies this
      ensures recv == data && off <= |data| && !(more && inData)
      ensures more ==> off > old(off)
      ensures more ==> Handshake(data, off, conn, decode, encode) == Handshake(data, old(off), old(conn), decode, encode)
      ensures !more && inData ==>
        off == old(off) && DataLoop(data, off, conn, decode, encode) == Handshake(data, old(off), old(conn), decode, encode)
      ensures !more && !inData ==> Handshake(data, old(off), old(conn), decode, encode) == Outcome(conn, off, None, Ok)
      ensures Side() == old(Side()).(off := off)
    {
      more, inData := false, false;
      if |data| - off < 8 {
        return;
      }
      if conn.state == VersRecv {
        if |data| - off >= 12 {
          off := off + 12;
          SendVers();
          conn := conn.(state := InfoRecv);
          more := true;
        }
      } else if conn.state == InfoRecv {
        if |data| - off >= 64 {
          if FrameLen(data, off) != 1 {
            SendInfo();
          } else {
            SendInitRec(encode);
            conn := conn.(state := InitRecv);
          }
          off := off + 64;
          more := true;
        }
      } else {
        inData := true;
      }
    }

    /** The data part of `process` (`data_recv_loop`). */
    method DataRecvLoop(decode: seq<byte> -> Unpacked, encode: Envelope -> seq<byte>)
      returns (need: Option<nat>, status: DStatus)
      requires Valid() && decode([]).status != 0
      modifies this
      ensures Valid()
      ensures Outcome(conn, off, need, status) == DataLoop(old(recv), old(off), old(conn), decode, encode)
      ensures Side() == old(Side()).(off := off)
    {
      ghost var target := DataLoop(recv, off, conn, decode, encode);
      var data := recv;
      need, status := None, Ok;
      var more := true;
      while more
        invariant recv == data && off <= |data|
        invariant more ==> status == Ok && need.None? && DataLoop(data, off, conn, decode, encode) == target
        invariant !more ==> Outcome(conn, off, need, status) == target
        invariant Side() == old(Side()).(off := off)
        decreases |data| - off, if more then 1 else 0
      {
        var next;
        more, next, need, status := DataStep(data, off, decode, encode);
        off := next;
      }
    }

    /** One pass of the data loop from offset `at`: a whole buffered frame is dispatched
        (`more` unless its status stops the loop) and `next` is the offset after it;
        otherwise the loop stops at `at`, with `need` set when the length word is there but
        the frame is not. */
    method DataStep(data: seq<byte>, at: nat, decode: seq<byte> -> Unpacked, encode: Envelope -> seq<byte>)
      returns (more: bool, next: nat, need: Option<nat>, status: DStatus)
      requires at <= |data| && decode([]).status != 0
      modifies this
      ensures at <= next <= |data|
      ensures more ==> next > at && status == Ok && need.None?
      ensures more ==> DataLoop(data, next, conn, decode, encode) == DataLoop(data, at, old(conn), decode, encode)
      ensures !more ==> Outcome(conn, next, need, status) == DataLoop(data, at, old(conn), decode, encode)
      ensures Side() == old(Side())
    {
      more, next, need, status := false, at, None, Ok;
      var buflen := |data| - at;
      if buflen < 8 {
        return;
      }
      var msglen := FrameLen(data, at);
      if buflen < msglen {
        need := Some(msglen);
        return;
      }
      var frame := data[at..at + msglen];
      DataLoopStep(data, at, conn, decode, encode);
      status := DispatchMsg(frame, decode, encode);
      next := at + msglen;
      more := status == Ok;
    }
  }

  /** The 64-byte record `send_info` fills: each prefix word flipped to big-endian, then
      zero words up to sixteen. */
  method BuildInfoRecord() returns (r: seq<byte>)
    ensures r == InfoRecord
  {
    r := [];
    var i := 0;
    while i < |InfoPrefix|
      invariant 0 <= i <= |InfoPrefix|
      invariant r == Words(InfoPrefix[..i])
    {
      WordsSnoc(InfoPrefix[..i], InfoPrefix[i]);
      assert InfoPrefix[..i + 1] == InfoPrefix[..i] + [InfoPrefix[i]];
      r := r + BigEndianBytes(InfoPrefix[i]);
      i := i + 1;
    }
    assert InfoPrefix[..i] == InfoPrefix;
    ghost var head := r;
    while i < 16
      invariant |InfoPrefix| <= i <= 16
      invariant |r| == 4 * i && r[..28] == head
      invariant forall j :: 28 <= j < |r| ==> r[j] == 0
    {
      r := r + [0, 0, 0, 0];
      i := i + 1;
    }
    InfoRecordWords();
    assert r[..28] == InfoRecord[..28];
  }

  /** `memcpy(&dst[at], s, |s|)`. */
  method CopyInto(dst: array<char>, at: nat, s: string) returns (end: nat)
    requires at + |s| <= dst.Length
    modifies dst
    ensures end == at + |s|
    ensures dst[..end] == old(dst[..at]) + s
    ensures dst[end..] == old(dst[end..])
  {
    var k := 0;
    while k < |s|
      invariant 0 <= k <= |s|
      invariant dst[..at + k] == old(dst[..at]) + s[..k]
      invariant dst[at + |s|..] == old(dst[at + |s|..])
    {
      dst[at + k] := s[k];
      k := k + 1;
    }
    end := at + |s|;
  }
}
