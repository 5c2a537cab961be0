/** The protocol engine of `EvRvClient` (src/ev_rv_client.cpp) as functions of the connection
    state: the handshake, the framed data loop of `process`, `dispatch_msg` with the two
    start-up replies, and the write queue. The class in ClientConn runs these steps in
    place; the lemmas here state what they guarantee. */
module ClientProtocol {
  import opened Base
  import opened ClientRules

  /** The client states, in the order of src/ev_rv_client.cpp:327; `ErrClose`, the state a
      stopped `process` leaves, compares below all of them (a later "connected" advisory
      still lifts it to `DataRecv`, see `DispatchMonotone`). */
  datatype RvState = ErrClose | VersRecv | InfoRecv | InitRecv | ConnRecv | DataRecv

  function Rank(s: RvState): int
  {
    match s
    case ErrClose => -1
    case VersRecv => 0
    case InfoRecv => 1
    case InitRecv => 2
    case ConnRecv => 3
    case DataRecv => 4
  }

  /** What the envelope decoder reports for one frame: `status` of `msg_in.unpack` (0 on
      success), the `mtype`, subject and reply; and, for the daemon's init reply, the
      session id `recv_info` builds when the `ipaddr`, `ipport` and `gob` fields are
      present, and the 32-bit `error` field of a refusal when present. */
  datatype Unpacked = Unpacked(status: int, mtype: char, sub: string, reply: string,
                               session: Option<string>, refusedError: Option<int>)

  /** The messages the client encodes with `RvMsgWriter`. */
  datatype Envelope =
    | InitRecord(userid: string, session: Option<string>, service: string, network: string,
                 control: Option<string>, version: Version)
    | ListenMsg(sub: string, reply: Option<string>)
    | CancelMsg(sub: string)

  /** The connection parameters `rv_connect` stored. */
  datatype Params = Params(userid: Option<string>, service: Option<string>,
                           network: Option<string>, bcastSubs: seq<string>)

  /** The part of an `EvRvClient` the protocol engine reads and writes. `out` holds the
      chunks appended to the socket's write queue, one per `append` call, in order;
      `forwarded` the frames handed on by `fwd_pub`. */
  datatype Conn = Conn(state: RvState, noWrite: bool, params: Params, session: string,
                       control: string, out: seq<seq<byte>>, save: seq<byte>,
                       forwarded: seq<seq<byte>>)

  /** Why `dispatch_msg` stopped the data loop, if it did. */
  datatype DStatus = Ok | UnpackFailed(code: int) | HostFailed | Refused(code: int) | NotData

  // ---------------------------------------------------------------- the write queue

  /** `queue_send(buf, msg)`: straight to the socket once the session is up, dropped in
      `ErrClose`, otherwise kept in `save_buf` behind what is already there. */
  function QueueSend(c: Conn, buf: seq<byte>, msg: seq<byte>): (r: Conn)
    ensures r.state == c.state && r.forwarded == c.forwarded && r.control == c.control
    ensures r.params == c.params && r.session == c.session && r.noWrite == c.noWrite
    ensures Rank(c.state) >= Rank(DataRecv) ==> r == c.(out := c.out + [buf + msg])
    ensures c.state == ErrClose ==> r == c
    ensures Rank(VersRecv) <= Rank(c.state) < Rank(DataRecv) ==> r == c.(save := c.save + buf + msg)
  {
    if Rank(c.state) >= Rank(DataRecv) then c.(out := c.out + [buf + msg])
    else if c.state == ErrClose then c
    else c.(save := c.save + buf + msg)
  }

  /** `flush_pending_send`: what was saved goes out as one chunk, and the save buffer empties. */
  function Flush(c: Conn): (r: Conn)
    ensures r.save == [] && r.state == c.state && r.forwarded == c.forwarded
    ensures r.out == if c.save == [] then c.out else c.out + [c.save]
  {
    if c.save != [] then c.(out := c.out + [c.save], save := []) else c
  }

  /** The saved messages, one after another. */
  function Concat(ms: seq<seq<byte>>): seq<byte>
  {
    if ms == [] then [] else Concat(ms[..|ms| - 1]) + ms[|ms| - 1]
  }

  /** A run of `queue_send` calls, each with an empty second part. */
  function QueueAll(c: Conn, ms: seq<seq<byte>>): Conn
  {
    if ms == [] then c else QueueSend(QueueAll(c, ms[..|ms| - 1]), ms[|ms| - 1], [])
  }

  /** Before the session is up, queued messages pile up in `save_buf` in call order and
      nothing is written; in `ErrClose` they vanish; afterwards each is written at once. */
  lemma {:induction false} QueueAllEffect(c: Conn, ms: seq<seq<byte>>)
    ensures var r := QueueAll(c, ms);
      && r.state == c.state
      && (Rank(VersRecv) <= Rank(c.state) < Rank(DataRecv) ==> r == c.(save := c.save + Concat(ms)))
      && (c.state == ErrClose ==> r == c)
      && (Rank(c.state) >= Rank(DataRecv) ==> r == c.(out := c.out + ms))
  {
    if ms != [] {
      var init := ms[..|ms| - 1];
      QueueAllEffect(c, init);
      assert ms == init + [ms[|ms| - 1]];
      assert ms[|ms| - 1] + [] == ms[|ms| - 1];
    }
  }

  /** Queueing during the handshake and then flushing writes exactly one chunk: the earlier
      save buffer followed by the queued messages in order. */
  lemma QueueThenFlush(c: Conn, ms: seq<seq<byte>>)
    requires Rank(VersRecv) <= Rank(c.state) < Rank(DataRecv)
    requires c.save + Concat(ms) != []
    ensures Flush(QueueAll(c, ms)).out == c.out + [c.save + Concat(ms)]
    ensures Flush(QueueAll(c, ms)).save == []
  {
    QueueAllEffect(c, ms);
  }

  /** A second flush writes nothing. */
  lemma FlushIdempotent(c: Conn)
    ensures Flush(Flush(c)) == Flush(c)
  {
  }

  // ---------------------------------------------------------------- subscriptions

  /** `subscribe(sub, rep)`: a listen message with one trailing NUL trimmed from the subject
      and from a non-empty reply, queued unless writing is disabled. */
  function Subscribe(c: Conn, sub: string, rep: string, encode: Envelope -> seq<byte>): (r: Conn)
    ensures r.state == c.state && r.params == c.params && r.forwarded == c.forwarded
    ensures r.noWrite == c.noWrite && r.session == c.session && r.control == c.control
    ensures c.noWrite ==> r == c
    ensures !c.noWrite && Rank(c.state) >= Rank(DataRecv) ==> |r.out| == |c.out| + 1 && r.save == c.save
    ensures !c.noWrite && Rank(c.state) >= Rank(DataRecv) ==>
      r.out == c.out + [encode(ListenMsg(TrimNul(sub), if rep == [] then None else Some(TrimNul(rep))))]
  {
    if c.noWrite then c
    else
      var m := encode(ListenMsg(TrimNul(sub), if rep == [] then None else Some(TrimNul(rep))));
      assert m + [] == m;
      QueueSend(c, m, [])
  }

  /** `unsubscribe(sub)`: a cancel message, queued unless writing is disabled. */
  function Unsubscribe(c: Conn, sub: string, encode: Envelope -> seq<byte>): (r: Conn)
    ensures r.state == c.state && r.params == c.params && r.forwarded == c.forwarded
    ensures r.noWrite == c.noWrite && r.session == c.session && r.control == c.control
    ensures c.noWrite ==> r == c
    ensures !c.noWrite && Rank(c.state) >= Rank(DataRecv) ==> |r.out| == |c.out| + 1 && r.save == c.save
    ensures !c.noWrite && Rank(c.state) >= Rank(DataRecv) ==> r.out == c.out + [encode(CancelMsg(TrimNul(sub)))]
  {
    if c.noWrite then c
    else
      var m := encode(CancelMsg(TrimNul(sub)));
      assert m + [] == m;
      QueueSend(c, m, [])
  }

  /** The broadcast feeds subscribed, in order, once the daemon reports the connection. */
  function SubscribeAll(c: Conn, subs: seq<string>, encode: Envelope -> seq<byte>): (r: Conn)
    ensures r.state == c.state && r.forwarded == c.forwarded
    ensures r.control == c.control && r.session == c.session && r.params == c.params
    ensures r.noWrite == c.noWrite
    ensures Rank(c.state) >= Rank(DataRecv) || c.noWrite ==> r.save == c.save
  {
    if subs == [] then c else Subscribe(SubscribeAll(c, subs[..|subs| - 1], encode), subs[|subs| - 1], [], encode)
  }

  lemma {:induction false} SubscribeAllWrites(c: Conn, subs: seq<string>, encode: Envelope -> seq<byte>)
    requires c.state == DataRecv && !c.noWrite
    ensures |SubscribeAll(c, subs, encode).out| == |c.out| + |subs|
    ensures SubscribeAll(c, subs, encode).out[..|c.out|] == c.out
    ensures forall i :: 0 <= i < |subs| ==>
      SubscribeAll(c, subs, encode).out[|c.out| + i] == encode(ListenMsg(TrimNul(subs[i]), None))
  {
    if subs != [] {
      var init := subs[..|subs| - 1];
      SubscribeAllWrites(c, init, encode);
      var r := SubscribeAll(c, init, encode);
      assert SubscribeAll(c, subs, encode).out == r.out + [encode(ListenMsg(TrimNul(subs[|subs| - 1]), None)) + []];
    }
  }

  // ---------------------------------------------------------------- the start-up replies

  /** The init record `send_init_rec` encodes: "nobody" without a user id, the session and
      control inbox only once known, and the fixed version 5.4.2. */
  function InitEnvelope(c: Conn): (e: Envelope)
    ensures e.InitRecord? && e.version == InitialVersion()
  {
    InitRecord(
      match c.params.userid case None => "nobody" case Some(u) => u,
      if c.session == [] then None else Some(c.session),
      match c.params.service case None => "" case Some(s) => s,
      match c.params.network case None => "" case Some(n) => n,
      if c.control == [] then None else Some(c.control),
      InitialVersion())
  }

  const InitResp: string := "RVD.INITRESP"
  const InitRefused: string := "RVD.INITREFUSED"
  const Connected: string := "_RV.INFO.SYSTEM.RVD.CONNECTED"

  /** `recv_info`: the daemon's answer to the init record. An accepted reply with the host
      fields fixes the session and the control inbox, re-sends the init record and moves on
      to `ConnRecv`; a refusal carrying an error code returns that code; all else fails. */
  function RecvInfo(u: Unpacked, c: Conn, encode: Envelope -> seq<byte>): (r: (DStatus, Conn))
    ensures r.1 == c || (u.sub == InitResp && u.session.Some? && r.0 == Ok)
    ensures u.sub == InitResp && u.session.Some? ==>
      && r.1.state == ConnRecv && r.1.session == u.session.value
      && r.1.control == InboxName(u.session.value, 1)
      && r.1.out == c.out + [encode(InitEnvelope(r.1.(out := c.out, state := c.state)))]
    ensures r.0 == Ok <==> (u.sub == InitResp && u.session.Some?) || (u.sub == InitRefused && u.refusedError == Some(0))
  {
    if u.sub != InitResp then
      if u.sub == InitRefused && u.refusedError.Some? then
        (if u.refusedError.value == 0 then Ok else Refused(u.refusedError.value), c)
      else (HostFailed, c)
    else
      match u.session
      case None => (HostFailed, c)
      case Some(sess) =>
        var c1 := c.(session := sess, control := InboxName(sess, 1));
        (Ok, c1.(out := c1.out + [encode(InitEnvelope(c1))], state := ConnRecv))
  }

  /** The subject of the control listen: the control inbox with its last byte turned into
      '>'; with no control inbox the subject is empty, as its length is then 0. */
  function ControlListen(control: string): (s: string)
    ensures |s| == |control|
  {
    if control == [] then [] else ControlListenSubject(control)
  }

  /** `recv_conn`: on the daemon's "connected" advisory, listen on the control inbox, enter
      `DataRecv`, subscribe the broadcast feeds and release what was saved. */
  function RecvConn(u: Unpacked, c: Conn, encode: Envelope -> seq<byte>): (r: (DStatus, Conn))
    ensures r.0 == Ok <==> u.sub == Connected
    ensures r.0 != Ok ==> r == (HostFailed, c)
    ensures r.0 == Ok ==> r.1.state == DataRecv && r.1.save == [] && r.1.forwarded == c.forwarded
    ensures r.0 == Ok ==> r.1.params == c.params && r.1.control == c.control && r.1.session == c.session
  {
    if u.sub != Connected then (HostFailed, c)
    else
      var c1 := c.(out := c.out + [encode(ListenMsg(ControlListen(c.control), None))], state := DataRecv);
      (Ok, Flush(SubscribeAll(c1, c.params.bcastSubs, encode)))
  }

  /** `dispatch_msg` on one whole frame. */
  function Dispatch(frame: seq<byte>, c: Conn, decode: seq<byte> -> Unpacked,
                    encode: Envelope -> seq<byte>): (r: (DStatus, Conn))
    ensures decode(frame).status != 0 && |frame| != 8 ==> r == (UnpackFailed(decode(frame).status), c)
    ensures decode(frame).status != 0 && |frame| == 8 ==> r == (Ok, c)
  {
    var u := decode(frame);
    if u.status != 0 then
      if |frame| == 8 then (Ok, c) else (UnpackFailed(u.status), c)
    else if Rank(c.state) < Rank(DataRecv) then
      if c.state == InitRecv then RecvInfo(u, c, encode) else RecvConn(u, c, encode)
    else if u.mtype == 'D' || u.mtype == 'A' then
      (Ok, c.(forwarded := c.forwarded + [frame]))
    else (NotData, c)
  }

  /** In `DataRecv` a decoded frame is accepted exactly when it is a publish ('D') or an
      advisory ('A'); an accepted frame is forwarded and nothing else changes. */
  lemma DispatchData(frame: seq<byte>, c: Conn, decode: seq<byte> -> Unpacked,
                     encode: Envelope -> seq<byte>)
    requires c.state == DataRecv && decode(frame).status == 0
    ensures var r := Dispatch(frame, c, decode, encode);
      && (r.0 == Ok <==> decode(frame).mtype in {'D', 'A'})
      && (r.0 == Ok ==> r.1 == c.(forwarded := c.forwarded + [frame]))
      && (r.0 != Ok ==> r.0 == NotData && r.1 == c)
  {
  }

  /** During start-up, a daemon reply is never forwarded and the state only moves forward:
      `InitRecv` to `ConnRecv` on an accepted init reply, to `DataRecv` on "connected". */
  lemma DispatchStartup(frame: seq<byte>, c: Conn, decode: seq<byte> -> Unpacked,
                        encode: Envelope -> seq<byte>)
    requires Rank(c.state) < Rank(DataRecv) && decode(frame).status == 0
    ensures var r := Dispatch(frame, c, decode, encode);
      && r.1.forwarded == c.forwarded
      && (c.state == InitRecv ==> r.1.state in {InitRecv, ConnRecv})
      && (c.state == InitRecv && r.1.state == ConnRecv ==>
            decode(frame).sub == InitResp && decode(frame).session.Some? &&
            r.1.control == InboxName(decode(frame).session.value, 1))
      && (c.state != InitRecv ==> (r.0 == Ok <==> decode(frame).sub == Connected))
      && (c.state != InitRecv && r.0 == Ok ==> r.1.state == DataRecv && r.1.save == [])
  {
  }

  /** A refusal with error code 0 is taken as success, but the state stays `InitRecv`. */
  lemma RefusalWithZero(frame: seq<byte>, c: Conn, decode: seq<byte> -> Unpacked,
                        encode: Envelope -> seq<byte>)
    requires c.state == InitRecv && decode(frame).status == 0
    requires decode(frame).sub == InitRefused && decode(frame).refusedError == Some(0)
    ensures Dispatch(frame, c, decode, encode) == (Ok, c)
  {
    assert InitRefused != InitResp by { assert |InitRefused| != |InitResp|; }
  }

  /** The "connected" step writes, in order: the control listen, the broadcast feed
      subscriptions, then everything saved during the handshake as one chunk. */
  lemma ConnectedWrites(frame: seq<byte>, c: Conn, decode: seq<byte> -> Unpacked,
                        encode: Envelope -> seq<byte>)
    requires Rank(c.state) < Rank(DataRecv) && c.state != InitRecv && !c.noWrite
    requires decode(frame).status == 0 && decode(frame).sub == Connected
    ensures var r := Dispatch(frame, c, decode, encode).1;
      var subs := c.params.bcastSubs;
      && r.state == DataRecv && r.save == []
      && |r.out| == |c.out| + 1 + |subs| + (if c.save == [] then 0 else 1)
      && r.out[..|c.out|] == c.out
      && r.out[|c.out|] == encode(ListenMsg(ControlListen(c.control), None))
      && (forall i :: 0 <= i < |subs| ==> r.out[|c.out| + 1 + i] == encode(ListenMsg(TrimNul(subs[i]), None)))
      && (c.save != [] ==> r.out[|r.out| - 1] == c.save)
  {
    var c1 := c.(out := c.out + [encode(ListenMsg(ControlListen(c.control), None))], state := DataRecv);
    assert Dispatch(frame, c, decode, encode).1 == Flush(SubscribeAll(c1, c.params.bcastSubs, encode));
    ConnectedOut(c, encode);
  }

  /** The write queue after the "connected" step, apart from the dispatch that leads to it. */
  lemma ConnectedOut(c: Conn, encode: Envelope -> seq<byte>)
    requires !c.noWrite
    ensures var c1 := c.(out := c.out + [encode(ListenMsg(ControlListen(c.control), None))], state := DataRecv);
      var r := Flush(SubscribeAll(c1, c.params.bcastSubs, encode));
      var subs := c.params.bcastSubs;
      && |r.out| == |c.out| + 1 + |subs| + (if c.save == [] then 0 else 1)
      && r.out[..|c.out|] == c.out
      && r.out[|c.out|] == encode(ListenMsg(ControlListen(c.control), None))
      && (forall i :: 0 <= i < |subs| ==> r.out[|c.out| + 1 + i] == encode(ListenMsg(TrimNul(subs[i]), None)))
      && (c.save != [] ==> r.out[|r.out| - 1] == c.save)
  {
    var c1 := c.(out := c.out + [encode(ListenMsg(ControlListen(c.control), None))], state := DataRecv);
    var subs := c.params.bcastSubs;
    SubscribeAllWrites(c1, subs, encode);
    var c2 := SubscribeAll(c1, subs, encode);
    var r := Flush(c2);
    assert c2.save == c.save;
    assert c2.out[..|c.out|] == c1.out[..|c1.out|][..|c.out|];
    assert r.out[..|c2.out|] == c2.out;
    assert r.out[|c.out|] == c2.out[|c.out|] == c1.out[|c.out|];
    forall i | 0 <= i < |subs|
      ensures r.out[|c.out| + 1 + i] == encode(ListenMsg(TrimNul(subs[i]), None))
    {
      assert r.out[|c.out| + 1 + i] == c2.out[|c1.out| + i];
    }
  }

  // ---------------------------------------------------------------- process

  /** What one call of `process` leaves: the connection, the new read offset, the length
      passed to `recv_need` for an incomplete frame, and the status that stopped the loop. */
  datatype Outcome = Outcome(c: Conn, off: nat, need: Option<nat>, status: DStatus)

  /** The big-endian length word at `off`. */
  function FrameLen(recv: seq<byte>, off: nat): nat
    requires off + 4 <= |recv|
  {
    BigEndian32(recv[off..off + 4])
  }

  /** What handles one frame of the data loop: the status and the new connection. */
  type Dispatcher = (seq<byte>, Conn) -> (DStatus, Conn)

  /** An empty frame never lets the loop go on; `dispatch_msg` fails to unpack it. */
  ghost predicate EmptyFrameStops(step: Dispatcher)
  {
    forall k: Conn :: step([], k).0 != Ok
  }

  /** The data loop of `process` (`data_recv_loop`) for a given dispatcher: while eight
      bytes are buffered and the whole frame they announce is there, dispatch it and step
      over it; stop at the first status other than `Ok`. A frame shorter than its length
      word is left in place. */
  function FrameLoop(recv: seq<byte>, off: nat, c: Conn, step: Dispatcher): (o: Outcome)
    requires off <= |recv| && EmptyFrameStops(step)
    ensures off <= o.off <= |recv|
    decreases |recv| - off
  {
    if |recv| - off < 8 then Outcome(c, off, None, Ok)
    else
      var n := FrameLen(recv, off);
      if |recv| - off < n then Outcome(c, off, Some(n), Ok)
      else
        var r := step(recv[off..off + n], c);
        if r.0 != Ok then Outcome(r.1, off + n, None, r.0)
        else
          assert recv[off..off + n] != [];
          FrameLoop(recv, off + n, r.1, step)
  }

  /** `dispatch_msg` with a given envelope codec, as the dispatcher of the data loop. */
  function DispatchWith(decode: seq<byte> -> Unpacked, encode: Envelope -> seq<byte>): (step: Dispatcher)
    ensures forall f, k :: step(f, k) == Dispatch(f, k, decode, encode)
    ensures decode([]).status != 0 ==> EmptyFrameStops(step)
  {
    (f, k) => Dispatch(f, k, decode, encode)
  }

  /** The data loop of `process`, dispatching with `dispatch_msg`. */
  function DataLoop(recv: seq<byte>, off: nat, c: Conn, decode: seq<byte> -> Unpacked,
                    encode: Envelope -> seq<byte>): (o: Outcome)
    requires off <= |recv| && decode([]).status != 0
  {
    FrameLoop(recv, off, c, DispatchWith(decode, encode))
  }

  /** Where the frame loop stops without an error: with under 8 bytes left, or with `need`
      set to the length the next frame announces when that frame is not all there. */
  lemma {:induction false} FrameLoopStops(recv: seq<byte>, off: nat, c: Conn, step: Dispatcher)
    requires off <= |recv| && EmptyFrameStops(step)
    ensures var o := FrameLoop(recv, off, c, step);
      && (o.status == Ok && o.need.None? ==> |recv| - o.off < 8)
      && (o.need.Some? ==>
            o.status == Ok && |recv| - o.off >= 8 && o.need.value == FrameLen(recv, o.off) > |recv| - o.off)
    decreases |recv| - off
  {
    if |recv| - off >= 8 && |recv| - off >= FrameLen(recv, off) {
      var n := FrameLen(recv, off);
      var r := step(recv[off..off + n], c);
      if r.0 == Ok {
        assert recv[off..off + n] != [];
        FrameLoopStops(recv, off + n, r.1, step);
      }
    }
  }

  /** `FrameLoopStops` for the data loop. */
  lemma DataLoopStops(recv: seq<byte>, off: nat, c: Conn, decode: seq<byte> -> Unpacked,
                      encode: Envelope -> seq<byte>)
    requires off <= |recv| && decode([]).status != 0
    ensures var o := DataLoop(recv, off, c, decode, encode);
      && (o.status == Ok && o.need.None? ==> |recv| - o.off < 8)
      && (o.need.Some? ==>
            o.status == Ok && |recv| - o.off >= 8 && o.need.value == FrameLen(recv, o.off) > |recv| - o.off)
  {
    FrameLoopStops(recv, off, c, DispatchWith(decode, encode));
  }

  /** `send_vers`: the words {0, 4, 0}, big-endian. */
  const VersionRecord: seq<byte> := [0, 0, 0, 0, 0, 0, 0, 4, 0, 0, 0, 0]

  /** `send_info`: the words {3, 2, 0, 1, 0, 4 << 24, 4 << 24}, big-endian, then nine zero words. */
  const InfoRecord: seq<byte> :=
    [0, 0, 0, 3, 0, 0, 0, 2, 0, 0, 0, 0, 0, 0, 0, 1, 0, 0, 0, 0, 4, 0, 0, 0, 4, 0, 0, 0] + Zeros(36)

  function Zeros(n: nat): (z: seq<byte>)
    ensures |z| == n && forall i :: 0 <= i < n ==> z[i] == 0
  {
    if n == 0 then [] else Zeros(n - 1) + [0]
  }

  /** The version record is the big-endian encoding of the words {0, 4, 0}. */
  lemma VersionRecordWords()
    ensures VersionRecord == Words([0, 4, 0])
  {
    var b0, b4 := BigEndianBytes(0), BigEndianBytes(4);
    assert b0 == [0, 0, 0, 0] && b4 == [0, 0, 0, 4];
    WordsCons(0, [4, 0]);
    WordsCons(4, [0]);
    WordsCons(0, []);
    assert Words([0, 4, 0]) == b0 + b4 + b0;
  }

  /** The info record starts with the big-endian encoding of the seven words the source
      flips, and the remaining 36 bytes are zero. */
  lemma InfoRecordWords()
    ensures InfoRecord[..28] == Words([3, 2, 0, 1, 0, 4 * 0x100_0000, 4 * 0x100_0000])
    ensures |InfoRecord| == 64 && forall i :: 28 <= i < 64 ==> InfoRecord[i] == 0
  {
    var b0, b1, b2, b3 := BigEndianBytes(0), BigEndianBytes(1), BigEndianBytes(2), BigEndianBytes(3);
    var b5 := BigEndianBytes(4 * 0x100_0000);
    assert b0 == [0, 0, 0, 0] && b1 == [0, 0, 0, 1] && b2 == [0, 0, 0, 2] && b3 == [0, 0, 0, 3];
    assert b5 == [4, 0, 0, 0];
    InfoPrefixWords();
    InfoHeadBytes();
  }

  lemma InfoHeadBytes()
    ensures InfoRecord[..28] ==
      [0, 0, 0, 3] + [0, 0, 0, 2] + [0, 0, 0, 0] + [0, 0, 0, 1] + [0, 0, 0, 0] + [4, 0, 0, 0] + [4, 0, 0, 0]
  {
    var head: seq<byte> := [0, 0, 0, 3, 0, 0, 0, 2, 0, 0, 0, 0, 0, 0, 0, 1, 0, 0, 0, 0, 4, 0, 0, 0, 4, 0, 0, 0];
    assert InfoRecord[..28] == head;
    var h2: seq<byte> := [0, 0, 0, 3] + [0, 0, 0, 2];
    assert h2 == [0, 0, 0, 3, 0, 0, 0, 2];
    var h4: seq<byte> := h2 + [0, 0, 0, 0] + [0, 0, 0, 1];
    assert h4 == [0, 0, 0, 3, 0, 0, 0, 2, 0, 0, 0, 0, 0, 0, 0, 1];
    var h7: seq<byte> := h4 + [0, 0, 0, 0] + [4, 0, 0, 0] + [4, 0, 0, 0];
    assert h7 == head;
  }

  lemma InfoPrefixWords()
    ensures Words([3, 2, 0, 1, 0, 4 * 0x100_0000, 4 * 0x100_0000]) ==
      BigEndianBytes(3) + BigEndianBytes(2) + BigEndianBytes(0) + BigEndianBytes(1) + BigEndianBytes(0) +
      BigEndianBytes(4 * 0x100_0000) + BigEndianBytes(4 * 0x100_0000)
  {
    WordsCons(3, [2, 0, 1, 0, 4 * 0x100_0000, 4 * 0x100_0000]);
    WordsCons(2, [0, 1, 0, 4 * 0x100_0000, 4 * 0x100_0000]);
    WordsCons(0, [1, 0, 4 * 0x100_0000, 4 * 0x100_0000]);
    WordsCons(1, [0, 4 * 0x100_0000, 4 * 0x100_0000]);
    WordsCons(0, [4 * 0x100_0000, 4 * 0x100_0000]);
    WordsCons(4 * 0x100_0000, [4 * 0x100_0000]);
    WordsCons(4 * 0x100_0000, []);
  }

  lemma WordsCons(w: uint32, ws: seq<uint32>)
    ensures Words([w] + ws) == BigEndianBytes(w) + Words(ws)
  {
    assert ([w] + ws)[1..] == ws;
  }

  /** The handshake loop of `process` (the states below `InitRecv`): the 12-byte version
      record is answered with the client's version record; a 64-byte info record whose
      first word is not 1 is answered with the client's info record; one whose first word
      is 1 is answered with the init record and the client moves to `InitRecv`. Any other
      state continues in the data loop. */
  function Handshake(recv: seq<byte>, off: nat, c: Conn, decode: seq<byte> -> Unpacked,
                     encode: Envelope -> seq<byte>): (o: Outcome)
    requires off <= |recv| && decode([]).status != 0
    ensures off <= o.off <= |recv|
    decreases |recv| - off
  {
    if |recv| - off < 8 then Outcome(c, off, None, Ok)
    else
      match c.state
      case VersRecv =>
        if |recv| - off < 12 then Outcome(c, off, None, Ok)
        else Handshake(recv, off + 12, c.(out := c.out + [VersionRecord], state := InfoRecv), decode, encode)
      case InfoRecv =>
        if |recv| - off < 64 then Outcome(c, off, None, Ok)
        else if FrameLen(recv, off) != 1 then
          Handshake(recv, off + 64, c.(out := c.out + [InfoRecord]), decode, encode)
        else
          Handshake(recv, off + 64, c.(out := c.out + [encode(InitEnvelope(c))], state := InitRecv), decode, encode)
      case _ => DataLoop(recv, off, c, decode, encode)
  }

  /** The loops of `process`: the data loop from `InitRecv` on, else the handshake. */
  function Process(recv: seq<byte>, off: nat, c: Conn, decode: seq<byte> -> Unpacked,
                   encode: Envelope -> seq<byte>): (o: Outcome)
    requires off <= |recv| && decode([]).status != 0
    ensures off <= o.off <= |recv|
  {
    if Rank(c.state) >= Rank(InitRecv) then DataLoop(recv, off, c, decode, encode)
    else Handshake(recv, off, c, decode, encode)
  }

  /** The end of `process`: a stopping status closes the connection. */
  function Finish(o: Outcome): (c: Conn)
    ensures o.status != Ok ==> c == o.c.(state := ErrClose)
    ensures o.status == Ok ==> c == o.c
  {
    if o.status != Ok then o.c.(state := ErrClose) else o.c
  }

  // ---------------------------------------------------------------- what process guarantees

  /** Fewer than 12 bytes in `VersRecv` (or 64 in `InfoRecv`): nothing consumed, nothing sent. */
  lemma HandshakeWaits(recv: seq<byte>, off: nat, c: Conn, decode: seq<byte> -> Unpacked,
                       encode: Envelope -> seq<byte>)
    requires off <= |recv| && decode([]).status != 0
    requires (c.state == VersRecv && |recv| - off < 12) || (c.state == InfoRecv && |recv| - off < 64)
    ensures Process(recv, off, c, decode, encode) == Outcome(c, off, None, Ok)
  {
  }

  /** The version step: 12 bytes consumed, the 12-byte version record sent, `InfoRecv` next. */
  lemma HandshakeVersion(recv: seq<byte>, off: nat, c: Conn, decode: seq<byte> -> Unpacked,
                         encode: Envelope -> seq<byte>)
    requires off + 12 <= |recv| && decode([]).status != 0 && c.state == VersRecv
    ensures |VersionRecord| == 12
    ensures Process(recv, off, c, decode, encode) ==
      Process(recv, off + 12, c.(out := c.out + [VersionRecord], state := InfoRecv), decode, encode)
  {
  }

  /** The info step: 64 bytes consumed; the daemon's info is answered by the 64-byte info
      record (first word not 1) or by the init record and `InitRecv` (first word 1). */
  lemma HandshakeInfo(recv: seq<byte>, off: nat, c: Conn, decode: seq<byte> -> Unpacked,
                      encode: Envelope -> seq<byte>)
    requires off + 64 <= |recv| && decode([]).status != 0 && c.state == InfoRecv
    ensures |InfoRecord| == 64
    ensures FrameLen(recv, off) != 1 ==>
      Process(recv, off, c, decode, encode) ==
      Process(recv, off + 64, c.(out := c.out + [InfoRecord]), decode, encode)
    ensures FrameLen(recv, off) == 1 ==>
      Process(recv, off, c, decode, encode) ==
      Process(recv, off + 64, c.(out := c.out + [encode(InitEnvelope(c))], state := InitRecv), decode, encode)
  {
    HandshakeInData(recv, off + 64, c.(out := c.out + [encode(InitEnvelope(c))], state := InitRecv), decode, encode);
  }

  /** In the data phase the handshake loop hands over to the data loop at once. */
  lemma HandshakeInData(recv: seq<byte>, off: nat, c: Conn, decode: seq<byte> -> Unpacked,
                        encode: Envelope -> seq<byte>)
    requires off <= |recv| && decode([]).status != 0 && InDataPhase(c.state)
    ensures Handshake(recv, off, c, decode, encode) == DataLoop(recv, off, c, decode, encode)
  {
  }

  /** A whole handshake in one buffer: version, then an info record with first word 1, then
      frames. The client has sent its version record and its init record, and the frames
      after byte 76 are handled by the data loop in `InitRecv`. */
  lemma HandshakeComplete(recv: seq<byte>, c: Conn, decode: seq<byte> -> Unpacked,
                          encode: Envelope -> seq<byte>)
    requires 76 <= |recv| && decode([]).status != 0 && c.state == VersRecv
    requires FrameLen(recv, 12) == 1
    ensures Process(recv, 0, c, decode, encode) ==
      DataLoop(recv, 76, c.(out := c.out + [VersionRecord, encode(InitEnvelope(c))], state := InitRecv), decode, encode)
  {
    var c1 := c.(out := c.out + [VersionRecord], state := InfoRecv);
    HandshakeVersion(recv, 0, c, decode, encode);
    HandshakeInfo(recv, 12, c1, decode, encode);
    assert InitEnvelope(c1) == InitEnvelope(c);
    assert c1.out + [encode(InitEnvelope(c1))] == c.out + [VersionRecord, encode(InitEnvelope(c))];
  }

  /** One frame of the data loop: a whole frame is dispatched, and unless it stops the
      loop, the loop goes on after it. */
  lemma DataLoopStep(recv: seq<byte>, off: nat, c: Conn, decode: seq<byte> -> Unpacked,
                     encode: Envelope -> seq<byte>)
    requires off + 8 <= |recv| && decode([]).status != 0 && off + FrameLen(recv, off) <= |recv|
    ensures var n := FrameLen(recv, off);
      var r := Dispatch(recv[off..off + n], c, decode, encode);
      DataLoop(recv, off, c, decode, encode) ==
        if r.0 != Ok then Outcome(r.1, off + n, None, r.0) else DataLoop(recv, off + n, r.1, decode, encode)
  {
  }

  /** Bytes arriving later do not change what is done with the bytes already there: if a
      call stopped for want of data, running again from where it stopped over the longer
      buffer gives what one call over the longer buffer gives. In particular no frame is
      dispatched before all its bytes are in. */
  lemma DataLoopReassembly(r1: seq<byte>, r2: seq<byte>, off: nat, c: Conn,
                            decode: seq<byte> -> Unpacked, encode: Envelope -> seq<byte>)
    requires off <= |r1| && decode([]).status != 0
    requires DataLoop(r1, off, c, decode, encode).status == Ok
    ensures var o := DataLoop(r1, off, c, decode, encode);
      DataLoop(r1 + r2, o.off, o.c, decode, encode) == DataLoop(r1 + r2, off, c, decode, encode)
  {
    assert r1 <= r1 + r2;
    FrameLoopPrefix(r1, r1 + r2, off, c, DispatchWith(decode, encode));
  }

  /** Reassembly for the frame loop over any buffer `r` that extends `r1`. */
  lemma {:induction false} FrameLoopPrefix(r1: seq<byte>, r: seq<byte>, off: nat, c: Conn, step: Dispatcher)
    requires off <= |r1| && r1 <= r && EmptyFrameStops(step)
    requires FrameLoop(r1, off, c, step).status == Ok
    ensures var o := FrameLoop(r1, off, c, step);
      FrameLoop(r, o.off, o.c, step) == FrameLoop(r, off, c, step)
    decreases |r1| - off
  {
    if |r1| - off >= 8 && |r1| - off >= FrameLen(r1, off) {
      var n := FrameLen(r1, off);
      PrefixSlice(r1, r, off, off + 4);
      PrefixSlice(r1, r, off, off + n);
      var d := step(r1[off..off + n], c);
      if d.0 == Ok {
        assert r1[off..off + n] != [];
        FrameLoopPrefix(r1, r, off + n, d.1, step);
      }
    }
  }

  lemma PrefixSlice(r1: seq<byte>, r: seq<byte>, i: nat, j: nat)
    requires r1 <= r && i <= j <= |r1|
    ensures r[i..j] == r1[i..j]
  {
    assert r1 == r[..|r1|];
  }

  /** The length word of a buffered frame does not change as more bytes arrive. */
  lemma FrameLenOfPrefix(r1: seq<byte>, r2: seq<byte>, off: nat)
    requires off + 4 <= |r1|
    ensures FrameLen(r1 + r2, off) == FrameLen(r1, off)
  {
    SliceOfPrefix(r1, r2, off, off + 4);
  }

  lemma SliceOfPrefix(r1: seq<byte>, r2: seq<byte>, i: nat, j: nat)
    requires i <= j <= |r1|
    ensures (r1 + r2)[i..j] == r1[i..j]
  {
  }

  lemma {:induction false} HandshakeReassembly(r1: seq<byte>, r2: seq<byte>, off: nat, c: Conn,
                                               decode: seq<byte> -> Unpacked, encode: Envelope -> seq<byte>)
    requires off <= |r1| && decode([]).status != 0
    requires Handshake(r1, off, c, decode, encode).status == Ok
    ensures var o := Handshake(r1, off, c, decode, encode);
      Process(r1 + r2, o.off, o.c, decode, encode) == Handshake(r1 + r2, off, c, decode, encode)
    decreases |r1| - off
  {
    var o := Handshake(r1, off, c, decode, encode);
    if |r1| - off < 8 {
      HandshakeFrom(r1 + r2, off, c, decode, encode);
    } else {
      FrameLenOfPrefix(r1, r2, off);
      match c.state {
        case VersRecv =>
          if |r1| - off < 12 {
          } else {
            HandshakeReassembly(r1, r2, off + 12, c.(out := c.out + [VersionRecord], state := InfoRecv), decode, encode);
          }
        case InfoRecv =>
          if |r1| - off < 64 {
          } else if FrameLen(r1, off) != 1 {
            HandshakeReassembly(r1, r2, off + 64, c.(out := c.out + [InfoRecord]), decode, encode);
          } else {
            HandshakeReassembly(r1, r2, off + 64, c.(out := c.out + [encode(InitEnvelope(c))], state := InitRecv), decode, encode);
          }
        case _ =>
          DataLoopReassembly(r1, r2, off, c, decode, encode);
          DataLoopStaysInData(r1, off, c, decode, encode);
          DataLoopFrom(r1 + r2, o.off, o.c, decode, encode);
      }
    }
  }

  /** Re-entering `process` in a handshake state is the handshake loop itself. */
  lemma HandshakeFrom(recv: seq<byte>, off: nat, c: Conn, decode: seq<byte> -> Unpacked,
                      encode: Envelope -> seq<byte>)
    requires off <= |recv| && decode([]).status != 0
    ensures Process(recv, off, c, decode, encode) == Handshake(recv, off, c, decode, encode) ||
            Rank(c.state) >= Rank(InitRecv)
  {
  }

  /** From `InitRecv` on, or in `ErrClose`, `process` is the data loop. */
  lemma DataLoopFrom(recv: seq<byte>, off: nat, c: Conn, decode: seq<byte> -> Unpacked,
                     encode: Envelope -> seq<byte>)
    requires off <= |recv| && decode([]).status != 0
    requires InDataPhase(c.state)
    ensures Process(recv, off, c, decode, encode) == DataLoop(recv, off, c, decode, encode)
  {
  }

  /** Reassembly for `process` as a whole, handshake included. */
  lemma ProcessReassembly(r1: seq<byte>, r2: seq<byte>, off: nat, c: Conn,
                          decode: seq<byte> -> Unpacked, encode: Envelope -> seq<byte>)
    requires off <= |r1| && decode([]).status != 0
    requires Process(r1, off, c, decode, encode).status == Ok
    ensures var o := Process(r1, off, c, decode, encode);
      Process(r1 + r2, o.off, o.c, decode, encode) == Process(r1 + r2, off, c, decode, encode)
  {
    var o := Process(r1, off, c, decode, encode);
    if Rank(c.state) >= Rank(InitRecv) {
      DataLoopReassembly(r1, r2, off, c, decode, encode);
      DataLoopStaysInData(r1, off, c, decode, encode);
      DataLoopFrom(r1 + r2, o.off, o.c, decode, encode);
    } else {
      HandshakeReassembly(r1, r2, off, c, decode, encode);
    }
  }

  /** The states from which `process` runs the data loop. */
  predicate InDataPhase(s: RvState)
  {
    Rank(s) >= Rank(InitRecv) || s == ErrClose
  }

  /** A dispatch that does not stop leaves the state as it was or moves it to `ConnRecv`
      or `DataRecv`, never lower; so a "connected" advisory lifts even `ErrClose`. */
  lemma DispatchMonotone(frame: seq<byte>, c: Conn, decode: seq<byte> -> Unpacked,
                         encode: Envelope -> seq<byte>)
    ensures var r := Dispatch(frame, c, decode, encode);
      r.0 == Ok ==> Rank(r.1.state) >= Rank(c.state) && (r.1.state == c.state || r.1.state in {ConnRecv, DataRecv})
  {
  }

  /** `b` is not in a lower state than `a`, and is in the data phase if `a` is. */
  predicate Lifts(a: Conn, b: Conn)
  {
    Rank(b.state) >= Rank(a.state) && (InDataPhase(a.state) ==> InDataPhase(b.state))
  }

  /** Every dispatch that lets the loop go on lifts the connection. */
  ghost predicate StepLifts(step: Dispatcher)
  {
    forall f, k :: step(f, k).0 == Ok ==> Lifts(k, step(f, k).1)
  }

  /** A frame loop whose dispatches lift the connection lifts it. */
  lemma {:induction false} FrameLoopLifts(recv: seq<byte>, off: nat, c: Conn, step: Dispatcher)
    requires off <= |recv| && EmptyFrameStops(step) && StepLifts(step)
    ensures var o := FrameLoop(recv, off, c, step);
      o.status == Ok ==> Lifts(c, o.c)
    decreases |recv| - off
  {
    if |recv| - off >= 8 && |recv| - off >= FrameLen(recv, off) {
      var n := FrameLen(recv, off);
      var r := step(recv[off..off + n], c);
      if r.0 == Ok {
        assert recv[off..off + n] != [];
        FrameLoopLifts(recv, off + n, r.1, step);
      }
    }
  }

  /** The data loop never lowers the state and never leaves the data phase. */
  lemma DataLoopStaysInData(recv: seq<byte>, off: nat, c: Conn,
                            decode: seq<byte> -> Unpacked, encode: Envelope -> seq<byte>)
    requires off <= |recv| && decode([]).status != 0
    ensures var o := DataLoop(recv, off, c, decode, encode);
      o.status == Ok ==> Rank(o.c.state) >= Rank(c.state) && (InDataPhase(c.state) ==> InDataPhase(o.c.state))
  {
    var step := DispatchWith(decode, encode);
    forall f, k
      ensures step(f, k).0 == Ok ==> Lifts(k, step(f, k).1)
    {
      DispatchMonotone(f, k, decode, encode);
    }
    FrameLoopLifts(recv, off, c, step);
  }

  /** A dispatch forwards at most the frame it was given. */
  lemma DispatchForwards(frame: seq<byte>, c: Conn, decode: seq<byte> -> Unpacked,
                         encode: Envelope -> seq<byte>)
    ensures var r := Dispatch(frame, c, decode, encode);
      r.1.forwarded == c.forwarded || (c.state == DataRecv && r.1.forwarded == c.forwarded + [frame])
  {
  }

  /** Every dispatch forwards at most the frame it was given. */
  ghost predicate StepForwardsAtMost(step: Dispatcher)
  {
    forall f, k :: ForwardsAtMost(f, k, step(f, k).1)
  }

  /** `b` has forwarded what `a` had, and at most `f` besides. */
  predicate ForwardsAtMost(f: seq<byte>, a: Conn, b: Conn)
  {
    b.forwarded == a.forwarded || b.forwarded == a.forwarded + [f]
  }

  /** Frames are forwarded whole and in order, each copied from the receive buffer at a
      position the loop had reached, where its length word announces exactly its length. */
  lemma DataLoopForwards(recv: seq<byte>, off: nat, c: Conn,
                         decode: seq<byte> -> Unpacked, encode: Envelope -> seq<byte>)
    requires off <= |recv| && decode([]).status != 0
    ensures var o := DataLoop(recv, off, c, decode, encode);
      && |o.c.forwarded| >= |c.forwarded|
      && o.c.forwarded[..|c.forwarded|] == c.forwarded
      && forall k :: |c.forwarded| <= k < |o.c.forwarded| ==> IsFrameOf(o.c.forwarded[k], recv, off)
  {
    var step := DispatchWith(decode, encode);
    forall f, k
      ensures ForwardsAtMost(f, k, step(f, k).1)
    {
      DispatchForwards(f, k, decode, encode);
    }
    FrameLoopForwards(recv, off, c, step);
  }

  /** `DataLoopForwards` for any dispatcher that forwards at most the frame it is given. */
  lemma {:induction false} FrameLoopForwards(recv: seq<byte>, off: nat, c: Conn, step: Dispatcher)
    requires off <= |recv| && EmptyFrameStops(step) && StepForwardsAtMost(step)
    ensures var o := FrameLoop(recv, off, c, step);
      && |o.c.forwarded| >= |c.forwarded|
      && o.c.forwarded[..|c.forwarded|] == c.forwarded
      && forall k :: |c.forwarded| <= k < |o.c.forwarded| ==> IsFrameOf(o.c.forwarded[k], recv, off)
    decreases |recv| - off
  {
    if |recv| - off >= 8 {
      var n := FrameLen(recv, off);
      if |recv| - off >= n {
        var f := recv[off..off + n];
        var r := step(f, c);
        assert IsFrameOf(f, recv, off) by {
          assert off + 4 <= |recv| && off + |f| <= |recv| && FrameLen(recv, off) == |f| && recv[off..off + |f|] == f;
        }
        if r.0 == Ok {
          assert f != [];
          FrameLoopForwards(recv, off + n, r.1, step);
          ForwardsExtend(recv, off, n, c.forwarded, r.1.forwarded, FrameLoop(recv, off + n, r.1, step).c.forwarded, f);
        }
      }
    }
  }

  lemma ForwardsExtend(recv: seq<byte>, off: nat, n: nat, a: seq<seq<byte>>, b: seq<seq<byte>>,
                       d: seq<seq<byte>>, f: seq<byte>)
    requires b == a || b == a + [f]
    requires IsFrameOf(f, recv, off)
    requires |d| >= |b| && d[..|b|] == b
    requires forall k :: |b| <= k < |d| ==> IsFrameOf(d[k], recv, off + n)
    ensures |d| >= |a| && d[..|a|] == a
    ensures forall k :: |a| <= k < |d| ==> IsFrameOf(d[k], recv, off)
  {
    forall k | |a| <= k < |d|
      ensures IsFrameOf(d[k], recv, off)
    {
      if k >= |b| {
        IsFrameOfLater(d[k], recv, off, off + n);
      } else {
        assert d[k] == b[k] == f;
      }
    }
    assert d[..|a|] == d[..|b|][..|a|];
  }

  /** `f` is a complete frame of `recv` at or after `from`: its bytes sit in the buffer at
      some offset whose length word is exactly `|f|`. */
  ghost predicate IsFrameOf(f: seq<byte>, recv: seq<byte>, from: nat)
  {
    exists a :: from <= a && a + 4 <= |recv| && a + |f| <= |recv| && FrameLen(recv, a) == |f| && recv[a..a + |f|] == f
  }

  lemma IsFrameOfLater(f: seq<byte>, recv: seq<byte>, from: nat, later: nat)
    requires from <= later && IsFrameOf(f, recv, later)
    ensures IsFrameOf(f, recv, from)
  {
    var a :| later <= a && a + 4 <= |recv| && a + |f| <= |recv| && FrameLen(recv, a) == |f| && recv[a..a + |f|] == f;
    assert from <= a;
  }
}
