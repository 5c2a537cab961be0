/** The string-building and decision rules of the RV client (src/ev_rv_client.cpp) that
    compute a value: inbox names, the `daemon` parameter, service-prefix stripping, the
    forwarding filters and the pattern subjects sent for wildcard subscriptions. */
module ClientRules {
  import opened Base
  import opened Subject

  // ---------------------------------------------------------------- decimal numbers

  predicate IsDigit(c: char)
  {
    '0' <= c <= '9'
  }

  predicate AllDigits(s: string)
  {
    forall i :: 0 <= i < |s| ==> IsDigit(s[i])
  }

  function DigitChar(d: nat): (c: char)
    requires d < 10
    ensures IsDigit(c)
  {
    ('0' as int + d) as char
  }

  /** `uint32_to_string`: the decimal digits of `n`, most significant first, no leading zero. */
  function Decimal(n: nat): (s: string)
    ensures |s| >= 1 && AllDigits(s)
    ensures |s| > 1 ==> s[0] != '0'
  {
    if n < 10 then [DigitChar(n)] else Decimal(n / 10) + [DigitChar(n % 10)]
  }

  /** The value of a string of decimal digits. */
  function DigitsValue(s: string): nat
    requires AllDigits(s)
  {
    if s == [] then 0 else DigitsValue(s[..|s| - 1]) * 10 + (s[|s| - 1] as int - '0' as int)
  }

  /** Reading back the digits `uint32_to_string` writes gives the number. */
  lemma {:induction false} DecimalRoundTrip(n: nat)
    ensures DigitsValue(Decimal(n)) == n
  {
    if n >= 10 {
      DecimalRoundTrip(n / 10);
      var s := Decimal(n);
      assert s[..|s| - 1] == Decimal(n / 10);
    }
  }

  /** A decimal of a 32-bit number has at most ten digits. */
  lemma {:induction false} DecimalLength(n: nat)
    ensures n < U32 ==> |Decimal(n)| <= 10
    ensures |Decimal(n)| == 1 <==> n < 10
  {
    if n >= 10 {
      DecimalLength(n / 10);
      if n < U32 {
        assert n / 10 < 429496730;
        DecimalShort(n / 10, 9);
      }
    }
  }

  lemma {:induction false} DecimalShort(n: nat, k: nat)
    requires n < Pow10(k)
    ensures |Decimal(n)| <= if k == 0 then 1 else k
  {
    if n >= 10 {
      DecimalShort(n / 10, k - 1);
    }
  }

  function Pow10(k: nat): nat
  {
    if k == 0 then 1 else 10 * Pow10(k - 1)
  }

  /** The bytes C's `isspace` accepts. */
  predicate IsSpace(c: char)
  {
    c == ' ' || c == '\t' || c == '\n' || c == '\U{0b}' || c == '\U{0c}' || c == '\r'
  }

  function SkipSpace(s: string): (t: string)
    ensures |t| <= |s| && t == s[|s| - |t|..]
    ensures t != [] ==> !IsSpace(t[0])
  {
    if s != [] && IsSpace(s[0]) then SkipSpace(s[1..]) else s
  }

  /** The longest prefix of `s` made of digits. */
  function LeadingDigits(s: string): (d: string)
    ensures |d| <= |s| && AllDigits(d) && d == s[..|d|]
    ensures |d| < |s| ==> !IsDigit(s[|d|])
  {
    if s != [] && IsDigit(s[0]) then [s[0]] + LeadingDigits(s[1..]) else []
  }

  /** C's `atoi`: leading white space, an optional sign, then as many digits as follow.
      A value beyond the range of `int` is undefined behaviour in C; here it is unbounded. */
  function Atoi(s: string): int
  {
    var t := SkipSpace(s);
    if t != [] && t[0] == '-' then 0 - DigitsValue(LeadingDigits(t[1..])) as int
    else if t != [] && t[0] == '+' then DigitsValue(LeadingDigits(t[1..]))
    else DigitsValue(LeadingDigits(t))
  }

  lemma {:induction false} LeadingDigitsOfDigits(s: string)
    requires AllDigits(s)
    ensures LeadingDigits(s) == s
  {
    if s != [] {
      LeadingDigitsOfDigits(s[1..]);
    }
  }

  /** `atoi` reads back any decimal `uint32_to_string` writes. */
  lemma AtoiDecimal(n: nat)
    ensures Atoi(Decimal(n)) == n
  {
    var s := Decimal(n);
    assert !IsSpace(s[0]) && s[0] != '-' && s[0] != '+';
    LeadingDigitsOfDigits(s);
    DecimalRoundTrip(n);
  }

  // ---------------------------------------------------------------- inbox names

  /** `make_inbox(inbox, num)`: "_INBOX.", the session, '.', then `num` in decimal.
      The '.' is unconditional, because the running offset is at least 7 at that point. */
  function InboxName(session: string, num: nat): (s: string)
    ensures IsInboxSubject(s)
    ensures |s| == 8 + |session| + |Decimal(num)|
  {
    assert (InboxPrefix + session + "." + Decimal(num))[..7] == InboxPrefix;
    InboxPrefix + session + "." + Decimal(num)
  }

  /** An inbox name is an inbox subject, and its pieces can be read back: the session is
      the text between the "_INBOX." prefix and the last '.', the number is after it. */
  lemma InboxNameParts(session: string, num: nat)
    ensures var s := InboxName(session, num);
      && IsInboxSubject(s)
      && |s| == 8 + |session| + |Decimal(num)|
      && s[7..7 + |session|] == session
      && s[7 + |session|] == '.'
      && DigitsValue(s[8 + |session|..]) == num
  {
    var s := InboxName(session, num);
    assert s[..7] == InboxPrefix;
    assert s[8 + |session|..] == Decimal(num);
    DecimalRoundTrip(num);
  }

  /** With no session, as in null mode, the control inbox with number 1 is "_INBOX..1". */
  lemma NullControlInbox()
    ensures InboxName("", 1) == "_INBOX..1"
  {
  }

  /** The subject of the listen message sent once the daemon reports the connection:
      the control inbox with its last byte replaced by '>', i.e. "_INBOX.<session>.>". */
  function ControlListenSubject(control: string): (s: string)
    requires |control| >= 1
    ensures |s| == |control| && s[|s| - 1] == '>'
  {
    control[..|control| - 1] + ">"
  }

  lemma ControlListenOfInbox(session: string)
    ensures ControlListenSubject(InboxName(session, 1)) == InboxPrefix + session + ".>"
  {
    var c := InboxName(session, 1);
    assert c[..|c| - 1] == InboxPrefix + session + ".";
  }

  // ---------------------------------------------------------------- the daemon parameter

  /** What `rv_connect` takes from its `daemon` string: the host to connect to (none for
      the local daemon), the port, and whether the host names the null transport. */
  datatype Daemon = Daemon(host: Option<string>, port: int, isNull: bool)

  /** Only the first 255 bytes of the daemon string are examined. */
  const DaemonBufMax: nat := 255

  function TruncateDaemon(d: string): (t: string)
    ensures |t| <= DaemonBufMax && |t| <= |d| && t == d[..|t|]
    ensures |d| <= DaemonBufMax ==> t == d
  {
    if |d| > DaemonBufMax then d[..DaemonBufMax] else d
  }

  /** `strrchr(s, ':')`. */
  function LastColon(s: string): (r: Option<nat>)
    ensures r.Some? ==> r.value < |s| && s[r.value] == ':' && ':' !in s[r.value + 1..]
    ensures r.None? <==> ':' !in s
  {
    if s == [] then None
    else if s[|s| - 1] == ':' then Some(|s| - 1)
    else
      var r := LastColon(s[..|s| - 1]);
      assert s[..|s| - 1] + [s[|s| - 1]] == s;
      r
  }

  /** The host part after `tcp:` stripping: "tcp:" is removed from the front, a host that
      is then exactly "tcp" is emptied, an empty host means none, "null" selects null mode. */
  function HostPart(h: string, port: int): (d: Daemon)
    ensures d.isNull <==> d.host == Some("null")
  {
    var h1 := if |h| >= 4 && h[..4] == "tcp:" then h[4..] else h;
    var h2 := if h1 == "tcp" then "" else h1;
    if h2 == "" then Daemon(None, port, false) else Daemon(Some(h2), port, h2 == "null")
  }

  /** The parsing of `p.daemon` in `rv_connect`, starting from the port `p.port`. */
  function ParseDaemon(daemon: Option<string>, port: int): (d: Daemon)
    ensures d.isNull <==> d.host == Some("null")
  {
    match daemon
    case None => Daemon(None, port, false)
    case Some(s) =>
      var t := TruncateDaemon(s);
      match LastColon(t)
      case Some(i) => HostPart(t[..i], Atoi(t[i + 1..]))
      case None =>
        if AllDigits(t) then Daemon(None, Atoi(t), false) else HostPart(t, port)
  }

  /** The port `rv_connect` connects to when not in null mode: 0 means the default 7500. */
  function ConnectPort(d: Daemon): (p: int)
    ensures p != 0
    ensures d.port == 0 ==> p == 7500
    ensures d.port != 0 ==> p == d.port
  {
    if d.port == 0 then 7500 else d.port
  }

  /** A host that survives `tcp:` stripping unchanged. */
  predicate PlainHost(h: string)
  {
    h != "" && h != "tcp" && !(|h| >= 4 && h[..4] == "tcp:")
  }

  /** A host `tcp:` stripping leaves alone is taken as it is. */
  lemma HostPartPlain(h: string, port: int)
    requires PlainHost(h)
    ensures HostPart(h, port) == Daemon(Some(h), port, h == "null")
  {
  }

  /** A "tcp:" in front of a plain host is removed. */
  lemma HostPartTcp(h: string, port: int)
    requires PlainHost(h)
    ensures HostPart("tcp:" + h, port) == Daemon(Some(h), port, h == "null")
  {
    var t := "tcp:" + h;
    assert t[..4] == "tcp:" && t[4..] == h;
  }

  /** With a colon inside the examined bytes, the parse splits at the last one. */
  lemma ParseDaemonAtColon(s: string, i: nat, port: int)
    requires |s| <= DaemonBufMax && i < |s| && s[i] == ':' && ':' !in s[i + 1..]
    ensures ParseDaemon(Some(s), port) == HostPart(s[..i], Atoi(s[i + 1..]))
  {
    LastColonUnique(s, i);
  }

  /** With no colon, the parse is a bare port or a host alone. */
  lemma ParseDaemonNoColon(s: string, port: int)
    requires |s| <= DaemonBufMax && ':' !in s
    ensures ParseDaemon(Some(s), port) ==
      if AllDigits(s) then Daemon(None, Atoi(s), false) else HostPart(s, port)
  {
  }

  /** "host:port" is split at the last colon (the host may hold colons of its own); the
      port reads back as the number written. */
  lemma DaemonHostPort(h: string, n: nat)
    requires PlainHost(h) && |h| + 1 + |Decimal(n)| <= DaemonBufMax
    ensures ParseDaemon(Some(h + ":" + Decimal(n)), 0) == Daemon(Some(h), n, h == "null")
  {
    DaemonSplitsAtLastColon(h, n);
    HostPartPlain(h, n);
  }

  /** "tcp:host:port" names the same host and port as "host:port". */
  lemma DaemonTcpHostPort(h: string, n: nat)
    requires PlainHost(h) && 4 + |h| + 1 + |Decimal(n)| <= DaemonBufMax
    ensures ParseDaemon(Some("tcp:" + h + ":" + Decimal(n)), 0) == Daemon(Some(h), n, h == "null")
  {
    DaemonSplitsAtLastColon("tcp:" + h, n);
    HostPartTcp(h, n);
  }

  /** Any host text without a colon, then ':' and a decimal port, splits there. */
  lemma DaemonSplitsAtLastColon(h: string, n: nat)
    requires |h| + 1 + |Decimal(n)| <= DaemonBufMax
    ensures ParseDaemon(Some(h + ":" + Decimal(n)), 0) == HostPart(h, n)
  {
    var s := h + ":" + Decimal(n);
    assert s[|h| + 1..] == Decimal(n);
    DecimalHasNoColon(n);
    ParseDaemonAtColon(s, |h|, 0);
    assert s[..|h|] == h;
    AtoiDecimal(n);
  }

  lemma DecimalHasNoColon(n: nat)
    ensures ':' !in Decimal(n)
  {
    var d := Decimal(n);
    forall i | 0 <= i < |d|
      ensures d[i] != ':'
    {
      assert IsDigit(d[i]);
    }
  }

  /** A daemon string of digits alone is a port with no host. */
  lemma DaemonBarePort(n: nat, port: int)
    requires |Decimal(n)| <= DaemonBufMax
    ensures ParseDaemon(Some(Decimal(n)), port) == Daemon(None, n, false)
  {
    DecimalHasNoColon(n);
    ParseDaemonNoColon(Decimal(n), port);
    AtoiDecimal(n);
  }

  /** ":port" and "tcp:port" both leave no host. */
  lemma DaemonNoHost(n: nat, port: int)
    requires |Decimal(n)| + 4 <= DaemonBufMax
    ensures ParseDaemon(Some(":" + Decimal(n)), port) == Daemon(None, n, false)
    ensures ParseDaemon(Some("tcp:" + Decimal(n)), port) == Daemon(None, n, false)
  {
    DaemonColonPort(n, port);
    DaemonTcpPort(n, port);
  }

  lemma DaemonColonPort(n: nat, port: int)
    requires |Decimal(n)| + 4 <= DaemonBufMax
    ensures ParseDaemon(Some(":" + Decimal(n)), port) == Daemon(None, n, false)
  {
    DecimalHasNoColon(n);
    AtoiDecimal(n);
    var s := ":" + Decimal(n);
    assert s[1..] == Decimal(n);
    ParseDaemonAtColon(s, 0, port);
    assert s[..0] == "";
  }

  lemma DaemonTcpPort(n: nat, port: int)
    requires |Decimal(n)| + 4 <= DaemonBufMax
    ensures ParseDaemon(Some("tcp:" + Decimal(n)), port) == Daemon(None, n, false)
  {
    DecimalHasNoColon(n);
    AtoiDecimal(n);
    var s := "tcp:" + Decimal(n);
    assert s[4..] == Decimal(n);
    ParseDaemonAtColon(s, 3, port);
    assert s[..3] == "tcp";
  }

  /** "null" selects the null transport; a bare "tcp" names no host. */
  lemma DaemonNullAndTcp(port: int)
    ensures ParseDaemon(Some("null"), port) == Daemon(Some("null"), port, true)
    ensures ParseDaemon(Some("tcp"), port) == Daemon(None, port, false)
  {
    assert ':' !in "null" by { assert forall i :: 0 <= i < 4 ==> "null"[i] != ':'; }
    assert ':' !in "tcp" by { assert forall i :: 0 <= i < 3 ==> "tcp"[i] != ':'; }
    assert !IsDigit("null"[0]) && !IsDigit("tcp"[0]);
    ParseDaemonNoColon("null", port);
    ParseDaemonNoColon("tcp", port);
  }

  /** The colon `strrchr` finds is the one with no colon after it. */
  lemma {:induction false} LastColonUnique(s: string, i: nat)
    requires i < |s| && s[i] == ':' && ':' !in s[i + 1..]
    ensures LastColon(s) == Some(i)
    decreases |s|
  {
    if i < |s| - 1 {
      assert s[|s| - 1] == s[i + 1..][|s| - 2 - i];
      assert s[..|s| - 1][i + 1..] == s[i + 1..|s| - 1];
      LastColonUnique(s[..|s| - 1], i);
    }
  }

  /** `strchr(svc, ':')`. */
  function FirstColon(s: string): (r: Option<nat>)
    ensures r.Some? ==> r.value < |s| && s[r.value] == ':' && ':' !in s[..r.value]
    ensures r.None? ==> ':' !in s
  {
    if s == [] then None
    else if s[0] == ':' then Some(0)
    else
      match FirstColon(s[1..])
      case None => None
      case Some(i) => assert s[..i + 1] == [s[0]] + s[1..][..i]; Some(i + 1)
  }

  /** The service name `rv_connect` keeps: the text before the first ':', when that text
      and the colon fit the 16-byte buffer; otherwise the whole parameter. */
  function ServiceName(svc: string): (r: string)
    ensures |r| <= |svc| && r == svc[..|r|]
    ensures |r| < |svc| ==> |r| < 15 && svc[|r|] == ':' && ':' !in r
    ensures FirstColon(svc).Some? && FirstColon(svc).value < 15 ==> r == svc[..FirstColon(svc).value]
  {
    match FirstColon(svc)
    case Some(c) => if c + 1 < 16 then svc[..c] else svc
    case None => svc
  }

  lemma ServiceNameExamples()
    ensures ServiceName("7500:extra") == "7500"
    ensures ServiceName("7500") == "7500"
  {
    assert "7500:extra"[..4] == "7500";
    FirstColonUnique("7500:extra", 4);
    assert ':' !in "7500" by {
      assert forall i :: 0 <= i < 4 ==> "7500"[i] != ':';
    }
  }

  /** The colon `strchr` finds is the one with no colon before it. */
  lemma {:induction false} FirstColonUnique(s: string, i: nat)
    requires i < |s| && s[i] == ':' && ':' !in s[..i]
    ensures FirstColon(s) == Some(i)
    decreases i
  {
    if i > 0 {
      assert s[0] == s[..i][0];
      assert s[1..][..i - 1] == s[1..i];
      FirstColonUnique(s[1..], i - 1);
    }
  }

  /** The `userid` copy: at most `cap - 1` bytes of the parameter and a NUL, with the
      stored length counting that NUL. */
  function UserIdCopy(user: string, cap: nat): (r: (string, nat))
    requires cap >= 1
    ensures r.1 == |r.0| + 1 && r.1 <= cap
    ensures |r.0| <= |user| && r.0 == user[..|r.0|]
    ensures |user| + 1 <= cap ==> r.0 == user
    ensures |user| + 1 > cap ==> |r.0| == cap - 1
  {
    var n := if |user| + 1 > cap then cap else |user| + 1;
    (user[..n - 1], n)
  }

  // ---------------------------------------------------------------- service-prefix stripping

  /** The test `get_nsub` and `fwd_pat` share: the subject starts with the connection's
      service prefix (and is longer than it), or there is no prefix. */
  function StripServicePrefix(s: string, prefix: string): (r: Option<string>)
    ensures r.Some? ==> s == prefix + r.value
    ensures r.Some? <==> prefix == [] || (|s| > |prefix| && s[..|prefix|] == prefix)
  {
    if prefix == [] then Some(s)
    else if |s| > |prefix| && s[..|prefix|] == prefix then Some(s[|prefix|..])
    else None
  }

  /** A subject stripped of a non-empty prefix is never empty. */
  lemma StripServicePrefixNonEmpty(s: string, prefix: string)
    requires prefix != [] && StripServicePrefix(s, prefix).Some?
    ensures |StripServicePrefix(s, prefix).value| >= 1
  {
  }

  /** Prefixing a subject with the service prefix and stripping it again gives it back. */
  lemma StripServicePrefixRoundTrip(s: string, prefix: string)
    requires s != []
    ensures StripServicePrefix(prefix + s, prefix) == Some(s)
  {
    assert (prefix + s)[..|prefix|] == prefix;
    assert (prefix + s)[|prefix|..] == s;
  }

  /** `get_nsub`: the subject without the service prefix; the reply loses `prefix_len`
      bytes only when it is longer than that (its own bytes are not compared). */
  function GetNsub(sub: string, reply: string, prefix: string): (r: Option<(string, string)>)
    ensures r.Some? <==> StripServicePrefix(sub, prefix).Some?
    ensures r.Some? ==> sub == prefix + r.value.0
    ensures r.Some? && |reply| > |prefix| ==> reply == reply[..|prefix|] + r.value.1 && |r.value.1| == |reply| - |prefix|
    ensures r.Some? && |reply| <= |prefix| ==> r.value.1 == reply
  {
    match StripServicePrefix(sub, prefix)
    case None => None
    case Some(s) => Some((s, if |reply| > |prefix| then reply[|prefix|..] else reply))
  }

  /** The subject and reply `on_sub` passes to `subscribe` as written: `get_nsub` takes the
      reply length by value, so the caller's length stays 0 and no reply is sent. */
  function OnSubArgsAsWritten(sub: string, reply: string, prefix: string): Option<(string, string)>
  {
    match GetNsub(sub, reply, prefix)
    case None => None
    case Some(p) => Some((p.0, reply[..0]))
  }

  /** The reply of a subscription is lost as written: with no prefix, subject "A" and
      reply "R" reaches `subscribe` with an empty reply. */
  lemma OnSubDropsReply()
    ensures GetNsub("A", "R", "") == Some(("A", "R"))
    ensures OnSubArgsAsWritten("A", "R", "") == Some(("A", ""))
  {
  }

  /** What `publish` does with an outgoing subject: accept and drop it (no write allowed,
      or the subject is shorter than the prefix), or send it with `prefix_len` bytes cut
      from the subject, and from the reply when the reply is longer than that. */
  datatype PublishAction = Dropped | Send(sub: string, reply: string)

  function Publish(noWrite: bool, sub: string, reply: string, prefixLen: nat): (a: PublishAction)
    ensures noWrite || |sub| < prefixLen <==> a.Dropped?
    ensures a.Send? ==> |a.sub| == |sub| - prefixLen && sub == sub[..prefixLen] + a.sub
    ensures a.Send? ==> (if |reply| > prefixLen then reply == reply[..prefixLen] + a.reply
                         else a.reply == reply)
  {
    if noWrite || |sub| < prefixLen then Dropped
    else Send(sub[prefixLen..], if |reply| > prefixLen then reply[prefixLen..] else reply)
  }

  /** Unlike `get_nsub`, `publish` cuts the prefix length without comparing bytes, and a
      subject exactly as long as the prefix is sent as the empty subject. */
  lemma PublishDoesNotCompare()
    ensures Publish(false, "abc.X", "", 4) == Send("X", "")
    ensures StripServicePrefix("abc.X", "_75.").None?
    ensures Publish(false, "_75.", "", 4) == Send("", "")
  {
    assert "abc.X"[..4] != "_75." by { assert "abc.X"[0] != "_75."[0]; }
  }

  // ---------------------------------------------------------------- forwarding filters

  /** `match_filter`, as a reference definition: an inbox subject is never forwarded;
      with no feed lists every other subject is; otherwise only a subject some
      interactive-feed pattern matches. `matches` stands for `match_rv_wildcard`. */
  predicate Forwardable(sub: string, inter: seq<string>, bcastCount: nat, listenCount: nat,
                        matches: (string, string) -> bool)
  {
    && !IsInboxSubject(sub)
    && ((inter == [] && bcastCount == 0 && listenCount == 0) ||
        exists i :: 0 <= i < |inter| && matches(inter[i], sub))
  }

  /** Broadcast or listen feeds alone let nothing through: only the interactive feed
      patterns are consulted. */
  lemma ForwardableNeedsInteractive(sub: string, bcastCount: nat, listenCount: nat,
                                    matches: (string, string) -> bool)
    requires bcastCount + listenCount > 0
    ensures !Forwardable(sub, [], bcastCount, listenCount, matches)
  {
  }

  /** `on_punsub`'s rule for forwarding a pattern unsubscribe: with no subscribers left,
      only a pattern whose literal prefix ends in '.'; with one left, only the catch-all
      pattern (empty prefix) when all messages are forwarded. */
  function PunsubForward(subCount: nat, pattern: string, prefixLen: nat, fwdAllMsgs: bool): (fwd: bool)
    requires prefixLen <= |pattern|
    ensures fwd <==> (subCount == 0 && prefixLen > 0 && pattern[prefixLen - 1] == '.') ||
                     (subCount == 1 && fwdAllMsgs && prefixLen == 0)
  {
    if subCount == 0 then prefixLen > 0 && pattern[prefixLen - 1] == '.'
    else if subCount == 1 then fwdAllMsgs && prefixLen == 0
    else false
  }

  /** With one subscriber left, a pattern unsubscribe that is forwarded in non-RV syntax
      is the cancel of the catch-all ">" (the subscription `do_psub` makes with no prefix). */
  lemma PunsubLastIsCatchAll(pattern: string, prefixLen: nat, fwdAllMsgs: bool)
    requires prefixLen <= |pattern|
    requires PunsubForward(1, pattern, prefixLen, fwdAllMsgs)
    ensures fwdAllMsgs && FwdPatSubject(false, pattern, prefixLen) == PatternSubject([]) == ">"
  {
    assert pattern[..prefixLen] == [];
  }

  /** With two or more subscribers left a pattern unsubscribe is never forwarded. */
  lemma PunsubKeepsShared(subCount: nat, pattern: string, prefixLen: nat, fwdAllMsgs: bool)
    requires prefixLen <= |pattern| && subCount >= 2
    ensures !PunsubForward(subCount, pattern, prefixLen, fwdAllMsgs)
  {
  }

  // ---------------------------------------------------------------- pattern subjects

  /** `do_psub`: the RV wildcard for a literal prefix, "prefix.>" or ">" for none. */
  function PatternSubject(prefix: string): (s: string)
    ensures |s| == |prefix| + (if prefix == [] then 1 else 2)
    ensures s[|s| - 1] == '>'
    ensures prefix != [] ==> s[..|prefix|] == prefix && s[|prefix|] == '.'
  {
    if prefix == [] then ">" else prefix + ".>"
  }

  /** The wildcard built from a prefix has one segment more than the prefix, and that last
      segment is ">". */
  lemma PatternSubjectSegments(prefix: string)
    ensures |Tokens(PatternSubject(prefix))| == (if prefix == [] then 1 else |Tokens(prefix)| + 1)
    ensures Tokens(PatternSubject(prefix))[|Tokens(PatternSubject(prefix))| - 1] == ">"
  {
    if prefix == [] {
      TokensOfGt();
    } else {
      TokensDotSuffix(prefix);
    }
  }

  lemma TokensOfGt()
    ensures Tokens(">") == [">"]
  {
    var t := Tokens(">"[1..]);
    assert ">" != [] && ">"[0] == '>' && ">"[0] != '.';
    assert ">"[1..] == [];
    assert t == [[]];
    assert t[1..] == [];
    assert ['>'] + t[0] == ">";
    assert Tokens(">") == [['>'] + t[0]] + t[1..];
  }

  /** Appending ".>" to a subject appends the segment ">". */
  lemma {:induction false} TokensDotSuffix(p: string)
    ensures Tokens(p + ".>") == Tokens(p) + [">"]
    decreases |p|
  {
    if p == [] {
      TokensOfGt();
      assert p + ".>" == ".>";
      assert ".>" != [] && ".>"[0] == '.' && ".>"[1..] == ">";
      assert Tokens(".>") == [[]] + Tokens(">");
      assert Tokens(p) == [[]];
    } else {
      var rest := p[1..];
      assert (p + ".>")[1..] == rest + ".>";
      TokensDotSuffix(rest);
      var t := Tokens(rest);
      if p[0] != '.' {
        assert Tokens(rest + ".>")[1..] == t[1..] + [">"];
      }
    }
  }

  /** The largest prefix `fwd_pat` copies into its 1024-byte subject buffer. */
  const FwdPatPrefixMax: nat := 1021

  /** `fwd_pat`'s subject: a pattern in RV syntax is sent as is; any other pattern syntax is
      replaced by the RV wildcard of its literal prefix (cut to 1021 bytes). */
  function FwdPatSubject(rvFormat: bool, pattern: string, prefixLen: nat): (s: string)
    requires prefixLen <= |pattern|
    ensures rvFormat ==> s == pattern
    ensures !rvFormat && prefixLen <= FwdPatPrefixMax ==> s == PatternSubject(pattern[..prefixLen])
    ensures !rvFormat ==> |s| <= FwdPatPrefixMax + 2
  {
    if rvFormat then pattern
    else PatternSubject(pattern[..if prefixLen > FwdPatPrefixMax then FwdPatPrefixMax else prefixLen])
  }

  /** What `fwd_pat` queues: the subject with the service prefix stripped, when it carries
      that prefix and `match_filter` lets it through; nothing otherwise. */
  function FwdPatQueued(rvFormat: bool, pattern: string, prefixLen: nat, servicePrefix: string,
                        inter: seq<string>, bcastCount: nat, listenCount: nat,
                        matches: (string, string) -> bool): (r: Option<string>)
    requires prefixLen <= |pattern|
    ensures r.Some? ==> FwdPatSubject(rvFormat, pattern, prefixLen) == servicePrefix + r.value
    ensures r.Some? ==> Forwardable(r.value, inter, bcastCount, listenCount, matches)
    ensures r.None? <==> match StripServicePrefix(FwdPatSubject(rvFormat, pattern, prefixLen), servicePrefix)
                         case None => true
                         case Some(p) => !Forwardable(p, inter, bcastCount, listenCount, matches)
  {
    match StripServicePrefix(FwdPatSubject(rvFormat, pattern, prefixLen), servicePrefix)
    case None => None
    case Some(p) => if Forwardable(p, inter, bcastCount, listenCount, matches) then Some(p) else None
  }

  /** `subscribe`/`unsubscribe` drop one trailing NUL from the subject (and the reply). */
  function TrimNul(s: string): (t: string)
    ensures t == s || (s != [] && s[|s| - 1] == '\0' && t == s[..|s| - 1])
    ensures |t| >= |s| - 1
  {
    if s != [] && s[|s| - 1] == '\0' then s[..|s| - 1] else s
  }

  /** Trimming a C string (no NUL inside) with its terminator gives the string. */
  lemma TrimNulOfTerminated(s: string)
    ensures TrimNul(s + "\0") == s
  {
    assert (s + "\0")[..|s|] == s;
  }

  // ---------------------------------------------------------------- the protocol version

  datatype Version = Version(vmaj: uint16, vmin: uint16, vupd: uint16)

  /** The version fields `initialize_state` leaves, as written: `vmaj` is assigned 5 and then
      4, `vmin` keeps whatever it held. */
  function VersionAfterResetAsWritten(prev: Version): Version
  {
    Version(4, prev.vmin, 2)
  }

  /** The version the client announces in its init record (5.4.2), which the reset
      evidently meant to store. */
  function InitialVersion(): (v: Version)
    ensures v.vmaj == 5 && v.vmin == 4 && v.vupd == 2
  {
    Version(5, 4, 2)
  }

  /** As written, no previous state makes the reset agree with the announced version. */
  lemma VersionResetDiffers(prev: Version)
    ensures VersionAfterResetAsWritten(prev) != InitialVersion()
    ensures VersionAfterResetAsWritten(prev).vmin == prev.vmin
  {
  }
}
