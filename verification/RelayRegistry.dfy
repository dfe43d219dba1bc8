/**
 * The relay's registry over whole runs, told by the messages and events alone: which tokens are valid, when a device
 * was last heard of, and which devices are registered for which connections.
 */
module RelayRegistry {

  import opened Options
  import opened RelayWire
  import opened RelayServer
  import opened RelayRuns

  // ----- What events mean

  predicate IsHeartbeat(codec: Codec, payload: Bytes) {
    MAGIC <= payload && |payload| > |MAGIC| && payload[|MAGIC|] == HEARTBEAT && codec.isHeartbeat(payload[|MAGIC| + 1..])
  }

  function TimeOf(e: Event): real {
    match e
    case Hears(_, _, now) => now
    case Beats(_, now) => now
    case Expires(now) => now
    case _ => 0.0
  }

  /** The token was issued for the session, and since then neither issued again nor dropped with a device of that name. */
  ghost predicate HasToken(codec: Codec, es: seq<Event>, token: string, session: string)
    decreases |es|, 0
  {
    exists i | 0 <= i < |es| ::
      && es[i] == Issues(token, session)
      && forall j | i < j < |es| ::
           !(es[j].Issues? && es[j].token == token) && !TakesOff(codec, es[..j], es[j], Text(session))
  }

  /** Event i was news of d, and since then d was neither heard of again nor taken off. */
  ghost predicate LastNews(codec: Codec, es: seq<Event>, i: nat, d: Json)
    requires i < |es|
    decreases |es|, 0
  {
    && Refreshes(codec, es[..i], es[i], d)
    && forall j | i < j < |es| :: !Refreshes(codec, es[..j], es[j], d) && !TakesOff(codec, es[..j], es[j], d)
  }

  /** The device was last heard of at t, and has not been taken off since. */
  ghost predicate HasBeat(codec: Codec, es: seq<Event>, d: Json, t: real)
    decreases |es|, 1
  {
    exists i | 0 <= i < |es| :: LastNews(codec, es, i, d) && TimeOf(es[i]) == t
  }

  /** A connect message that is accepted: its token has its session, or its token is unknown and its session null. */
  ghost predicate Accepts(codec: Codec, before: seq<Event>, m: Connect)
    decreases |before|, 1
  {
    && Hashable(m.token)
    && if m.token.Text? && exists s :: HasToken(codec, before, m.token.text, s) then
         exists s :: HasToken(codec, before, m.token.text, s) && m.sessionId == Text(s)
       else m.sessionId.Null?
  }

  /** The event is an accepted connect message that names d. */
  ghost predicate Registers(codec: Codec, before: seq<Event>, e: Event, d: Json)
    decreases |before|, 2
  {
    && e.Hears? && Opened(e.c) in before && Hashable(d) && NamesDevice(codec, e.payload, d)
    && Accepts(codec, before, ConnectIn(codec, e.payload).value)
  }

  /** The event is news of d: it registers d, is a heartbeat of a connection that speaks for d, or comes from the API. */
  ghost predicate Refreshes(codec: Codec, before: seq<Event>, e: Event, d: Json)
    decreases |before|, 3
  {
    match e
    case Hears(c, payload, _) =>
      || Registers(codec, before, e, d)
      || (IsHeartbeat(codec, payload) && IsId(d) && SpeaksFor(codec, MessagesOf(before, c), d))
    case Beats(deviceId, _) => deviceId == d && Hashable(d)
    case _ => false
  }

  /**
   * The event takes d off: a connection that speaks for d disconnects or is lost, or d was last heard of more than 120
   * seconds before an expiry.
   */
  ghost predicate TakesOff(codec: Codec, before: seq<Event>, e: Event, d: Json)
    decreases |before|, 2
  {
    match e
    case Hears(c, payload, _) => IsDisconnect(payload) && IsId(d) && SpeaksFor(codec, MessagesOf(before, c), d)
    case Drops(c) => IsId(d) && SpeaksFor(codec, MessagesOf(before, c), d)
    case Expires(now) => exists t :: HasBeat(codec, before, d, t) && t < now - HEARTBEAT_LIMIT
    case _ => false
  }

  // ----- One step, by position of the last event

  lemma TokenStep(codec: Codec, init: seq<Event>, e: Event, token: string, session: string)
    ensures HasToken(codec, init + [e], token, session) <==>
      || e == Issues(token, session)
      || (!(e.Issues? && e.token == token) && !TakesOff(codec, init, e, Text(session)) && HasToken(codec, init, token, session))
  {
    hide TakesOff;
    var es, n := init + [e], |init|;
    assert forall j | 0 <= j <= n :: es[..j] == init[..j];
    assert init[..n] == init && es[n] == e && forall j | 0 <= j < n :: es[j] == init[j];
    if e == Issues(token, session) {
      assert es[n] == Issues(token, session);
    }
    if HasToken(codec, init, token, session) {
      var i :| 0 <= i < n && init[i] == Issues(token, session) && forall j | i < j < n ::
        !(init[j].Issues? && init[j].token == token) && !TakesOff(codec, init[..j], init[j], Text(session));
      assert es[i] == Issues(token, session);
    }
    if HasToken(codec, es, token, session) {
      var i :| 0 <= i < n + 1 && es[i] == Issues(token, session) && forall j | i < j < n + 1 ::
        !(es[j].Issues? && es[j].token == token) && !TakesOff(codec, es[..j], es[j], Text(session));
      if i < n {
        assert init[i] == Issues(token, session);
        assert !(es[n].Issues? && es[n].token == token) && !TakesOff(codec, es[..n], es[n], Text(session));
      }
    }
  }

  lemma BeatStep(codec: Codec, init: seq<Event>, e: Event, d: Json, t: real)
    ensures HasBeat(codec, init + [e], d, t) <==>
      || (Refreshes(codec, init, e, d) && TimeOf(e) == t)
      || (!Refreshes(codec, init, e, d) && !TakesOff(codec, init, e, d) && HasBeat(codec, init, d, t))
  {
    hide LastNews; hide TimeOf;
    var es, n := init + [e], |init|;
    forall i | 0 <= i < n
      ensures LastNews(codec, es, i, d) <==>
        LastNews(codec, init, i, d) && !Refreshes(codec, init, e, d) && !TakesOff(codec, init, e, d)
    {
      NewsStep(codec, init, e, i, d);
    }
    NewsNow(codec, init, e, d);
    hide Refreshes; hide TakesOff;
    if i :| 0 <= i < |es| && LastNews(codec, es, i, d) && TimeOf(es[i]) == t {
      assert i < n ==> es[i] == init[i] && LastNews(codec, init, i, d);
    }
    if i :| 0 <= i < n && LastNews(codec, init, i, d) && TimeOf(init[i]) == t {
      assert es[i] == init[i];
    }
  }

  lemma NewsStep(codec: Codec, init: seq<Event>, e: Event, i: nat, d: Json)
    requires i < |init|
    ensures LastNews(codec, init + [e], i, d) <==>
      LastNews(codec, init, i, d) && !Refreshes(codec, init, e, d) && !TakesOff(codec, init, e, d)
  {
    hide TakesOff; hide Refreshes;
    var es, n := init + [e], |init|;
    assert forall j | 0 <= j <= n :: es[..j] == init[..j];
    assert init[..n] == init && es[n] == e && forall j | 0 <= j < n :: es[j] == init[j];
  }

  lemma NewsNow(codec: Codec, init: seq<Event>, e: Event, d: Json)
    ensures LastNews(codec, init + [e], |init|, d) <==> Refreshes(codec, init, e, d)
  {
    hide TakesOff; hide Refreshes;
    assert (init + [e])[..|init|] == init;
  }

  // ----- The registry agrees

  /** What a message does to the registry. */
  lemma MessageOnRegistry(codec: Codec, s: Core, c: ConnId, payload: Bytes, now: real)
    requires c in s.conns
    ensures var r, r', m := s.registry, HandleMessage(codec, s, c, payload, now).registry, ConnectIn(codec, payload);
      var named := s.conns[c].deviceId;
      r' ==
        if m.Some? && RegistersNow(codec, r, payload, m.value.deviceId) then Register(r, m.value.deviceId, c, now)
        else if IsDisconnect(payload) && IsId(named) then Unregister(r, named)
        else if IsHeartbeat(codec, payload) && IsId(named) then Beat(r, named, now)
        else r
  {
    hide ToHex; hide IndexOfByte; hide Message; hide Frame; hide Sendable;
  }

  /** Tokens and heartbeats of the state are those that the events tell. */
  ghost predicate Agrees(codec: Codec, es: seq<Event>) {
    var r := After(codec, es).registry;
    && (forall token, session ::
          HasToken(codec, es, token, session) <==> token in r.validTokens && r.validTokens[token] == session)
    && (forall d, t :: HasBeat(codec, es, d, t) <==> d in r.heartbeats && r.heartbeats[d] == t)
  }

  lemma AcceptsIff(codec: Codec, es: seq<Event>, m: Connect)
    requires Agrees(codec, es)
    ensures Accepts(codec, es, m) <==> Presents(After(codec, es).registry, m)
  {
    hide HasToken; hide HasBeat; hide After;
    var r := After(codec, es).registry;
    if m.token.Text? && m.token.text in r.validTokens {
      assert HasToken(codec, es, m.token.text, r.validTokens[m.token.text]);
    }
  }

  lemma RegistersIff(codec: Codec, es: seq<Event>, e: Event, d: Json)
    requires Agrees(codec, es)
    ensures Registers(codec, es, e, d) <==>
      e.Hears? && e.c in After(codec, es).conns && RegistersNow(codec, After(codec, es).registry, e.payload, d)
  {
    hide Agrees; hide After; hide Accepts; hide Presents;
    if e.Hears? {
      IsOpened(codec, es, e.c);
      if NamesDevice(codec, e.payload, d) {
        AcceptsIff(codec, es, ConnectIn(codec, e.payload).value);
      }
    }
  }

  lemma IsOpened(codec: Codec, es: seq<Event>, c: ConnId)
    ensures c in After(codec, es).conns <==> Opened(c) in es
  {
    SpeaksForIff(codec, es, c, Text("d"));
  }

  lemma TakesOffIff(codec: Codec, es: seq<Event>, e: Event, d: Json)
    requires Agrees(codec, es)
    ensures TakesOff(codec, es, e, d) <==> UnregistersIn(codec, es, e, d)
  {
    hide After; hide HasBeat; hide HasToken; hide SpeaksFor; hide MessagesOf; hide IsDisconnect;
    if e.Expires? {
      var r := After(codec, es).registry;
      if d in r.heartbeats { assert HasBeat(codec, es, d, r.heartbeats[d]); }
    } else if (e.Hears? || e.Drops?) && IsId(d) {
      Speaker(codec, es, e.c, d);
    }
  }

  // The same read off the state.
  predicate UnregistersIn(codec: Codec, es: seq<Event>, e: Event, d: Json) {
    var s := After(codec, es);
    match e
    case Hears(c, payload, _) => c in s.conns && IsDisconnect(payload) && IsId(d) && s.conns[c].deviceId == d
    case Drops(c) => c in s.conns && IsId(d) && s.conns[c].deviceId == d
    case Expires(now) => d in s.registry.heartbeats && s.registry.heartbeats[d] < now - HEARTBEAT_LIMIT
    case _ => false
  }

  lemma Speaker(codec: Codec, es: seq<Event>, c: ConnId, d: Json)
    requires IsId(d)
    ensures SpeaksFor(codec, MessagesOf(es, c), d) <==> c in After(codec, es).conns && After(codec, es).conns[c].deviceId == d
  {
    SpeaksForIff(codec, es, c, d);
    NobodySpeaks(codec, d);
    hide After; hide SpeaksFor; hide MessagesOf;
  }

  // What the state says of news of d.
  predicate RefreshesIn(codec: Codec, es: seq<Event>, e: Event, d: Json) {
    var s := After(codec, es);
    match e
    case Hears(c, payload, _) =>
      && c in s.conns
      && (RegistersNow(codec, s.registry, payload, d)
          || (IsHeartbeat(codec, payload) && IsId(d) && s.conns[c].deviceId == d))
    case Beats(deviceId, _) => deviceId == d && Hashable(d)
    case _ => false
  }

  lemma RefreshesIff(codec: Codec, es: seq<Event>, e: Event, d: Json)
    requires Agrees(codec, es)
    ensures Refreshes(codec, es, e, d) <==> RefreshesIn(codec, es, e, d)
  {
    hide After; hide Agrees; hide Registers; hide RegistersNow; hide SpeaksFor; hide MessagesOf; hide IsHeartbeat;
    if e.Hears? {
      RegistersIff(codec, es, e, d);
      if IsId(d) { Speaker(codec, es, e.c, d); }
    }
  }

  // One event on heartbeats and tokens.
  lemma HappenOnRegistry(codec: Codec, es: seq<Event>, e: Event, d: Json, token: string)
    ensures var r, r' := After(codec, es).registry, Happen(codec, After(codec, es), e).registry;
      && (RefreshesIn(codec, es, e, d) ==> d in r'.heartbeats && r'.heartbeats[d] == TimeOf(e))
      && (!RefreshesIn(codec, es, e, d) ==>
            && (d in r'.heartbeats <==> d in r.heartbeats && !UnregistersIn(codec, es, e, d))
            && (d in r'.heartbeats ==> r'.heartbeats[d] == r.heartbeats[d]))
      && (e.Issues? && e.token == token ==> token in r'.validTokens && r'.validTokens[token] == e.sessionId)
      && (!(e.Issues? && e.token == token) ==>
            && (token in r'.validTokens <==>
                  token in r.validTokens && !UnregistersIn(codec, es, e, Text(r.validTokens[token])))
            && (token in r'.validTokens ==> r'.validTokens[token] == r.validTokens[token]))
  {
    var s := After(codec, es);
    hide After;
    if e.Hears? && e.c in s.conns {
      MessageOnRegistry(codec, s, e.c, e.payload, e.now);
      hide HandleMessage;
      Exclusive(codec, e.payload);
    }
    hide IsHeartbeat; hide IsDisconnect; hide ConnectIn; hide Presents;
  }

  // A message is of one kind.
  lemma Exclusive(codec: Codec, payload: Bytes)
    ensures ConnectIn(codec, payload).Some? ==> !IsDisconnect(payload) && !IsHeartbeat(codec, payload)
    ensures !(IsDisconnect(payload) && IsHeartbeat(codec, payload))
  {
  }

  lemma {:induction false} AllAgree(codec: Codec, es: seq<Event>)
    ensures Agrees(codec, es)
  {
    if es != [] {
      var init, e := es[..|es| - 1], es[|es| - 1];
      assert es == init + [e];
      AllAgree(codec, init);
      AfterOne(codec, init, e);
      forall token, session ensures HasToken(codec, es, token, session) <==>
          token in After(codec, es).registry.validTokens && After(codec, es).registry.validTokens[token] == session {
        TokenAgrees(codec, init, e, token, session);
      }
      forall d, t ensures HasBeat(codec, es, d, t) <==>
          d in After(codec, es).registry.heartbeats && After(codec, es).registry.heartbeats[d] == t {
        BeatAgrees(codec, init, e, d, t);
      }
    }
    hide After; hide HasToken; hide HasBeat;
  }

  lemma TokenAgrees(codec: Codec, init: seq<Event>, e: Event, token: string, session: string)
    requires Agrees(codec, init)
    ensures var r := After(codec, init + [e]).registry;
      HasToken(codec, init + [e], token, session) <==> token in r.validTokens && r.validTokens[token] == session
  {
    hide After; hide HasToken; hide HasBeat; hide TakesOff; hide UnregistersIn; hide Happen; hide RefreshesIn;
    AfterOne(codec, init, e);
    TokenStep(codec, init, e, token, session);
    HappenOnRegistry(codec, init, e, Null, token);
    TakesOffIff(codec, init, e, Text(session));
  }

  lemma BeatAgrees(codec: Codec, init: seq<Event>, e: Event, d: Json, t: real)
    requires Agrees(codec, init)
    ensures var r := After(codec, init + [e]).registry;
      HasBeat(codec, init + [e], d, t) <==> d in r.heartbeats && r.heartbeats[d] == t
  {
    hide After; hide HasToken; hide HasBeat; hide TakesOff; hide UnregistersIn; hide Happen; hide RefreshesIn; hide Refreshes;
    AfterOne(codec, init, e);
    BeatStep(codec, init, e, d, t);
    HappenOnRegistry(codec, init, e, d, "");
    TakesOffIff(codec, init, e, d);
    RefreshesIff(codec, init, e, d);
  }

  /** Over every run a token is valid for a session exactly when it was issued for it and not dropped since. */
  lemma TokenIff(codec: Codec, es: seq<Event>, token: string, session: string)
    ensures token in After(codec, es).registry.validTokens && After(codec, es).registry.validTokens[token] == session
       <==> HasToken(codec, es, token, session)
  {
    AllAgree(codec, es);
    hide After; hide HasToken; hide HasBeat;
  }

  /** Over every run the heartbeat entry of a device is the time at which it was last heard of. */
  lemma HeartbeatIff(codec: Codec, es: seq<Event>, d: Json, t: real)
    ensures d in After(codec, es).registry.heartbeats && After(codec, es).registry.heartbeats[d] == t
       <==> HasBeat(codec, es, d, t)
  {
    AllAgree(codec, es);
    hide After; hide HasToken; hide HasBeat;
  }

  // ----- Who is registered

  /** One event: a device goes off exactly when the event takes it off, and it changes connections only by registering. */
  lemma RegisteredStep(codec: Codec, es: seq<Event>, e: Event, d: Json)
    ensures var s, r := After(codec, es).registry.connections, After(codec, es + [e]).registry.connections;
      && (Registers(codec, es, e, d) ==> d in r && r[d] == e.c)
      && (!Registers(codec, es, e, d) && d in r ==> d in s && r[d] == s[d])
      && (d in s ==> (d !in r <==> TakesOff(codec, es, e, d)))
  {
    var s := After(codec, es);
    AllAgree(codec, es);
    AfterOne(codec, es, e);
    RegistersIff(codec, es, e, d);
    TakesOffIff(codec, es, e, d);
    hide After; hide Agrees; hide Registers; hide TakesOff;
    if e.Hears? && e.c in s.conns {
      RegistrationIff(codec, s, e.c, e.payload, e.now, d);
    }
    hide HandleMessage; hide RegistersNow; hide IsDisconnect;
  }

  /**
   * A registered device goes off in two ways only: a connection that speaks for it disconnects or is lost, or it was
   * last heard of more than 120 seconds before an expiry.
   */
  lemma GoesOffIff(codec: Codec, es: seq<Event>, e: Event, d: Json)
    requires d in After(codec, es).registry.connections
    ensures d !in After(codec, es + [e]).registry.connections <==> TakesOff(codec, es, e, d)
  {
    RegisteredStep(codec, es, e, d);
    hide After; hide TakesOff;
  }

  /** Event i registered d for c, and no later event took d off or registered it again. */
  ghost predicate StandsSince(codec: Codec, es: seq<Event>, i: nat, d: Json, c: ConnId)
    requires i < |es|
  {
    && Registers(codec, es[..i], es[i], d) && es[i].c == c
    && forall j | i < j < |es| :: !TakesOff(codec, es[..j], es[j], d) && !Registers(codec, es[..j], es[j], d)
  }

  lemma StandsStep(codec: Codec, init: seq<Event>, last: Event, i: nat, d: Json, c: ConnId)
    requires i < |init|
    ensures StandsSince(codec, init + [last], i, d, c) <==>
      StandsSince(codec, init, i, d, c) && !TakesOff(codec, init, last, d) && !Registers(codec, init, last, d)
  {
    hide TakesOff; hide Registers;
    var es, n := init + [last], |init|;
    assert forall j | 0 <= j <= n :: es[..j] == init[..j];
    assert init[..n] == init;
    assert forall j | 0 <= j < n :: es[j] == init[j];
    assert es[n] == last;
  }

  lemma StandsNow(codec: Codec, init: seq<Event>, last: Event, d: Json, c: ConnId)
    ensures StandsSince(codec, init + [last], |init|, d, c) <==> Registers(codec, init, last, d) && last.c == c
  {
    hide TakesOff; hide Accepts;
    assert (init + [last])[..|init|] == init;
  }

  /**
   * Over every run, told by its messages and events alone: a device is registered for a connection exactly when some
   * message on that connection registered it, and since then nothing has taken it off or registered it again.
   */
  lemma {:induction false} RegisteredIff(codec: Codec, es: seq<Event>, d: Json, c: ConnId)
    ensures d in After(codec, es).registry.connections && After(codec, es).registry.connections[d] == c <==>
      exists i | 0 <= i < |es| :: StandsSince(codec, es, i, d, c)
  {
    hide TakesOff; hide Registers;
    if es != [] {
      var init, last, n := es[..|es| - 1], es[|es| - 1], |es| - 1;
      assert es == init + [last];
      RegisteredIff(codec, init, d, c);
      RegisteredStep(codec, init, last, d);
      hide After;
      forall i | 0 <= i < n
        ensures StandsSince(codec, es, i, d, c) <==>
          StandsSince(codec, init, i, d, c) && !TakesOff(codec, init, last, d) && !Registers(codec, init, last, d)
      {
        StandsStep(codec, init, last, i, d, c);
      }
      StandsNow(codec, init, last, d, c);
      hide StandsSince;
      if i :| 0 <= i < |es| && StandsSince(codec, es, i, d, c) {
        assert i < n ==> StandsSince(codec, init, i, d, c);
      }
    }
  }

  /**
   * Losing a connection leaves a device that is registered for another one registered if and only if the lost
   * connection does not speak for it.
   */
  lemma LostKeepsOthersIff(codec: Codec, es: seq<Event>, c: ConnId, d: Json)
    requires d in After(codec, es).registry.connections && After(codec, es).registry.connections[d] != c && IsId(d)
    ensures var before, after := After(codec, es).registry.connections, After(codec, es + [Drops(c)]).registry.connections;
      d in after && after[d] == before[d] <==> !SpeaksFor(codec, MessagesOf(es, c), d)
  {
    RegisteredStep(codec, es, Drops(c), d);
    hide After; hide SpeaksFor; hide MessagesOf; hide HasBeat;
  }

  // ----- Heartbeats in time

  // The clock never goes back.
  ghost predicate Clocked(es: seq<Event>) {
    forall i, j | 0 <= i < j < |es| && IsTimed(es[i]) && IsTimed(es[j]) :: TimeOf(es[i]) <= TimeOf(es[j])
  }

  predicate IsTimed(e: Event) {
    e.Hears? || e.Beats? || e.Expires?
  }

  /**
   * With a clock that never goes back an expiry takes a registered device off if and only if there was no news of the
   * device in the last 120 seconds; so a device that is heard of at least that often never goes off by expiry.
   */
  lemma ExpiresIff(codec: Codec, es: seq<Event>, now: real, d: Json)
    requires Clocked(es) && d in After(codec, es).registry.connections
    ensures d !in After(codec, es + [Expires(now)]).registry.connections <==>
      forall i | 0 <= i < |es| && Refreshes(codec, es[..i], es[i], d) :: TimeOf(es[i]) < now - HEARTBEAT_LIMIT
  {
    GoesOffIff(codec, es, Expires(now), d);
    AllConsistent(codec, es);
    var t := After(codec, es).registry.heartbeats[d];
    HeartbeatIff(codec, es, d, t);
    forall u | HasBeat(codec, es, d, u) ensures u == t { HeartbeatIff(codec, es, d, u); }
    hide After;
    LatestNews(codec, es, d, t);
    hide HasBeat; hide Refreshes;
  }

  // The news that the entry stands for is the latest.
  lemma LatestNews(codec: Codec, es: seq<Event>, d: Json, t: real)
    requires Clocked(es) && HasBeat(codec, es, d, t)
    ensures exists m | 0 <= m < |es| :: Refreshes(codec, es[..m], es[m], d) && TimeOf(es[m]) == t
    ensures forall i | 0 <= i < |es| && Refreshes(codec, es[..i], es[i], d) :: TimeOf(es[i]) <= t
  {
    var m :| 0 <= m < |es| && LastNews(codec, es, m, d) && TimeOf(es[m]) == t;
    assert Refreshes(codec, es[..m], es[m], d);
    NewsIsTimed(codec, es[..m], es[m], d);
    hide Refreshes; hide TakesOff;
    forall i | 0 <= i < |es| && Refreshes(codec, es[..i], es[i], d) ensures TimeOf(es[i]) <= t {
      NewsIsTimed(codec, es[..i], es[i], d);
    }
  }

  lemma NewsIsTimed(codec: Codec, before: seq<Event>, e: Event, d: Json)
    requires Refreshes(codec, before, e, d)
    ensures IsTimed(e)
  {
  }

  lemma {:induction false} AllConsistent(codec: Codec, es: seq<Event>)
    ensures Consistent(After(codec, es))
  {
    if es != [] {
      var init, e := es[..|es| - 1], es[|es| - 1];
      AllConsistent(codec, init);
      var s := After(codec, init);
      hide After;
      if e.Hears? && e.c in s.conns {
        MessageKeepsConsistent(codec, s, e.c, e.payload, e.now);
      }
      hide HandleMessage;
      assert After(codec, es) == Happen(codec, s, e) by { AfterOne(codec, init, e); assert es == init + [e]; }
    }
  }

  // ----- Refused connects

  lemma NewMessage(es: seq<Event>, c: ConnId, payload: Bytes, now: real)
    requires Opened(c) in es
    ensures MessagesOf(es + [Hears(c, payload, now)], c) == MessagesOf(es, c) + [payload]
  {
    assert (es + [Hears(c, payload, now)])[..|es|] == es;
  }

  // A connect message, refused or not, makes its connection speak for the device that it names.
  lemma ConnectSpeaks(codec: Codec, es: seq<Event>, c: ConnId, connect: Bytes, d: Json, now: real)
    requires c in After(codec, es).conns && NamesDevice(codec, connect, d)
    ensures SpeaksFor(codec, MessagesOf(es + [Hears(c, connect, now)], c), d)
  {
    IsOpened(codec, es, c);
    NewMessage(es, c, connect, now);
    SpeaksForStep(codec, MessagesOf(es, c), connect, d);
    hide After; hide SpeaksFor; hide MessagesOf;
  }

  /**
   * A refused connect still makes its connection speak for the device that it names, so that its disconnect takes a
   * device off that is registered for another connection.
   */
  lemma RefusedConnectSpeaks(
    codec: Codec, es: seq<Event>, c: ConnId, connect: Bytes, disconnect: Bytes, d: Json, t: real, u: real)
    requires c in After(codec, es).conns && d in After(codec, es).registry.connections && IsId(d)
    requires NamesDevice(codec, connect, d) && !RegistersNow(codec, After(codec, es).registry, connect, d)
    requires IsDisconnect(disconnect)
    ensures var refused := es + [Hears(c, connect, t)];
      && After(codec, refused).registry.connections == After(codec, es).registry.connections
      && d !in After(codec, refused + [Hears(c, disconnect, u)]).registry.connections
  {
    var refused := es + [Hears(c, connect, t)];
    ConnectSpeaks(codec, es, c, connect, d, t);
    AfterOne(codec, es, Hears(c, connect, t));
    RefusedKeeps(codec, After(codec, es), c, connect, t, d);
    GoesOffIff(codec, refused, Hears(c, disconnect, u), d);
    hide After; hide HandleMessage; hide SpeaksFor; hide MessagesOf; hide NamesDevice;
  }

  lemma RefusedKeeps(codec: Codec, s: Core, c: ConnId, connect: Bytes, now: real, d: Json)
    requires c in s.conns && NamesDevice(codec, connect, d) && Hashable(d) && !RegistersNow(codec, s.registry, connect, d)
    ensures HandleMessage(codec, s, c, connect, now).registry.connections == s.registry.connections
  {
    hide ToHex; hide IndexOfByte; hide Message; hide Frame; hide Sendable;
  }

  /** In the same way a heartbeat message of a refused connection renews the entry of the device that it named. */
  lemma RefusedKeepsAlive(
    codec: Codec, es: seq<Event>, c: ConnId, connect: Bytes, heartbeat: Bytes, d: Json, t: real, u: real)
    requires c in After(codec, es).conns && IsId(d)
    requires NamesDevice(codec, connect, d) && IsHeartbeat(codec, heartbeat)
    ensures var r := After(codec, es + [Hears(c, connect, t)] + [Hears(c, heartbeat, u)]).registry;
      d in r.heartbeats && r.heartbeats[d] == u
  {
    var refused, e := es + [Hears(c, connect, t)], Hears(c, heartbeat, u);
    ConnectSpeaks(codec, es, c, connect, d, t);
    BeatStep(codec, refused, e, d, u);
    HeartbeatIff(codec, refused + [e], d, u);
    hide After; hide SpeaksFor; hide MessagesOf; hide HasBeat; hide Registers; hide TakesOff;
    assert Refreshes(codec, refused, e, d);
  }
}
