/** Whole runs of the relay server, message by message, and which connection speaks for a device. */
module RelayRuns {

  import opened Options
  import opened Seqs
  import opened RelayWire
  import opened RelayServer

  datatype Event =
    | Opened(c: ConnId)
    | Hears(c: ConnId, payload: Bytes, now: real)
    | Drops(c: ConnId)
    | Issues(token: string, sessionId: string)
    | Beats(deviceId: Json, now: real)
    | Expires(now: real)

  const NOBODY := Core(Registry(map[], map[], map[]), map[])

  function Happen(codec: Codec, s: Core, e: Event): Core {
    match e
    case Opened(c) => if c in s.conns then s else s.(conns := s.conns[c := NEW_CONNECTION])
    case Hears(c, payload, now) => if c in s.conns then HandleMessage(codec, s, c, payload, now) else s
    case Drops(c) => if c in s.conns then Lost(s, c) else s
    case Issues(token, sessionId) => s.(registry := s.registry.(validTokens := s.registry.validTokens[token := sessionId]))
    case Beats(deviceId, now) => if Hashable(deviceId) then s.(registry := Beat(s.registry, deviceId, now)) else s
    case Expires(now) => s.(registry := UnregisterAll(s.registry, StaleDevices(s.registry, now)))
  }

  function After(codec: Codec, es: seq<Event>): Core {
    if es == [] then NOBODY else Happen(codec, After(codec, es[..|es| - 1]), es[|es| - 1])
  }

  // ----- Chunks as messages

  function Heard(c: ConnId, payloads: seq<Bytes>, now: real): (es: seq<Event>)
    ensures |es| == |payloads| && forall i | 0 <= i < |es| :: es[i] == Hears(c, payloads[i], now)
  {
    if payloads == [] then [] else [Hears(c, payloads[0], now)] + Heard(c, payloads[1..], now)
  }

  /** What one step of the server is, message by message. */
  function EventsOf(s: State, step: Step): seq<Event> {
    match step
    case Made(c) => [Opened(c)]
    case Data(c, data, now) =>
      if c in s.core.conns && c in s.buffers then Heard(c, Deframe(s.buffers[c] + data).payloads, now) else []
    case LostConn(c) => [Drops(c)]
    case Token(token, sessionId) => [Issues(token, sessionId)]
    case ApiBeat(deviceId, now) => [Beats(deviceId, now)]
    case Expire(now) => [Expires(now)]
  }

  function Events(codec: Codec, steps: seq<Step>): seq<Event> {
    if steps == [] then []
    else
      var init, last := steps[..|steps| - 1], steps[|steps| - 1];
      Events(codec, init) + EventsOf(Run(codec, init), last)
  }

  lemma AfterOne(codec: Codec, es: seq<Event>, e: Event)
    ensures After(codec, es + [e]) == Happen(codec, After(codec, es), e)
  {
    assert (es + [e])[..|es|] == es;
  }

  lemma {:induction false} AfterHeard(codec: Codec, es: seq<Event>, c: ConnId, payloads: seq<Bytes>, now: real)
    requires c in After(codec, es).conns
    ensures After(codec, es + Heard(c, payloads, now)) == HandleAll(codec, After(codec, es), c, payloads, now)
    decreases |payloads|
  {
    hide HandleMessage;
    if payloads == [] {
      Parts(es, []);
    } else {
      var e := Hears(c, payloads[0], now);
      AfterOne(codec, es, e);
      HandleKeysKept(codec, After(codec, es), c, payloads[0], now);
      AfterHeard(codec, es + [e], c, payloads[1..], now);
      Assoc(es, [e], Heard(c, payloads[1..], now));
    }
  }

  lemma StepIsEvents(codec: Codec, s: State, step: Step, es: seq<Event>)
    requires After(codec, es) == s.core && s.buffers.Keys == s.core.conns.Keys
    ensures After(codec, es + EventsOf(s, step)) == Next(codec, s, step).core
  {
    hide HandleAll; hide HandleMessage; hide Deframe; hide Lost; hide After; hide UnregisterAll; hide StaleDevices;
    if step.Data? {
      if step.c in s.core.conns {
        AfterHeard(codec, es, step.c, Deframe(s.buffers[step.c] + step.data).payloads, step.now);
      } else {
        Parts(es, []);
      }
    } else {
      AfterOne(codec, es, EventsOf(s, step)[0]);
    }
  }

  /** A run of the server, chunk by chunk, is the run of the messages that the chunks hold. */
  lemma {:induction false} RunIsAfter(codec: Codec, steps: seq<Step>)
    ensures Run(codec, steps).core == After(codec, Events(codec, steps))
  {
    hide Next; hide After; hide EventsOf;
    if steps == [] {
      NothingHappened(codec);
    } else {
      var init, last := steps[..|steps| - 1], steps[|steps| - 1];
      RunIsAfter(codec, init);
      RegistryInvariant(codec, init);
      StepIsEvents(codec, Run(codec, init), last, Events(codec, init));
    }
  }

  lemma NothingHappened(codec: Codec)
    ensures After(codec, []) == EMPTY.core
  {
  }

  // ----- Who speaks for a device

  /** The chunks that reached a connection after it was made. */
  function ChunksOf(steps: seq<Step>, c: ConnId): seq<Bytes> {
    if steps == [] then []
    else
      var init, last := steps[..|steps| - 1], steps[|steps| - 1];
      if last.Data? && last.c == c && Made(c) in init then ChunksOf(init, c) + [last.data] else ChunksOf(init, c)
  }

  /** The messages that a connection heard after it was opened, in order. */
  function MessagesOf(es: seq<Event>, c: ConnId): seq<Bytes> {
    if es == [] then []
    else
      var init, last := es[..|es| - 1], es[|es| - 1];
      if last.Hears? && last.c == c && Opened(c) in init then MessagesOf(init, c) + [last.payload] else MessagesOf(init, c)
  }

  lemma {:induction false} MessagesHeard(es: seq<Event>, c: ConnId, payloads: seq<Bytes>, now: real, x: ConnId)
    ensures MessagesOf(es + Heard(c, payloads, now), x) ==
      MessagesOf(es, x) + (if x == c && Opened(c) in es then payloads else [])
    decreases |payloads|
  {
    if payloads == [] {
      Parts(es, []);
    } else {
      var e := Hears(c, payloads[0], now);
      var one := es + [e];
      assert one[..|es|] == es;
      MessagesHeard(one, c, payloads[1..], now, x);
      Assoc(es, [e], Heard(c, payloads[1..], now));
      assert Opened(c) in one <==> Opened(c) in es;
      Assoc(MessagesOf(es, x), [payloads[0]], payloads[1..]);
      assert [payloads[0]] + payloads[1..] == payloads;
    }
  }

  function BufferAfter(s: State, step: Step, c: ConnId): Bytes {
    if c !in s.buffers then []
    else if step.Data? && step.c == c then Deframe(s.buffers[c] + step.data).rest
    else s.buffers[c]
  }

  /** Whether a connection was made, what its buffer holds and what it has heard, after one step more. */
  lemma StepMessages(codec: Codec, s: State, step: Step, es: seq<Event>, c: ConnId)
    requires s.buffers.Keys == s.core.conns.Keys && (Opened(c) in es <==> c in s.core.conns)
    ensures var more, t := es + EventsOf(s, step), Next(codec, s, step);
      var heard := step.Data? && step.c == c && c in s.core.conns;
      && (Opened(c) in more <==> Opened(c) in es || step == Made(c))
      && (Opened(c) in more <==> c in t.core.conns)
      && (c in t.buffers ==> t.buffers[c] == BufferAfter(s, step, c))
      && MessagesOf(more, c) ==
         MessagesOf(es, c) + (if heard then Deframe(s.buffers[c] + step.data).payloads else [])
  {
    hide HandleAll; hide Deframe; hide UnregisterAll; hide StaleDevices; hide UnregisterNamed;
    if step.Data? {
      if step.c in s.core.conns {
        MessagesHeard(es, step.c, Deframe(s.buffers[step.c] + step.data).payloads, step.now, c);
      } else {
        Parts(es, []);
      }
      hide MessagesOf;
    } else {
      OneNotHeard(es, EventsOf(s, step)[0], c);
      hide MessagesOf;
    }
  }

  lemma OneNotHeard(es: seq<Event>, e: Event, c: ConnId)
    requires !e.Hears?
    ensures MessagesOf(es + [e], c) == MessagesOf(es, c) + []
  {
    assert (es + [e])[..|es|] == es;
    Parts(MessagesOf(es, c), []);
  }

  // That the messages a connection heard in a run are the frames of the bytes that reached it.
  ghost predicate HeardFrames(codec: Codec, steps: seq<Step>, c: ConnId) {
    && (Made(c) in steps <==> Opened(c) in Events(codec, steps))
    && (Made(c) in steps <==> c in Run(codec, steps).core.conns)
    && (c in Run(codec, steps).buffers ==> Run(codec, steps).buffers[c] == Receive(ChunksOf(steps, c)).rest)
    && MessagesOf(Events(codec, steps), c) == Receive(ChunksOf(steps, c)).payloads
  }

  lemma RunStep(codec: Codec, init: seq<Step>, last: Step)
    ensures Run(codec, init + [last]) == Next(codec, Run(codec, init), last)
    ensures Events(codec, init + [last]) == Events(codec, init) + EventsOf(Run(codec, init), last)
  {
    assert (init + [last])[..|init|] == init;
  }

  lemma HeardFramesStep(codec: Codec, init: seq<Step>, last: Step, c: ConnId)
    requires HeardFrames(codec, init, c)
    ensures HeardFrames(codec, init + [last], c)
  {
    hide Next; hide Deframe; hide MessagesOf; hide EventsOf; hide Receive; hide ChunksOf; hide BufferAfter;
    hide Run; hide Events;
    RegistryInvariant(codec, init);
    RegistryInvariant(codec, init + [last]);
    RunStep(codec, init, last);
    StepMessages(codec, Run(codec, init), last, Events(codec, init), c);
    ChunksStep(codec, init, last, c);
  }

  /** The messages that a connection hears in a run of the server are the frames of the bytes that reached it. */
  lemma {:induction false} MessagesAreFrames(codec: Codec, steps: seq<Step>, c: ConnId)
    ensures Made(c) in steps <==> Opened(c) in Events(codec, steps)
    ensures Made(c) in steps <==> c in Run(codec, steps).core.conns
    ensures c in Run(codec, steps).buffers ==> Run(codec, steps).buffers[c] == Receive(ChunksOf(steps, c)).rest
    ensures MessagesOf(Events(codec, steps), c) == Receive(ChunksOf(steps, c)).payloads
  {
    if steps != [] {
      var init, last := steps[..|steps| - 1], steps[|steps| - 1];
      assert steps == init + [last];
      MessagesAreFrames(codec, init, c);
      HeardFramesStep(codec, init, last, c);
      hide Run; hide Events; hide MessagesOf; hide Receive; hide ChunksOf;
    }
  }

  // What the chunks of a connection yield after one step more.
  lemma ChunksStep(codec: Codec, init: seq<Step>, last: Step, c: ConnId)
    requires Run(codec, init).buffers.Keys == Run(codec, init).core.conns.Keys
    requires Made(c) in init <==> c in Run(codec, init).core.conns
    requires c in Run(codec, init).buffers ==> Run(codec, init).buffers[c] == Receive(ChunksOf(init, c)).rest
    ensures var s, before, after := Run(codec, init), Receive(ChunksOf(init, c)), Receive(ChunksOf(init + [last], c));
      && (Made(c) in init || last == Made(c) ==> after.rest == BufferAfter(s, last, c))
      && after.payloads == before.payloads +
           if last.Data? && last.c == c && c in s.core.conns then Deframe(s.buffers[c] + last.data).payloads else []
  {
    hide Deframe; hide Run;
    assert (init + [last])[..|init|] == init;
    if Made(c) !in init {
      NotMade(init, c);
    }
    var chunks := ChunksOf(init, c);
    if last.Data? && last.c == c && Made(c) in init {
      assert (chunks + [last.data])[..|chunks|] == chunks;
    } else {
      Parts(Receive(chunks).payloads, []);
    }
  }

  lemma {:induction false} NotMade(steps: seq<Step>, c: ConnId)
    requires Made(c) !in steps
    ensures ChunksOf(steps, c) == []
  {
    if steps != [] {
      NotMade(steps[..|steps| - 1], c);
    }
  }

  // A message that changes which device its connection speaks for: a readable connect, accepted or refused, or a disconnect.
  predicate Renames(codec: Codec, payload: Bytes) {
    ConnectIn(codec, payload).Some? || IsDisconnect(payload)
  }

  predicate NamesDevice(codec: Codec, payload: Bytes, d: Json) {
    ConnectIn(codec, payload).Some? && ConnectIn(codec, payload).value.deviceId == d
  }

  /** The last message that renames the connection is a connect that names d. */
  ghost predicate SpeaksFor(codec: Codec, messages: seq<Bytes>, d: Json) {
    exists i | 0 <= i < |messages| ::
      && NamesDevice(codec, messages[i], d)
      && forall j | i < j < |messages| :: !Renames(codec, messages[j])
  }

  // A value that can be the id of a device.
  predicate IsId(d: Json) {
    Truthy(d) && Hashable(d)
  }

  lemma SpeaksForStep(codec: Codec, messages: seq<Bytes>, last: Bytes, d: Json)
    ensures SpeaksFor(codec, messages + [last], d) <==>
      NamesDevice(codec, last, d) || (!Renames(codec, last) && SpeaksFor(codec, messages, d))
  {
    hide NamesDevice; hide Renames;
    var all, n := messages + [last], |messages|;
    if NamesDevice(codec, last, d) {
      assert NamesDevice(codec, all[n], d);
    } else if !Renames(codec, last) && SpeaksFor(codec, messages, d) {
      var i :| 0 <= i < n && NamesDevice(codec, messages[i], d) && forall j | i < j < n :: !Renames(codec, messages[j]);
      assert NamesDevice(codec, all[i], d);
      assert forall j | i < j < n :: all[j] == messages[j];
    }
    if SpeaksFor(codec, all, d) {
      var i :| 0 <= i < n + 1 && NamesDevice(codec, all[i], d) && forall j | i < j < n + 1 :: !Renames(codec, all[j]);
      if i < n {
        assert NamesDevice(codec, messages[i], d);
        assert !Renames(codec, all[n]);
        assert forall j | i < j < n :: messages[j] == all[j];
      }
    }
  }

  /** What a message does to the device id of its own connection. */
  lemma NamedByMessage(codec: Codec, s: Core, c: ConnId, payload: Bytes, now: real, d: Json)
    requires c in s.conns && IsId(d)
    ensures var after := HandleMessage(codec, s, c, payload, now).conns;
      && c in after
      && (after[c].deviceId == d <==>
            NamesDevice(codec, payload, d) || (!Renames(codec, payload) && s.conns[c].deviceId == d))
  {
    hide ToHex; hide IndexOfByte; hide Message; hide Frame; hide Sendable;
  }

  lemma ConnsKept(codec: Codec, s: Core, e: Event, c: ConnId)
    ensures c in Happen(codec, s, e).conns <==> c in s.conns || e == Opened(c)
    ensures c in s.conns && !(e.Hears? && e.c == c) ==> Happen(codec, s, e).conns[c].deviceId == s.conns[c].deviceId
    ensures c !in s.conns && e == Opened(c) ==> Happen(codec, s, e).conns[c].deviceId == Null
  {
    if e.Hears? && e.c in s.conns {
      HandleKeysKept(codec, s, e.c, e.payload, e.now);
      if c in s.conns { MessageIsConfined(codec, s, e.c, e.payload, e.now, c); }
    }
    hide HandleMessage;
  }

  /**
   * Over every run a connection that was opened speaks for a device exactly when the last of its connect and disconnect
   * messages is a connect that names the device, whether the server accepted it or not.
   */
  lemma {:induction false} SpeaksForIff(codec: Codec, es: seq<Event>, c: ConnId, d: Json)
    requires IsId(d)
    ensures c in After(codec, es).conns <==> Opened(c) in es
    ensures c !in After(codec, es).conns ==> MessagesOf(es, c) == []
    ensures c in After(codec, es).conns ==>
      (After(codec, es).conns[c].deviceId == d <==> SpeaksFor(codec, MessagesOf(es, c), d))
  {
    hide Happen; hide SpeaksFor; hide IsId; hide NamesDevice; hide Renames;
    NobodySpeaks(codec, d);
    if es != [] {
      var init, last := es[..|es| - 1], es[|es| - 1];
      assert es == init + [last];
      SpeaksForIff(codec, init, c, d);
      ConnsKept(codec, After(codec, init), last, c);
      if last.Hears? && last.c == c && Opened(c) in init {
        HearsStep(codec, After(codec, init), last, d);
        SpeaksForStep(codec, MessagesOf(init, c), last.payload, d);
      }
    }
  }

  lemma NobodySpeaks(codec: Codec, d: Json)
    requires IsId(d)
    ensures !SpeaksFor(codec, [], d) && d != Null
  {
  }

  lemma HearsStep(codec: Codec, s: Core, e: Event, d: Json)
    requires e.Hears? && e.c in s.conns && IsId(d)
    ensures var after := Happen(codec, s, e).conns;
      && e.c in after
      && (after[e.c].deviceId == d <==>
            NamesDevice(codec, e.payload, d) || (!Renames(codec, e.payload) && s.conns[e.c].deviceId == d))
  {
    NamedByMessage(codec, s, e.c, e.payload, e.now, d);
    hide HandleMessage; hide NamesDevice; hide Renames;
  }

  /** The same on the bytes: which device a connection speaks for is decided by the frames that reached it. */
  lemma ConnectionSpeaksIff(codec: Codec, steps: seq<Step>, c: ConnId, d: Json)
    requires IsId(d) && Made(c) in steps
    ensures c in Run(codec, steps).core.conns
    ensures Run(codec, steps).core.conns[c].deviceId == d <==> SpeaksFor(codec, Receive(ChunksOf(steps, c)).payloads, d)
  {
    RunIsAfter(codec, steps);
    MessagesAreFrames(codec, steps, c);
    SpeaksForIff(codec, Events(codec, steps), c, d);
    hide Run; hide SpeaksFor; hide Receive; hide After;
  }
}
