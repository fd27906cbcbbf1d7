/** The clipboard's start-up on one session: the handshake task, the accept loop beside it, and the
    link state they both write. */
module Handshake {
  import opened Bytes

  type Text = seq<byte>

  const SHADOW_STARTUP_RESENDS: nat := 2

  datatype ClipLink = Pending | Up | Down

  datatype Message = Startup(text: Text) | Ready

  /** Where the handshake task is. `armed` is whether the re-send deadline still runs. */
  datatype Stage = Starting | Waiting(resent: nat, armed: bool) | Keyed | Relaying | Done

  datatype Server = Listening | Serving | Stopped

  datatype State = State(stage: Stage, server: Server, link: ClipLink, phoneKey: Option<Text>, sends: seq<Message>)

  const INITIAL := State(Starting, Listening, Pending, None, [])

  /** What can happen next. The first seven are the handshake task's, the last three the accept
      loop's. `key` is what a message carries when it is the phone's announcement. */
  datatype Event =
    | Begin(retained: Option<Text>)
    | Timeout
    | Received(key: Option<Text>)
    | Lagged
    | Closed
    | SendReady
    | RelaySeen
    | RelayTimeout
    | PhoneConnects
    | ConnectionEnds
    | AcceptFails

  predicate Enabled(s: State, e: Event) {
    match e
    case Begin(_) => s.stage.Starting?
    case Timeout => s.stage.Waiting? && s.stage.armed
    case Received(_) => s.stage.Waiting?
    case Lagged => s.stage.Waiting?
    case Closed => s.stage.Waiting?
    case SendReady => s.stage.Keyed?
    case RelaySeen => s.stage.Relaying? && s.link == Up
    case RelayTimeout => s.stage.Relaying?
    case PhoneConnects => s.server.Listening?
    case ConnectionEnds => s.server.Serving?
    case AcceptFails => s.server.Listening?
  }

  /** The deadline passing for the last time: the link is declared down, whatever it is. */
  predicate GivesUp(s: State, e: Event) {
    e.Timeout? && s.stage.Waiting? && s.stage.armed && s.stage.resent >= SHADOW_STARTUP_RESENDS
  }

  function StoreKey(s: State, key: Option<Text>): State {
    if key.Some? then s.(phoneKey := key, stage := Keyed) else s
  }

  function Next(s: State, e: Event, startup: Text): State
    requires Enabled(s, e)
  {
    match e
    case Begin(retained) => StoreKey(s.(stage := Waiting(0, true), sends := s.sends + [Startup(startup)]), retained)
    case Timeout =>
      if s.stage.resent < SHADOW_STARTUP_RESENDS then
        s.(stage := Waiting(s.stage.resent + 1, true), sends := s.sends + [Startup(startup)])
      else s.(stage := Waiting(s.stage.resent, false), link := Down)
    case Received(key) => StoreKey(s, key)
    case Lagged => s
    case Closed => s.(stage := Done)
    case SendReady => s.(stage := Relaying, sends := s.sends + [Ready])
    case RelaySeen => s.(stage := Done)
    case RelayTimeout => s.(stage := Done, link := if s.link == Up then Up else Down)
    case PhoneConnects => s.(server := Serving, link := Up)
    case ConnectionEnds => s.(server := Listening, link := Down)
    case AcceptFails => s.(server := Stopped)
  }

  /** Every event is enabled where it happens. */
  predicate Possible(s: State, events: seq<Event>, startup: Text)
    decreases |events|
  {
    events == [] || (Enabled(s, events[0]) && Possible(Next(s, events[0], startup), events[1..], startup))
  }

  function Run(s: State, events: seq<Event>, startup: Text): State
    requires Possible(s, events, startup)
    decreases |events|
  {
    if events == [] then s else Run(Next(s, events[0], startup), events[1..], startup)
  }

  // ---------- what is sent ----------

  function Count(sends: seq<Message>, m: Message): nat {
    if sends == [] then 0 else Count(sends[..|sends| - 1], m) + if sends[|sends| - 1] == m then 1 else 0
  }

  lemma CountAppend(sends: seq<Message>, last: Message, m: Message)
    ensures Count(sends + [last], m) == Count(sends, m) + if last == m then 1 else 0
  {
    assert (sends + [last])[..|sends|] == sends;
  }

  /** How many startups the stage accounts for; after the key, up to all of them. */
  ghost predicate StartupsSent(s: State, n: nat) {
    match s.stage
    case Starting => n == 0
    case Waiting(resent, armed) => n == 1 + resent && resent <= SHADOW_STARTUP_RESENDS
    case _ => 1 <= n <= 1 + SHADOW_STARTUP_RESENDS
  }

  /** Only this session's startup and `ready` are sent; startups as the stage says; `ready` once,
      by the time the stage is past it, and never before the key is in. */
  ghost predicate SendsInv(s: State, startup: Text) {
    && (forall i :: 0 <= i < |s.sends| ==> s.sends[i] == Startup(startup) || s.sends[i] == Ready)
    && StartupsSent(s, Count(s.sends, Startup(startup)))
    && Count(s.sends, Ready) <= 1
    && (s.stage.Starting? || s.stage.Waiting? || s.stage.Keyed? ==> Count(s.sends, Ready) == 0)
    && (s.stage.Relaying? ==> Count(s.sends, Ready) == 1)
    && (s.stage.Keyed? || s.stage.Relaying? || Count(s.sends, Ready) > 0 ==> s.phoneKey.Some?)
  }

  lemma NextSends(s: State, e: Event, startup: Text)
    requires Enabled(s, e) && SendsInv(s, startup)
    ensures SendsInv(Next(s, e, startup), startup)
  {
    CountAppend(s.sends, Startup(startup), Startup(startup));
    CountAppend(s.sends, Startup(startup), Ready);
    CountAppend(s.sends, Ready, Startup(startup));
    CountAppend(s.sends, Ready, Ready);
  }

  lemma {:induction false} RunSends(s: State, events: seq<Event>, startup: Text)
    requires Possible(s, events, startup) && SendsInv(s, startup)
    ensures SendsInv(Run(s, events, startup), startup)
    decreases |events|
  {
    if events != [] {
      NextSends(s, events[0], startup);
      RunSends(Next(s, events[0], startup), events[1..], startup);
    }
  }

  function NumReady(events: seq<Event>): nat {
    if events == [] then 0 else (if events[0].SendReady? then 1 else 0) + NumReady(events[1..])
  }

  function NumBegin(events: seq<Event>): nat {
    if events == [] then 0 else (if events[0].Begin? then 1 else 0) + NumBegin(events[1..])
  }

  function NumTimeouts(events: seq<Event>): nat {
    if events == [] then 0 else (if events[0].Timeout? then 1 else 0) + NumTimeouts(events[1..])
  }

  lemma {:induction false} NumReadyIn(events: seq<Event>)
    ensures NumReady(events) > 0 <==> SendReady in events
  {
    if events != [] {
      NumReadyIn(events[1..]);
      assert events == [events[0]] + events[1..];
    }
  }

  lemma NextSendsOne(s: State, e: Event, startup: Text)
    requires Enabled(s, e)
    ensures Count(Next(s, e, startup).sends, Ready) == Count(s.sends, Ready) + if e.SendReady? then 1 else 0
    ensures Count(Next(s, e, startup).sends, Startup(startup))
         == Count(s.sends, Startup(startup))
            + if e.Begin? || (e.Timeout? && s.stage.resent < SHADOW_STARTUP_RESENDS) then 1 else 0
  {
    CountAppend(s.sends, Startup(startup), Startup(startup));
    CountAppend(s.sends, Startup(startup), Ready);
    CountAppend(s.sends, Ready, Startup(startup));
    CountAppend(s.sends, Ready, Ready);
  }

  lemma {:induction false} RunSendsReady(s: State, events: seq<Event>, startup: Text)
    requires Possible(s, events, startup)
    ensures Count(Run(s, events, startup).sends, Ready) == Count(s.sends, Ready) + NumReady(events)
    decreases |events|
  {
    if events != [] {
      NextSendsOne(s, events[0], startup);
      RunSendsReady(Next(s, events[0], startup), events[1..], startup);
    }
  }

  /** How many re-sends a stage has behind it. */
  function Resent(s: State): nat {
    if s.stage.Waiting? then s.stage.resent else 0
  }

  lemma {:induction false} NoTimeoutsLater(s: State, events: seq<Event>, startup: Text)
    requires Possible(s, events, startup) && !s.stage.Starting? && !(s.stage.Waiting? && s.stage.armed)
    ensures NumTimeouts(events) == NumBegin(events) == 0
    decreases |events|
  {
    if events != [] {
      NoTimeoutsLater(Next(s, events[0], startup), events[1..], startup);
    }
  }

  lemma {:induction false} NoStartupsLater(s: State, events: seq<Event>, startup: Text)
    requires Possible(s, events, startup) && !s.stage.Starting? && !(s.stage.Waiting? && s.stage.armed)
    ensures Count(Run(s, events, startup).sends, Startup(startup)) == Count(s.sends, Startup(startup))
    decreases |events|
  {
    if events != [] {
      NextSendsOne(s, events[0], startup);
      NoStartupsLater(Next(s, events[0], startup), events[1..], startup);
    }
  }

  lemma {:induction false} RunSendsStartups(s: State, events: seq<Event>, startup: Text)
    requires Possible(s, events, startup) && Resent(s) <= SHADOW_STARTUP_RESENDS
    requires s.stage.Starting? || (s.stage.Waiting? && s.stage.armed)
    ensures NumTimeouts(events) <= SHADOW_STARTUP_RESENDS + 1 - Resent(s)
    ensures Count(Run(s, events, startup).sends, Startup(startup))
         == Count(s.sends, Startup(startup)) + NumBegin(events)
            + Min(NumTimeouts(events), SHADOW_STARTUP_RESENDS - Resent(s))
    decreases |events|
  {
    if events != [] {
      var next, rest := Next(s, events[0], startup), events[1..];
      NextSendsOne(s, events[0], startup);
      if next.stage.Starting? || (next.stage.Waiting? && next.stage.armed) {
        RunSendsStartups(next, rest, startup);
      } else {
        NoTimeoutsLater(next, rest, startup);
        NoStartupsLater(next, rest, startup);
      }
    }
  }

  /** What is sent, exactly: `ready` once for each time the key is answered, a startup at the beginning and
      one for each of the first two deadlines that pass. */
  lemma SentExactly(events: seq<Event>, startup: Text)
    requires Possible(INITIAL, events, startup)
    ensures var s := Run(INITIAL, events, startup);
            && Count(s.sends, Ready) == NumReady(events) <= 1
            && (Count(s.sends, Ready) == 1 <==> SendReady in events)
            && (s.stage.Relaying? ==> Count(s.sends, Ready) == 1)
            && NumTimeouts(events) <= 3
            && Count(s.sends, Startup(startup)) == NumBegin(events) + Min(NumTimeouts(events), 2)
  {
    RunSendsReady(INITIAL, events, startup);
    RunSendsStartups(INITIAL, events, startup);
    RunSends(INITIAL, events, startup);
    NumReadyIn(events);
  }

  /** The key of the first message that carries one. */
  function FirstKey(events: seq<Event>): Option<Text> {
    if events == [] then None
    else match events[0]
         case Begin(key) => if key.Some? then key else FirstKey(events[1..])
         case Received(key) => if key.Some? then key else FirstKey(events[1..])
         case _ => FirstKey(events[1..])
  }

  lemma {:induction false} KeyOfRun(s: State, events: seq<Event>, startup: Text)
    requires Possible(s, events, startup) && (s.phoneKey.Some? ==> !s.stage.Starting? && !s.stage.Waiting?)
    ensures Run(s, events, startup).phoneKey == if s.phoneKey.Some? then s.phoneKey else FirstKey(events)
    decreases |events|
  {
    if events != [] {
      KeyOfRun(Next(s, events[0], startup), events[1..], startup);
    }
  }

  /** The key stored is the first one announced. */
  lemma KeyIsFirst(events: seq<Event>, startup: Text)
    requires Possible(INITIAL, events, startup)
    ensures Run(INITIAL, events, startup).phoneKey == FirstKey(events)
  {
    KeyOfRun(INITIAL, events, startup);
  }

  // ---------- where the handshake stands ----------

  predicate RelayWaitOver(events: seq<Event>) {
    RelaySeen in events || RelayTimeout in events
  }

  lemma {:induction false} DoneOn(s: State, events: seq<Event>, startup: Text)
    requires Possible(s, events, startup) && s.stage.Done?
    ensures Run(s, events, startup).stage.Done?
    ensures NumBegin(events) == 0 && FirstKey(events) == None && Closed !in events
    ensures SendReady !in events && !RelayWaitOver(events)
    decreases |events|
  {
    if events != [] {
      assert events == [events[0]] + events[1..];
      DoneOn(Next(s, events[0], startup), events[1..], startup);
    }
  }

  lemma {:induction false} RelayingOn(s: State, events: seq<Event>, startup: Text)
    requires Possible(s, events, startup) && s.stage.Relaying?
    ensures Run(s, events, startup).stage == if RelayWaitOver(events) then Done else Relaying
    ensures NumBegin(events) == 0 && FirstKey(events) == None && Closed !in events && SendReady !in events
    decreases |events|
  {
    if events != [] {
      var next, rest := Next(s, events[0], startup), events[1..];
      assert events == [events[0]] + rest;
      if next.stage.Done? {
        DoneOn(next, rest, startup);
      } else {
        RelayingOn(next, rest, startup);
      }
    }
  }

  lemma {:induction false} KeyedOn(s: State, events: seq<Event>, startup: Text)
    requires Possible(s, events, startup) && s.stage.Keyed?
    ensures Run(s, events, startup).stage
         == if SendReady !in events then Keyed else if RelayWaitOver(events) then Done else Relaying
    ensures NumBegin(events) == 0 && FirstKey(events) == None && Closed !in events
    ensures RelayWaitOver(events) ==> SendReady in events
    decreases |events|
  {
    if events != [] {
      var next, rest := Next(s, events[0], startup), events[1..];
      assert events == [events[0]] + rest;
      if next.stage.Relaying? {
        RelayingOn(next, rest, startup);
      } else {
        KeyedOn(next, rest, startup);
      }
    }
  }

  lemma {:induction false} WaitingOn(s: State, events: seq<Event>, startup: Text)
    requires Possible(s, events, startup) && s.stage.Waiting?
    ensures var stage := Run(s, events, startup).stage;
            if Closed in events then stage.Done? && FirstKey(events) == None && SendReady !in events
            else if FirstKey(events) == None then stage.Waiting? && SendReady !in events
            else stage == if SendReady !in events then Keyed else if RelayWaitOver(events) then Done else Relaying
    ensures NumBegin(events) == 0 && (RelayWaitOver(events) ==> SendReady in events)
    decreases |events|
  {
    if events != [] {
      var next, rest := Next(s, events[0], startup), events[1..];
      assert events == [events[0]] + rest;
      if next.stage.Done? {
        DoneOn(next, rest, startup);
      } else if next.stage.Keyed? {
        KeyedOn(next, rest, startup);
      } else {
        WaitingOn(next, rest, startup);
      }
    }
  }

  lemma {:induction false} StartingOn(s: State, events: seq<Event>, startup: Text)
    requires Possible(s, events, startup) && s.stage.Starting?
    ensures var stage := Run(s, events, startup).stage;
            if NumBegin(events) == 0 then stage.Starting? && FirstKey(events) == None && Closed !in events
            else if Closed in events then stage.Done? && FirstKey(events) == None
            else if FirstKey(events) == None then stage.Waiting?
            else stage == if SendReady !in events then Keyed else if RelayWaitOver(events) then Done else Relaying
    ensures SendReady in events ==> NumBegin(events) > 0 && FirstKey(events).Some? && Closed !in events
    ensures RelayWaitOver(events) ==> SendReady in events
    decreases |events|
  {
    if events != [] {
      var next, rest := Next(s, events[0], startup), events[1..];
      assert events == [events[0]] + rest;
      if next.stage.Keyed? {
        KeyedOn(next, rest, startup);
      } else if next.stage.Waiting? {
        WaitingOn(next, rest, startup);
      } else {
        StartingOn(next, rest, startup);
      }
    }
  }

  /** Where the handshake stands, exactly: it waits until a key or the end of its messages comes, whatever lags and
      deadlines pass meanwhile; then it answers the key, and waits for the relay until that is over. */
  lemma StageExactly(events: seq<Event>, startup: Text)
    requires Possible(INITIAL, events, startup)
    ensures var stage := Run(INITIAL, events, startup).stage;
            && (stage.Starting? <==> NumBegin(events) == 0)
            && (stage.Waiting? <==> NumBegin(events) > 0 && FirstKey(events) == None && Closed !in events)
            && (stage.Keyed? <==> FirstKey(events).Some? && SendReady !in events)
            && (stage.Relaying? <==> SendReady in events && !RelayWaitOver(events))
            && (stage.Done? <==> Closed in events || RelayWaitOver(events))
  {
    StartingOn(INITIAL, events, startup);
  }

  function NumConnects(events: seq<Event>): nat {
    if events == [] then 0 else (if events[0].PhoneConnects? then 1 else 0) + NumConnects(events[1..])
  }

  function NumEnds(events: seq<Event>): nat {
    if events == [] then 0 else (if events[0].ConnectionEnds? then 1 else 0) + NumEnds(events[1..])
  }

  lemma {:induction false} ServerOfRun(s: State, events: seq<Event>, startup: Text)
    requires Possible(s, events, startup)
    ensures var server := Run(s, events, startup).server;
            && (server == Stopped <==> s.server == Stopped || AcceptFails in events)
            && NumConnects(events) + (if s.server == Serving then 1 else 0)
               == NumEnds(events) + (if server == Serving then 1 else 0)
    decreases |events|
  {
    if events != [] {
      assert events == [events[0]] + events[1..];
      ServerOfRun(Next(s, events[0], startup), events[1..], startup);
    }
  }

  /** What the accept loop does: one connection at a time, and none any more once accepting has failed. */
  lemma ServerExactly(events: seq<Event>, startup: Text)
    requires Possible(INITIAL, events, startup)
    ensures var server := Run(INITIAL, events, startup).server;
            && (server == Stopped <==> AcceptFails in events)
            && NumEnds(events) <= NumConnects(events) <= NumEnds(events) + 1
            && (server == Serving <==> NumConnects(events) == NumEnds(events) + 1)
  {
    ServerOfRun(INITIAL, events, startup);
  }

  /** In every schedule of messages, lags, timeouts and connections: at most three startups, all the
      same, and one `ready` just when the key was answered, which the key comes before. */
  lemma HandshakeSends(events: seq<Event>, startup: Text)
    requires Possible(INITIAL, events, startup)
    ensures var s := Run(INITIAL, events, startup);
            && (forall i :: 0 <= i < |s.sends| ==> s.sends[i] == Startup(startup) || s.sends[i] == Ready)
            && Count(s.sends, Startup(startup)) <= 1 + SHADOW_STARTUP_RESENDS
            && Count(s.sends, Ready) <= 1
            && (Count(s.sends, Ready) == 1 <==> SendReady in events)
            && (s.stage.Relaying? ==> Count(s.sends, Ready) == 1)
            && (Count(s.sends, Ready) == 1 ==> s.phoneKey.Some?)
  {
    RunSends(INITIAL, events, startup);
    SentExactly(events, startup);
  }

  // ---------- what the link says ----------

  /** The link is up exactly while a connection is served. */
  ghost predicate LinkTells(s: State) {
    s.link == Up <==> s.server == Serving
  }

  lemma NextTells(s: State, e: Event, startup: Text)
    requires Enabled(s, e) && LinkTells(s)
    ensures LinkTells(Next(s, e, startup)) <==> !(GivesUp(s, e) && s.server == Serving)
  {
  }

  /** Along a run, before each event and at the end. */
  ghost predicate LinkTellsThroughout(s: State, events: seq<Event>, startup: Text)
    requires Possible(s, events, startup)
    decreases |events|
  {
    LinkTells(s) && (events != [] ==> LinkTellsThroughout(Next(s, events[0], startup), events[1..], startup))
  }

  /** The handshake gives up while the phone is connected. */
  ghost predicate GivesUpOnPhone(s: State, events: seq<Event>, startup: Text)
    requires Possible(s, events, startup)
    decreases |events|
  {
    events != [] &&
    (|| (GivesUp(s, events[0]) && s.server == Serving)
     || GivesUpOnPhone(Next(s, events[0], startup), events[1..], startup))
  }

  /** The link tells the truth throughout exactly when the handshake never gives up on a phone that
      is there. */
  lemma {:induction false} LinkTellsUnlessGivenUp(s: State, events: seq<Event>, startup: Text)
    requires Possible(s, events, startup) && LinkTells(s)
    ensures LinkTellsThroughout(s, events, startup) <==> !GivesUpOnPhone(s, events, startup)
    decreases |events|
  {
    if events != [] {
      var next := Next(s, events[0], startup);
      if LinkTells(next) {
        LinkTellsUnlessGivenUp(next, events[1..], startup);
      }
    }
  }

  /** The phone connects only once it has been sent `ready`. */
  ghost predicate PhoneWaits(s: State, events: seq<Event>, startup: Text)
    requires Possible(s, events, startup)
    decreases |events|
  {
    events != [] ==>
      && (events[0].PhoneConnects? ==> Count(s.sends, Ready) > 0)
      && PhoneWaits(Next(s, events[0], startup), events[1..], startup)
  }

  /** A phone that waits is being served only after `ready`. */
  ghost predicate ServesAfterReady(s: State, startup: Text) {
    SendsInv(s, startup) && (s.server == Serving ==> Count(s.sends, Ready) > 0)
  }

  lemma NextServesAfterReady(s: State, e: Event, startup: Text)
    requires Enabled(s, e) && ServesAfterReady(s, startup)
    requires e.PhoneConnects? ==> Count(s.sends, Ready) > 0
    ensures ServesAfterReady(Next(s, e, startup), startup)
    ensures !(GivesUp(s, e) && s.server == Serving)
  {
    NextSends(s, e, startup);
    CountAppend(s.sends, Startup(startup), Ready);
    CountAppend(s.sends, Ready, Ready);
  }

  lemma {:induction false} WaitingPhoneIsNotGivenUp(s: State, events: seq<Event>, startup: Text)
    requires Possible(s, events, startup) && PhoneWaits(s, events, startup) && ServesAfterReady(s, startup)
    ensures !GivesUpOnPhone(s, events, startup)
    decreases |events|
  {
    if events != [] {
      NextServesAfterReady(s, events[0], startup);
      WaitingPhoneIsNotGivenUp(Next(s, events[0], startup), events[1..], startup);
    }
  }

  /** With a phone that waits for `ready`, the link is up exactly while the accept loop serves it. */
  lemma LinkTellsForWaitingPhone(events: seq<Event>, startup: Text)
    requires Possible(INITIAL, events, startup) && PhoneWaits(INITIAL, events, startup)
    ensures LinkTellsThroughout(INITIAL, events, startup)
  {
    WaitingPhoneIsNotGivenUp(INITIAL, events, startup);
    LinkTellsUnlessGivenUp(INITIAL, events, startup);
  }

  lemma RunCons(s: State, e: Event, events: seq<Event>, startup: Text)
    requires Enabled(s, e) && Possible(Next(s, e, startup), events, startup)
    ensures Possible(s, [e] + events, startup)
    ensures Run(s, [e] + events, startup) == Run(Next(s, e, startup), events, startup)
  {
    assert ([e] + events)[1..] == events;
  }

  /** A phone that waits does get to connect: its key, `ready`, the connection, and the link is up. */
  lemma WaitingPhoneConnects(key: Text, startup: Text) returns (events: seq<Event>)
    ensures events == [Begin(None), Received(Some(key)), SendReady, PhoneConnects]
    ensures Possible(INITIAL, events, startup) && PhoneWaits(INITIAL, events, startup)
    ensures Run(INITIAL, events, startup)
         == State(Relaying, Serving, Up, Some(key), [Startup(startup), Ready])
  {
    var s1 := Next(INITIAL, Begin(None), startup);
    var s2 := Next(s1, Received(Some(key)), startup);
    var s3 := Next(s2, SendReady, startup);
    var e4, e3, e2 := [PhoneConnects], [SendReady, PhoneConnects], [Received(Some(key)), SendReady, PhoneConnects];
    events := [Begin(None), Received(Some(key)), SendReady, PhoneConnects];
    assert e4[1..] == [] && e3[1..] == e4 && e2[1..] == e3 && events[1..] == e2;
    assert s3.sends == [Startup(startup)] + [Ready];
    CountAppend([Startup(startup)], Ready, Ready);
    assert PhoneWaits(s3, e4, startup) && Run(s3, e4, startup) == Next(s3, PhoneConnects, startup);
    assert PhoneWaits(s2, e3, startup) && PhoneWaits(s1, e2, startup);
    assert Run(s2, e3, startup) == Run(s3, e4, startup);
    assert Run(s1, e2, startup) == Run(s2, e3, startup);
  }

  /** Some event that says what has become of the link has happened: a connection, a last deadline, or the
      end of the wait for one. */
  predicate Decided(events: seq<Event>) {
    PhoneConnects in events || RelayTimeout in events || NumTimeouts(events) > SHADOW_STARTUP_RESENDS
  }

  lemma {:induction false} PendingFrom(s: State, events: seq<Event>, startup: Text)
    requires Possible(s, events, startup) && Resent(s) <= SHADOW_STARTUP_RESENDS
    requires s.stage.Waiting? && !s.stage.armed ==> s.link != Pending
    requires s.server == Serving ==> s.link != Pending
    ensures Run(s, events, startup).link == Pending
       <==> s.link == Pending && PhoneConnects !in events && RelayTimeout !in events
            && NumTimeouts(events) <= SHADOW_STARTUP_RESENDS - Resent(s)
    decreases |events|
  {
    if events != [] {
      var next, rest := Next(s, events[0], startup), events[1..];
      assert events == [events[0]] + rest;
      PendingFrom(next, rest, startup);
      if !next.stage.Starting? && !(next.stage.Waiting? && next.stage.armed) {
        NoTimeoutsLater(next, rest, startup);
      }
    }
  }

  /** The link is undecided exactly until something has decided it. */
  lemma PendingExactly(events: seq<Event>, startup: Text)
    requires Possible(INITIAL, events, startup)
    ensures Run(INITIAL, events, startup).link == Pending <==> !Decided(events)
  {
    PendingFrom(INITIAL, events, startup);
  }

  /** A phone that connects early and announces no key in time: the link reads down while it is
      being served. */
  lemma EarlyPhoneIsGivenUp(startup: Text)
    ensures var events := [Begin(None), PhoneConnects, Timeout, Timeout, Timeout];
            && Possible(INITIAL, events, startup)
            && Run(INITIAL, events, startup).server == Serving
            && Run(INITIAL, events, startup).link == Down
  {
    var s1 := Next(INITIAL, Begin(None), startup);
    var s2 := Next(s1, PhoneConnects, startup);
    var s3 := Next(s2, Timeout, startup);
    var s4 := Next(s3, Timeout, startup);
    var s5 := Next(s4, Timeout, startup);
    RunCons(s4, Timeout, [], startup);
    RunCons(s3, Timeout, [Timeout], startup);
    RunCons(s2, Timeout, [Timeout, Timeout], startup);
    RunCons(s1, PhoneConnects, [Timeout, Timeout, Timeout], startup);
    RunCons(INITIAL, Begin(None), [PhoneConnects, Timeout, Timeout, Timeout], startup);
    assert [Timeout] + [] == [Timeout];
    assert [Timeout] + [Timeout] == [Timeout, Timeout];
    assert [Timeout] + [Timeout, Timeout] == [Timeout, Timeout, Timeout];
    assert [PhoneConnects] + [Timeout, Timeout, Timeout] == [PhoneConnects, Timeout, Timeout, Timeout];
    assert [Begin(None)] + [PhoneConnects, Timeout, Timeout, Timeout]
        == [Begin(None), PhoneConnects, Timeout, Timeout, Timeout];
  }

  // ---------- the tasks ----------

  /** What the two tasks share and keep, updated in place. */
  class Relay {
    var stage: Stage
    var server: Server
    var link: ClipLink
    var phoneKey: Option<Text>
    var sends: seq<Message>
    const startup: Text

    ghost function Abstract(): State
      reads this
    {
      State(stage, server, link, phoneKey, sends)
    }

    constructor (startup: Text)
      ensures Abstract() == INITIAL && this.startup == startup
    {
      stage, server, link, phoneKey, sends := Starting, Listening, Pending, None, [];
      this.startup := startup;
    }

    method Send(m: Message)
      modifies this`sends
      ensures sends == old(sends) + [m]
    {
      sends := sends + [m];
    }

    /** The first half of `apply_shadow`: a message with a key in it ends the wait. */
    method ApplyShadow(key: Option<Text>)
      modifies this`phoneKey, this`stage
      ensures Abstract() == StoreKey(old(Abstract()), key)
    {
      if key.Some? {
        phoneKey := key;
        stage := Keyed;
      }
    }

    method OnBegin(retained: Option<Text>)
      requires stage.Starting?
      modifies this
      ensures Abstract() == Next(old(Abstract()), Begin(retained), startup)
    {
      Send(Startup(startup));
      stage := Waiting(0, true);
      ApplyShadow(retained);
    }

    method OnTimeout()
      requires stage.Waiting? && stage.armed
      modifies this
      ensures Abstract() == Next(old(Abstract()), Timeout, startup)
    {
      var resent := stage.resent;
      if resent < SHADOW_STARTUP_RESENDS {
        Send(Startup(startup));
        stage := Waiting(resent + 1, true);
      } else {
        link := Down;
        stage := Waiting(resent, false);
      }
    }

    /** `await_relay` when its wait runs out. */
    method OnRelayTimeout()
      requires stage.Relaying?
      modifies this
      ensures Abstract() == Next(old(Abstract()), RelayTimeout, startup)
    {
      if link != Up {
        link := Down;
      }
      stage := Done;
    }

    /** One event, to the task it belongs to. */
    method Handle(e: Event)
      requires Enabled(Abstract(), e)
      modifies this
      ensures Abstract() == Next(old(Abstract()), e, startup)
    {
      match e {
        case Begin(retained) => OnBegin(retained);
        case Timeout => OnTimeout();
        case Received(key) => ApplyShadow(key);
        case Lagged =>
        case Closed => stage := Done;
        case SendReady =>
          Send(Ready);
          stage := Relaying;
        case RelaySeen => stage := Done;
        case RelayTimeout => OnRelayTimeout();
        case PhoneConnects => server, link := Serving, Up;
        case ConnectionEnds => server, link := Listening, Down;
        case AcceptFails => server := Stopped;
      }
    }

    /** Whatever happens, what is sent stays in order; and a true link stays true exactly when the
        handshake does not give up on a phone that is served. */
    method Dispatch(e: Event)
      requires Enabled(Abstract(), e) && SendsInv(Abstract(), startup)
      modifies this
      ensures Abstract() == Next(old(Abstract()), e, startup)
      ensures SendsInv(Abstract(), startup)
      ensures old(LinkTells(Abstract())) ==>
                (LinkTells(Abstract()) <==> !old(GivesUp(Abstract(), e) && server == Serving))
    {
      NextSends(Abstract(), e, startup);
      if LinkTells(Abstract()) {
        NextTells(Abstract(), e, startup);
      }
      Handle(e);
    }

    /** A whole schedule of events. */
    method Play(events: seq<Event>)
      requires Abstract() == INITIAL && Possible(INITIAL, events, startup)
      modifies this
      ensures Abstract() == Run(INITIAL, events, startup)
      ensures SendsInv(Abstract(), startup)
    {
      for k := 0 to |events|
        invariant SendsInv(Abstract(), startup)
        invariant Possible(Abstract(), events[k..], startup)
        invariant Run(Abstract(), events[k..], startup) == Run(INITIAL, events, startup)
      {
        assert events[k..][0] == events[k] && events[k..][1..] == events[k + 1..];
        Dispatch(events[k]);
      }
    }
  }
}
