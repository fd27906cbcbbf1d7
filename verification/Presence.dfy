/** One presence connection: held open, upgraded in place, and what it owes the phone. */
module Presence {
  import opened Bytes

  type Token = seq<byte>

  /** `token` is the one this connection starts with. */
  datatype Config = Config(announceOnHold: bool, reregisterOnAsk: bool, token: Token)

  /** The session owner's answer; `hasEnd` when a signal for the session's end comes with it. */
  datatype Answer = Answer(code: int, hasEnd: bool)

  /** What happens on a connection, in order: frames written, a connect request read while holding, the
      token handed to whoever brings the session up and the answer (none in time, or none ever), local
      requests and their outcome, and the ways a session or a connection ends. */
  datatype Act =
    | DeviceInfo
    | Connect(token: Token)
    | Requested
    | Ack
    | HandOut(token: Token)
    | Answered(answer: Option<Answer>)
    | Outcome(code: int, live: bool)
    | LocalRequested(callerThere: bool)
    | LocalToken(token: Token)
    | LocalRefused
    | SessionOver
    | PhoneClosed
    | ReadFailed
    | WriteFailed

  /** A session was handed over that presence then only waits out. */
  predicate IsLive(a: Act) {
    a.LocalToken? || (a.Outcome? && a.live)
  }

  // ---------- the grammar ----------

  /** `local` tells whose request an upgrade serves: none for the phone's, else whether the local
      caller is still there for the token. */
  datatype Phase =
    | Opening
    | Announcing
    | Holding
    | Asked
    | Acked
    | LocalAsked(callerThere: bool)
    | Exchanged(local: Option<bool>)
    | Registered(token: Token, local: Option<bool>)
    | Refusing
    | Handed
    | Reporting(answer: Answer)
    | Over
    | Gone
    | Broken

  /** Where a write is due it may fail. */
  function Broke(a: Act): Option<Phase> {
    if a.WriteFailed? then Some(Broken) else None
  }

  /** Where a read is waited for the connection may end. */
  function Ended(a: Act): Option<Phase> {
    if a.PhoneClosed? then Some(Gone) else if a.ReadFailed? then Some(Broken) else None
  }

  function Step(cfg: Config, p: Phase, a: Act): Option<Phase> {
    match p
    case Opening =>
      if a.DeviceInfo? then Some(if cfg.announceOnHold then Announcing else Holding) else Broke(a)
    case Announcing => if a == Connect(cfg.token) then Some(Holding) else Broke(a)
    case Holding =>
      if a.Requested? then Some(Asked)
      else if a.LocalRequested? then Some(LocalAsked(a.callerThere))
      else Ended(a)
    case Asked => if a.Ack? then Some(Acked) else Broke(a)
    case Acked =>
      if cfg.reregisterOnAsk then (if a.DeviceInfo? then Some(Exchanged(None)) else Broke(a))
      else if a == HandOut(cfg.token) then Some(Handed) else None
    case LocalAsked(callerThere) =>
      if a.DeviceInfo? then Some(Exchanged(Some(callerThere))) else if a.WriteFailed? then Some(Refusing) else None
    case Exchanged(local) =>
      if a.Connect? then Some(Registered(a.token, local))
      else if local == None then Broke(a) else if a.WriteFailed? then Some(Refusing) else None
    case Registered(token, local) =>
      if local == None then (if a == HandOut(token) then Some(Handed) else None)
      else if local.value then (if a == LocalToken(token) then Some(Over) else None)
      else if a.LocalRefused? then Some(Holding) else None
    case Refusing => if a.LocalRefused? then Some(Holding) else None
    case Handed =>
      if a.Answered? then Some(if a.answer.Some? then Reporting(a.answer.value) else Holding) else Ended(a)
    case Reporting(answer) =>
      if a == Outcome(answer.code, answer.hasEnd) then Some(if a.live then Over else Holding) else Broke(a)
    case Over => if a.SessionOver? then Some(Gone) else Ended(a)
    case Gone => None
    case Broken => None
  }

  /** The phase a trace leads to; none when the trace is not one of the grammar. */
  function After(cfg: Config, trace: seq<Act>): Option<Phase> {
    if trace == [] then Some(Opening)
    else
      match After(cfg, trace[..|trace| - 1])
      case Some(p) => Step(cfg, p, trace[|trace| - 1])
      case None => None
  }

  ghost predicate Conforms(cfg: Config, trace: seq<Act>) {
    After(cfg, trace).Some?
  }

  lemma AfterAct(cfg: Config, trace: seq<Act>, a: Act)
    requires Conforms(cfg, trace)
    ensures After(cfg, trace + [a]) == Step(cfg, After(cfg, trace).value, a)
  {
    assert (trace + [a])[..|trace|] == trace;
  }

  lemma {:induction false} PrefixConforms(cfg: Config, trace: seq<Act>, j: nat)
    requires Conforms(cfg, trace) && j <= |trace|
    ensures Conforms(cfg, trace[..j])
  {
    if j < |trace| {
      PrefixConforms(cfg, trace[..|trace| - 1], j);
      assert trace[..|trace| - 1][..j] == trace[..j];
    } else {
      assert trace[..j] == trace;
    }
  }

  /** The phase before an act, and the act as the step out of it. */
  lemma PhaseBefore(cfg: Config, trace: seq<Act>, j: nat) returns (p: Phase)
    requires Conforms(cfg, trace) && j < |trace|
    ensures After(cfg, trace[..j]) == Some(p) && Step(cfg, p, trace[j]).Some?
    ensures After(cfg, trace[..j + 1]) == Step(cfg, p, trace[j])
  {
    PrefixConforms(cfg, trace, j);
    PrefixConforms(cfg, trace, j + 1);
    assert trace[..j + 1][..j] == trace[..j];
    p := After(cfg, trace[..j]).value;
  }

  // ---------- how each phase was reached ----------

  lemma AskedBy(cfg: Config, trace: seq<Act>, j: nat)
    requires Conforms(cfg, trace) && j <= |trace| && After(cfg, trace[..j]) == Some(Asked)
    ensures j > 0 && trace[j - 1] == Requested
  {
    assert trace[..0] == [];
    var p := PhaseBefore(cfg, trace, j - 1);
  }

  lemma AckedBy(cfg: Config, trace: seq<Act>, j: nat)
    requires Conforms(cfg, trace) && j <= |trace| && After(cfg, trace[..j]) == Some(Acked)
    ensures j > 1 && trace[j - 1] == Ack && trace[j - 2] == Requested
  {
    assert trace[..0] == [];
    var p := PhaseBefore(cfg, trace, j - 1);
    AskedBy(cfg, trace, j - 1);
  }

  lemma ExchangedBy(cfg: Config, trace: seq<Act>, j: nat)
    requires Conforms(cfg, trace) && j <= |trace| && After(cfg, trace[..j]) == Some(Exchanged(None))
    ensures j > 0 && trace[j - 1] == DeviceInfo && After(cfg, trace[..j - 1]) == Some(Acked)
  {
    assert trace[..0] == [];
    var p := PhaseBefore(cfg, trace, j - 1);
  }

  lemma RegisteredBy(cfg: Config, trace: seq<Act>, j: nat, token: Token, local: Option<bool>)
    requires Conforms(cfg, trace) && j <= |trace| && After(cfg, trace[..j]) == Some(Registered(token, local))
    ensures j > 0 && trace[j - 1] == Connect(token) && After(cfg, trace[..j - 1]) == Some(Exchanged(local))
  {
    assert trace[..0] == [];
    var p := PhaseBefore(cfg, trace, j - 1);
  }

  lemma StepToHanded(cfg: Config, p: Phase, a: Act)
    requires Step(cfg, p, a) == Some(Handed)
    ensures a.HandOut?
  {
  }

  lemma HandedBy(cfg: Config, trace: seq<Act>, j: nat)
    requires Conforms(cfg, trace) && j <= |trace| && After(cfg, trace[..j]) == Some(Handed)
    ensures j > 0 && trace[j - 1].HandOut?
  {
    assert trace[..0] == [];
    var p := PhaseBefore(cfg, trace, j - 1);
    StepToHanded(cfg, p, trace[j - 1]);
  }

  lemma ReportingBy(cfg: Config, trace: seq<Act>, j: nat, answer: Answer)
    requires Conforms(cfg, trace) && j <= |trace| && After(cfg, trace[..j]) == Some(Reporting(answer))
    ensures j > 0 && trace[j - 1] == Answered(Some(answer)) && After(cfg, trace[..j - 1]) == Some(Handed)
  {
    assert trace[..0] == [];
    var p := PhaseBefore(cfg, trace, j - 1);
  }

  // ---------- what the grammar promises ----------

  /** Each `[25]` answers the connect request read just before it. */
  lemma AckAnswersRequest(cfg: Config, trace: seq<Act>, j: nat)
    requires Conforms(cfg, trace) && j < |trace| && trace[j].Ack?
    ensures j > 0 && trace[j - 1] == Requested
  {
    var p := PhaseBefore(cfg, trace, j);
    AskedBy(cfg, trace, j);
  }

  /** A connection that is gone or broken does nothing more. */
  lemma NothingFollows(cfg: Config, trace: seq<Act>, j: nat)
    requires Conforms(cfg, trace) && j <= |trace|
    requires After(cfg, trace[..j]) == Some(Gone) || After(cfg, trace[..j]) == Some(Broken)
    ensures j == |trace|
  {
    if j < |trace| {
      var p := PhaseBefore(cfg, trace, j);
    }
  }

  /** A request is answered before anything else happens, unless the write itself fails. */
  lemma RequestIsAnswered(cfg: Config, trace: seq<Act>, j: nat)
    requires Conforms(cfg, trace) && j + 1 < |trace| && trace[j].Requested?
    ensures trace[j + 1] == Ack || (trace[j + 1] == WriteFailed && |trace| == j + 2)
  {
    var p := PhaseBefore(cfg, trace, j);
    var q := PhaseBefore(cfg, trace, j + 1);
    if trace[j + 1].WriteFailed? {
      NothingFollows(cfg, trace, j + 2);
    }
  }

  /** A token handed out has been registered just before, or is the one the connection started with;
      either way right after the `[25]` it belongs to. */
  lemma HandOutIsPrepared(cfg: Config, trace: seq<Act>, j: nat)
    requires Conforms(cfg, trace) && j < |trace| && trace[j].HandOut?
    ensures if cfg.reregisterOnAsk then
              j >= 4 && trace[j - 1] == Connect(trace[j].token) && trace[j - 2] == DeviceInfo
              && trace[j - 3] == Ack && trace[j - 4] == Requested
            else j >= 2 && trace[j - 1] == Ack && trace[j - 2] == Requested && trace[j].token == cfg.token
  {
    var p := PhaseBefore(cfg, trace, j);
    if cfg.reregisterOnAsk {
      RegisteredBy(cfg, trace, j, trace[j].token, None);
      ExchangedBy(cfg, trace, j - 1);
      AckedBy(cfg, trace, j - 2);
    } else {
      AckedBy(cfg, trace, j);
    }
  }

  /** Each `[27]` reports the answer that came just before it, to the token handed out before that. */
  lemma OutcomeReportsAnswer(cfg: Config, trace: seq<Act>, j: nat)
    requires Conforms(cfg, trace) && j < |trace| && trace[j].Outcome?
    ensures j >= 2 && trace[j - 1] == Answered(Some(Answer(trace[j].code, trace[j].live))) && trace[j - 2].HandOut?
  {
    var p := PhaseBefore(cfg, trace, j);
    ReportingBy(cfg, trace, j, Answer(trace[j].code, trace[j].live));
    HandedBy(cfg, trace, j - 1);
  }

  /** Each `[27]` follows its own `[25]`: nothing but the upgrade, the hand-out and the answer lies
      between. */
  lemma OutcomeFollowsAck(cfg: Config, trace: seq<Act>, j: nat) returns (ack: nat)
    requires Conforms(cfg, trace) && j < |trace| && trace[j].Outcome?
    ensures 0 < ack < j && trace[ack - 1] == Requested && trace[ack] == Ack
    ensures forall k :: ack < k < j ==> !trace[k].Ack? && !trace[k].Requested? && !trace[k].Outcome?
  {
    OutcomeReportsAnswer(cfg, trace, j);
    HandOutIsPrepared(cfg, trace, j - 2);
    ack := if cfg.reregisterOnAsk then j - 5 else j - 3;
  }

  /** An acknowledged request that is not settled yet. */
  ghost predicate Owing(p: Phase) {
    p.Acked? || p.Handed? || p.Reporting? || (p.Exchanged? && p.local == None) || (p.Registered? && p.local == None)
  }

  predicate Settles(a: Act) {
    a.Outcome? || a == Answered(None)
  }

  lemma OwingStep(cfg: Config, p: Phase, a: Act)
    requires Owing(p) && Step(cfg, p, a).Some?
    ensures !a.Requested? && !a.Ack?
    ensures var q := Step(cfg, p, a).value;
            Settles(a) || Owing(q) || q.Gone? || q.Broken?
  {
  }

  lemma {:induction false} OwingIsSettled(cfg: Config, trace: seq<Act>, i: nat, j: nat) returns (k: nat)
    requires Conforms(cfg, trace) && i <= j < |trace| && trace[j].Requested?
    requires After(cfg, trace[..i]).Some? && Owing(After(cfg, trace[..i]).value)
    ensures i <= k < j && Settles(trace[k])
    ensures forall m :: i <= m < k ==> !trace[m].Requested? && !trace[m].Ack? && !Settles(trace[m])
    decreases j - i
  {
    var p := PhaseBefore(cfg, trace, i);
    OwingStep(cfg, p, trace[i]);
    k := i;
    if !Settles(trace[i]) {
      var q := Step(cfg, p, trace[i]).value;
      if q.Gone? || q.Broken? {
        NothingFollows(cfg, trace, i + 1);
      }
      k := OwingIsSettled(cfg, trace, i + 1, j);
    }
  }

  /** Each `[25]` is settled before the next request: by its `[27]`, or by an answer that never came; and
      before that by nothing else. */
  lemma AckIsSettled(cfg: Config, trace: seq<Act>, ack: nat, j: nat) returns (k: nat)
    requires Conforms(cfg, trace) && ack < j < |trace| && trace[ack].Ack? && trace[j].Requested?
    ensures ack < k < j && Settles(trace[k])
    ensures forall m :: ack < m < k ==> !trace[m].Requested? && !trace[m].Ack? && !Settles(trace[m])
  {
    var p := PhaseBefore(cfg, trace, ack);
    k := OwingIsSettled(cfg, trace, ack + 1, j);
  }

  /** The token in the last `bytes:[0]` sent. */
  function LastConnect(trace: seq<Act>): Option<Token> {
    if trace == [] then None
    else
      var last := trace[|trace| - 1];
      if last.Connect? then Some(last.token) else LastConnect(trace[..|trace| - 1])
  }

  lemma LastConnectJust(trace: seq<Act>, j: nat)
    requires 0 < j <= |trace| && trace[j - 1].Connect?
    ensures LastConnect(trace[..j]) == Some(trace[j - 1].token)
  {
  }

  /** With re-registration, a token handed out, to the session's owner or to a local caller, is the
      one in the last `bytes:[0]` sent. */
  lemma HandedTokenIsRegistered(cfg: Config, trace: seq<Act>, j: nat)
    requires Conforms(cfg, trace) && j < |trace| && cfg.reregisterOnAsk
    requires trace[j].HandOut? || trace[j].LocalToken?
    ensures LastConnect(trace[..j]) == Some(trace[j].token)
  {
    var p := PhaseBefore(cfg, trace, j);
    RegisteredBy(cfg, trace, j, trace[j].token, p.local);
    LastConnectJust(trace, j);
  }

  /** `bytes:[0]` was sent once, with the starting token, and never since. */
  ghost predicate OnlyAnnounced(cfg: Config, trace: seq<Act>, j: nat)
    requires j <= |trace|
  {
    cfg.announceOnHold && forall k :: 2 <= k < j ==> !trace[k].Connect?
  }

  lemma OpeningActs(cfg: Config, trace: seq<Act>)
    requires Conforms(cfg, trace) && |trace| > 2
    ensures trace[0] == DeviceInfo
    ensures if cfg.announceOnHold then trace[1] == Connect(cfg.token) else !trace[1].Connect?
  {
    assert trace[..0] == [];
    var p := PhaseBefore(cfg, trace, 0);
    if trace[0].WriteFailed? {
      NothingFollows(cfg, trace, 1);
    }
    var q := PhaseBefore(cfg, trace, 1);
    if trace[1].WriteFailed? {
      NothingFollows(cfg, trace, 2);
    }
  }

  lemma {:induction false} LastConnectSearch(cfg: Config, trace: seq<Act>, j: nat)
    requires 2 <= j <= |trace| && trace[0] == DeviceInfo
    requires if cfg.announceOnHold then trace[1] == Connect(cfg.token) else !trace[1].Connect?
    requires forall k :: 2 <= k < |trace| && trace[k].Connect? ==> trace[k].token != cfg.token
    ensures LastConnect(trace[..j]) == Some(cfg.token) <==> OnlyAnnounced(cfg, trace, j)
  {
    assert trace[..j][..j - 1] == trace[..j - 1];
    if j > 2 {
      if !trace[j - 1].Connect? {
        LastConnectSearch(cfg, trace, j - 1);
      }
    } else if !cfg.announceOnHold {
      assert trace[..1][..0] == [];
      assert LastConnect(trace[..1]) == LastConnect([]);
    }
  }

  /** Without it, the token handed out for a phone's request is the last one sent exactly when the
      connection announced itself on hold and no local request has re-registered it since. */
  lemma HandedTokenWithoutReregister(cfg: Config, trace: seq<Act>, j: nat)
    requires Conforms(cfg, trace) && j < |trace| && !cfg.reregisterOnAsk && trace[j].HandOut?
    requires forall k :: 2 <= k < |trace| && trace[k].Connect? ==> trace[k].token != cfg.token
    ensures LastConnect(trace[..j]) == Some(trace[j].token) <==> OnlyAnnounced(cfg, trace, j)
  {
    HandOutIsPrepared(cfg, trace, j);
    OpeningActs(cfg, trace);
    LastConnectSearch(cfg, trace, j);
  }

  /** A connection that neither announces itself nor re-registers hands out a token it never sent. */
  lemma TokenHandedUnsent(token: Token) returns (trace: seq<Act>)
    ensures trace == [DeviceInfo, Requested, Ack, HandOut(token)]
    ensures Conforms(Config(false, false, token), trace) && LastConnect(trace) == None
  {
    var cfg := Config(false, false, token);
    var t1, t2, t3 := [DeviceInfo], [DeviceInfo, Requested], [DeviceInfo, Requested, Ack];
    trace := [DeviceInfo, Requested, Ack, HandOut(token)];
    assert trace[..3] == t3 && t3[..2] == t2 && t2[..1] == t1 && t1[..0] == [];
    assert After(cfg, t1) == Some(Holding) && LastConnect(t1) == None;
    assert After(cfg, t2) == Some(Asked) && LastConnect(t2) == None;
    assert After(cfg, t3) == Some(Acked) && LastConnect(t3) == None;
  }

  lemma LiveIsOver(cfg: Config, trace: seq<Act>, j: nat)
    requires Conforms(cfg, trace) && j < |trace| && IsLive(trace[j])
    ensures After(cfg, trace[..j + 1]) == Some(Over)
  {
    var p := PhaseBefore(cfg, trace, j);
  }

  /** Nothing is sent once a live session has been handed over: the connection only ends. */
  lemma NothingAfterLiveSession(cfg: Config, trace: seq<Act>, j: nat)
    requires Conforms(cfg, trace) && j < |trace| && IsLive(trace[j])
    ensures |trace| <= j + 2
    ensures forall k :: j < k < |trace| ==> trace[k].SessionOver? || trace[k].PhoneClosed? || trace[k].ReadFailed?
  {
    LiveIsOver(cfg, trace, j);
    if j + 1 < |trace| {
      var q := PhaseBefore(cfg, trace, j + 1);
      NothingFollows(cfg, trace, j + 2);
    }
  }

  /** A session is waited out only where a live one was just handed over. */
  lemma SessionOverAfterLive(cfg: Config, trace: seq<Act>, j: nat)
    requires Conforms(cfg, trace) && j < |trace| && trace[j].SessionOver?
    ensures j > 0 && IsLive(trace[j - 1])
  {
    assert trace[..0] == [];
    var p := PhaseBefore(cfg, trace, j);
    var q := PhaseBefore(cfg, trace, j - 1);
  }

  lemma LocalAskedBy(cfg: Config, trace: seq<Act>, j: nat, callerThere: bool)
    requires Conforms(cfg, trace) && j <= |trace| && After(cfg, trace[..j]) == Some(LocalAsked(callerThere))
    ensures j > 0 && trace[j - 1] == LocalRequested(callerThere)
  {
    assert trace[..0] == [];
    var p := PhaseBefore(cfg, trace, j - 1);
  }

  lemma LocalExchangedBy(cfg: Config, trace: seq<Act>, j: nat, callerThere: bool)
    requires Conforms(cfg, trace) && j <= |trace| && After(cfg, trace[..j]) == Some(Exchanged(Some(callerThere)))
    ensures j > 1 && trace[j - 1] == DeviceInfo && trace[j - 2] == LocalRequested(callerThere)
  {
    assert trace[..0] == [];
    var p := PhaseBefore(cfg, trace, j - 1);
    LocalAskedBy(cfg, trace, j - 1, callerThere);
  }

  /** A local caller gets the token of an upgrade it asked for and is still there for. */
  lemma LocalTokenIsAsked(cfg: Config, trace: seq<Act>, j: nat)
    requires Conforms(cfg, trace) && j < |trace| && trace[j].LocalToken?
    ensures j >= 3 && trace[j - 1] == Connect(trace[j].token) && trace[j - 2] == DeviceInfo
    ensures trace[j - 3] == LocalRequested(true)
  {
    var p := PhaseBefore(cfg, trace, j);
    RegisteredBy(cfg, trace, j, trace[j].token, Some(true));
    LocalExchangedBy(cfg, trace, j - 1, true);
  }

  lemma StepToRefusing(cfg: Config, p: Phase, a: Act)
    requires Step(cfg, p, a) == Some(Refusing)
    ensures a == WriteFailed
  {
  }

  lemma RefusingBy(cfg: Config, trace: seq<Act>, j: nat)
    requires Conforms(cfg, trace) && j <= |trace| && After(cfg, trace[..j]) == Some(Refusing)
    ensures j > 0 && trace[j - 1] == WriteFailed
  {
    assert trace[..0] == [];
    var p := PhaseBefore(cfg, trace, j - 1);
    StepToRefusing(cfg, p, trace[j - 1]);
  }

  /** A local caller is refused just because a write failed, or because it has gone away. */
  lemma LocalRefusedBecause(cfg: Config, trace: seq<Act>, j: nat)
    requires Conforms(cfg, trace) && j < |trace| && trace[j].LocalRefused?
    ensures j > 0
    ensures trace[j - 1] == WriteFailed
         || (j >= 3 && trace[j - 1].Connect? && trace[j - 2] == DeviceInfo && trace[j - 3] == LocalRequested(false))
  {
    var p := PhaseBefore(cfg, trace, j);
    if p.Registered? {
      RegisteredBy(cfg, trace, j, p.token, Some(false));
      LocalExchangedBy(cfg, trace, j - 1, false);
    } else {
      RefusingBy(cfg, trace, j);
    }
  }

  // ---------- the hold goes on ----------

  /** The end of a request that left no session: reported as such, never answered, or a local one refused. */
  predicate LeavesNoSession(a: Act) {
    (a.Outcome? && !a.live) || a == Answered(None) || a.LocalRefused?
  }

  /** What can happen while the connection is held. */
  predicate HappensInHold(a: Act) {
    a.Requested? || a.LocalRequested? || a.PhoneClosed? || a.ReadFailed?
  }

  lemma HeldAfter(cfg: Config, trace: seq<Act>, j: nat)
    requires Conforms(cfg, trace) && j < |trace| && LeavesNoSession(trace[j])
    ensures After(cfg, trace[..j + 1]) == Some(Holding)
  {
    var p := PhaseBefore(cfg, trace, j);
  }

  lemma NotHeld(cfg: Config, trace: seq<Act>)
    requires Conforms(cfg, trace) && After(cfg, trace) != Some(Holding)
    ensures trace != [] ==> !LeavesNoSession(trace[|trace| - 1])
  {
    if trace != [] && LeavesNoSession(trace[|trace| - 1]) {
      assert trace[..|trace|] == trace;
      HeldAfter(cfg, trace, |trace| - 1);
    }
  }

  /** Where a request left no session the hold goes on: next comes a request, a local request or the end of
      the connection, and each of these can come. */
  lemma HoldGoesOn(cfg: Config, trace: seq<Act>, j: nat, next: Act)
    requires Conforms(cfg, trace) && j < |trace| && LeavesNoSession(trace[j])
    ensures j + 1 < |trace| ==> HappensInHold(trace[j + 1])
    ensures Conforms(cfg, trace[..j + 1] + [next]) <==> HappensInHold(next)
  {
    HeldAfter(cfg, trace, j);
    AfterAct(cfg, trace[..j + 1], next);
    if j + 1 < |trace| {
      var q := PhaseBefore(cfg, trace, j + 1);
    }
  }

  /** The acts the connection opens with. */
  function OpeningOf(cfg: Config): seq<Act> {
    [DeviceInfo] + if cfg.announceOnHold then [Connect(cfg.token)] else []
  }

  lemma OpeningHolds(cfg: Config)
    ensures After(cfg, OpeningOf(cfg)) == Some(Holding)
  {
    AfterAct(cfg, [], DeviceInfo);
    assert [] + [DeviceInfo] == [DeviceInfo];
    if cfg.announceOnHold {
      AfterAct(cfg, [DeviceInfo], Connect(cfg.token));
    } else {
      assert OpeningOf(cfg) == [DeviceInfo];
    }
  }

  lemma NotOpenAgain(cfg: Config, trace: seq<Act>)
    ensures trace != [] ==> After(cfg, trace) != Some(Opening)
  {
  }

  lemma OpeningIsFirst(cfg: Config, trace: seq<Act>, j: nat)
    requires j <= |trace| && After(cfg, trace[..j]) == Some(Opening)
    ensures j == 0
  {
    NotOpenAgain(cfg, trace[..j]);
  }

  lemma AnnouncingIsSecond(cfg: Config, trace: seq<Act>, j: nat)
    requires Conforms(cfg, trace) && j <= |trace| && After(cfg, trace[..j]) == Some(Announcing)
    ensures j == 1 && trace[0] == DeviceInfo && cfg.announceOnHold
  {
    assert trace[..0] == [];
    var p := PhaseBefore(cfg, trace, j - 1);
    OpeningIsFirst(cfg, trace, j - 1);
  }

  lemma HoldingBy(cfg: Config, trace: seq<Act>)
    requires After(cfg, trace) == Some(Holding)
    ensures trace == OpeningOf(cfg) || (trace != [] && LeavesNoSession(trace[|trace| - 1]))
  {
    var j := |trace| - 1;
    assert trace[..|trace|] == trace;
    var p := PhaseBefore(cfg, trace, j);
    if p.Opening? {
      OpeningIsFirst(cfg, trace, j);
      assert trace == [DeviceInfo];
    } else if p.Announcing? {
      AnnouncingIsSecond(cfg, trace, j);
      assert trace == [DeviceInfo, Connect(cfg.token)];
    }
  }

  /** A request of the phone can come, and is then acknowledged, exactly after the opening and after each
      request that left no session. */
  lemma RequestPossibleExactly(cfg: Config, trace: seq<Act>)
    requires Conforms(cfg, trace)
    ensures Conforms(cfg, trace + [Requested])
       <==> trace == OpeningOf(cfg) || (trace != [] && LeavesNoSession(trace[|trace| - 1]))
  {
    AfterAct(cfg, trace, Requested);
    if trace == OpeningOf(cfg) {
      OpeningHolds(cfg);
    } else if trace != [] && LeavesNoSession(trace[|trace| - 1]) {
      assert trace[..|trace|] == trace;
      HeldAfter(cfg, trace, |trace| - 1);
    } else if After(cfg, trace) == Some(Holding) {
      HoldingBy(cfg, trace);
    }
  }

  lemma StepToTheEnd(cfg: Config, p: Phase, a: Act)
    ensures Step(cfg, p, a) == Some(Gone) ==> a == SessionOver || a == PhoneClosed
    ensures Step(cfg, p, a) == Some(Broken) ==> a == ReadFailed || a == WriteFailed
  {
  }

  /** What the last act was when the connection is gone, or broken. */
  lemma EndOfTrace(cfg: Config, trace: seq<Act>)
    ensures After(cfg, trace) == Some(Gone) ==>
              trace != [] && (trace[|trace| - 1] == SessionOver || trace[|trace| - 1] == PhoneClosed)
    ensures After(cfg, trace) == Some(Broken) ==>
              trace != [] && (trace[|trace| - 1] == ReadFailed || trace[|trace| - 1] == WriteFailed)
  {
    if trace != [] && Conforms(cfg, trace) {
      StepToTheEnd(cfg, After(cfg, trace[..|trace| - 1]).value, trace[|trace| - 1]);
    }
  }

  // ---------- the connection ----------

  datatype HoldWake = LocalGone | LocalRequest(callerThere: bool) | Push(isConnectRequest: bool) | HoldEof | HoldError
  datatype AnswerWake = Told(answer: Option<Answer>) | Deadline | MorePush | AnswerEof | AnswerError
  datatype SessionWake = SessionEnded | SessionPush | SessionEof | SessionError

  /** What a wake-up adds to the trace; pushes without a request are logged and add nothing. */
  function HoldActs(w: HoldWake): seq<Act> {
    match w
    case LocalGone => []
    case LocalRequest(callerThere) => [LocalRequested(callerThere)]
    case Push(isConnectRequest) => if isConnectRequest then [Requested] else []
    case HoldEof => [PhoneClosed]
    case HoldError => [ReadFailed]
  }

  function AnswerActs(w: AnswerWake): seq<Act> {
    match w
    case Told(answer) => [Answered(answer)]
    case Deadline => [Answered(None)]
    case MorePush => []
    case AnswerEof => [PhoneClosed]
    case AnswerError => [ReadFailed]
  }

  function SessionActs(w: SessionWake): seq<Act> {
    match w
    case SessionEnded => [SessionOver]
    case SessionPush => []
    case SessionEof => [PhoneClosed]
    case SessionError => [ReadFailed]
  }

  /** Each wake-up leaves the mark of what it was; a push counts only where it asks to connect. */
  lemma WakesAreNoted(callerThere: bool, isConnectRequest: bool, answer: Option<Answer>)
    ensures HoldActs(LocalRequest(callerThere)) == [LocalRequested(callerThere)] && HoldActs(LocalGone) == []
    ensures Requested in HoldActs(Push(isConnectRequest)) <==> isConnectRequest
    ensures HoldActs(HoldEof) == AnswerActs(AnswerEof) == SessionActs(SessionEof) == [PhoneClosed]
    ensures HoldActs(HoldError) == AnswerActs(AnswerError) == SessionActs(SessionError) == [ReadFailed]
    ensures AnswerActs(Told(answer)) == [Answered(answer)] && AnswerActs(Deadline) == [Answered(None)]
    ensures SessionActs(SessionEnded) == [SessionOver] && AnswerActs(MorePush) == SessionActs(SessionPush) == []
  {
  }

  function Later(cfg: Config, p: Phase, acts: seq<Act>): Option<Phase> {
    if acts == [] then Some(p) else Step(cfg, p, acts[0])
  }

  /** `StillRunning` is where the observation stops, not the connection. */
  datatype Exit = Returned | Failed | StillRunning

  class Connection {
    const cfg: Config
    var trace: seq<Act>
    /** How many more wake-ups are observed: any number. */
    var wakes: nat

    ghost predicate In(p: Phase)
      reads this
    {
      After(cfg, trace) == Some(p)
    }

    /** An exit fits the trace: an ordinary return once the session or the connection is over, an error
        once a read or write has failed, an unfinished run where the next wake-up is waited for. */
    ghost predicate Ends(r: Exit)
      reads this
    {
      match r
      case Returned => In(Gone)
      case Failed => In(Broken)
      case StillRunning => wakes == 0 && (In(Holding) || In(Handed) || In(Over))
    }

    constructor (cfg: Config, wakes: nat)
      ensures trace == [] && this.cfg == cfg && this.wakes == wakes
    {
      this.cfg, this.wakes, trace := cfg, wakes, [];
    }

    method Note(a: Act)
      requires Conforms(cfg, trace)
      modifies this`trace
      ensures trace == old(trace) + [a] && After(cfg, trace) == Step(cfg, old(After(cfg, trace).value), a)
    {
      AfterAct(cfg, trace, a);
      trace := trace + [a];
    }

    // ---- the outside: what may happen, and its mark on the trace ----

    /** A write and its flush, which may fail. */
    method Write(a: Act) returns (ok: bool)
      requires Conforms(cfg, trace)
      modifies this`trace
      ensures trace == old(trace) + [if ok then a else WriteFailed]
      ensures After(cfg, trace) == Step(cfg, old(After(cfg, trace).value), if ok then a else WriteFailed)
    {
      ok := *;
      Note(if ok then a else WriteFailed);
    }

    method NoteAll(acts: seq<Act>)
      requires Conforms(cfg, trace) && |acts| <= 1
      modifies this`trace
      ensures trace == old(trace) + acts && After(cfg, trace) == Later(cfg, old(After(cfg, trace).value), acts)
    {
      if acts == [] {
        assert trace == trace + acts;
      } else {
        Note(acts[0]);
      }
    }

    method WakeInHold() returns (w: HoldWake)
      requires In(Holding) && wakes > 0
      modifies this
      ensures wakes == old(wakes) - 1 && trace == old(trace) + HoldActs(w)
      ensures After(cfg, trace) == Later(cfg, Holding, HoldActs(w))
    {
      w := *;
      wakes := wakes - 1;
      NoteAll(HoldActs(w));
    }

    method WakeForAnswer() returns (w: AnswerWake)
      requires In(Handed) && wakes > 0
      modifies this
      ensures wakes == old(wakes) - 1 && trace == old(trace) + AnswerActs(w)
      ensures After(cfg, trace) == Later(cfg, Handed, AnswerActs(w))
    {
      w := *;
      wakes := wakes - 1;
      NoteAll(AnswerActs(w));
    }

    method WakeInSession() returns (w: SessionWake)
      requires In(Over) && wakes > 0
      modifies this
      ensures wakes == old(wakes) - 1 && trace == old(trace) + SessionActs(w)
      ensures After(cfg, trace) == Later(cfg, Over, SessionActs(w))
    {
      w := *;
      wakes := wakes - 1;
      NoteAll(SessionActs(w));
    }

    // ---- what the connection does ----

    /** Device info, then `bytes:[0]` with a fresh token. The phone's replies are read and logged; no
        reply changes what follows. */
    method UpgradeInPlace(local: Option<bool>) returns (token: Option<Token>)
      requires if local.Some? then In(LocalAsked(local.value)) else In(Acked) && cfg.reregisterOnAsk
      modifies this`trace
      ensures In(if token.Some? then Registered(token.value, local) else if local.Some? then Refusing else Broken)
    {
      var ok := Write(DeviceInfo);
      if !ok {
        return None;
      }
      var made: Token := *;
      ok := Write(Connect(made));
      token := if ok then Some(made) else None;
    }

    /** Riding out a session: pushes are logged, nothing is sent. */
    method HoldSession() returns (r: Exit)
      requires In(Over)
      modifies this
      ensures Ends(r) && !In(Holding) && wakes <= old(wakes)
    {
      while wakes > 0
        invariant In(Over) && wakes <= old(wakes)
        decreases wakes
      {
        var wake := WakeInSession();
        match wake {
          case SessionEnded => return Returned;
          case SessionPush =>
          case SessionEof => return Returned;
          case SessionError => return Failed;
        }
      }
      r := StillRunning;
    }

    /** Waiting for the session's owner while reading on; `done` when the connection is. */
    method AwaitAnswer() returns (answer: Option<Answer>, done: Option<Exit>)
      requires In(Handed)
      modifies this
      ensures wakes <= old(wakes)
      ensures match done
              case Some(r) => Ends(r) && !In(Holding)
              case None =>
                && In(if answer.Some? then Reporting(answer.value) else Holding)
                && trace != [] && trace[|trace| - 1] == Answered(answer)
    {
      while wakes > 0
        invariant In(Handed) && wakes <= old(wakes)
        decreases wakes
      {
        var wake := WakeForAnswer();
        match wake {
          case Told(given) => return given, None;
          case Deadline => return None, None;
          case MorePush =>
          case AnswerEof => return None, Some(Returned);
          case AnswerError => return None, Some(Failed);
        }
      }
      answer, done := None, Some(StillRunning);
    }

    /** A local connect: `done` unless the hold goes on. */
    method OnLocalRequest(callerThere: bool) returns (done: Option<Exit>)
      requires In(LocalAsked(callerThere))
      modifies this
      ensures wakes <= old(wakes)
      ensures if done.Some? then Ends(done.value) else In(Holding)
      ensures trace != [] && (done == None <==> LeavesNoSession(trace[|trace| - 1]))
    {
      done := None;
      var token := UpgradeInPlace(Some(callerThere));
      if token.Some? && callerThere {
        Note(LocalToken(token.value));
        var r := HoldSession();
        done := Some(r);
        NotHeld(cfg, trace);
      } else {
        Note(LocalRefused);
      }
    }

    /** The phone tapped connect: ack, upgrade, hand the token out. */
    method TakeRequest() returns (ok: bool)
      requires In(Asked)
      modifies this`trace
      ensures In(if ok then Handed else Broken)
    {
      ok := Write(Ack);
      if !ok {
        return;
      }
      var token := cfg.token;
      if cfg.reregisterOnAsk {
        var upgraded := UpgradeInPlace(None);
        if upgraded.None? {
          return false;
        }
        token := upgraded.value;
      }
      Note(HandOut(token));
    }

    /** The whole of a connect request, up to where the hold goes on. */
    method OnConnectRequest() returns (done: Option<Exit>)
      requires In(Asked)
      modifies this
      ensures wakes <= old(wakes)
      ensures if done.Some? then Ends(done.value) else In(Holding)
      ensures trace != [] && (done == None <==> LeavesNoSession(trace[|trace| - 1]))
    {
      var ok := TakeRequest();
      if !ok {
        return Some(Failed);
      }
      var answer;
      answer, done := AwaitAnswer();
      if done.Some? {
        NotHeld(cfg, trace);
        return;
      }
      if answer.None? {
        return;
      }
      ok := Write(Outcome(answer.value.code, answer.value.hasEnd));
      if !ok {
        return Some(Failed);
      }
      if answer.value.hasEnd {
        var r := HoldSession();
        NotHeld(cfg, trace);
        return Some(r);
      }
    }

    method HoldOpen() returns (r: Exit)
      requires trace == []
      modifies this
      ensures Ends(r)
    {
      var ok := Write(DeviceInfo);
      if !ok {
        return Failed;
      }
      if cfg.announceOnHold {
        ok := Write(Connect(cfg.token));
        if !ok {
          return Failed;
        }
      }
      while wakes > 0
        invariant In(Holding)
        decreases wakes
      {
        var wake := WakeInHold();
        var done: Option<Exit> := None;
        match wake {
          case LocalGone =>
          case LocalRequest(callerThere) =>
            done := OnLocalRequest(callerThere);
          case Push(isConnectRequest) =>
            if isConnectRequest {
              done := OnConnectRequest();
            }
          case HoldEof =>
            done := Some(Returned);
          case HoldError =>
            done := Some(Failed);
        }
        if done.Some? {
          return done.value;
        }
      }
      r := StillRunning;
    }

    /** Every run, and every part of one, is a trace of the grammar. It returns when the session is over or
        the phone has closed, and fails when a read or a write has; else it is still running. */
    method PresenceOnce() returns (r: Exit)
      requires trace == []
      modifies this
      ensures Conforms(cfg, trace)
      ensures match r
              case Returned => trace != [] && trace[|trace| - 1] in [SessionOver, PhoneClosed]
              case Failed => trace != [] && trace[|trace| - 1] in [ReadFailed, WriteFailed]
              case StillRunning => wakes == 0 && (In(Holding) || In(Handed) || In(Over))
    {
      r := HoldOpen();
      EndOfTrace(cfg, trace);
    }
  }
}
