/** Two-way clipboard sync: which texts cross, and why none of them bounces. */
module Echo {
  import opened Bytes

  type Text = seq<byte>

  /** Six seconds, in the clock's nanoseconds. */
  const ECHO_WINDOW: nat := 6_000_000_000

  /** What has happened to the shared state: the watcher put the clipboard's first text in it, or a
      text was taken up for transfer. `checked` and `at` are the two clock readings of a transfer,
      before the echo check and when the text is marked. */
  datatype Event = Seeded(text: Text) | Accepted(text: Text, checked: nat, at: nat, fromPhone: bool)

  // ---------- the rule, in terms of history alone ----------

  ghost predicate LastIs(trace: seq<Event>, text: Text) {
    trace != [] && trace[|trace| - 1].text == text
  }

  ghost predicate RecentIn(trace: seq<Event>, text: Text, now: nat) {
    exists i :: 0 <= i < |trace| && trace[i].Accepted? && trace[i].text == text && now < trace[i].at + ECHO_WINDOW
  }

  /** A text may cross when it is not the last one to have crossed or been there, and did not cross,
      either way, within the window. */
  ghost predicate HistoryAccepts(trace: seq<Event>, text: Text, now: nat) {
    !LastIs(trace, text) && !RecentIn(trace, text, now)
  }

  /** The latest clock reading of a run. */
  ghost function Clock(trace: seq<Event>): nat {
    if trace == [] then 0
    else if trace[|trace| - 1].Accepted? then trace[|trace| - 1].at
    else Clock(trace[..|trace| - 1])
  }

  ghost predicate LegalAt(trace: seq<Event>, i: nat)
    requires i < |trace|
  {
    trace[i].Accepted? ==>
      && Clock(trace[..i]) <= trace[i].checked <= trace[i].at
      && HistoryAccepts(trace[..i], trace[i].text, trace[i].checked)
  }

  /** A run in which every transfer was due under a clock that never goes back. */
  ghost predicate Legal(trace: seq<Event>) {
    forall i :: 0 <= i < |trace| ==> LegalAt(trace, i)
  }

  lemma LegalExtends(trace: seq<Event>, e: Event)
    requires Legal(trace)
    requires e.Accepted? ==> Clock(trace) <= e.checked <= e.at && HistoryAccepts(trace, e.text, e.checked)
    ensures Legal(trace + [e])
  {
    var longer := trace + [e];
    forall i | 0 <= i < |longer|
      ensures LegalAt(longer, i)
    {
      assert longer[..i] == if i < |trace| then trace[..i] else trace;
      assert i < |trace| ==> LegalAt(trace, i);
    }
  }

  // ---------- whole runs ----------

  /** Two transfers of the same text, in either direction, are a window apart. */
  lemma SameTextApart(trace: seq<Event>, i: nat, j: nat)
    requires Legal(trace) && i < j < |trace|
    requires trace[i].Accepted? && trace[j].Accepted? && trace[i].text == trace[j].text
    ensures trace[i].at + ECHO_WINDOW <= trace[j].checked <= trace[j].at
  {
    assert LegalAt(trace, j);
    assert trace[..j][i] == trace[i];
  }

  /** A transfer never repeats what came just before it: the seed, or the transfer before. */
  lemma ConsecutiveDiffer(trace: seq<Event>, j: nat)
    requires Legal(trace) && 0 < j < |trace| && trace[j].Accepted?
    ensures trace[j].text != trace[j - 1].text
  {
    assert LegalAt(trace, j);
    assert trace[..j][j - 1] == trace[j - 1];
  }

  ghost function Times(trace: seq<Event>, text: Text): seq<nat> {
    if trace == [] then []
    else
      var last := trace[|trace| - 1];
      Times(trace[..|trace| - 1], text) + if last.Accepted? && last.text == text then [last.at] else []
  }

  lemma {:induction false} TimesAreTransfers(trace: seq<Event>, text: Text, k: nat) returns (i: nat)
    requires k < |Times(trace, text)|
    ensures i < |trace| && trace[i].Accepted? && trace[i].text == text && trace[i].at == Times(trace, text)[k]
  {
    var n := |trace| - 1;
    if k < |Times(trace[..n], text)| {
      i := TimesAreTransfers(trace[..n], text, k);
    } else {
      i := n;
    }
  }

  /** How often one text crosses is bounded by the time it takes: a ping-pong between the two
      clipboards cannot run faster than once a window. */
  lemma {:induction false} TransfersAreRare(trace: seq<Event>, text: Text)
    requires Legal(trace) && Times(trace, text) != []
    ensures var t := Times(trace, text);
            t[0] + (|t| - 1) * ECHO_WINDOW <= t[|t| - 1]
  {
    var n := |trace| - 1;
    var front, last := trace[..n], trace[n];
    forall k | 0 <= k < n
      ensures LegalAt(front, k)
    {
      assert LegalAt(trace, k) && front[..k] == trace[..k];
    }
    var before := Times(front, text);
    if before != [] {
      TransfersAreRare(front, text);
      if last.Accepted? && last.text == text {
        var i := TimesAreTransfers(front, text, |before| - 1);
        SameTextApart(trace, i, n);
      }
    }
  }

  // ---------- the shared state ----------

  /** The last transfer of a text: what the map would hold if nothing were ever dropped from it. */
  ghost function Latest(trace: seq<Event>, text: Text): Option<nat> {
    if trace == [] then None
    else
      var last := trace[|trace| - 1];
      if last.Accepted? && last.text == text then Some(last.at) else Latest(trace[..|trace| - 1], text)
  }

  lemma RecentSplits(trace: seq<Event>, text: Text, now: nat)
    requires trace != []
    ensures var front, last := trace[..|trace| - 1], trace[|trace| - 1];
            RecentIn(trace, text, now) <==>
              RecentIn(front, text, now) || (last.Accepted? && last.text == text && now < last.at + ECHO_WINDOW)
  {
    var n := |trace| - 1;
    var front := trace[..n];
    if RecentIn(front, text, now) {
      var i :| 0 <= i < n && front[i].Accepted? && front[i].text == text && now < front[i].at + ECHO_WINDOW;
      assert trace[i] == front[i];
    }
    if RecentIn(trace, text, now) {
      var i :| 0 <= i < |trace| && trace[i].Accepted? && trace[i].text == text && now < trace[i].at + ECHO_WINDOW;
      assert i < n ==> front[i] == trace[i];
    }
  }

  lemma {:induction false} LatestIsLast(trace: seq<Event>, text: Text)
    requires Legal(trace)
    ensures Latest(trace, text).Some? ==> Latest(trace, text).value <= Clock(trace)
    ensures forall now: nat :: RecentIn(trace, text, now) <==>
              Latest(trace, text).Some? && now < Latest(trace, text).value + ECHO_WINDOW
  {
    if trace != [] {
      var n := |trace| - 1;
      var front, last := trace[..n], trace[n];
      forall k | 0 <= k < n
        ensures LegalAt(front, k)
      {
        assert LegalAt(trace, k) && front[..k] == trace[..k];
      }
      LatestIsLast(front, text);
      assert LegalAt(trace, n);
      forall now: nat
        ensures RecentIn(trace, text, now) <==>
                  RecentIn(front, text, now) || (last.Accepted? && last.text == text && now < last.at + ECHO_WINDOW)
      {
        RecentSplits(trace, text, now);
      }
    }
  }

  /** A text crosses exactly when something else came last and each of its transfers is six seconds old. */
  lemma AcceptsExactly(trace: seq<Event>, text: Text, now: nat)
    ensures HistoryAccepts(trace, text, now) <==>
              && (trace != [] ==> trace[|trace| - 1].text != text)
              && forall i :: 0 <= i < |trace| && trace[i].Accepted? && trace[i].text == text ==>
                   trace[i].at + 6_000_000_000 <= now
  {
  }

  /** `retain`: the entries still inside the window. */
  function Retained(recent: map<Text, nat>, now: nat): map<Text, nat> {
    map t | t in recent && now < recent[t] + ECHO_WINDOW :: recent[t]
  }

  class Shared {
    var lastText: Option<Text>
    var recent: map<Text, nat>
    var outgoing: bool
    const applyIncoming: bool
    ghost var trace: seq<Event>

    /** The pruned map stands for the whole history: it has every transfer that can still matter. */
    ghost predicate Tracks(text: Text)
      reads this
    {
      var latest := Latest(trace, text);
      && (text in recent ==> latest == Some(recent[text]))
      && (text !in recent && latest.Some? ==> latest.value + ECHO_WINDOW <= Clock(trace))
    }

    ghost predicate Valid()
      reads this
    {
      && Legal(trace)
      && lastText == (if trace == [] then None else Some(trace[|trace| - 1].text))
      && forall text :: Tracks(text)
    }

    constructor (applyIncoming: bool)
      ensures Valid() && trace == [] && this.applyIncoming == applyIncoming && !outgoing
    {
      lastText, recent, outgoing := None, map[], false;
      this.applyIncoming := applyIncoming;
      trace := [];
    }

    method RecentlySynced(text: Text, now: nat) returns (recently: bool)
      requires Valid() && Clock(trace) <= now
      ensures recently <==> RecentIn(trace, text, now)
    {
      LatestIsLast(trace, text);
      assert Tracks(text);
      recently := text in recent && now < recent[text] + ECHO_WINDOW;
    }

    method Mark(text: Text, now: nat)
      modifies this`recent
      ensures recent == Retained(old(recent)[text := now], now)
    {
      recent := recent[text := now];
      recent := Retained(recent, now);
    }

    /** The check both tasks make under the lock, and what they do when it passes. */
    method TakeUp(text: Text, checked: nat, at: nat, fromPhone: bool) returns (accepted: bool)
      requires Valid() && Clock(trace) <= checked <= at
      modifies this`lastText, this`recent, this`trace
      ensures Valid()
      ensures accepted <==> HistoryAccepts(old(trace), text, checked)
      ensures trace == old(trace) + if accepted then [Accepted(text, checked, at, fromPhone)] else []
    {
      ghost var before := trace;
      var recently := RecentlySynced(text, checked);
      accepted := lastText != Some(text) && !recently;
      if accepted {
        lastText := Some(text);
        Mark(text, at);
        ghost var e := Accepted(text, checked, at, fromPhone);
        LegalExtends(before, e);
        trace := before + [e];
        assert trace[..|trace| - 1] == before;
        forall t
          ensures Tracks(t)
        {
          assert old(Tracks(t));
          LatestIsLast(before, t);
        }
      } else {
        assert trace == before + [];
      }
    }

    /** The text branch of `on_frame`. */
    method OnPhoneText(text: Text, checked: nat, at: nat) returns (write: bool)
      requires Valid() && Clock(trace) <= checked <= at
      modifies this`lastText, this`recent, this`trace
      ensures Valid()
      ensures write <==> applyIncoming && HistoryAccepts(old(trace), text, checked)
      ensures trace == old(trace) + if write then [Accepted(text, checked, at, true)] else []
    {
      write := false;
      if applyIncoming {
        write := TakeUp(text, checked, at, true);
      } else {
        assert trace == old(trace) + [];
      }
    }

    /** The text branch of the watcher's poll. A text whose frame cannot be built is taken up all the
        same, and not sent. */
    method PollText(cur: Text, built: bool, checked: nat, at: nat) returns (sent: bool)
      requires Valid() && Clock(trace) <= checked <= at
      modifies this`lastText, this`recent, this`trace
      ensures Valid()
      ensures var accepted := cur != [] && outgoing && HistoryAccepts(old(trace), cur, checked);
              && sent == (accepted && built)
              && trace == old(trace) + if accepted then [Accepted(cur, checked, at, false)] else []
    {
      sent := false;
      if cur != [] && outgoing {
        var accepted := TakeUp(cur, checked, at, false);
        sent := accepted && built;
      } else {
        assert trace == old(trace) + [];
      }
    }

    /** The watcher's first look at the clipboard. */
    method Seed(cur: Text)
      requires Valid()
      modifies this`lastText, this`trace
      ensures Valid() && trace == old(trace) + [Seeded(cur)]
    {
      ghost var before := trace;
      lastText := Some(cur);
      LegalExtends(before, Seeded(cur));
      trace := before + [Seeded(cur)];
      assert trace[..|trace| - 1] == before;
      forall t
        ensures Tracks(t)
      {
        assert old(Tracks(t));
      }
    }

    method SetOutgoing(connected: bool)
      requires Valid()
      modifies this`outgoing
      ensures Valid() && outgoing == connected
    {
      outgoing := connected;
      forall t
        ensures Tracks(t)
      {
        assert old(Tracks(t));
      }
    }
  }

  // ---------- interleavings ----------

  /** One turn of either task, or of the connection handler, under the lock. */
  datatype Step =
    | PhoneText(text: Text, checked: nat, at: nat)
    | Poll(cur: Text, built: bool, checked: nat, at: nat)
    | FirstLook(cur: Text)
    | Link(connected: bool)

  function StepEnd(s: Step, clock: nat): nat {
    if s.PhoneText? || s.Poll? then s.at else clock
  }

  /** Lock order is time order. */
  predicate Monotone(steps: seq<Step>, clock: nat) {
    steps == [] ||
    (&& (steps[0].PhoneText? || steps[0].Poll? ==> clock <= steps[0].checked <= steps[0].at)
     && Monotone(steps[1..], StepEnd(steps[0], clock)))
  }

  /** What one step adds to the history, by the rule alone. */
  ghost function Adds(trace: seq<Event>, outgoing: bool, applyIncoming: bool, s: Step): seq<Event> {
    match s
    case PhoneText(text, checked, at) =>
      if applyIncoming && HistoryAccepts(trace, text, checked) then [Accepted(text, checked, at, true)] else []
    case Poll(cur, _, checked, at) =>
      if cur != [] && outgoing && HistoryAccepts(trace, cur, checked) then [Accepted(cur, checked, at, false)] else []
    case FirstLook(cur) => [Seeded(cur)]
    case Link(_) => []
  }

  /** A text that was never there before is taken up, from the phone exactly where incoming texts are
      applied, and from here exactly where it says something and a phone is connected. */
  lemma FreshTextIsTaken(trace: seq<Event>, outgoing: bool, applyIncoming: bool, text: Text,
                         checked: nat, at: nat, built: bool)
    requires forall i :: 0 <= i < |trace| ==> trace[i].text != text
    ensures Adds(trace, outgoing, applyIncoming, PhoneText(text, checked, at))
         == if applyIncoming then [Accepted(text, checked, at, true)] else []
    ensures Adds(trace, outgoing, applyIncoming, Poll(text, built, checked, at))
         == if outgoing && text != [] then [Accepted(text, checked, at, false)] else []
  {
    AcceptsExactly(trace, text, checked);
  }

  /** The history a schedule leads to. */
  ghost function History(trace: seq<Event>, outgoing: bool, applyIncoming: bool, steps: seq<Step>): seq<Event>
    decreases |steps|
  {
    if steps == [] then trace
    else History(trace + Adds(trace, outgoing, applyIncoming, steps[0]),
                 if steps[0].Link? then steps[0].connected else outgoing, applyIncoming, steps[1..])
  }

  lemma ClockOfEvent(trace: seq<Event>, e: Event)
    ensures Clock(trace + [e]) == if e.Accepted? then e.at else Clock(trace)
    ensures trace + [] == trace
  {
    assert (trace + [e])[..|trace|] == trace;
  }

  lemma ClockAfter(trace: seq<Event>, outgoing: bool, applyIncoming: bool, s: Step, clock: nat)
    requires Clock(trace) <= clock && (s.PhoneText? || s.Poll? ==> clock <= s.checked <= s.at)
    ensures Clock(trace + Adds(trace, outgoing, applyIncoming, s)) <= StepEnd(s, clock)
  {
    var adds := Adds(trace, outgoing, applyIncoming, s);
    ClockOfEvent(trace, if adds == [] then Seeded([]) else adds[0]);
  }

  method PlayStep(shared: Shared, s: Step)
    requires shared.Valid() && (s.PhoneText? || s.Poll? ==> Clock(shared.trace) <= s.checked <= s.at)
    modifies shared
    ensures shared.Valid()
    ensures shared.trace == old(shared.trace) + Adds(old(shared.trace), old(shared.outgoing), shared.applyIncoming, s)
    ensures shared.outgoing == if s.Link? then s.connected else old(shared.outgoing)
  {
    match s {
      case PhoneText(text, checked, at) =>
        var write := shared.OnPhoneText(text, checked, at);
      case Poll(cur, built, checked, at) =>
        var sent := shared.PollText(cur, built, checked, at);
      case FirstLook(cur) =>
        shared.Seed(cur);
      case Link(connected) =>
        shared.SetOutgoing(connected);
    }
  }

  /** Every interleaving of phone frames, polls and link changes leads to the history the rule gives,
      and that is a legal run. */
  method Play(steps: seq<Step>, applyIncoming: bool) returns (shared: Shared)
    requires Monotone(steps, 0)
    ensures fresh(shared) && shared.Valid() && Legal(shared.trace)
    ensures shared.trace == History([], false, applyIncoming, steps)
  {
    shared := new Shared(applyIncoming);
    ghost var clock := 0;
    for k := 0 to |steps|
      invariant fresh(shared) && shared.Valid() && shared.applyIncoming == applyIncoming
      invariant Clock(shared.trace) <= clock && Monotone(steps[k..], clock)
      invariant History(shared.trace, shared.outgoing, applyIncoming, steps[k..])
             == History([], false, applyIncoming, steps)
    {
      assert steps[k..][0] == steps[k] && steps[k..][1..] == steps[k + 1..];
      ClockAfter(shared.trace, shared.outgoing, applyIncoming, steps[k], clock);
      PlayStep(shared, steps[k]);
      clock := StepEnd(steps[k], clock);
    }
  }
}
