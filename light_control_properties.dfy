/** Properties of the toggle controller that relate several events: the
    loading phase, the debounce, the shape of the publish log, the echo of the
    screen's own commands on the shared topic, and two end-to-end runs. */
module LightControlProperties {
  import opened CaseMapping
  import opened LightControl

  /** A toggle command ("ON" or "OFF"), as opposed to the status query. */
  predicate IsToggle(m: string) {
    m == OnCommand || m == OffCommand
  }

  /** The number of toggle commands in a publish log. */
  function CommandCount(log: seq<string>): (n: nat)
    ensures n <= |log|
    decreases |log|
  {
    if log == [] then 0
    else CommandCount(log[..|log| - 1]) + (if IsToggle(log[|log| - 1]) then 1 else 0)
  }

  lemma CommandCountAppend(log: seq<string>, m: string)
    ensures CommandCount(log + [m]) == CommandCount(log) + (if IsToggle(m) then 1 else 0)
  {
    assert (log + [m])[..|log|] == log;
  }

  /** An event that is a recognised status reply. */
  predicate IsStatusReply(e: Event) {
    e.Message? && ParseReply(e.payload) != Unrecognized
  }

  // ---------------------------------------------------------------------
  // Handling messages

  /** Handling the same payload twice gives the state handling it once gives. */
  lemma MessageIdempotent(s: ScreenState, payload: string)
    ensures MessageStep(MessageStep(s, payload), payload) == MessageStep(s, payload)
  {
  }

  /** Every payload spelled like "status_on", in any mix of cases, switches the
      light on and ends loading. */
  lemma StatusOnIsCaseInsensitive(s: ScreenState)
    ensures MessageStep(s, "STATUS_ON") == s.(isLightOn := true, isLoading := false)
    ensures MessageStep(s, "status_on") == s.(isLightOn := true, isLoading := false)
    ensures MessageStep(s, "Status_On") == s.(isLightOn := true, isLoading := false)
    ensures MessageStep(s, [LongS] + "tatus_on") == s.(isLightOn := true, isLoading := false)
  {
    assert CaseVariant("status_on", StatusOnReply);
    assert CaseVariant("Status_On", StatusOnReply);
    assert CaseVariant([LongS] + "tatus_on", StatusOnReply);
  }

  /** The screen subscribes to the topic it publishes on, so it receives its
      own commands back; none of them is a status reply, so none has an
      effect. */
  lemma OwnCommandsIgnored(s: ScreenState, m: string)
    requires IsCommand(m)
    ensures MessageStep(s, m) == s
  {
  }

  // ---------------------------------------------------------------------
  // Runs of events

  lemma {:induction false} RunAppend(s: ScreenState, a: seq<Event>, b: seq<Event>)
    ensures Run(s, a + b) == Run(Run(s, a), b)
    decreases |a|
  {
    if a == [] {
      assert a + b == b;
    } else {
      assert (a + b)[0] == a[0];
      assert (a + b)[1..] == a[1..] + b;
      RunAppend(Step(s, a[0]), a[1..], b);
    }
  }

  /** Once loading is over it never starts again. */
  lemma {:induction false} LoadingNeverReturns(s: ScreenState, es: seq<Event>)
    requires !s.isLoading
    ensures !Run(s, es).isLoading
    decreases |es|
  {
    if es != [] {
      LoadingNeverReturns(Step(s, es[0]), es[1..]);
    }
  }

  /** The screen is still loading after a run exactly when it was loading
      before and no event of the run was a recognised status reply. */
  lemma {:induction false} LoadingUntilStatus(s: ScreenState, es: seq<Event>)
    ensures Run(s, es).isLoading <==>
              s.isLoading && forall i :: 0 <= i < |es| ==> !IsStatusReply(es[i])
    decreases |es|
  {
    if es != [] {
      var t := Step(s, es[0]);
      LoadingUntilStatus(t, es[1..]);
      assert forall i :: 1 <= i < |es| ==> es[i] == es[1..][i - 1];
      if IsStatusReply(es[0]) {
        assert !t.isLoading;
      }
    }
  }

  /** The reachable-state invariant: the log holds only the screen's own
      commands, and no toggle command is sent while loading. */
  predicate Consistent(s: ScreenState) {
    (forall i :: 0 <= i < |s.sent| ==> IsCommand(s.sent[i]))
    && (s.isLoading ==> CommandCount(s.sent) == 0)
  }

  lemma InitialConsistent()
    ensures Consistent(Initial)
  {
  }

  lemma StepConsistent(s: ScreenState, e: Event)
    requires Consistent(s)
    ensures Consistent(Step(s, e))
  {
    match e
    case Message(p) =>
    case StatusQuery =>
      CommandCountAppend(s.sent, StatusCommand);
    case Click(now) =>
      if ClickAccepted(s, now) {
        CommandCountAppend(s.sent, ToggleCommand(s.isLightOn));
      }
  }

  lemma {:induction false} RunConsistent(s: ScreenState, es: seq<Event>)
    requires Consistent(s)
    ensures Consistent(Run(s, es))
    decreases |es|
  {
    if es != [] {
      StepConsistent(s, es[0]);
      RunConsistent(Step(s, es[0]), es[1..]);
    }
  }

  /** From the initial state, every logged publish is one of the screen's
      own commands, and so every echo of it is ignored. */
  lemma EchoesIgnored(es: seq<Event>, i: nat)
    requires i < |Run(Initial, es).sent|
    ensures MessageStep(Run(Initial, es), Run(Initial, es).sent[i]) == Run(Initial, es)
  {
    InitialConsistent();
    RunConsistent(Initial, es);
    OwnCommandsIgnored(Run(Initial, es), Run(Initial, es).sent[i]);
  }

  // ---------------------------------------------------------------------
  // Status messages only: the last recognised reply decides

  /** The last recognised status reply among the events, or Unrecognized. */
  function LastReply(es: seq<Event>): Reply
    decreases |es|
  {
    if es == [] then Unrecognized
    else
      var last := es[|es| - 1];
      if IsStatusReply(last) then ParseReply(last.payload)
      else LastReply(es[..|es| - 1])
  }

  /** A run of inbound messages leaves the state alone if no recognised reply
      is among them, and otherwise shows the light as the last recognised
      reply says, with loading over; the click time and the log are kept. */
  lemma {:induction false} LastStatusWins(s: ScreenState, es: seq<Event>)
    requires forall i :: 0 <= i < |es| ==> es[i].Message?
    ensures LastReply(es) == Unrecognized ==> Run(s, es) == s
    ensures LastReply(es) == StatusOn ==> Run(s, es) == s.(isLightOn := true, isLoading := false)
    ensures LastReply(es) == StatusOff ==> Run(s, es) == s.(isLightOn := false, isLoading := false)
    decreases |es|
  {
    if es != [] {
      var init, last := es[..|es| - 1], es[|es| - 1];
      assert es == init + [last];
      RunAppend(s, init, [last]);
      LastStatusWins(s, init);
      assert Run(s, es) == MessageStep(Run(s, init), last.payload);
    }
  }

  // ---------------------------------------------------------------------
  // Clicks and the debounce

  /** Events other than clicks keep the click time and send no toggle command. */
  lemma {:induction false} NoClickRun(s: ScreenState, es: seq<Event>)
    requires forall i :: 0 <= i < |es| ==> !es[i].Click?
    ensures Run(s, es).lastClickTime == s.lastClickTime
    ensures CommandCount(Run(s, es).sent) == CommandCount(s.sent)
    decreases |es|
  {
    if es != [] {
      if es[0].StatusQuery? {
        CommandCountAppend(s.sent, StatusCommand);
      }
      NoClickRun(Step(s, es[0]), es[1..]);
    }
  }

  /** A click, a run of other events, and a second click, taken apart into
      its three steps. */
  lemma RunClickMidClick(s: ScreenState, t1: Long, mid: seq<Event>, t2: Long)
    ensures Run(s, [Click(t1)] + mid + [Click(t2)]) == ClickStep(Run(ClickStep(s, t1), mid), t2)
  {
    var s2 := Run(ClickStep(s, t1), mid);
    assert Run(s, [Click(t1)]) == ClickStep(s, t1) by {
      assert [Click(t1)][1..] == [];
    }
    assert Run(s2, [Click(t2)]) == ClickStep(s2, t2) by {
      assert [Click(t2)][1..] == [];
    }
    RunAppend(s, [Click(t1)], mid);
    RunAppend(s, [Click(t1)] + mid, [Click(t2)]);
  }

  /** Two clicks less than DebounceMillis apart (with any non-click events
      between them) send at most one toggle command, and exactly one when the
      first of them is accepted. */
  lemma ClicksWithinIntervalSendOnce(s: ScreenState, t1: Long, t2: Long, mid: seq<Event>)
    requires forall i :: 0 <= i < |mid| ==> !mid[i].Click?
    requires -DebounceMillis < t2 - t1 < DebounceMillis
    ensures CommandCount(Run(s, [Click(t1)] + mid + [Click(t2)]).sent) <= CommandCount(s.sent) + 1
    ensures ClickAccepted(s, t1) ==>
              CommandCount(Run(s, [Click(t1)] + mid + [Click(t2)]).sent) == CommandCount(s.sent) + 1
  {
    var s1 := ClickStep(s, t1);
    var s2 := Run(s1, mid);
    RunClickMidClick(s, t1, mid, t2);
    NoClickRun(s1, mid);
    if ClickAccepted(s, t1) {
      CommandCountAppend(s.sent, ToggleCommand(s.isLightOn));
      assert s2.lastClickTime == t1;
      assert LongSub(t2, t1) == t2 - t1;
      assert !ClickAccepted(s2, t2);
    } else {
      if ClickAccepted(s2, t2) {
        CommandCountAppend(s2.sent, ToggleCommand(s2.isLightOn));
      }
    }
  }

  /** Two clicks at least DebounceMillis apart, the first of them accepted,
      both send a toggle command whatever non-click events come between. */
  lemma ClicksApartSendTwice(s: ScreenState, t1: Long, t2: Long, mid: seq<Event>)
    requires ClickAccepted(s, t1)
    requires forall i :: 0 <= i < |mid| ==> !mid[i].Click?
    requires DebounceMillis <= t2 - t1 <= MaxLong
    ensures CommandCount(Run(s, [Click(t1)] + mid + [Click(t2)]).sent) == CommandCount(s.sent) + 2
  {
    var s1 := ClickStep(s, t1);
    var s2 := Run(s1, mid);
    RunClickMidClick(s, t1, mid, t2);
    CommandCountAppend(s.sent, ToggleCommand(s.isLightOn));
    NoClickRun(s1, mid);
    LoadingNeverReturns(s1, mid);
    assert LongSub(t2, t1) == t2 - t1;
    assert ClickAccepted(s2, t2);
    CommandCountAppend(s2.sent, ToggleCommand(s2.isLightOn));
  }

  /** The "STATUS" publishes a run of events asks for, in order. */
  function QueryLog(es: seq<Event>): (log: seq<string>)
    ensures forall i :: 0 <= i < |log| ==> log[i] == StatusCommand
    decreases |es|
  {
    if es == [] then []
    else (if es[0].StatusQuery? then [StatusCommand] else []) + QueryLog(es[1..])
  }

  /** A run with no click and no recognised status reply changes nothing but
      the log, to which it adds its status queries. */
  lemma {:induction false} QuietRun(s: ScreenState, es: seq<Event>)
    requires forall i :: 0 <= i < |es| ==> !es[i].Click? && !IsStatusReply(es[i])
    ensures Run(s, es) == s.(sent := s.sent + QueryLog(es))
    decreases |es|
  {
    if es == [] {
      assert s.sent + [] == s.sent;
    } else {
      var t := Step(s, es[0]);
      assert t == s.(sent := s.sent + (if es[0].StatusQuery? then [StatusCommand] else []));
      QuietRun(t, es[1..]);
      assert t.sent + QueryLog(es[1..])
               == s.sent + ((if es[0].StatusQuery? then [StatusCommand] else []) + QueryLog(es[1..]));
    }
  }

  /** A click does not flip the displayed state, so two accepted clicks with
      no status reply (and no other click) between them ask for the same
      command twice; only the status queries of the events between them are
      logged in between. */
  lemma ClicksWithoutReplyRepeatCommand(s: ScreenState, t1: Long, t2: Long, mid: seq<Event>)
    requires ClickAccepted(s, t1)
    requires forall i :: 0 <= i < |mid| ==> !mid[i].Click? && !IsStatusReply(mid[i])
    requires DebounceMillis <= t2 - t1 <= MaxLong
    ensures Run(s, [Click(t1)] + mid + [Click(t2)]).sent
              == s.sent + [ToggleCommand(s.isLightOn)] + QueryLog(mid) + [ToggleCommand(s.isLightOn)]
  {
    var c := ToggleCommand(s.isLightOn);
    var s1 := ClickStep(s, t1);
    RunClickMidClick(s, t1, mid, t2);
    QuietRun(s1, mid);
    var s2 := Run(s1, mid);
    assert s2 == s1.(sent := s.sent + [c] + QueryLog(mid));
    assert LongSub(t2, t1) == t2 - t1;
    assert ClickAccepted(s2, t2);
  }

  // ---------------------------------------------------------------------
  // End-to-end runs

  /** The startup query followed by a "STATUS_OFF" reply in any spelling. */
  lemma QueryThenStatusOff(off: string)
    requires CaseVariant(off, StatusOffReply)
    ensures Run(Initial, [StatusQuery, Message(off)]) == ScreenState(false, false, 0, [StatusCommand])
  {
    var s1 := QueryStep(Initial);
    assert MessageStep(s1, off) == ScreenState(false, false, 0, [StatusCommand]);
    assert [StatusQuery, Message(off)][1..] == [Message(off)];
    assert [Message(off)][1..] == [];
    assert Run(Initial, [StatusQuery, Message(off)]) == Run(s1, [Message(off)]);
    assert Run(s1, [Message(off)]) == Run(MessageStep(s1, off), []);
  }

  /** Start, the deferred query, a "STATUS_OFF" reply (in any spelling), a
      click, and a second click 500 ms later: only "ON" follows the query,
      and the light is still shown off until a reply says otherwise. */
  lemma QueryReplyClickScenario(off: string, t: Long)
    requires CaseVariant(off, StatusOffReply)
    requires DebounceMillis <= t <= MaxLong - 500
    ensures Run(Initial, [StatusQuery, Message(off), Click(t), Click(t + 500)])
              == ScreenState(false, false, t, [StatusCommand, OnCommand])
  {
    var pre := [StatusQuery, Message(off)];
    var s2 := ScreenState(false, false, 0, [StatusCommand]);
    var s3 := ScreenState(false, false, t, [StatusCommand, OnCommand]);
    QueryThenStatusOff(off);
    assert ClickStep(s2, t) == s3;
    assert ClickStep(s3, t + 500) == s3;
    RunClickMidClick(s2, t, [], t + 500);
    assert [Click(t)] + [] + [Click(t + 500)] == [Click(t), Click(t + 500)];
    RunAppend(Initial, pre, [Click(t), Click(t + 500)]);
    assert pre + [Click(t), Click(t + 500)] == [StatusQuery, Message(off), Click(t), Click(t + 500)];
  }

  /** An unsolicited status push before the deferred query ends loading at
      once; the query is still sent, and a matching reply changes nothing. */
  lemma UnsolicitedPushScenario()
    ensures Run(Initial, [Message("status_on")]) == ScreenState(true, false, 0, [])
    ensures Run(Initial, [Message("status_on"), StatusQuery, Message("STATUS_ON")])
              == ScreenState(true, false, 0, [StatusCommand])
  {
    assert CaseVariant("status_on", StatusOnReply);
    assert CaseVariant("STATUS_ON", StatusOnReply);
  }
}
