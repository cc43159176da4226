/** The toggle controller of the light control screen: three pieces of state
    (is the light on, is the screen still waiting for its first status, when
    was the switch last accepted), a log of the messages the screen asks the
    broker to publish, and three events (an inbound status message, the
    deferred startup status query, a click on the switch).

    The pure functions below specify each event on a ScreenState value; the
    class LightControlScreen holds the same state in mutable fields, and each
    of its methods is proved to move its fields exactly as the matching step
    function says. */
module LightControl {
  import opened CaseMapping

  /** Kotlin's Long: a signed 64-bit integer. */
  const MinLong: int := -0x8000_0000_0000_0000
  const MaxLong: int := 0x7FFF_FFFF_FFFF_FFFF
  const LongModulus: int := 0x1_0000_0000_0000_0000

  type Long = x: int | -0x8000_0000_0000_0000 <= x <= 0x7FFF_FFFF_FFFF_FFFF

  /** Kotlin's Long subtraction, which wraps around modulo 2^64. */
  function LongSub(a: Long, b: Long): (r: Long)
    ensures (r - (a - b)) % LongModulus == 0
    ensures MinLong <= a - b <= MaxLong ==> r == a - b
  {
    var d := (a - b) % LongModulus;
    if d <= MaxLong then d else d - LongModulus
  }

  /** The payloads the screen publishes on the shared topic. */
  const StatusCommand: string := "STATUS"
  const OnCommand: string := "ON"
  const OffCommand: string := "OFF"

  /** The status replies the screen recognises (after upper-casing). */
  const StatusOnReply: string := "STATUS_ON"
  const StatusOffReply: string := "STATUS_OFF"

  /** The minimum time between two accepted clicks, in milliseconds. */
  const DebounceMillis: int := 1000

  /** One of the payloads the screen itself publishes. */
  predicate IsCommand(m: string) {
    m == StatusCommand || m == OnCommand || m == OffCommand
  }

  /** The state of the screen, and the log of requested publishes. */
  datatype ScreenState = ScreenState(
    isLightOn: bool,
    isLoading: bool,
    lastClickTime: Long,
    sent: seq<string>)

  /** The state when the screen is first composed: light off, loading, no
      click yet (time 0), nothing sent. */
  const Initial: ScreenState := ScreenState(false, true, 0, [])

  /** How an inbound payload is read. */
  datatype Reply = StatusOn | StatusOff | Unrecognized

  /** The upper-cased payload is matched against the two status replies;
      anything else is not recognised. */
  function ParseReply(payload: string): (r: Reply)
    ensures r == StatusOn <==> CaseVariant(payload, StatusOnReply)
    ensures r == StatusOff <==> CaseVariant(payload, StatusOffReply)
  {
    UpperEqualsIff(payload, StatusOnReply);
    UpperEqualsIff(payload, StatusOffReply);
    var key := Upper(payload);
    if key == StatusOnReply then StatusOn
    else if key == StatusOffReply then StatusOff
    else Unrecognized
  }

  /** An inbound message: a recognised status sets the light and ends the
      loading phase; any other payload changes nothing. */
  function MessageStep(s: ScreenState, payload: string): (t: ScreenState)
    ensures CaseVariant(payload, StatusOnReply) ==>
              t == s.(isLightOn := true, isLoading := false)
    ensures CaseVariant(payload, StatusOffReply) ==>
              t == s.(isLightOn := false, isLoading := false)
    ensures !CaseVariant(payload, StatusOnReply) && !CaseVariant(payload, StatusOffReply) ==>
              t == s
  {
    match ParseReply(payload)
    case StatusOn => s.(isLightOn := true, isLoading := false)
    case StatusOff => s.(isLightOn := false, isLoading := false)
    case Unrecognized => s
  }

  /** The deferred startup query: one "STATUS" publish, no state change. */
  function QueryStep(s: ScreenState): (t: ScreenState)
    ensures t.sent == s.sent + [StatusCommand]
    ensures t.isLightOn == s.isLightOn && t.isLoading == s.isLoading
    ensures t.lastClickTime == s.lastClickTime
  {
    s.(sent := s.sent + [StatusCommand])
  }

  /** A click is accepted when at least DebounceMillis have passed (in Long
      arithmetic) since the last accepted click. */
  predicate ClickAccepted(s: ScreenState, now: Long) {
    !s.isLoading && LongSub(now, s.lastClickTime) >= DebounceMillis
  }

  /** The command a click asks for: the inverse of the displayed state. */
  function ToggleCommand(isLightOn: bool): (m: string)
    ensures m == OnCommand <==> !isLightOn
    ensures m == OffCommand <==> isLightOn
  {
    if !isLightOn then OnCommand else OffCommand
  }

  /** A click on the switch.  The switch is on screen only once loading is
      over, so a click while loading reaches no handler.  An accepted click
      records its time and publishes the toggle command; it does not change
      the displayed light state, which only a status reply changes. */
  function ClickStep(s: ScreenState, now: Long): (t: ScreenState)
    ensures t.isLightOn == s.isLightOn && t.isLoading == s.isLoading
    ensures ClickAccepted(s, now) ==>
              t.lastClickTime == now && t.sent == s.sent + [ToggleCommand(s.isLightOn)]
    ensures !ClickAccepted(s, now) ==> t == s
  {
    if s.isLoading then s
    else if LongSub(now, s.lastClickTime) >= DebounceMillis then
      s.(lastClickTime := now, sent := s.sent + [ToggleCommand(s.isLightOn)])
    else s
  }

  /** The events the screen reacts to. */
  datatype Event = Message(payload: string) | StatusQuery | Click(now: Long)

  function Step(s: ScreenState, e: Event): ScreenState {
    match e
    case Message(p) => MessageStep(s, p)
    case StatusQuery => QueryStep(s)
    case Click(now) => ClickStep(s, now)
  }

  /** The state after a sequence of events, handled one at a time. */
  function Run(s: ScreenState, es: seq<Event>): ScreenState
    decreases |es|
  {
    if es == [] then s else Run(Step(s, es[0]), es[1..])
  }

  /** The screen's state, held in mutable fields as the composable holds it
      in remembered state. */
  class LightControlScreen {
    var isLightOn: bool
    var isLoading: bool
    var lastClickTime: Long
    /** The publishes requested so far, oldest first. */
    var sent: seq<string>

    /** The abstract value of the fields. */
    function State(): ScreenState
      reads this
    {
      ScreenState(isLightOn, isLoading, lastClickTime, sent)
    }

    constructor ()
      ensures State() == Initial
      ensures !isLightOn && isLoading && lastClickTime == 0 && sent == []
    {
      isLightOn := false;
      lastClickTime := 0;
      isLoading := true;
      sent := [];
    }

    /** The subscription callback. */
    method OnMessage(payload: string)
      modifies this
      ensures State() == MessageStep(old(State()), payload)
      ensures CaseVariant(payload, StatusOnReply) ==> isLightOn && !isLoading
      ensures CaseVariant(payload, StatusOffReply) ==> !isLightOn && !isLoading
      ensures !CaseVariant(payload, StatusOnReply) && !CaseVariant(payload, StatusOffReply) ==>
                isLightOn == old(isLightOn) && isLoading == old(isLoading)
      ensures lastClickTime == old(lastClickTime) && sent == old(sent)
    {
      var key := Upper(payload);
      if key == StatusOnReply {
        isLightOn := true;
        isLoading := false;
      } else if key == StatusOffReply {
        isLightOn := false;
        isLoading := false;
      }
    }

    /** The deferred startup query. */
    method StatusQuery()
      modifies this
      ensures State() == QueryStep(old(State()))
      ensures sent == old(sent) + [StatusCommand]
      ensures isLightOn == old(isLightOn) && isLoading == old(isLoading)
      ensures lastClickTime == old(lastClickTime)
    {
      sent := sent + [StatusCommand];
    }

    /** A click on the switch at time now (milliseconds). */
    method Click(now: Long)
      modifies this
      ensures State() == ClickStep(old(State()), now)
      ensures isLightOn == old(isLightOn) && isLoading == old(isLoading)
      ensures ClickAccepted(old(State()), now) ==>
                lastClickTime == now && sent == old(sent) + [ToggleCommand(old(isLightOn))]
      ensures !ClickAccepted(old(State()), now) ==>
                lastClickTime == old(lastClickTime) && sent == old(sent)
    {
      if isLoading {
        return;
      }
      var currentTime := now;
      if LongSub(currentTime, lastClickTime) >= DebounceMillis {
        lastClickTime := currentTime;
        sent := sent + [if !isLightOn then OnCommand else OffCommand];
      }
    }
  }
}
