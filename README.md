# Light control screen: toggle controller model

The Android app shows one switch for a remote light and talks to it over a
single MQTT topic. The composable `LightControlScreen` has three pieces of
remembered state:

- `isLightOn`, starting `false`;
- `isLoading`, starting `true`;
- `lastClickTime`, a Kotlin `Long` starting `0`.

It reacts to three events:

- **An inbound message.** The payload is upper-cased. `"STATUS_ON"` turns the light on in the view and ends loading. `"STATUS_OFF"` turns it off and ends loading. Every other payload is ignored.
- **The deferred startup query.** A single `"STATUS"` publish.
- **A click on the switch.** It has a 1000 ms debounce. An accepted click publishes `"ON"` when the light is shown off and `"OFF"` when it is shown on. The switch is drawn only once loading is over.

The model has three modules.

- `CaseMapping` (`case_mapping.dfy`) models `String.uppercase()` as far as the matching needs it. `CaseVariant` is a reference definition of "equal ignoring case". `UpperEqualsIff` proves that upper-casing a payload yields a target word exactly when the payload is a case variant of it.
- `LightControl` (`light_control.dfy`) holds the specification. The `ScreenState` value is the three fields plus `sent`, the log of requested publishes. There is one step function per event (`MessageStep`, `QueryStep`, `ClickStep`) and `Run` over a sequence of events. The class `LightControlScreen` keeps the same state in mutable fields. Each of its methods (`OnMessage`, `StatusQuery`, `Click`) is proved to change its fields exactly as the matching step function says.
- `LightControlProperties` (`light_control_properties.dfy`) proves facts that span several events:
  - the loading phase never comes back once it is over;
  - the debounce holds;
  - every logged publish is one of the screen's own commands, and none is a toggle command while loading;
  - echoes of the screen's own commands are ignored;
  - the last recognised status wins;
  - two end-to-end runs.

Two facts of the click handler shape the model:

- **A click only publishes.** `isLightOn` is set only by a status reply (`MainActivity.kt` lines 66 and 70). So two accepted clicks with no status reply and no other click between them publish the same command (`ClicksWithoutReplyRepeatCommand`).
- **Loading gate.** A click while loading has no effect: the switch is drawn only in the `else` branch at `MainActivity.kt` line 157. `ClickStep` models this.

Time is a parameter (`now`), standing for `System.currentTimeMillis()`. The debounce test `currentTime - lastClickTime >= 1000` is done in wrapping 64-bit arithmetic (`LongSub`), as Kotlin's `Long` subtraction does. For the non-negative clock values the app actually sees, this is ordinary subtraction.

## Model

| member | source | states |
|---|---|---|
| `CaseMapping.Upper` | App/LightControlApplication/app/src/main/java/com/demo/lightcontrolapplication/MainActivity.kt:64 | upper-casing keeps the length and maps each character through the character mapping (ASCII letters, long s, dotless i) |
| `CaseMapping.UpperCharSpells` | App/LightControlApplication/app/src/main/java/com/demo/lightcontrolapplication/MainActivity.kt:64 | for an upper-case character u, a character upper-cases to u exactly when it is one of u's spellings |
| `CaseMapping.UpperEqualsIff` | App/LightControlApplication/app/src/main/java/com/demo/lightcontrolapplication/MainActivity.kt:64 | for upper-case text t, `uppercase(s) == t` holds exactly when s equals t ignoring case (both directions) |
| `CaseMapping.UpperIdempotent` | App/LightControlApplication/app/src/main/java/com/demo/lightcontrolapplication/MainActivity.kt:64 | upper-casing twice gives the same string as upper-casing once |
| `CaseMapping.UpperIsUpperText` | App/LightControlApplication/app/src/main/java/com/demo/lightcontrolapplication/MainActivity.kt:64 | every character of an upper-cased string is upper case |
| `LightControl.LongSub` | App/LightControlApplication/app/src/main/java/com/demo/lightcontrolapplication/MainActivity.kt:187 | Long subtraction agrees with the exact difference modulo 2^64, and equals it whenever the difference fits in a Long |
| `LightControl.ParseReply` | App/LightControlApplication/app/src/main/java/com/demo/lightcontrolapplication/MainActivity.kt:64-73 | a payload reads as STATUS_ON exactly when it is a case variant of "STATUS_ON", and as STATUS_OFF exactly when it is a case variant of "STATUS_OFF" |
| `LightControl.MessageStep` | App/LightControlApplication/app/src/main/java/com/demo/lightcontrolapplication/MainActivity.kt:63-74 | a case variant of "STATUS_ON" sets the light on and ends loading; one of "STATUS_OFF" sets it off and ends loading; any other payload leaves the whole state (click time and log included) unchanged; nothing is sent |
| `LightControl.QueryStep` | App/LightControlApplication/app/src/main/java/com/demo/lightcontrolapplication/MainActivity.kt:77-80 | the startup query appends exactly "STATUS" to the log and changes no state field |
| `LightControl.ToggleCommand` | App/LightControlApplication/app/src/main/java/com/demo/lightcontrolapplication/MainActivity.kt:190 | the command is "ON" exactly when the light is shown off and "OFF" exactly when it is shown on |
| `LightControl.ClickStep` | App/LightControlApplication/app/src/main/java/com/demo/lightcontrolapplication/MainActivity.kt:185-193 | a click when not loading and at least 1000 ms (Long arithmetic) after the last accepted one records its time and appends the toggle command; any other click (including every click while loading, when the switch at lines 144/157 is not drawn) changes nothing; the light and loading flags never change |
| `LightControl.LightControlScreen.constructor` | App/LightControlApplication/app/src/main/java/com/demo/lightcontrolapplication/MainActivity.kt:56-58 | the screen starts with the light off, loading, last click time 0 and nothing sent |
| `LightControl.LightControlScreen.OnMessage` | App/LightControlApplication/app/src/main/java/com/demo/lightcontrolapplication/MainActivity.kt:63-74 | the fields move as `MessageStep` says: each status reply sets its light value and clears loading, other payloads leave light and loading alone, click time and log never change |
| `LightControl.LightControlScreen.StatusQuery` | App/LightControlApplication/app/src/main/java/com/demo/lightcontrolapplication/MainActivity.kt:77-80 | the fields move as `QueryStep` says: "STATUS" is appended to the log and nothing else changes |
| `LightControl.LightControlScreen.Click` | App/LightControlApplication/app/src/main/java/com/demo/lightcontrolapplication/MainActivity.kt:185-193 | the fields move as `ClickStep` says: an accepted click sets the click time to now and appends the inverse command of the displayed state; otherwise click time and log are kept; light and loading never change |
| `LightControlProperties.MessageIdempotent` | App/LightControlApplication/app/src/main/java/com/demo/lightcontrolapplication/MainActivity.kt:63-74 | handling the same payload twice gives the state handling it once gives |
| `LightControlProperties.StatusOnIsCaseInsensitive` | App/LightControlApplication/app/src/main/java/com/demo/lightcontrolapplication/MainActivity.kt:64-68 | "STATUS_ON", "status_on", "Status_On" and "ſtatus_on" all set the light on and end loading |
| `LightControlProperties.OwnCommandsIgnored` | App/LightControlApplication/app/src/main/java/com/demo/lightcontrolapplication/MainActivity.kt:64-73 | the screen's own commands "STATUS", "ON" and "OFF", received back on the shared topic, change nothing |
| `LightControlProperties.LoadingNeverReturns` | App/LightControlApplication/app/src/main/java/com/demo/lightcontrolapplication/MainActivity.kt:58-71 | once loading is false it stays false through any sequence of events |
| `LightControlProperties.LoadingUntilStatus` | App/LightControlApplication/app/src/main/java/com/demo/lightcontrolapplication/MainActivity.kt:63-74 | after a run the screen is loading exactly when it was loading before and no event was a recognised status reply |
| `LightControlProperties.InitialConsistent` | App/LightControlApplication/app/src/main/java/com/demo/lightcontrolapplication/MainActivity.kt:56-58 | the initial state satisfies the log invariant |
| `LightControlProperties.StepConsistent` | App/LightControlApplication/app/src/main/java/com/demo/lightcontrolapplication/MainActivity.kt:185-193 | every event keeps the invariant: the log holds only "STATUS", "ON" or "OFF", and no "ON"/"OFF" is logged while loading |
| `LightControlProperties.RunConsistent` | App/LightControlApplication/app/src/main/java/com/demo/lightcontrolapplication/MainActivity.kt:63-80 | every sequence of events keeps the log invariant |
| `LightControlProperties.EchoesIgnored` | App/LightControlApplication/app/src/main/java/com/demo/lightcontrolapplication/MainActivity.kt:63-74 | in any state reached from the initial one, receiving back any logged publish leaves the state unchanged |
| `LightControlProperties.LastStatusWins` | App/LightControlApplication/app/src/main/java/com/demo/lightcontrolapplication/MainActivity.kt:63-74 | a run of inbound messages leaves the state alone when none is a recognised reply; otherwise the light follows the last recognised reply, loading is over, click time and log are unchanged |
| `LightControlProperties.NoClickRun` | App/LightControlApplication/app/src/main/java/com/demo/lightcontrolapplication/MainActivity.kt:63-80 | events other than clicks keep the click time and send no toggle command |
| `LightControlProperties.ClicksWithinIntervalSendOnce` | App/LightControlApplication/app/src/main/java/com/demo/lightcontrolapplication/MainActivity.kt:186-192 | two clicks less than 1000 ms apart (either order, any non-click events between) send at most one toggle command, and exactly one when the first click is accepted |
| `LightControlProperties.ClicksApartSendTwice` | App/LightControlApplication/app/src/main/java/com/demo/lightcontrolapplication/MainActivity.kt:186-192 | an accepted click followed at least 1000 ms later by a second click (any non-click events between) sends two toggle commands |
| `LightControlProperties.QuietRun` | App/LightControlApplication/app/src/main/java/com/demo/lightcontrolapplication/MainActivity.kt:63-80 | a run with no click and no recognised status reply leaves light, loading and click time unchanged and adds only its "STATUS" queries to the log |
| `LightControlProperties.ClicksWithoutReplyRepeatCommand` | App/LightControlApplication/app/src/main/java/com/demo/lightcontrolapplication/MainActivity.kt:185-193 | two accepted clicks with no status reply and no other click between them log the same toggle command twice, with only the status queries of the events between them logged in between, because a click does not flip the displayed state |
| `LightControlProperties.QueryThenStatusOff` | App/LightControlApplication/app/src/main/java/com/demo/lightcontrolapplication/MainActivity.kt:63-80 | the startup query followed by a "STATUS_OFF" reply in any spelling leaves the light off, loading over, and "STATUS" logged |
| `LightControlProperties.QueryReplyClickScenario` | App/LightControlApplication/app/src/main/java/com/demo/lightcontrolapplication/MainActivity.kt:56-193 | start, query, a "STATUS_OFF" reply in any spelling, a click, and a second click 500 ms later log exactly "STATUS", "ON"; the light is still shown off and loading is over |
| `LightControlProperties.UnsolicitedPushScenario` | App/LightControlApplication/app/src/main/java/com/demo/lightcontrolapplication/MainActivity.kt:63-80 | a status push before the query ends loading at once; the later query is still logged, and a matching reply changes nothing |

## Left out

- Rendering, layout, colours, gradients, texts and animations (`MainActivity.kt` lines 82-270 apart from the loading gate and the click handler). This is presentation only, and the thumb offset and scale are floating-point UI numerics.
- The Activity lifecycle (`onCreate`, `onDestroy`): these are Android framework hooks.
- Coroutine scheduling. `LaunchedEffect`, `delay(1000)` and `scope.launch` are not modelled. The startup query is an explicit event that a run may place anywhere. The click's publish is appended synchronously. In the app the publish runs in a launched coroutine and reads `isLightOn` when that coroutine runs, so a status reply arriving in between could change the command; the model does not capture that interleaving. Inbound messages are delivered on the MQTT client's callback thread (`MqttService.kt` lines 49-52), alongside the UI thread that runs the click handler; the model handles all events one at a time, in a single order.
- The clock. `System.currentTimeMillis()` is the `now` parameter of `Click`.
- `MqttService.kt`, the transport wrapper. It covers broker connection, subscription, the random client id, and exceptions that are caught and printed. It publishes only while connected, so `sent` records publishes the screen requests, not messages delivered.
- Unicode case mapping beyond ASCII letters, long s and dotless i. Kotlin's `uppercase()` also expands some characters into several; for example the ligature "ﬀ" becomes "FF". So the app also accepts payloads such as "STATUS_Oﬀ", which the model reads as unrecognised.
- The decoding of payload bytes into a string (`String(it.payload)` in `MqttService.kt`): the model starts from the decoded payload.
