# A verified model of the ESP32 monitor's configuration, clock and MQTT session cores

The firmware runs on an ESP32 with an Ethernet link and a DHT22 sensor. This
project models three of its components in Dafny and proves properties of them.

- **`Config_Manager`** (ConfigManager.py) keeps one JSON document per component
  in a file. It loads the document, and falls back to a copy of the defaults when
  the file cannot be read. It merges updates into the document, and resets
  either the whole document or a list of keys to their defaults. The model is
  the class `ConfigManager.Store`. Its field `file` holds the backing file as
  absent, unreadable or holding a document.
- **`Time_Manager`** (TimeManager.py) keeps a wall clock. It renders and parses
  ISO timestamps, and shifts an anchor timestamp by a number of milliseconds. It
  fetches an anchor over HTTP in a loop of up to three attempts gated on the
  link (as written, only the first attempt is ever made; see below), and reads
  the time as the anchor plus the counter ticks elapsed since it was taken.
  - `Calendar` models `time.mktime` and `time.localtime`.
  - `IsoText` models the `{:04d}` rendering and the `ure` prefix match.
  - `Ticks` models `time.ticks_diff` on MicroPython's wrapping 2^30 millisecond counter.
  - `TimeManager` holds the timestamp arithmetic and the stateful class `Clock`.
- **`MQTT_Manager`** (MQTTManager.py) is the broker session. Its parts are:
  - its settings and topics, derived from configuration;
  - the gated `safe_publish`;
  - the liveness tick;
  - the `get_config` command handler;
  - the connection watcher's up and down steps;
  - `reset_mqtt_config`.

  The model is the class `MqttManager.Session`. It has the `is_mqtt_ready` flag
  and a log of every call made on the MQTT client, with each call's outcome.
  Its pure counterpart `Trace` describes any sequence of steps, and
  `Session.Run` is proved to follow it.

The session is modelled as the code is written. The ready flag is set *before*
the subscriptions are made (MQTTManager.py:92). That is why the retained online
announcement gets through the publish gate.

The retry loop of `sync_ntp_task` allows three attempts. As the code is
written, the first attempt always decides the result:
- a success returns;
- a failed request calls `machine.reset()` inside `sync_http_time`, which restarts the device;
- a down link leaves the loop.

`Clock.SyncNtpTask` proves that at most one request is made.

`now()` measures the time since the anchor with `ticks_diff`, which is only
faithful below half the counter period, 2^29 ms or about 6.2 days. Within that
window the time shown never goes back (`NowMonotone`). If the device goes
longer without a new anchor (for instance while the link is down, when
`sync_ntp_task` makes no request), `ticks_diff` turns negative, and
`now()` shows an instant *before* the anchor (`NowPastHalfPeriod`,
`NowPastHalfCanonical`). Nothing at TimeManager.py:94 guards against this.

Things the model takes as parameters:
- Anything the program reads from outside: file contents, whether a write
  succeeds, the HTTP response, the link state, counter readings, the
  real-time clock, and the outcome of each MQTT call.
- `machine.unique_id()` in hexadecimal, as the string parameter `hexId`.

## Model

| member | source | states |
|---|---|---|
| `Json.Get` | ConfigManager.py:43-45 | `dict.get`: the stored value when the key is present, the given default otherwise |
| `ConfigManager.ResolveDefaults` | ConfigManager.py:7-14 | the defaults are the named defaults file's document when a non-empty name is given and the file reads; otherwise the `default_config` argument |
| `ConfigManager.Store.constructor` | ConfigManager.py:5-17 | fixes the defaults; an absent backing file is written with the defaults, so the store then loads exactly the defaults; an existing file is left alone |
| `ConfigManager.Store.LoadConfig` | ConfigManager.py:19-27 | the stored document when the file reads, otherwise the defaults |
| `ConfigManager.Store.SaveConfig` | ConfigManager.py:29-42 | on a successful write the file holds the loaded document merged with the update, later keys winning, with every key the update does not name kept; on a failed write the file is unchanged and the defaults are returned |
| `ConfigManager.Store.GetConfig` | ConfigManager.py:43-45 | the loaded value of the key, or the caller's default when the loaded document lacks it |
| `ConfigManager.Store.SetConfig` | ConfigManager.py:47-48 | after a successful write the document is the old one with just that key set, the key reads back as the value, and every other key is present and equal exactly as before; a failed write changes nothing |
| `ConfigManager.Store.ResetConfig` | ConfigManager.py:50-78 | on a successful write the file holds the reset of the loaded document (the loop's invariant ties each iteration to the key-list prefix done so far); a failed write is swallowed and the file is unchanged |
| `ConfigManager.ResetEachIsReference` | ConfigManager.py:63-69 | the key-by-key loop equals a loop-free description: a listed key takes its default or is removed, an unlisted key keeps its old value |
| `ConfigManager.ResetEachEffect` | ConfigManager.py:58-73 | each listed key with a default equals it, each listed key without one is absent, each unlisted key is present and equal exactly as before, and no key outside the old document and the defaults appears |
| `ConfigManager.ResetEachIdempotent` | ConfigManager.py:63-73 | resetting the same key list twice gives the once-reset document |
| `ConfigManager.ResetResultIdempotent` | ConfigManager.py:52-73 | `reset_config(keys)` applied twice stores what applying it once stores, for every form of `keys` |
| `ConfigManager.ResetResultCases` | ConfigManager.py:52-61 | `reset_config(None)` stores exactly the defaults; a single string key behaves as the one-element list and as one loop iteration |
| `Calendar.Mktime` | TimeManager.py:38 | `time.mktime` on the first six fields, the month carried into the year; its properties are `MktimeInjective`, `MktimeLocaltime` and `LocaltimeMktime` |
| `Calendar.Localtime` | TimeManager.py:21 | `localtime(s)` is a date-time with every field in range whose `mktime` is `s` |
| `Calendar.MktimeInjective` | TimeManager.py:38 | two in-range date-times with the same `mktime` are equal |
| `Calendar.LocaltimeMktime` | TimeManager.py:38-41 | `localtime(mktime(t)) == t` for every in-range date-time |
| `Calendar.MktimeLocaltime` | TimeManager.py:38-41 | `mktime(localtime(s)) == s` for every instant |
| `Calendar.FindYear` | TimeManager.py:21 | the year search lands on a year containing the day, at that day's index within it |
| `Calendar.YearStartMonotone` | TimeManager.py:21 | a later year starts after the whole of every earlier year |
| `IsoText.ValueDigits` | TimeManager.py:22 | the decimal numeral the renderer writes for a natural number reads back as that number |
| `IsoText.ValuePadded` | TimeManager.py:22 | zero-padding a numeral to any width keeps its value and reaches at least that width |
| `IsoText.DigitRun` | TimeManager.py:27 | the maximal leading run of digits: every character in it is a digit and the next one is not |
| `IsoText.MatchPrefixSound` | TimeManager.py:27 | a successful match splits the text into non-empty digit fields joined by the separators `- - T : :`, followed by an unconstrained rest |
| `IsoText.MatchPrefixComplete` | TimeManager.py:27 | every such split of a text is the one the match finds, so the match fails only on texts that have no such prefix |
| `IsoText.ParseIsoOnMatch` | TimeManager.py:27-29 | on a text with such a prefix, `parse_iso` returns the values of the six digit fields, whatever follows |
| `IsoText.ParseIsoNoMatch` | TimeManager.py:30-32 | on a text without such a prefix, `parse_iso` returns all zeros |
| `IsoText.Render` | TimeManager.py:22 | the `{:04d}-{:02d}-{:02d}T{:02d}:{:02d}:{:02d}` text; its layout is stated by `RenderLayout`, `RenderFixedWidth` and `RenderNonEmpty`, and its inverse by `ParseRender` |
| `IsoText.ParseIso` | TimeManager.py:26-34 | `parse_iso`; its behaviour on matching and non-matching text is stated by `ParseIsoOnMatch` and `ParseIsoNoMatch`, and its inverse by `ParseRender` |
| `IsoText.RenderLayout` | TimeManager.py:22 | the rendered text is six numerals joined by `-`, `-`, `T`, `:`, `:`; the year has at least 4 digits, each other field at least 2, and each reads back as its field |
| `IsoText.RenderFixedWidth` | TimeManager.py:42 | for a year of 0 to 9999 and other fields of 0 to 99 the text is 19 characters long with the separators at positions 4, 7, 10, 13 and 16 |
| `IsoText.RenderNonEmpty` | TimeManager.py:22 | a rendered timestamp is never empty, so `now()` treats it as an anchor |
| `IsoText.ParseRender` | TimeManager.py:22-29 | for non-negative fields `parse_iso` of a rendering returns the fields, also with any text appended that does not start with a digit (a fraction, a zone letter) |
| `Ticks.TicksDiff` | TimeManager.py:94 | `ticks_diff(a, b)` lies in the signed half-period window and is congruent to `a - b` modulo the period |
| `Ticks.TicksAdd` | TimeManager.py:94 | the counter `e` ms after a reading is a valid counter value |
| `Ticks.TicksDiffElapsed` | TimeManager.py:94 | across any wrap-around of the counter, `ticks_diff` returns the true elapsed time whenever that is under half the period |
| `TimeManager.GetIsoTimestamp` | TimeManager.py:18-24 | the real-time clock plus the offset, rendered; `NowWithoutAnchor` states when `now()` uses it |
| `TimeManager.IsoAddMs` | TimeManager.py:36-44 | `iso_add_ms`; its properties are stated by the `IsoAddMs…` lemmas below |
| `TimeManager.IsoAddMsIgnoresOffset` | TimeManager.py:38-41 | `iso_add_ms` gives the same text for any two time-zone offsets: the anchor's `mktime` plus the whole seconds of the delta, rendered |
| `TimeManager.IsoAddMsShift` | TimeManager.py:37-42 | any anchor whose parsed fields have `mktime` `m` shifts to the rendering of `localtime(m + delta // 1000)` |
| `TimeManager.IsoAddMsWholeSeconds` | TimeManager.py:40 | deltas with the same floor of seconds give the same result |
| `TimeManager.IsoAddMsSubSecond` | TimeManager.py:36-44 | a canonical anchor (the rendering of an in-range date-time) shifted by 0 to 999 ms is returned unchanged |
| `TimeManager.IsoAddMsSubSecondAt` | TimeManager.py:36-44 | any anchor that denotes an in-range date-time, shifted by 0 to 999 ms, renders that date-time |
| `TimeManager.IsoAddMsAdvances` | TimeManager.py:36-44 | read back through `parse_iso` and `mktime`, the result is the anchor's instant plus the delta's whole seconds |
| `TimeManager.IsoAddMsCanonical` | TimeManager.py:36-44 | a canonical anchor shifted by a delta is the rendering of the instant the delta's whole seconds later |
| `TimeManager.CanonicalAdvances` | TimeManager.py:36-44 | a canonical anchor from year 0 on, shifted forwards, reads back through `parse_iso` and `mktime` as its instant plus the delta's whole seconds |
| `TimeManager.ParseRenderSelf` | TimeManager.py:22-29 | parsing a rendering of non-negative fields gives back those fields |
| `TimeManager.Clock.constructor` | TimeManager.py:8-16 | the offset is the hours times 3600, the boot tick is recorded, and the clock starts unsynced with no anchor |
| `TimeManager.Clock.SyncHttpTime` | TimeManager.py:46-61 | a fetched anchor sets the text and the tick together and marks the clock synced; a failed request leaves both unchanged, marks the clock unsynced and restarts the device; the anchor's halves stay paired |
| `TimeManager.Clock.SyncNtpTask` | TimeManager.py:63-83 | no more than one request, and none when the link is down; true at the first success; a failed request ends in a device restart before any further attempt; on fall-through the clock is unsynced with its anchor unchanged |
| `TimeManager.Clock.UptimeMs` | TimeManager.py:101-104 | the uptime in milliseconds lies in the signed half-period window of the counter |
| `TimeManager.UptimeMeasuresElapsed` | TimeManager.py:101-104 | `uptime()` is exactly the milliseconds since boot, across a wrap-around of the counter, while that is under half the period |
| `TimeManager.UptimePastHalfPeriod` | TimeManager.py:101-104 | from half the period on, `uptime()` reads the elapsed time `e` as the negative `e - 2^30` |
| `TimeManager.Clock.Now` | TimeManager.py:92-99 | `now()`: the anchor path exactly when the anchor text is non-empty and the anchor tick is set; stated by the `Now…` lemmas below |
| `TimeManager.NowWithoutAnchor` | TimeManager.py:92-99 | without a non-empty anchor text and an anchor tick, `now()` renders the real-time clock with the offset |
| `TimeManager.NowMeasuresElapsed` | TimeManager.py:92-95 | with an anchor, `now()` shifts it by the true elapsed milliseconds since the anchor tick, even across counter wrap-around, whenever less than half the period has passed |
| `TimeManager.NowCanonical` | TimeManager.py:92-95 | with a canonical anchor, `now()` renders the anchor's instant advanced by the whole seconds elapsed on the counter |
| `TimeManager.NowInstant` | TimeManager.py:92-95 | with the rendering of a valid date-time from year 0 on as anchor, the instant `now()` shows (read back through `parse_iso` and `mktime`) is the anchor's instant plus the whole seconds elapsed |
| `TimeManager.NowMonotone` | TimeManager.py:92-95 | within half the counter period of the anchor tick, a later counter reading never shows an earlier instant |
| `TimeManager.NowPastHalfPeriod` | TimeManager.py:92-95 | once `2^30 + back` ms have passed, with `back` between `-2^29` and 0, `now()` shifts the anchor by the negative `back` |
| `TimeManager.NowPastHalfCanonical` | TimeManager.py:92-95 | past half the period, with a canonical anchor, `now()` renders an instant before the anchor's |
| `Ticks.TicksDiffPastHalf` | TimeManager.py:94 | from half the period on, `ticks_diff` reads the elapsed time `e` as the negative `e - 2^30` |
| `Calendar.LocaltimeFromYear` | TimeManager.py:41 | every instant from the start of a year on falls in that year or a later one |
| `Calendar.MktimeFromYear` | TimeManager.py:38 | a valid date-time in a year or later is at or after that year's start |
| `TimeManager.ForwardShiftYear` | TimeManager.py:40-41 | shifting a valid date-time forwards never moves it to an earlier year |
| `MqttManager.WithoutColons` | MQTTManager.py:18 | `replace(':', '')`: the result has no colon, the same characters as its input otherwise, and is the input itself when that has none |
| `MqttManager.WithoutColonsOne` | MQTTManager.py:18 | a single colon is dropped and any other character kept |
| `MqttManager.WithoutColonsAppend` | MQTTManager.py:18 | removing colons from a concatenation removes them from each part; with `WithoutColonsOne` this fixes the result as the input's non-colon characters in their order |
| `MqttManager.ClientId` | MQTTManager.py:18 | a non-empty MAC gives `WithoutColons` of the MAC, so no colon and its other characters; an empty one gives the hex of the unique id |
| `MqttManager.SettingsFor` | MQTTManager.py:19-28 | the client settings read from the document; stated by `SettingsDefaults`, `SettingsFromConfig` and `WillSharesStatusTopic` |
| `MqttManager.SettingsDefaults` | MQTTManager.py:19-28 | from an empty document: a will of `{"status":"offline","mac":mac}` on `esp32/{client_id}/status`, retained, at QoS 1; no broker, port 1883, empty credentials, keepalive 120, queue length 1 |
| `MqttManager.SettingsFromConfig` | MQTTManager.py:19-28 | each configured setting overrides its default, and the will is always the retained QoS 1 offline message |
| `MqttManager.WillSharesStatusTopic` | MQTTManager.py:19-31 | unless one of the two is configured, the will and the status announcements use the same topic |
| `MqttManager.SubscribeList` | MQTTManager.py:32 | a list setting gives its items in order; a string gives its characters, as iterating a Python string does |
| `MqttManager.StripPadded` | MQTTManager.py:64 | `strip()` of a text equals a core exactly when the text is that core with whitespace on either side and the core has none at its ends |
| `MqttManager.IsGetConfigPadded` | MQTTManager.py:61-64 | a message is taken for `get_config` exactly when it decodes, arrives on `esp32/commands`, and its payload is the command padded with whitespace |
| `MqttManager.ResponseTopicIsNotCommandTopic` | MQTTManager.py:64-83 | the response topic never equals the command topic, so a response is never taken for a command |
| `MqttManager.ConfigResponse` | MQTTManager.py:69-82 | the `get_config` response; stated by `ConfigResponseContents` and `AlertsRenamed` |
| `MqttManager.ConfigResponseContents` | MQTTManager.py:69-82 | the response carries the Ethernet and MQTT documents whole and the alerts under `alerts`, and nothing else |
| `MqttManager.AlertsRenamed` | MQTTManager.py:72-81 | the alerts have exactly the eight keys, each the sensor's `CON_*` setting under its own name, or null when that is absent |
| `MqttManager.MessageAnswers` | MQTTManager.py:64-84 | a message causes at most one call, and one exactly when the session is ready and the message is the whitespace-padded `get_config` command on `esp32/commands`; that call is a non-retained publish to `esp32/response/{mac}/config`, never to the command topic |
| `MqttManager.SubscribeCalls` | MQTTManager.py:95-100 | one QoS 1 subscription per topic, in list order, whatever each attempt's outcome |
| `MqttManager.Step` | MQTTManager.py:51-108 | one step of the session: a connection coming up, going down, a liveness tick or an inbound message; its effects are stated by `UpAnnounces`, `DownSilences` and `MessageAnswers` |
| `MqttManager.Trace` | MQTTManager.py:51-108 | a run of steps in order; `Session.Run` is proved to follow it, and `QuietWhileDown`, `DownSilences` and `UpAnnounces` state its properties |
| `MqttManager.QuietWhileDown` | MQTTManager.py:39-56 | a session that is not ready makes no call at all until a connection comes up |
| `MqttManager.DownSilences` | MQTTManager.py:105-107 | after a disconnect, no later liveness tick or inbound message makes any call until the next connection comes up, and the session stays not ready (for a direct `safe_publish`, `Session.SafePublish` states the same gate) |
| `MqttManager.UpAnnounces` | MQTTManager.py:90-103 | a connection coming up ends ready, having appended exactly the subscriptions in order and then one retained online announcement |
| `MqttManager.ResetEffect` | MQTTManager.py:121-123 | `reset_mqtt_config` reverts `broker`, `port`, `user` and `password` to their defaults or removes them, and keeps every other setting |
| `MqttManager.Session.constructor` | MQTTManager.py:12-33 | opens `mqtt_config.json` with `mqtt_default_config.json` as defaults; the client id, settings, status topic and topic list come from the loaded document and their defaults; the session starts not ready with an empty log |
| `MqttManager.Session.SafePublish` | MQTTManager.py:38-49 | not ready: false and no call; ready: exactly one call with the topic, payload, retain flag and QoS, and a result true exactly when the call went through |
| `MqttManager.Session.StatusTick` | MQTTManager.py:51-56 | when ready, exactly one non-retained `{"status":"online","mac":mac}` publish to the status topic; otherwise no call |
| `MqttManager.Session.ConnectionUp` | MQTTManager.py:88-103 | becomes ready first, then subscribes to every topic in order at QoS 1, then makes one retained online publish |
| `MqttManager.Session.ConnectionDown` | MQTTManager.py:105-107 | becomes not ready and makes no call |
| `MqttManager.Session.HandleMessage` | MQTTManager.py:58-86 | a ready session answers `get_config` on the command topic with exactly one publish of the three documents to `esp32/response/{mac}/config`; any other message, an undecodable one, or one while not ready causes no call; readiness is unchanged |
| `MqttManager.Session.Run` | MQTTManager.py:51-108 | driving the session through any sequence of steps leaves the ready flag and the log that the step-by-step description `Trace` gives |
| `MqttManager.Session.ResetMqttConfig` | MQTTManager.py:121-126 | on a successful write the session's document is reset on the four broker keys; a failed write is swallowed and the file is unchanged |

## Left out

- The uasyncio scheduling is not modelled: `asyncio.create_task`, `asyncio.sleep`, the `up`/`down` events, `start_service_ntp_sync` (TimeManager.py:85-90) and `start_service_mqtt` with its connect-retry loop (MQTTManager.py:110-119). Each coroutine body is a step method instead, driven in sequence by `Session.Run`. Interleavings of the three MQTT tasks are not captured.
- `is_connected` (MQTTManager.py:35-36) is left out: it only forwards the client's own link state, which the model takes as a parameter.
- Network and transport I/O are left out: `urequests.get`, and the `mqtt_as` client's connect, subscribe, publish and message queue. Results are parameters, and calls are entries in `Session.log`. A missing outcome for a subscription counts as a failure.
- Broker-side delivery of the last will (section 3.1.2.5 of MQTT 3.1.1) is left out. The model only records the will in the client settings.
- `Clock.SyncHttpTime`: an exception raised after the anchor is set (by `res.close()` at TimeManager.py:54) is not modelled. The request either yields the `iso` field or fails before any field changes. The field is taken to be a string.
- JSON encoding and decoding (`ujson.dumps`, `json.load`) and UTF-8 decoding are left out. Documents and payloads are structured values, and a payload that does not decode is `Undecodable`. A document read from a file is taken to be a JSON object.
- File-system calls (`open`, `uos.listdir`) are left out. The file is absent, unreadable or holds a document, and a write either succeeds or leaves the file unchanged. A write that fails half-way and leaves a truncated file is not modelled.
- `Store.SaveConfig`: the returned value on a failed write is the defaults map itself, not a distinct copy. Dafny maps are values, so the copy cannot be observed.
- MicroPython's normalisation of out-of-range fields in `mktime` is modelled only for the month, which is carried into the year. Other fields simply add up. `localtime` uses the proleptic Gregorian calendar from 1970 on every integer instant.
- `NowMonotone`: stated for an anchor text that is the rendering of a valid date-time from year 0 on, as the time server sends; for other anchor texts the instant shown is still the anchor's `mktime` plus the whole seconds (`IsoAddMsShift`), but read-back through `parse_iso` is not stated.
- `IsoAddMsAdvances`: requires the resulting year to be non-negative. A negative year renders with a sign, which `parse_iso` does not read back.
- `uptime()` divides by 1000 in floating point (TimeManager.py:102). `Clock.UptimeMs` returns the integer milliseconds instead; `UptimeMeasuresElapsed` and `UptimePastHalfPeriod` state what they measure.
- JSON numbers are integers only (`Json.Value` has no float). Settings that may be fractional, such as the `CON_*` thresholds, are only copied into the `get_config` response and never computed with, so the model's behaviour does not depend on this.
- The real-time clock `time.time()` is a parameter of `Now` and `GetIsoTimestamp`. Those two functions have no contract of their own; their behaviour is stated by the `Render`, `IsoAddMs` and `Now…` lemmas.
- `MqttManager.SubscribeList`: a `subscribe_topics` setting that is neither a list nor a string is treated as empty, which differs from the source in two ways:
  - a JSON object is iterated by its keys at MQTTManager.py:95, so the source subscribes to each key; the model cannot give the order of a dictionary's keys (Dafny maps have none) and subscribes to nothing;
  - for a number, a boolean or null, iterating it raises a `TypeError` at MQTTManager.py:95, outside the `try` at :96, so `connection_handler` dies with `is_mqtt_ready` still set from :92: no online announcement is made, no later disconnect is handled, and the publish gate stays open. The model instead treats the topic list as empty and continues.
- A MAC of `None` is not modelled; the MAC is a string, and an empty one takes the unique-id path.
- `strip()` removes only the ASCII whitespace characters, not the rest of Unicode whitespace.
- main.py is not part of this model. It constructs `MQTT_Manager(mac)` with one argument (main.py:22), where the constructor takes three (MQTTManager.py:12). So the wiring is taken from the constructor.
- `gc.collect()`, `print` logging, `MQTTClient.DEBUG` and `ubinascii.hexlify(machine.unique_id())` are not modelled. The hex id is the parameter `hexId`.
