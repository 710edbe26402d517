/**
 * The messaging session (`MQTT_Manager`) with its concurrency removed.
 *
 * A `Session` holds the `is_mqtt_ready` flag and an append-only log of the
 * calls it makes on the MQTT client. The outcome of each call (whether the
 * client raised) is an input to the step that makes it, and is recorded in
 * the log entry. The connection watcher, the liveness task and the inbound
 * dispatcher become one method per step; `Run` drives them from a sequence
 * of events, and the pure function `Trace` says what such a run does.
 */
module MqttManager {
  import opened Wrappers
  import opened Json
  import opened ConfigManager

  /** The defaults file the session's configuration store is built with. */
  const MqttDefaultsFile: string := "mqtt_default_config.json"

  /** The keys `reset_mqtt_config` reverts. */
  const MqttResetKeys: seq<string> := ["broker", "port", "user", "password"]

  /** The topic on which commands arrive, and the one command understood. */
  const CommandTopic: string := "esp32/commands"
  const GetConfigCommand: string := "{\"command\":\"get_config\"}"

  // ---------------------------------------------------------------------
  // Client id and topics

  /** `s.replace(':', '')`. */
  function WithoutColons(s: string): (r: string)
    ensures ':' !in r
    ensures multiset(r) == multiset(s)[':' := 0]
    ensures ':' !in s ==> r == s
  {
    if s == [] then []
    else
      assert s == [s[0]] + s[1..];
      (if s[0] == ':' then [] else [s[0]]) + WithoutColons(s[1..])
  }

  /** A single character is dropped when it is a colon and kept otherwise. */
  lemma WithoutColonsOne(c: char)
    ensures WithoutColons([c]) == if c == ':' then [] else [c]
  {
    assert [c][1..] == [];
  }

  /**
   * Removing colons works piecewise, so together with `WithoutColonsOne` it
   * keeps every other character in its original order.
   */
  lemma {:induction false} WithoutColonsAppend(a: string, b: string)
    ensures WithoutColons(a + b) == WithoutColons(a) + WithoutColons(b)
    decreases |a|
  {
    if a == [] {
      assert a + b == b;
    } else {
      assert (a + b)[0] == a[0] && (a + b)[1..] == a[1..] + b;
      WithoutColonsAppend(a[1..], b);
    }
  }

  /**
   * The MQTT client id: the MAC address without its colons when there is one,
   * otherwise the hex form of the chip's unique id (given as `hexId`).
   */
  function ClientId(mac: string, hexId: string): (id: string)
    ensures mac != "" ==> id == WithoutColons(mac) && ':' !in id && multiset(id) == multiset(mac)[':' := 0]
    ensures mac == "" ==> id == hexId
  {
    if mac != "" then WithoutColons(mac) else hexId
  }

  /** The default topic of both the last will and the status announcements. */
  function DefaultStatusTopic(clientId: string): string {
    "esp32/" + clientId + "/status"
  }

  /** The topic a `get_config` response goes to. */
  function ResponseTopic(mac: string): string {
    "esp32/response/" + mac + "/config"
  }

  /** `{"status": status, "mac": mac}`. */
  function StatusPayload(status: string, mac: string): Value {
    Obj(map["status" := Str(status), "mac" := Str(mac)])
  }

  /** A response is never itself taken for a command. */
  lemma ResponseTopicIsNotCommandTopic(mac: string)
    ensures ResponseTopic(mac) != CommandTopic
  {
    assert |ResponseTopic(mac)| >= 22 > |CommandTopic|;
  }

  // ---------------------------------------------------------------------
  // Client settings

  /** The last-will message a broker publishes when the device drops off. */
  datatype Will = Will(topic: Value, payload: Value, retain: bool, qos: int)

  /** The settings the client is configured with. */
  datatype ClientSettings = ClientSettings(
    will: Will, server: Value, port: Value, user: Value, password: Value,
    keepalive: Value, clientId: string, queueLen: int)

  /** The settings read from configuration document `cfg`, with their defaults. */
  function SettingsFor(cfg: Config, mac: string, clientId: string): ClientSettings {
    ClientSettings(
      Will(Get(cfg, "lwt_topic", Str(DefaultStatusTopic(clientId))), StatusPayload("offline", mac), true, 1),
      Get(cfg, "broker", Null),
      Get(cfg, "port", Int(1883)),
      Get(cfg, "user", Str("")),
      Get(cfg, "password", Str("")),
      Get(cfg, "keepalive", Int(120)),
      clientId,
      1)
  }

  /** The settings of an empty document are the built-in defaults. */
  lemma SettingsDefaults(mac: string, clientId: string)
    ensures SettingsFor(map[], mac, clientId) == ClientSettings(
      Will(Str("esp32/" + clientId + "/status"), StatusPayload("offline", mac), true, 1),
      Null, Int(1883), Str(""), Str(""), Int(120), clientId, 1)
  {
  }

  /** A configured setting wins over its default; the will is retained and sent at QoS 1. */
  lemma SettingsFromConfig(cfg: Config, mac: string, clientId: string)
    ensures var s := SettingsFor(cfg, mac, clientId);
      && ("lwt_topic" in cfg ==> s.will.topic == cfg["lwt_topic"])
      && ("broker" in cfg ==> s.server == cfg["broker"])
      && ("port" in cfg ==> s.port == cfg["port"])
      && ("user" in cfg ==> s.user == cfg["user"])
      && ("password" in cfg ==> s.password == cfg["password"])
      && ("keepalive" in cfg ==> s.keepalive == cfg["keepalive"])
      && s.will.retain && s.will.qos == 1 && s.will.payload == StatusPayload("offline", mac)
      && s.clientId == clientId && s.queueLen == 1
  {
  }

  /**
   * Unless either topic is configured, the broker's offline will and the
   * device's online announcements share one topic.
   */
  lemma WillSharesStatusTopic(cfg: Config, mac: string, clientId: string)
    requires "lwt_topic" !in cfg && "status_topic" !in cfg
    ensures SettingsFor(cfg, mac, clientId).will.topic == Get(cfg, "status_topic", Str(DefaultStatusTopic(clientId)))
  {
  }

  /**
   * The topics a `for topic in subscribe_topics` loop visits: the items of a
   * list, the one-character strings of a string, and none otherwise.
   */
  function SubscribeList(v: Value): (ts: seq<Value>)
    ensures v.Arr? ==> ts == v.items
    ensures v.Str? ==> |ts| == |v.s| && forall i :: 0 <= i < |ts| ==> ts[i] == Str([v.s[i]])
    ensures !v.Arr? && !v.Str? ==> ts == []
  {
    match v
    case Arr(items) => items
    case Str(s) => seq(|s|, i requires 0 <= i < |s| => Str([s[i]]))
    case _ => []
  }

  // ---------------------------------------------------------------------
  // The get_config command

  /** The characters `str.strip()` removes. */
  predicate IsSpace(c: char) {
    c == ' ' || c == '\t' || c == '\n' || c == '\r' || c == '\U{0B}' || c == '\U{0C}'
  }

  predicate AllSpace(s: string) {
    forall i :: 0 <= i < |s| ==> IsSpace(s[i])
  }

  /** `s.lstrip()`: the longest suffix of `s` that does not start with whitespace. */
  function TrimStart(s: string): (r: string)
    ensures |r| <= |s| && r == s[|s| - |r|..]
    ensures AllSpace(s[..|s| - |r|])
    ensures r == [] || !IsSpace(r[0])
    decreases |s|
  {
    if s != [] && IsSpace(s[0]) then
      var rest := TrimStart(s[1..]);
      assert s[..|s| - |rest|] == [s[0]] + s[1..][..|s[1..]| - |rest|];
      rest
    else
      s
  }

  /** `s.rstrip()`: the longest prefix of `s` that does not end with whitespace. */
  function TrimEnd(s: string): (r: string)
    ensures |r| <= |s| && r == s[..|r|]
    ensures AllSpace(s[|r|..])
    ensures r == [] || !IsSpace(r[|r| - 1])
    decreases |s|
  {
    if s != [] && IsSpace(s[|s| - 1]) then
      var init := TrimEnd(s[..|s| - 1]);
      assert s[|init|..] == s[..|s| - 1][|init|..] + [s[|s| - 1]];
      init
    else
      s
  }

  /** `s.strip()`. */
  function Strip(s: string): string {
    TrimEnd(TrimStart(s))
  }

  /** `p` is `core` with whitespace, possibly none, on either side. */
  predicate Padded(p: string, core: string) {
    exists i, j :: 0 <= i <= j <= |p| && AllSpace(p[..i]) && p[i..j] == core && AllSpace(p[j..])
  }

  /** Leading whitespace is exactly what `lstrip` removes. */
  lemma {:induction false} TrimStartOver(a: string, rest: string)
    requires AllSpace(a)
    requires rest == [] || !IsSpace(rest[0])
    ensures TrimStart(a + rest) == rest
    decreases |a|
  {
    if a == [] {
      assert a + rest == rest;
    } else {
      assert (a + rest)[1..] == a[1..] + rest;
      TrimStartOver(a[1..], rest);
    }
  }

  /** Trailing whitespace is exactly what `rstrip` removes. */
  lemma {:induction false} TrimEndOver(rest: string, b: string)
    requires AllSpace(b)
    requires rest == [] || !IsSpace(rest[|rest| - 1])
    ensures TrimEnd(rest + b) == rest
    decreases |b|
  {
    if b == [] {
      assert rest + b == rest;
    } else {
      assert (rest + b)[..|rest + b| - 1] == rest + b[..|b| - 1];
      TrimEndOver(rest, b[..|b| - 1]);
    }
  }

  /** What `strip` keeps is the text between the whitespace it removes. */
  lemma StripIsPadded(p: string)
    ensures Padded(p, Strip(p))
  {
    var t := TrimStart(p);
    var i := |p| - |t|;
    var r := TrimEnd(t);
    assert p[i..] == t;
    assert p[i..i + |r|] == r;
    assert p[i + |r|..] == t[|r|..];
  }

  /** Text padded with whitespace strips back to what it pads. */
  lemma PaddedStrips(p: string, core: string)
    requires core == [] || (!IsSpace(core[0]) && !IsSpace(core[|core| - 1]))
    requires Padded(p, core)
    ensures Strip(p) == core
  {
    var i, j :| 0 <= i <= j <= |p| && AllSpace(p[..i]) && p[i..j] == core && AllSpace(p[j..]);
    if core == [] {
      assert p == p[..i] + p[j..];
      assert AllSpace(p);
      assert p + [] == p;
      TrimStartOver(p, []);
    } else {
      assert p == p[..i] + (core + p[j..]);
      TrimStartOver(p[..i], core + p[j..]);
      TrimEndOver(core, p[j..]);
    }
  }

  /** Stripping gives `core` exactly when the text is `core` padded with whitespace. */
  lemma StripPadded(p: string, core: string)
    requires core == [] || (!IsSpace(core[0]) && !IsSpace(core[|core| - 1]))
    ensures Strip(p) == core <==> Padded(p, core)
  {
    if Strip(p) == core {
      StripIsPadded(p);
    }
    if Padded(p, core) {
      PaddedStrips(p, core);
    }
  }

  /** An inbound message: both parts decoded as UTF-8, or a part that would not decode. */
  datatype Message = Decoded(topic: string, payload: string) | Undecodable

  /** The dispatcher's test for the one command it answers. */
  predicate IsGetConfig(m: Message) {
    m.Decoded? && m.topic == CommandTopic && Strip(m.payload) == GetConfigCommand
  }

  /** The command is recognised on its topic, surrounded by any whitespace, and in no other form. */
  lemma IsGetConfigPadded(m: Message)
    ensures IsGetConfig(m) <==> m.Decoded? && m.topic == CommandTopic && Padded(m.payload, GetConfigCommand)
  {
    if m.Decoded? {
      StripPadded(m.payload, GetConfigCommand);
    }
  }

  /** For each alert field of the response, the sensor setting it reports. */
  const AlertRenames: map<string, string> := map[
    "temp_crit_low" := "CON_TEMP_MIN",
    "temp_warn_low" := "CON_TEMP_WARN_LOW",
    "temp_warn_high" := "CON_TEMP_WARN_HIGH",
    "temp_crit_high" := "CON_TEMP_MAX",
    "hum_crit_low" := "CON_HUM_MIN",
    "hum_warn_low" := "CON_HUM_WARN_LOW",
    "hum_warn_high" := "CON_HUM_WARN_HIGH",
    "hum_crit_high" := "CON_HUM_MAX"]

  /** The `alerts` part of the response, built from the sensor's configuration. */
  function Alerts(sensor: Config): map<string, Value> {
    map[
      "temp_crit_low" := Get(sensor, "CON_TEMP_MIN", Null),
      "temp_warn_low" := Get(sensor, "CON_TEMP_WARN_LOW", Null),
      "temp_warn_high" := Get(sensor, "CON_TEMP_WARN_HIGH", Null),
      "temp_crit_high" := Get(sensor, "CON_TEMP_MAX", Null),
      "hum_crit_low" := Get(sensor, "CON_HUM_MIN", Null),
      "hum_warn_low" := Get(sensor, "CON_HUM_WARN_LOW", Null),
      "hum_warn_high" := Get(sensor, "CON_HUM_WARN_HIGH", Null),
      "hum_crit_high" := Get(sensor, "CON_HUM_MAX", Null)]
  }

  /** The response to `get_config`: the three configuration documents. */
  function ConfigResponse(ethernet: Config, mqtt: Config, sensor: Config): Value {
    Obj(map["ethernet" := Obj(ethernet), "mqtt" := Obj(mqtt), "alerts" := Obj(Alerts(sensor))])
  }

  /** The response carries the three documents, the first two whole. */
  lemma ConfigResponseContents(ethernet: Config, mqtt: Config, sensor: Config)
    ensures var r := ConfigResponse(ethernet, mqtt, sensor);
      && r.Obj? && r.fields.Keys == {"ethernet", "mqtt", "alerts"}
      && r.fields["ethernet"] == Obj(ethernet) && r.fields["mqtt"] == Obj(mqtt)
      && r.fields["alerts"] == Obj(Alerts(sensor))
  {
  }

  /**
   * The alerts are exactly the eight renamed fields, each the sensor's
   * setting under its own name, or null when that setting is absent.
   */
  lemma AlertsRenamed(sensor: Config)
    ensures Alerts(sensor).Keys == AlertRenames.Keys
    ensures forall k :: k in AlertRenames ==>
      (AlertRenames[k] in sensor ==> Alerts(sensor)[k] == sensor[AlertRenames[k]]) &&
      (AlertRenames[k] !in sensor ==> Alerts(sensor)[k] == Null)
  {
  }

  // ---------------------------------------------------------------------
  // Transport calls and the event-level model

  /** A call made on the MQTT client, and whether it went through without raising. */
  datatype Call =
    | Subscribe(topic: Value, qos: int, ok: bool)
    | Publish(topic: Value, payload: Value, retain: bool, qos: int, ok: bool)

  /** The outcome of the `i`-th subscription; an outcome not supplied is a failure. */
  function Outcome(oks: seq<bool>, i: nat): bool {
    i < |oks| && oks[i]
  }

  /** The subscription pass: one QoS 1 subscription per topic, in list order. */
  function SubscribeCalls(topics: seq<Value>, oks: seq<bool>): (cs: seq<Call>)
    ensures |cs| == |topics|
    ensures forall i :: 0 <= i < |cs| ==> cs[i].Subscribe? && cs[i].topic == topics[i] && cs[i].qos == 1
  {
    seq(|topics|, i requires 0 <= i < |topics| => Subscribe(topics[i], 1, Outcome(oks, i)))
  }

  /** What happens to a session, one step at a time. */
  datatype Event =
    | Up(subscribeOk: seq<bool>, publishOk: bool)
    | Down
    | Tick(publishOk: bool)
    | Received(msg: Message, publishOk: bool)

  /** The parts of a session a step depends on and does not change. */
  datatype Snapshot = Snapshot(
    mac: string, statusTopic: Value, subscribeTopics: seq<Value>,
    ethernet: Config, mqtt: Config, sensor: Config)

  /** The calls of a connection coming up: the subscription pass, then a retained online announcement. */
  function UpCalls(s: Snapshot, subscribeOk: seq<bool>, publishOk: bool): seq<Call> {
    SubscribeCalls(s.subscribeTopics, subscribeOk)
      + [Publish(s.statusTopic, StatusPayload("online", s.mac), true, 0, publishOk)]
  }

  /** The calls of a liveness tick: a non-retained online announcement, when ready. */
  function TickCalls(s: Snapshot, ready: bool, publishOk: bool): seq<Call> {
    if ready then [Publish(s.statusTopic, StatusPayload("online", s.mac), false, 0, publishOk)] else []
  }

  /** The calls an inbound message causes: the configuration response, when ready and asked for. */
  function MessageCalls(s: Snapshot, ready: bool, msg: Message, publishOk: bool): seq<Call> {
    if ready && IsGetConfig(msg)
    then [Publish(Str(ResponseTopic(s.mac)), ConfigResponse(s.ethernet, s.mqtt, s.sensor), false, 0, publishOk)]
    else []
  }

  /**
   * A message causes at most one call, and one exactly when the session is
   * ready and the message is the whitespace-padded command on the command
   * topic; that call is a non-retained publish to the response topic.
   */
  lemma MessageAnswers(s: Snapshot, ready: bool, msg: Message, publishOk: bool)
    ensures var cs := MessageCalls(s, ready, msg, publishOk);
      && |cs| <= 1
      && (|cs| == 1 <==> ready && msg.Decoded? && msg.topic == CommandTopic && Padded(msg.payload, GetConfigCommand))
      && (forall i :: 0 <= i < |cs| ==>
            cs[i].Publish? && cs[i].topic == Str(ResponseTopic(s.mac)) && cs[i].topic != Str(CommandTopic)
            && !cs[i].retain && cs[i].ok == publishOk)
  {
    IsGetConfigPadded(msg);
    ResponseTopicIsNotCommandTopic(s.mac);
  }

  /** One step: the new ready flag and the calls it makes. */
  function Step(s: Snapshot, ready: bool, e: Event): (bool, seq<Call>) {
    match e
    case Up(subscribeOk, publishOk) => (true, UpCalls(s, subscribeOk, publishOk))
    case Down => (false, [])
    case Tick(publishOk) => (ready, TickCalls(s, ready, publishOk))
    case Received(msg, publishOk) => (ready, MessageCalls(s, ready, msg, publishOk))
  }

  /** A run of steps: the final ready flag and all the calls, in order. */
  function Trace(s: Snapshot, ready: bool, events: seq<Event>): (bool, seq<Call>)
    decreases |events|
  {
    if events == [] then (ready, [])
    else
      var before := Trace(s, ready, events[..|events| - 1]);
      var last := Step(s, before.0, events[|events| - 1]);
      (last.0, before.1 + last.1)
  }

  predicate NoUp(events: seq<Event>) {
    forall i :: 0 <= i < |events| ==> !events[i].Up?
  }

  lemma AppendAssoc(a: seq<Call>, b: seq<Call>, c: seq<Call>)
    ensures a + b + c == a + (b + c)
  {
  }

  /** A run one step longer. */
  lemma TraceSnoc(s: Snapshot, ready: bool, events: seq<Event>, e: Event)
    ensures var before := Trace(s, ready, events);
      var last := Step(s, before.0, e);
      Trace(s, ready, events + [e]) == (last.0, before.1 + last.1)
  {
    assert (events + [e])[..|events|] == events;
  }

  /** While the session is not ready and no connection comes up, nothing is sent. */
  lemma {:induction false} QuietWhileDown(s: Snapshot, events: seq<Event>)
    requires NoUp(events)
    ensures Trace(s, false, events) == (false, [])
    decreases |events|
  {
    if events != [] {
      var init, e := events[..|events| - 1], events[|events| - 1];
      assert NoUp(init) by {
        forall i | 0 <= i < |init| ensures !init[i].Up? {
          assert init[i] == events[i];
        }
      }
      QuietWhileDown(s, init);
      assert events == init + [e];
      TraceSnoc(s, false, init, e);
      assert Step(s, false, e) == (false, []);
      assert Trace(s, false, init).1 + [] == [];
    }
  }

  /** After a disconnect, no call is made until the next connection comes up. */
  lemma {:induction false} DownSilences(s: Snapshot, ready: bool, before: seq<Event>, after: seq<Event>)
    requires NoUp(after)
    ensures Trace(s, ready, before + [Down] + after) == (false, Trace(s, ready, before).1)
    decreases |after|
  {
    if after == [] {
      assert before + [Down] + after == before + [Down];
      TraceSnoc(s, ready, before, Down);
      assert Trace(s, ready, before).1 + [] == Trace(s, ready, before).1;
    } else {
      var init, e := after[..|after| - 1], after[|after| - 1];
      assert NoUp(init) by {
        forall i | 0 <= i < |init| ensures !init[i].Up? {
          assert init[i] == after[i];
        }
      }
      DownSilences(s, ready, before, init);
      assert before + [Down] + after == (before + [Down] + init) + [e];
      TraceSnoc(s, ready, before + [Down] + init, e);
      assert !e.Up?;
      assert Step(s, false, e) == (false, []);
      assert Trace(s, ready, before).1 + [] == Trace(s, ready, before).1;
    }
  }

  /**
   * A connection coming up always ends ready, after subscribing to every
   * topic and announcing itself online with a retained message.
   */
  lemma UpAnnounces(s: Snapshot, ready: bool, before: seq<Event>, subscribeOk: seq<bool>, publishOk: bool)
    ensures var r := Trace(s, ready, before + [Up(subscribeOk, publishOk)]);
      var n := |Trace(s, ready, before).1| + |s.subscribeTopics|;
      && r.0
      && |r.1| == n + 1
      && r.1[..|Trace(s, ready, before).1|] == Trace(s, ready, before).1
      && (forall i :: 0 <= i < |s.subscribeTopics| ==> r.1[n - |s.subscribeTopics| + i] == Subscribe(s.subscribeTopics[i], 1, Outcome(subscribeOk, i)))
      && r.1[n] == Publish(s.statusTopic, StatusPayload("online", s.mac), true, 0, publishOk)
  {
    TraceSnoc(s, ready, before, Up(subscribeOk, publishOk));
  }

  /**
   * `reset_mqtt_config` on document `c`: the broker address and credentials
   * take their defaults or disappear; every other setting is kept.
   */
  lemma ResetEffect(c: Config, defaults: Config)
    ensures var r := ResetResult(c, defaults, KeyList(MqttResetKeys));
      && (forall k :: k in MqttResetKeys && k in defaults ==> k in r && r[k] == defaults[k])
      && (forall k :: k in MqttResetKeys && k !in defaults ==> k !in r)
      && (forall k :: k !in MqttResetKeys ==> (k in r <==> k in c) && (k in c ==> r[k] == c[k]))
  {
    ResetEachEffect(c, defaults, MqttResetKeys);
  }

  // ---------------------------------------------------------------------
  // The session

  class Session {
    /** The session's own configuration store (`mqtt_config.json`). */
    const config: Store
    /** The Ethernet manager's and the sensor manager's configuration stores. */
    const ethernetConfig: Store
    const sensorConfig: Store
    const mac: string
    const clientId: string
    const settings: ClientSettings
    const statusTopic: Value
    const subscribeTopics: seq<Value>
    /** `is_mqtt_ready`. */
    var isReady: bool
    /** Every call made on the MQTT client so far. */
    var log: seq<Call>

    /** What the steps of this session depend on. */
    function Snap(): Snapshot
      reads config, ethernetConfig, sensorConfig
    {
      Snapshot(mac, statusTopic, subscribeTopics, ethernetConfig.Loaded(), config.Loaded(), sensorConfig.Loaded())
    }

    /**
     * `MQTT_Manager(mac, ethernet, dht22_manager)`: opens the configuration
     * store, derives the client id and reads the client settings, the status
     * topic and the topics to subscribe to. The session starts not ready.
     */
    constructor (mac: string, hexId: string, defaultsFile: File, existing: File, writeOk: bool,
                 ethernetConfig: Store, sensorConfig: Store)
      ensures fresh(config)
      ensures config.defaults == ResolveDefaults(Some(MqttDefaultsFile), defaultsFile, map[])
      ensures config.file == if existing.Absent? && writeOk then Stored(config.defaults) else existing
      ensures this.mac == mac && this.ethernetConfig == ethernetConfig && this.sensorConfig == sensorConfig
      ensures clientId == ClientId(mac, hexId)
      ensures settings == SettingsFor(config.Loaded(), mac, clientId)
      ensures statusTopic == Get(config.Loaded(), "status_topic", Str(DefaultStatusTopic(clientId)))
      ensures subscribeTopics == SubscribeList(Get(config.Loaded(), "subscribe_topics", Arr([])))
      ensures !isReady && log == []
    {
      var store := new Store(Some(MqttDefaultsFile), defaultsFile, map[], existing, writeOk);
      var id := ClientId(mac, hexId);
      var lwtTopic := store.GetConfig("lwt_topic", Str(DefaultStatusTopic(id)));
      var server := store.GetConfig("broker", Null);
      var port := store.GetConfig("port", Int(1883));
      var user := store.GetConfig("user", Str(""));
      var password := store.GetConfig("password", Str(""));
      var keepalive := store.GetConfig("keepalive", Int(120));
      var status := store.GetConfig("status_topic", Str(DefaultStatusTopic(id)));
      var topics := store.GetConfig("subscribe_topics", Arr([]));
      config := store;
      this.mac := mac;
      this.ethernetConfig := ethernetConfig;
      this.sensorConfig := sensorConfig;
      clientId := id;
      settings := ClientSettings(
        Will(lwtTopic, StatusPayload("offline", mac), true, 1),
        server, port, user, password, keepalive, id, 1);
      statusTopic := status;
      subscribeTopics := SubscribeList(topics);
      isReady := false;
      log := [];
    }

    /**
     * `safe_publish(topic, data, retain, qos)`: refuses when not ready;
     * otherwise makes the call and reports whether it went through.
     */
    method SafePublish(topic: Value, data: Value, retain: bool, qos: int, sendOk: bool) returns (ok: bool)
      modifies this
      ensures isReady == old(isReady)
      ensures log == old(log) + if old(isReady) then [Publish(topic, data, retain, qos, sendOk)] else []
      ensures ok <==> old(isReady) && sendOk
    {
      if !isReady {
        return false;
      }
      log := log + [Publish(topic, data, retain, qos, sendOk)];
      ok := sendOk;
    }

    /** One round of `publish_status_task`: a non-retained online announcement when ready. */
    method StatusTick(publishOk: bool)
      modifies this
      ensures isReady == old(isReady)
      ensures log == old(log) + TickCalls(Snap(), isReady, publishOk)
      ensures log == old(log) + if isReady then [Publish(statusTopic, StatusPayload("online", mac), false, 0, publishOk)] else []
    {
      if isReady {
        var _ := SafePublish(statusTopic, StatusPayload("online", mac), false, 0, publishOk);
      }
    }

    /**
     * The connection watcher when the link comes up: becomes ready first,
     * then subscribes to every topic at QoS 1, whatever each attempt's
     * outcome, then announces itself online with a retained message.
     */
    method ConnectionUp(subscribeOk: seq<bool>, publishOk: bool)
      modifies this
      ensures isReady
      ensures log == old(log) + UpCalls(Snap(), subscribeOk, publishOk)
      ensures log == old(log) + SubscribeCalls(subscribeTopics, subscribeOk)
        + [Publish(statusTopic, StatusPayload("online", mac), true, 0, publishOk)]
    {
      isReady := true;
      for i := 0 to |subscribeTopics|
        invariant isReady
        invariant log == old(log) + SubscribeCalls(subscribeTopics[..i], subscribeOk)
      {
        var ok := Outcome(subscribeOk, i);
        assert SubscribeCalls(subscribeTopics[..i + 1], subscribeOk)
          == SubscribeCalls(subscribeTopics[..i], subscribeOk) + [Subscribe(subscribeTopics[i], 1, ok)];
        log := log + [Subscribe(subscribeTopics[i], 1, ok)];
      }
      assert subscribeTopics[..|subscribeTopics|] == subscribeTopics;
      var _ := SafePublish(statusTopic, StatusPayload("online", mac), true, 0, publishOk);
    }

    /** The connection watcher when the link goes down. */
    method ConnectionDown()
      modifies this
      ensures !isReady
      ensures log == old(log)
    {
      isReady := false;
    }

    /**
     * `message_handler` for one message: answers `get_config` on the command
     * topic with the three configuration documents; ignores everything else.
     */
    method HandleMessage(msg: Message, publishOk: bool)
      modifies this
      ensures isReady == old(isReady)
      ensures log == old(log) + MessageCalls(Snap(), isReady, msg, publishOk)
    {
      if msg.Undecodable? {
        return;
      }
      if IsGetConfig(msg) {
        var ethernet := ethernetConfig.LoadConfig();
        var mqtt := config.LoadConfig();
        var sensor := sensorConfig.LoadConfig();
        var response := ConfigResponse(ethernet, mqtt, sensor);
        var _ := SafePublish(Str(ResponseTopic(mac)), response, false, 0, publishOk);
      }
    }

    /** The session driven through a sequence of steps. */
    method Run(events: seq<Event>)
      modifies this
      ensures isReady == Trace(Snap(), old(isReady), events).0
      ensures log == old(log) + Trace(Snap(), old(isReady), events).1
    {
      ghost var snap := Snap();
      for i := 0 to |events|
        invariant Snap() == snap
        invariant isReady == Trace(snap, old(isReady), events[..i]).0
        invariant log == old(log) + Trace(snap, old(isReady), events[..i]).1
      {
        ghost var before := Trace(snap, old(isReady), events[..i]);
        ghost var logBefore := log;
        var e := events[i];
        match e {
          case Up(subscribeOk, publishOk) => ConnectionUp(subscribeOk, publishOk);
          case Down => ConnectionDown();
          case Tick(publishOk) => StatusTick(publishOk);
          case Received(msg, publishOk) => HandleMessage(msg, publishOk);
        }
        assert isReady == Step(snap, before.0, e).0;
        assert log == logBefore + Step(snap, before.0, e).1;
        assert events[..i + 1] == events[..i] + [e];
        TraceSnoc(snap, old(isReady), events[..i], e);
        AppendAssoc(old(log), before.1, Step(snap, before.0, e).1);
      }
      assert events[..|events|] == events;
    }

    /** `reset_mqtt_config`: reverts the broker address and credentials to their defaults. */
    method ResetMqttConfig(writeOk: bool)
      modifies config
      ensures config.file == if writeOk then Stored(ResetResult(old(config.Loaded()), config.defaults, KeyList(MqttResetKeys)))
        else old(config.file)
    {
      config.ResetConfig(KeyList(MqttResetKeys), writeOk);
    }
  }
}
