/**
 * mqtt_liontron_publisher.py: one round of the polling loop. Each configured battery is read
 * with its own `Battery`; a battery whose read fails is skipped. For every other one, its
 * dict is published once on the state topic and each key gets a Home Assistant discovery
 * config. The MQTT client is reduced to the list of messages it has been asked to publish.
 */
module Publisher {
  import opened Wrappers
  import opened Strings
  import opened Dict
  import opened Frames
  import opened Session
  import Liontron

  // ---------------------------------------------------------------- topics

  /** `f"{base_topic}/{device_name}/state"`. */
  function StateTopic(base: string, device: string): string {
    base + "/" + device + "/state"
  }

  /** `f"{base_topic}/status"`: the availability topic and the last-will topic. */
  function AvailabilityTopic(base: string): string {
    base + "/status"
  }

  /** `f"homeassistant/sensor/{device_name}/{key}/config"`. */
  function DiscoveryTopic(device: string, key: string): string {
    "homeassistant/sensor/" + device + "/" + key + "/config"
  }

  /** The three kinds of topic never coincide: they end in `state`, `status` and `config`. */
  lemma TopicKindsDistinct(base: string, device: string, device2: string, key: string)
    ensures StateTopic(base, device) != DiscoveryTopic(device2, key)
    ensures AvailabilityTopic(base) != DiscoveryTopic(device2, key)
    ensures StateTopic(base, device) != AvailabilityTopic(base)
  {
    var s, a, d := StateTopic(base, device), AvailabilityTopic(base), DiscoveryTopic(device2, key);
    assert s[|s| - 1] == 'e' && s[|s| - 2] == 't';
    assert a[|a| - 1] == 's';
    assert d[|d| - 1] == 'g';
  }

  /** Different keys of one device get different discovery topics. */
  lemma DiscoveryTopicInjective(device: string, k1: string, k2: string)
    requires DiscoveryTopic(device, k1) == DiscoveryTopic(device, k2)
    ensures k1 == k2
  {
    var pre := "homeassistant/sensor/" + device + "/";
    var t1, t2 := DiscoveryTopic(device, k1), DiscoveryTopic(device, k2);
    assert t1 == pre + (k1 + "/config") && t2 == pre + (k2 + "/config");
    assert k1 == t1[|pre|..|pre| + |k1|] == t2[|pre|..|pre| + |k2|] == k2;
  }

  // ---------------------------------------------------------------- units

  /** The ordered unit rule of `publish_all`: the first test that matches decides. */
  function UnitFor(key: string): (u: Option<string>)
    ensures u.Some? ==> u.value != ""
  {
    if Contains(key, "Temp") then Some("°C")
    else if Contains(key, "Vcell") || Contains(key, "Vmain") then Some("V")
    else if Contains(key, "Imain") then Some("A")
    else if Contains(key, "Ah") then Some("Ah")
    else if key == "SoC" then Some("%")
    else None
  }

  /** The unit each status key of the decoder is announced with. */
  const StatusUnits: seq<Option<string>> := [
    Some("V"), Some("A"), Some("Ah"), Some("Ah"), None, None,
    None, Some("%"), Some("°C"), Some("°C"), None]

  /** Volts for the voltages, amperes, ampere-hours, percent, degrees Celsius; no unit for counts and flags. */
  lemma StatusKeyUnits(i: nat)
    requires i < |StatusKeys|
    ensures UnitFor(StatusKeys[i]) == StatusUnits[i]
  {
    if i in {4, 5} {
      UnitlessKeys(i);
    } else if i in {6, 10} {
      UnitlessFlagKeys(i);
    } else {
      MeasuredKeys(i);
    }
  }

  lemma MeasuredKeys(i: nat)
    requires i < |StatusKeys| && i !in {4, 5, 6, 10}
    ensures UnitFor(StatusKeys[i]) == StatusUnits[i]
  {
    var k := StatusKeys[i];
    if i == 0 {
      assert OccursAt(k, "Vmain", 0);
      VoltUnit(k);
    } else if i == 1 {
      assert OccursAt(k, "Imain", 0);
      CurrentUnit(k);
    } else if i == 2 || i == 3 {
      assert OccursAt(k, "Ah", |k| - 2);
      CapacityUnit(k);
    } else if i == 7 {
      ChargeUnit(k);
    } else {
      assert OccursAt(k, "Temp", 0);
      TemperatureUnit(k);
    }
  }

  lemma UnitlessKeys(i: nat)
    requires i in {4, 5}
    ensures UnitFor(StatusKeys[i]) == StatusUnits[i]
  {
    NoUnit(StatusKeys[i], 'T');
  }

  lemma UnitlessFlagKeys(i: nat)
    requires i in {6, 10}
    ensures UnitFor(StatusKeys[i]) == StatusUnits[i]
  {
    if i == 10 {
      NoUnit(StatusKeys[i], 'm');
    } else {
      NoUnit(StatusKeys[i], 'T');
    }
  }

  /** A key starting with `Vmain` and without a `T` is in volts. */
  lemma VoltUnit(k: string)
    requires OccursAt(k, "Vmain", 0) && 'T' !in k
    ensures UnitFor(k) == Some("V")
  {
    MissingCharNotContained(k, "Temp", 'T');
    ContainsAt(k, "Vmain", 0);
  }

  /** A key starting with `Imain` and without a `T` or a `V` is in amperes. */
  lemma CurrentUnit(k: string)
    requires OccursAt(k, "Imain", 0) && 'T' !in k && 'V' !in k
    ensures UnitFor(k) == Some("A")
  {
    MissingCharNotContained(k, "Temp", 'T');
    MissingCharNotContained(k, "Vcell", 'V');
    MissingCharNotContained(k, "Vmain", 'V');
    ContainsAt(k, "Imain", 0);
  }

  /** A key ending in `Ah` and without a `T`, `V` or `I` is in ampere-hours. */
  lemma CapacityUnit(k: string)
    requires |k| >= 2 && OccursAt(k, "Ah", |k| - 2) && 'T' !in k && 'V' !in k && 'I' !in k
    ensures UnitFor(k) == Some("Ah")
  {
    MissingCharNotContained(k, "Temp", 'T');
    MissingCharNotContained(k, "Vcell", 'V');
    MissingCharNotContained(k, "Vmain", 'V');
    MissingCharNotContained(k, "Imain", 'I');
    ContainsAt(k, "Ah", |k| - 2);
  }

  lemma ChargeUnit(k: string)
    requires k == "SoC"
    ensures UnitFor(k) == Some("%")
  {
    MissingCharNotContained(k, "Temp", 'T');
    MissingCharNotContained(k, "Vcell", 'V');
    MissingCharNotContained(k, "Vmain", 'V');
    MissingCharNotContained(k, "Imain", 'I');
    MissingCharNotContained(k, "Ah", 'A');
  }

  /** A key starting with `Temp` is in degrees Celsius, whatever follows. */
  lemma TemperatureUnit(k: string)
    requires OccursAt(k, "Temp", 0)
    ensures UnitFor(k) == Some("°C")
  {
    ContainsAt(k, "Temp", 0);
  }

  /** A key lacking `c`, a letter of `Temp`, and lacking `V`, `I` and `A`, other than `SoC`, has no unit. */
  lemma NoUnit(k: string, c: char)
    requires c in "Temp" && c !in k && 'V' !in k && 'I' !in k && 'A' !in k && k != "SoC"
    ensures UnitFor(k) == None
  {
    MissingCharNotContained(k, "Temp", c);
    MissingCharNotContained(k, "Vcell", 'V');
    MissingCharNotContained(k, "Vmain", 'V');
    MissingCharNotContained(k, "Imain", 'I');
    MissingCharNotContained(k, "Ah", 'A');
  }

  /** Every cell key is announced in volts. */
  lemma CellKeyUnit(n: nat)
    ensures UnitFor(CellKey(n)) == Some("V")
  {
    var k := CellKey(n);
    assert k == "Vcell" + NatToString(n);
    assert 'T' !in k by {
      forall j | 0 <= j < |k|
        ensures k[j] != 'T'
      {
        if j >= 5 {
          assert k[j] == NatToString(n)[j - 5];
        }
      }
    }
    ContainsAt(k, "Vcell", 0);
    MissingCharNotContained(k, "Temp", 'T');
  }

  // ---------------------------------------------------------------- the discovery payload

  datatype DeviceInfo = DeviceInfo(identifiers: seq<string>, name: string, model: string, manufacturer: string)

  /** The discovery config; `unit` stands for the optional `unit_of_measurement` entry. */
  datatype Discovery = Discovery(
    name: string, stateTopic: string, availabilityTopic: string,
    payloadAvailable: string, payloadNotAvailable: string, device: DeviceInfo,
    uniqueId: string, objectId: string, valueTemplate: string, unit: Option<string>)

  const TemplateHead := "{{ value_json."
  const TemplateTail := " }}"

  /** The attribute a `value_template` of the form `{{ value_json.<name> }}` selects. */
  function TemplateField(t: string): Option<string> {
    if |t| >= |TemplateHead| + |TemplateTail| && t[..|TemplateHead|] == TemplateHead
       && t[|t| - |TemplateTail|..] == TemplateTail
    then Some(t[|TemplateHead|..|t| - |TemplateTail|])
    else None
  }

  /**
   * `build_discovery_payload`: the sensor's identifiers are the device name and the key
   * joined by `_`, its template selects the key from the state JSON, and a unit is attached
   * only when it is a non-empty string (`if unit:`).
   */
  function BuildDiscoveryPayload(deviceName: string, stateTopic: string, name: string,
                                 availabilityTopic: string, unit: Option<string>): (p: Discovery)
    ensures p.uniqueId == p.objectId && |p.uniqueId| == |deviceName| + 1 + |name|
    ensures p.uniqueId[..|deviceName|] == deviceName && p.uniqueId[|deviceName|] == '_'
    ensures p.uniqueId[|deviceName| + 1..] == name
    ensures TemplateField(p.valueTemplate) == Some(name)
    ensures p.unit.Some? <==> unit.Some? && unit.value != ""
    ensures p.unit.Some? ==> p.unit == unit
    ensures p.device.identifiers == [p.device.name] && p.device.name == deviceName
  {
    var template := TemplateHead + name + TemplateTail;
    assert template[..|TemplateHead|] == TemplateHead;
    assert template[|template| - |TemplateTail|..] == TemplateTail;
    assert template[|TemplateHead|..|template| - |TemplateTail|] == name;
    var id := deviceName + "_" + name;
    assert id[|deviceName| + 1..] == name;
    Discovery(
      name := name, stateTopic := stateTopic, availabilityTopic := availabilityTopic,
      payloadAvailable := "online", payloadNotAvailable := "offline",
      device := DeviceInfo([deviceName], deviceName, "Liontron BLE BMS", "Liontron"),
      uniqueId := id, objectId := id, valueTemplate := template,
      unit := if unit.Some? && unit.value != "" then unit else None)
  }

  /** Two keys of one device never share a `unique_id`. */
  lemma UniqueIdsDistinct(deviceName: string, stateTopic: string, availabilityTopic: string,
                          a: string, b: string, ua: Option<string>, ub: Option<string>)
    requires a != b
    ensures BuildDiscoveryPayload(deviceName, stateTopic, a, availabilityTopic, ua).uniqueId
      != BuildDiscoveryPayload(deviceName, stateTopic, b, availabilityTopic, ub).uniqueId
  {
  }

  // ---------------------------------------------------------------- publish_all

  /** What a message carries: the state dict, a discovery config or a plain text. */
  datatype Payload = StateJson(data: Dict) | DiscoveryJson(config: Discovery) | Text(text: string)

  datatype Message = Message(topic: string, payload: Payload, retain: bool)

  /** `key in ["ProtectState", "Name"]`: the keys that get no discovery config. */
  predicate Skipped(key: string) {
    key == "ProtectState" || key == "Name"
  }

  /** The keys that get a discovery config, in dict order. */
  function PublishedKeys(d: Dict): (ks: seq<string>)
    ensures |ks| <= |d|
  {
    if d == [] then []
    else
      var init, last := d[..|d| - 1], d[|d| - 1].key;
      PublishedKeys(init) + (if Skipped(last) then [] else [last])
  }

  /** A key gets a config iff the dict has it and it is not skipped. */
  lemma {:induction false} PublishedKeysMembers(d: Dict, k: string)
    ensures k in PublishedKeys(d) <==> k in Keys(d) && !Skipped(k)
  {
    if d != [] {
      var init, last := d[..|d| - 1], d[|d| - 1].key;
      assert Keys(d) == Keys(init) + [last];
      PublishedKeysMembers(init, k);
    }
  }

  /** A dict's keys are distinct, so the published keys are. */
  lemma {:induction false} PublishedKeysDistinct(d: Dict)
    requires DistinctKeys(d)
    ensures forall i, j :: 0 <= i < j < |PublishedKeys(d)| ==> PublishedKeys(d)[i] != PublishedKeys(d)[j]
  {
    if d != [] {
      var init, last := d[..|d| - 1], d[|d| - 1].key;
      assert DistinctKeys(init);
      PublishedKeysDistinct(init);
      PublishedKeysMembers(init, last);
      assert last !in Keys(init) by {
        forall i | 0 <= i < |init|
          ensures init[i].key != last
        {
          assert init[i] == d[i];
        }
      }
    }
  }

  /** The discovery message for one key. */
  function DiscoveryFor(base: string, device: string, key: string): Message {
    Message(DiscoveryTopic(device, key),
      DiscoveryJson(BuildDiscoveryPayload(device, StateTopic(base, device), key, AvailabilityTopic(base), UnitFor(key))),
      true)
  }

  function Discoveries(base: string, device: string, ks: seq<string>): (ms: seq<Message>)
    ensures |ms| == |ks|
  {
    seq(|ks|, j requires 0 <= j < |ks| => DiscoveryFor(base, device, ks[j]))
  }

  /** Everything `publish_all` publishes: the state first, then one discovery config per published key. */
  function PublishAllMessages(base: string, device: string, data: Dict, retain: bool): seq<Message> {
    [Message(StateTopic(base, device), StateJson(data), retain)] + Discoveries(base, device, PublishedKeys(data))
  }

  /** One more entry of the dict adds its discovery message, unless its key is skipped. */
  lemma DiscoveryStep(base: string, device: string, data: Dict, i: nat)
    requires i < |data|
    ensures Discoveries(base, device, PublishedKeys(data[..i + 1]))
      == Discoveries(base, device, PublishedKeys(data[..i]))
         + (if Skipped(data[i].key) then [] else [DiscoveryFor(base, device, data[i].key)])
  {
    assert data[..i + 1][..i] == data[..i];
    var ks := PublishedKeys(data[..i]);
    if !Skipped(data[i].key) {
      assert PublishedKeys(data[..i + 1]) == ks + [data[i].key];
    }
  }

  /** The broker connection, reduced to the messages handed to `publish`, in order. */
  class Client {
    var published: seq<Message>

    constructor()
      ensures published == []
    {
      published := [];
    }

    method Publish(topic: string, payload: Payload, retain: bool)
      modifies this
      ensures published == old(published) + [Message(topic, payload, retain)]
    {
      published := published + [Message(topic, payload, retain)];
    }
  }

  /** The body of `publish_all`'s loop for a key that is not skipped: infer the unit, build the config, publish it retained. */
  method Announce(client: Client, stateTopic: string, availabilityTopic: string, device: string, key: string)
    modifies client
    ensures client.published == old(client.published) + [Message(DiscoveryTopic(device, key),
      DiscoveryJson(BuildDiscoveryPayload(device, stateTopic, key, availabilityTopic, UnitFor(key))), true)]
  {
    var unit := UnitFor(key);
    var payload := BuildDiscoveryPayload(device, stateTopic, key, availabilityTopic, unit);
    client.Publish(DiscoveryTopic(device, key), DiscoveryJson(payload), true);
  }

  /** `publish_all`: the state JSON, then a discovery config for each key except `ProtectState` and `Name`. */
  method PublishAll(client: Client, base: string, device: string, data: Dict, retain: bool)
    modifies client
    ensures client.published == old(client.published) + PublishAllMessages(base, device, data, retain)
  {
    var stateTopic := StateTopic(base, device);
    var availabilityTopic := AvailabilityTopic(base);
    client.Publish(stateTopic, StateJson(data), retain);
    ghost var start := client.published;
    assert data[..0] == [];
    for i := 0 to |data|
      invariant client.published == start + Discoveries(base, device, PublishedKeys(data[..i]))
    {
      var key := data[i].key;
      DiscoveryStep(base, device, data, i);
      if key == "ProtectState" || key == "Name" {
        continue;
      }
      Announce(client, stateTopic, availabilityTopic, device, key);
      AppendAssoc(start, Discoveries(base, device, PublishedKeys(data[..i])), [DiscoveryFor(base, device, key)]);
    }
    assert data[..|data|] == data;
  }

  /** After the state message, message `j` is the discovery config of the `j`-th published key. */
  lemma PublishAllAt(base: string, device: string, data: Dict, retain: bool, j: nat)
    requires 1 <= j < |PublishAllMessages(base, device, data, retain)|
    ensures j - 1 < |PublishedKeys(data)|
    ensures PublishAllMessages(base, device, data, retain)[j] == DiscoveryFor(base, device, PublishedKeys(data)[j - 1])
  {
  }

  /** `publish_all` publishes the state first and only there; every later message is a retained config. */
  lemma PublishAllStateOnce(base: string, device: string, data: Dict, retain: bool)
    ensures
      var out := PublishAllMessages(base, device, data, retain);
      && out[0] == Message(StateTopic(base, device), StateJson(data), retain)
      && forall j :: 1 <= j < |out| ==> out[j].topic != StateTopic(base, device) && out[j].retain
  {
    var out := PublishAllMessages(base, device, data, retain);
    forall j | 1 <= j < |out|
      ensures out[j].topic != StateTopic(base, device) && out[j].retain
    {
      PublishAllAt(base, device, data, retain, j);
      TopicKindsDistinct(base, device, device, PublishedKeys(data)[j - 1]);
    }
  }

  /**
   * Exactly one discovery config is published for each key of the dict other than
   * `ProtectState` and `Name`, and none for those two or for keys the dict lacks.
   */
  lemma PublishAllOnePerKey(base: string, device: string, data: Dict, retain: bool, k: string)
    requires DistinctKeys(data)
    ensures
      var out := PublishAllMessages(base, device, data, retain);
      && ((k in Keys(data) && !Skipped(k)) <==> exists j :: 1 <= j < |out| && out[j].topic == DiscoveryTopic(device, k))
      && forall i, j ::
           (1 <= i < |out| && 1 <= j < |out| && out[i].topic == DiscoveryTopic(device, k)
            && out[j].topic == DiscoveryTopic(device, k)) ==> i == j
  {
    var out := PublishAllMessages(base, device, data, retain);
    var ks := PublishedKeys(data);
    PublishedKeysDistinct(data);
    PublishedKeysMembers(data, k);
    forall j | 1 <= j < |out| && out[j].topic == DiscoveryTopic(device, k)
      ensures ks[j - 1] == k
    {
      PublishAllAt(base, device, data, retain, j);
      DiscoveryTopicInjective(device, ks[j - 1], k);
    }
    if k in Keys(data) && !Skipped(k) {
      var j :| 0 <= j < |ks| && ks[j] == k;
      PublishAllAt(base, device, data, retain, j + 1);
    }
  }

  // ---------------------------------------------------------------- the polling loop of main

  /** `f"{vendor}_{name}"`, the name being the battery's `Name`, else the MAC without colons, lower-cased. */
  function DeviceName(vendor: string, mac: string, data: Dict): string {
    vendor + "_" + match Get(data, "Name")
      case Some(Str(n)) => n
      case _ => StripColonsLower(mac)
  }

  /** What one battery contributes to a round, given what its read returned: nothing when it raised or returned the error dict. */
  function MacMessages(vendor: string, base: string, mac: string, load: Result<Dict, PyError>): seq<Message> {
    match load
    case Err(_) => []
    case Ok(data) =>
      if "error" in Keys(data) then []
      else PublishAllMessages(base, DeviceName(vendor, mac, data), data, true)
  }

  /** What `getBatteryload` returns for each battery of a round. */
  function Loads(links: seq<Transport>): (loads: seq<Result<Dict, PyError>>)
    ensures |loads| == |links|
  {
    seq(|links|, i requires 0 <= i < |links| => Liontron.Load(links[i]))
  }

  /** The messages of each battery of a round, in the order of `macs`. */
  function Contributions(vendor: string, base: string, macs: seq<string>, loads: seq<Result<Dict, PyError>>): (parts: seq<seq<Message>>)
    requires |loads| == |macs|
    ensures |parts| == |macs|
  {
    seq(|macs|, i requires 0 <= i < |macs| => MacMessages(vendor, base, macs[i], loads[i]))
  }

  /** The parts one after another. */
  function Concat(parts: seq<seq<Message>>): seq<Message> {
    if parts == [] then [] else Concat(parts[..|parts| - 1]) + parts[|parts| - 1]
  }

  lemma {:induction false} ConcatAppend(a: seq<seq<Message>>, b: seq<seq<Message>>)
    ensures Concat(a + b) == Concat(a) + Concat(b)
    decreases |b|
  {
    if b == [] {
      assert a + b == a;
    } else {
      assert (a + b)[..|a + b| - 1] == a + b[..|b| - 1];
      ConcatAppend(a, b[..|b| - 1]);
    }
  }

  /** One more part extends the concatenation by that part. */
  lemma ConcatStep(parts: seq<seq<Message>>, i: nat)
    requires i < |parts|
    ensures Concat(parts[..i + 1]) == Concat(parts[..i]) + parts[i]
  {
    assert parts[..i + 1][..i] == parts[..i];
  }

  lemma AppendAssoc(a: seq<Message>, b: seq<Message>, c: seq<Message>)
    ensures (a + b) + c == a + (b + c)
  {
  }

  /** What one round over the configured batteries publishes, battery by battery. */
  function RoundMessages(vendor: string, base: string, macs: seq<string>, loads: seq<Result<Dict, PyError>>): seq<Message>
    requires |loads| == |macs|
  {
    Concat(Contributions(vendor, base, macs, loads))
  }

  /**
   * The body of `for mac in macs` in `main`: a fresh `Battery` for the address, whose channel
   * is `link`; an exception or the error dict is logged and nothing is published.
   */
  method PollBattery(client: Client, vendor: string, base: string, mac: string, link: Transport)
    modifies client
    ensures client.published == old(client.published) + MacMessages(vendor, base, mac, Liontron.Load(link))
  {
    var bms := new Liontron.Battery(mac);
    var _, r := bms.GetBatteryload(link);
    if r.Err? {
      return;
    }
    var data := r.value;
    if "error" in Keys(data) {
      return;
    }
    var device := DeviceName(vendor, mac, data);
    PublishAll(client, base, device, data, true);
  }

  /** One pass of `for mac in macs` in `main`, the batteries polled in order. */
  method PollRound(client: Client, vendor: string, base: string, macs: seq<string>, links: seq<Transport>)
    requires |links| == |macs|
    modifies client
    ensures client.published == old(client.published) + RoundMessages(vendor, base, macs, Loads(links))
  {
    ghost var parts := Contributions(vendor, base, macs, Loads(links));
    for i := 0 to |macs|
      invariant client.published == old(client.published) + Concat(parts[..i])
    {
      ConcatStep(parts, i);
      assert parts[i] == MacMessages(vendor, base, macs[i], Liontron.Load(links[i]));
      ghost var before := client.published;
      PollBattery(client, vendor, base, macs[i], links[i]);
      assert client.published == before + parts[i];
      AppendAssoc(old(client.published), Concat(parts[..i]), parts[i]);
    }
    assert parts[..|macs|] == parts;
  }

  /** An empty part can be dropped without changing the concatenation. */
  lemma {:induction false} ConcatDropEmpty(parts: seq<seq<Message>>, i: nat)
    requires i < |parts| && parts[i] == []
    ensures Concat(parts) == Concat(parts[..i] + parts[i + 1..])
  {
    var n := |parts| - 1;
    if i == n {
      assert parts[..i] + parts[i + 1..] == parts[..n];
    } else {
      var init := parts[..n];
      ConcatDropEmpty(init, i);
      var shorter := init[..i] + init[i + 1..];
      assert parts[..i] + parts[i + 1..] == shorter + [parts[n]];
      assert (shorter + [parts[n]])[..|shorter|] == shorter;
    }
  }

  /** A battery whose read fails leaves the rest of the round exactly as if it were not configured. */
  lemma FailureIsolated(vendor: string, base: string, macs: seq<string>, loads: seq<Result<Dict, PyError>>, i: nat)
    requires |loads| == |macs| && i < |macs|
    requires MacMessages(vendor, base, macs[i], loads[i]) == []
    ensures RoundMessages(vendor, base, macs, loads)
      == RoundMessages(vendor, base, macs[..i] + macs[i + 1..], loads[..i] + loads[i + 1..])
  {
    var parts := Contributions(vendor, base, macs, loads);
    var macs', loads' := macs[..i] + macs[i + 1..], loads[..i] + loads[i + 1..];
    var rest := Contributions(vendor, base, macs', loads');
    forall j | 0 <= j < |rest|
      ensures rest[j] == (parts[..i] + parts[i + 1..])[j]
    {
      var k := if j < i then j else j + 1;
      assert macs'[j] == macs[k] && loads'[j] == loads[k];
      assert (parts[..i] + parts[i + 1..])[j] == parts[k];
    }
    assert rest == parts[..i] + parts[i + 1..];
    ConcatDropEmpty(parts, i);
  }

  /**
   * A battery publishes exactly when its read returns a dict without `error`; it then
   * publishes its state first, on its own device's topic.
   */
  lemma MacMessagesCases(vendor: string, base: string, mac: string, load: Result<Dict, PyError>)
    ensures MacMessages(vendor, base, mac, load) != [] <==> load.Ok? && "error" !in Keys(load.value)
    ensures MacMessages(vendor, base, mac, load) != [] ==>
      MacMessages(vendor, base, mac, load)[0]
        == Message(StateTopic(base, DeviceName(vendor, mac, load.value)), StateJson(load.value), true)
  {
  }

  /** A battery whose connect loop gives up publishes nothing. */
  lemma NoConnectionNoMessages(vendor: string, base: string, mac: string, link: Transport)
    requires !Connects(link)
    ensures MacMessages(vendor, base, mac, Liontron.Load(link)) == []
  {
    assert Liontron.Load(link) == Ok(Liontron.ErrorDict);
    assert Keys(Liontron.ErrorDict)[0] == "error";
  }

  /**
   * The device is named after the battery's `Name` when it has one; otherwise after its MAC,
   * stripped of colons and lower-cased character by character (`Strings.StripColonsLowerAppend`),
   * so no colon and no upper-case letter is left.
   */
  lemma DeviceNameCases(vendor: string, mac: string, data: Dict)
    ensures Get(data, "Name").Some? && Get(data, "Name").value.Str? ==>
      DeviceName(vendor, mac, data) == vendor + "_" + Get(data, "Name").value.s
    ensures Get(data, "Name").None? ==>
      var suffix := DeviceName(vendor, mac, data)[|vendor| + 1..];
      && DeviceName(vendor, mac, data)[..|vendor| + 1] == vendor + "_"
      && suffix == StripColonsLower(mac)
      && ':' !in suffix && |suffix| <= |mac|
      && forall i :: 0 <= i < |suffix| ==> !('A' <= suffix[i] <= 'Z')
  {
    var tail := StripColonsLower(mac);
    assert (vendor + "_" + tail)[|vendor| + 1..] == tail;
    assert (vendor + "_" + tail)[..|vendor| + 1] == vendor + "_";
  }

  /** A battery without a `Name` at the MAC written in liontron_battery.py is announced as `{vendor}_a4aabbccddee`. */
  lemma DeviceNameOfMac(vendor: string, mac: string, data: Dict)
    requires mac == "A4:AA:BB:CC:DD:EE" && Get(data, "Name").None?
    ensures DeviceName(vendor, mac, data) == vendor + "_a4aabbccddee"
  {
    StripColonsLowerMac(mac);
  }
}
