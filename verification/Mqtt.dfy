/** The MQTT transport: topics, and what `publishJson` tells its caller. */
module Mqtt {
  import opened Wrappers

  const PUBLISH_TIMEOUT_MS: nat := 5_000

  /** What the broker does with a publication: acknowledge or refuse it after some time, or never answer. */
  datatype BrokerAnswer = Answers(after: nat, accepted: bool) | Silent

  /** `publishJson`: the answer it gives and how long it took. When the broker answers in the very millisecond of the
      timeout, either may come first. */
  function PublishJson(connected: bool, broker: BrokerAnswer, answerFirst: bool): (r: (bool, nat))
    ensures r.1 <= PUBLISH_TIMEOUT_MS
    ensures r.0 ==> connected && broker.Answers? && broker.accepted && broker.after == r.1
    ensures !r.0 && connected ==> broker == Answers(r.1, false) || r.1 == PUBLISH_TIMEOUT_MS
    ensures connected && broker.Answers? && broker.after < PUBLISH_TIMEOUT_MS ==> r == (broker.accepted, broker.after)
    ensures !connected ==> r.1 == 0
  {
    if !connected then (false, 0)
    else if broker.Answers?
            && (broker.after < PUBLISH_TIMEOUT_MS || (broker.after == PUBLISH_TIMEOUT_MS && answerFirst))
    then (broker.accepted, broker.after)
    else (false, PUBLISH_TIMEOUT_MS)
  }

  // ----- topics -----

  const TOPIC_ROOT := "mdm/devices"

  datatype MessageKind = Acks | StatusReport | Screen

  function KindText(kind: MessageKind): string {
    match kind
    case Acks => "acks"
    case StatusReport => "status"
    case Screen => "screen"
  }

  datatype DeviceTopic = DeviceTopic(deviceId: string, kind: MessageKind)

  function CommandsTopic(deviceId: string): string {
    TOPIC_ROOT + "/" + deviceId + "/commands"
  }

  /** The topic a device publishes on. */
  function TopicText(topic: DeviceTopic): string {
    TOPIC_ROOT + "/" + topic.deviceId + "/" + KindText(topic.kind)
  }

  /** The characters before the first slash. */
  function Level(text: string): (level: string)
    ensures level <= text && '/' !in level
    ensures |level| < |text| ==> text[|level|] == '/'
  {
    if text == "" || text[0] == '/' then "" else [text[0]] + Level(text[1..])
  }

  lemma {:induction false} LevelOf(level: string, rest: string)
    requires '/' !in level
    ensures Level(level + "/" + rest) == level
  {
    var text := level + "/" + rest;
    if level != "" {
      assert text[0] == level[0] && text[1..] == level[1..] + "/" + rest;
      LevelOf(level[1..], rest);
    }
  }

  /** `\/(acks|status|screen)$` */
  function ParseKind(rest: string): Option<MessageKind> {
    if rest == "/acks" then Some(Acks)
    else if rest == "/status" then Some(StatusReport)
    else if rest == "/screen" then Some(Screen)
    else None
  }

  lemma KindRoundTrip(rest: string, kind: MessageKind)
    ensures ParseKind(rest) == Some(kind) <==> rest == "/" + KindText(kind)
  {
    assert "/" + "acks" == "/acks" && "/" + "status" == "/status" && "/" + "screen" == "/screen";
    assert "/acks"[1] == 'a' && "/status"[1] == 's' == "/screen"[1] && "/status"[2] == 't' && "/screen"[2] == 'c';
  }

  /** `^mdm\/devices\/([^/]+)\/(acks|status|screen)$` */
  function ParseDeviceTopic(topic: string): Option<DeviceTopic> {
    var root := TOPIC_ROOT + "/";
    if !(root <= topic) then None
    else
      var deviceId := Level(topic[|root|..]);
      var rest := topic[|root| + |deviceId|..];
      if deviceId == "" || ParseKind(rest).None? then None else Some(DeviceTopic(deviceId, ParseKind(rest).value))
  }

  lemma PrintedTopicParses(topic: DeviceTopic)
    requires topic.deviceId != "" && '/' !in topic.deviceId
    ensures ParseDeviceTopic(TopicText(topic)) == Some(topic)
  {
    var root, text := TOPIC_ROOT + "/", TopicText(topic);
    var id, kind := topic.deviceId, KindText(topic.kind);
    assert root <= text;
    assert text[|root|..] == id + "/" + kind;
    LevelOf(id, kind);
    assert text[|root| + |id|..] == "/" + kind;
    KindRoundTrip("/" + kind, topic.kind);
  }

  lemma ParsedTopicPrints(text: string)
    requires ParseDeviceTopic(text).Some?
    ensures var topic := ParseDeviceTopic(text).value;
            text == TopicText(topic) && topic.deviceId != "" && '/' !in topic.deviceId
  {
    var root, topic := TOPIC_ROOT + "/", ParseDeviceTopic(text).value;
    KindRoundTrip(text[|root| + |topic.deviceId|..], topic.kind);
    assert text == root + text[|root|..];
    assert text[|root|..] == Level(text[|root|..]) + text[|root| + |topic.deviceId|..];
  }

  /** Parsing accepts exactly the topics of devices, and finds the device and the kind they were made from. */
  lemma TopicRoundTrip(text: string, topic: DeviceTopic)
    ensures ParseDeviceTopic(text) == Some(topic)
            <==> text == TopicText(topic) && topic.deviceId != "" && '/' !in topic.deviceId
  {
    if topic.deviceId != "" && '/' !in topic.deviceId {
      PrintedTopicParses(topic);
    }
    if ParseDeviceTopic(text).Some? {
      ParsedTopicPrints(text);
    }
  }

  /** A command published for a device is on the topic of no other. */
  lemma CommandsReachOneDevice(a: string, b: string)
    ensures CommandsTopic(a) == CommandsTopic(b) <==> a == b
  {
    var root, end := TOPIC_ROOT + "/", "/commands";
    if CommandsTopic(a) == CommandsTopic(b) {
      assert CommandsTopic(a) == root + a + end && CommandsTopic(b) == root + b + end;
      assert a == CommandsTopic(a)[|root|..|root| + |a|] && b == CommandsTopic(b)[|root|..|root| + |b|];
    }
  }

  lemma LastButOne(topic: DeviceTopic)
    ensures TopicText(topic)[|TopicText(topic)| - 2] == KindText(topic.kind)[|KindText(topic.kind)| - 2] != 'd'
  {
  }

  /** The server never takes the commands it publishes for a device's message. */
  lemma CommandsAreNotMessages(deviceId: string)
    ensures ParseDeviceTopic(CommandsTopic(deviceId)).None?
  {
    var text := CommandsTopic(deviceId);
    assert text[|text| - 2] == "/commands"[7] == 'd';
    if ParseDeviceTopic(text).Some? {
      ParsedTopicPrints(text);
      LastButOne(ParseDeviceTopic(text).value);
    }
  }
}
