/** MQTT topic strings of the energy-consumption feed: how a gateway's topic is
    built, how the gateway name is read back out of a topic, and which topics
    the client treats as relevant. Strings are sequences of characters; the
    searches mirror `std::string::find`. */
module Topics {
  import opened Optional

  /** Every subscribed topic starts with this. */
  const TOPIC_PREFIX: string := "energy/consumption/"

  /** The fixed identifier closing every data-message topic. */
  const DATA_UUID: string := "71435500-6791-11ce-97c6-313131303230"

  /** Every subscribed topic ends with this fixed data-message suffix. */
  const TOPIC_SUFFIX: string := "/message/data/" + DATA_UUID

  /** The relevance marker searched for in incoming topics. The source writes
      it as a literal of its own (mqtt_client.cpp:471), apart from the topic
      prefix (mqtt_client.cpp:365), though the two strings are equal. */
  const RELEVANCE_MARKER: string := "energy/consumption/"

  /** Where the name extraction starts looking for a '/': the length of
      "energy/consumption", so the first hit is the separator before the name. */
  const NAME_SEARCH_START: nat := 18

  /** The topic the client subscribes to for a gateway. */
  function TopicFor(name: string): string
  {
    TOPIC_PREFIX + name + TOPIC_SUFFIX
  }

  /** `s.find(c, from)`: the first position at or after `from` holding `c`;
      `None` plays `npos`, also when `from` lies past the end. */
  function FindFrom(s: string, c: char, from: nat): (r: Option<nat>)
    decreases |s| - from
    ensures r.Some? ==> from <= r.value < |s| && s[r.value] == c
    ensures r.Some? ==> forall j :: from <= j < r.value ==> s[j] != c
    ensures r.None? ==> forall j :: from <= j < |s| ==> s[j] != c
  {
    if from >= |s| then None
    else if s[from] == c then Some(from)
    else FindFrom(s, c, from + 1)
  }

  /** The gateway name inside a topic: the text after the first '/' found at or
      after NAME_SEARCH_START, up to the next '/' or the end. When no such '/'
      exists, `npos + 1` wraps to 0 and the text before the topic's first '/'
      comes back. A `substr` whose count runs past the end stops at the end. */
  function GatewayName(topic: string): (name: string)
    ensures '/' !in name
    ensures |name| <= |topic|
    ensures exists start :: OccursAt(topic, name, start)
  {
    var start := match FindFrom(topic, '/', NAME_SEARCH_START)
      case None => 0
      case Some(i) => i + 1;
    var name := match FindFrom(topic, '/', start)
      case None => topic[start..]
      case Some(end) => topic[start..end];
    assert OccursAt(topic, name, start);
    name
  }

  /** The marker `m` sits at position `i` of `t`. */
  predicate OccursAt(t: string, m: string, i: nat)
  {
    i + |m| <= |t| && t[i..i + |m|] == m
  }

  /** `t.find(m, from)`: the first position at or after `from` where `m` occurs. */
  function FindSubstring(t: string, m: string, from: nat): (r: Option<nat>)
    decreases |t| - from
    ensures r.Some? ==> from <= r.value && OccursAt(t, m, r.value)
    ensures r.Some? ==> forall j :: from <= j < r.value ==> !OccursAt(t, m, j)
    ensures r.None? ==> forall j :: from <= j ==> !OccursAt(t, m, j)
  {
    if from + |m| > |t| then None
    else if t[from..from + |m|] == m then Some(from)
    else FindSubstring(t, m, from + 1)
  }

  /** A topic is processed only when it contains the relevance marker somewhere. */
  function IsRelevant(topic: string): (r: bool)
    ensures r <==> exists i :: OccursAt(topic, RELEVANCE_MARKER, i)
  {
    FindSubstring(topic, RELEVANCE_MARKER, 0).Some?
  }

  /** Building a gateway's topic and extracting the name from it give back the
      name, as long as the name holds no '/'. */
  lemma NameRoundTrip(name: string)
    requires '/' !in name
    ensures GatewayName(TopicFor(name)) == name
  {
    var t := TopicFor(name);
    var start := |TOPIC_PREFIX|;
    var end := start + |name|;
    assert t[NAME_SEARCH_START] == '/';
    assert FindFrom(t, '/', NAME_SEARCH_START) == Some(NAME_SEARCH_START);
    assert t[end] == '/' by {
      assert TOPIC_SUFFIX[0] == '/';
      assert t[end] == TOPIC_SUFFIX[0];
    }
    forall j | start <= j < end
      ensures t[j] != '/'
    {
      assert t[j] == name[j - start];
    }
    assert FindFrom(t, '/', start) == Some(end);
    assert t[start..end] == name;
  }

  /** Where the name holds a '/', extraction stops at it: the name read back is
      the part of the name before its first '/'. */
  lemma NameWithSlashTruncated(name: string, k: nat)
    requires k < |name| && name[k] == '/'
    requires forall j :: 0 <= j < k ==> name[j] != '/'
    ensures GatewayName(TopicFor(name)) == name[..k]
  {
    var t := TopicFor(name);
    var start := |TOPIC_PREFIX|;
    assert t[NAME_SEARCH_START] == '/';
    assert FindFrom(t, '/', NAME_SEARCH_START) == Some(NAME_SEARCH_START);
    assert t[start + k] == name[k];
    forall j | start <= j < start + k
      ensures t[j] != '/'
    {
      assert t[j] == name[j - start];
    }
    assert FindFrom(t, '/', start) == Some(start + k);
    assert t[start..start + k] == name[..k];
  }

  /** Every topic the client subscribes to passes its own relevance filter. */
  lemma TopicIsRelevant(name: string)
    ensures IsRelevant(TopicFor(name))
  {
    assert OccursAt(TopicFor(name), RELEVANCE_MARKER, 0);
  }

  /** Different gateway names give different topics. */
  lemma TopicForInjective(a: string, b: string)
    requires TopicFor(a) == TopicFor(b)
    ensures a == b
  {
    var n := |TOPIC_PREFIX|;
    assert |a| == |b|;
    assert a == TopicFor(a)[n..n + |a|];
    assert b == TopicFor(b)[n..n + |b|];
  }
}
