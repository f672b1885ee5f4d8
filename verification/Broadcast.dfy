/**
  mqtt_server::broadcast (src/mqtt/mqtt_server.cpp): one PUBLISH for every session with a
  matching filter, framed once for all the WebSocket sessions among them.
 */
module Broadcast {
  import opened Bytes
  import opened Wrappers
  import T = MqttTopic
  import P = MqttPacket
  import WS = WebSocketCodec

  datatype Subscriber = Subscriber(websocket: bool, filters: seq<seq<byte>>)

  predicate Subscribed(filters: seq<seq<byte>>, topic: seq<byte>) {
    exists i :: 0 <= i < |filters| && T.MatchSpec(Text(filters[i]), Text(topic))
  }

  method MatchesTopic(filters: seq<seq<byte>>, topic: seq<byte>) returns (r: bool)
    ensures r == Subscribed(filters, topic)
  {
    for i := 0 to |filters|
      invariant forall k :: 0 <= k < i ==> !T.MatchSpec(Text(filters[k]), Text(topic))
    {
      var m := T.Matches(Text(filters[i]), Text(topic));
      if m { return true; }
    }
    return false;
  }

  /** The bytes a subscriber is sent: the packet, in a binary frame for a WebSocket. */
  function Wire(websocket: bool, topic: seq<byte>, payload: seq<byte>): seq<byte> {
    var packet := P.EncodePublishSpec(topic, payload, 0, 0);
    if websocket then WS.Encode(packet, 0x02) else packet
  }

  /** The buffers that went to session `who`. */
  function SentTo(sent: seq<(nat, seq<byte>)>, who: nat): seq<seq<byte>> {
    if sent == [] then []
    else SentTo(sent[..|sent| - 1], who) + (if sent[|sent| - 1].0 == who then [sent[|sent| - 1].1] else [])
  }

  /** Every matching session is sent exactly one buffer, every other session none. */
  method Publish(sessions: seq<Subscriber>, topic: seq<byte>, payload: seq<byte>)
    returns (sent: seq<(nat, seq<byte>)>)
    ensures forall who :: 0 <= who < |sessions| ==>
              SentTo(sent, who) ==
                if Subscribed(sessions[who].filters, topic) then [Wire(sessions[who].websocket, topic, payload)] else []
  {
    hide WS.Encode, P.EncodePublishSpec, Subscribed;
    var packet := P.EncodePublish(topic, payload, 0, 0);
    var framed: Option<seq<byte>> := None;
    sent := [];
    for i := 0 to |sessions|
      invariant framed.Some? ==> framed.value == WS.Encode(packet, 0x02)
      invariant forall who :: i <= who ==> SentTo(sent, who) == []
      invariant forall who :: 0 <= who < i ==>
        SentTo(sent, who) ==
          if Subscribed(sessions[who].filters, topic) then [Wire(sessions[who].websocket, topic, payload)] else []
    {
      var m := MatchesTopic(sessions[i].filters, topic);
      if m {
        var buffer := packet;
        if sessions[i].websocket {
          if framed.None? {
            var f := WS.EncodeFrame(packet, 0x02);
            framed := Some(f);
          }
          buffer := framed.value;
        }
        AppendSent(sent, i, buffer);
        sent := sent + [(i, buffer)];
      }
    }
  }

  lemma AppendSent(sent: seq<(nat, seq<byte>)>, who: nat, buffer: seq<byte>)
    ensures forall k: nat :: SentTo(sent + [(who, buffer)], k) == SentTo(sent, k) + (if k == who then [buffer] else [])
  {
    assert (sent + [(who, buffer)])[..|sent|] == sent;
  }

  /** The PUBLISH in a packet, by the type in the high half of its first byte. */
  function PublishIn(packet: seq<byte>): Option<P.Publish> {
    if packet != [] && packet[0] / 16 == 3 then P.DecodePublishSpec(packet) else None
  }

  /** What a subscriber reads: a raw packet, or the binary frame that fills the buffer. */
  function Received(websocket: bool, buffer: seq<byte>): Option<P.Publish> {
    if !websocket then PublishIn(buffer)
    else
      match WS.Decode(buffer)
      case Decoded(f, n) => if f.opcode == 2 && n == |buffer| then PublishIn(f.payload) else None
      case _ => None
  }

  lemma PublishType(topic: seq<byte>, payload: seq<byte>)
    ensures var packet := P.EncodePublishSpec(topic, payload, 0, 0); packet != [] && packet[0] / 16 == 3
  {}

  /** Framed or raw, the buffer is a PUBLISH of the published topic and payload, exactly within the packet's bounds. */
  lemma WireIsRead(websocket: bool, topic: seq<byte>, payload: seq<byte>)
    requires |P.EncodePublishSpec(topic, payload, 0, 0)| + 10 < TWO_64
    ensures Received(websocket, Wire(websocket, topic, payload)) == Some(P.Publish(topic, payload, 0, 0, false))
            <==> |topic| < 65536 && 2 + |topic| + |payload| < P.TWO_21
  {
    hide WS.Decode, WS.Encode, P.DecodePublishSpec, P.EncodePublishSpec;
    var packet := P.EncodePublishSpec(topic, payload, 0, 0);
    PublishType(topic, payload);
    P.PublishRoundTrip(topic, payload, 0, 0, []);
    assert packet + [] == packet;
    WS.RoundTrip(packet, 2, []);
    assert WS.Encode(packet, 2) + [] == WS.Encode(packet, 2);
  }
}
