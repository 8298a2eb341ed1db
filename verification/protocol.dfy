/** The hub's wire protocol (src/services/websocket.ts): the envelopes the
    server sends and the dispatch of one parsed inbound frame to exactly one
    reply. Timestamps come from the clock and are left out of envelopes;
    JSON text is replaced by its parsed value. */
module Protocol {
  import opened Wrappers

  /** A parsed JSON value, as far as the hub looks into one. */
  datatype Json =
    | JNull
    | JBool(b: bool)
    | JNumber(n: int)
    | JString(s: string)
    | JArray(items: seq<Json>)
    | JObject(fields: seq<(string, Json)>)

  /** The `type` member of a parsed frame. Only a string can equal a case
      label of the dispatch; any other value, a missing member included,
      falls to the default branch, where the template literal renders it
      (`undefined` for a missing member). */
  datatype Tag = Text(name: string) | NonText(rendered: string)

  /** One inbound frame after `JSON.parse`: either the parse failed (which
      includes frames whose member access throws, such as `null`) or it
      gave a message with a `type` and an optional `data` member. */
  datatype Frame = Malformed | Message(tag: Tag, data: Option<Json>)

  /** An outbound envelope: `type` and `data` (absent when `undefined`). */
  datatype Envelope = Envelope(kind: string, data: Option<Json>)

  /** What the template literal `${message.type}` produces. */
  function Rendered(tag: Tag): string {
    match tag
    case Text(name) => name
    case NonText(r) => r
  }

  function ObjectWith(key: string, value: string): Json {
    JObject([(key, JString(value))])
  }

  /** The envelope every new connection receives first. */
  const Welcome: Envelope := Envelope("welcome", Some(ObjectWith("message", "Connected to AI Engines Platform")))

  function ErrorEnvelope(message: string): Envelope {
    Envelope("error", Some(ObjectWith("error", message)))
  }

  /** The reply to a frame that does not parse. */
  const InvalidFormat: Envelope := ErrorEnvelope("Invalid message format")

  function Confirmation(subscription: string): Envelope {
    Envelope("subscription_confirmed", Some(ObjectWith("subscription", subscription)))
  }

  /** The prefix that names a subscription request. */
  const SubscribePrefix: string := "subscribe_"

  /** `handleWebSocketMessage`: the one reply to a parsed message. */
  function Dispatch(tag: Tag, data: Option<Json>): (reply: Envelope)
    ensures reply.kind == "pong" <==> tag == Text("ping")
    ensures reply.kind == "pong" ==> reply.data == data
    ensures reply.kind == "subscription_confirmed" <==>
              tag == Text("subscribe_agent_updates") || tag == Text("subscribe_task_updates")
    ensures reply.kind == "subscription_confirmed" ==>
              exists topic :: reply == Confirmation(topic) && tag == Text(SubscribePrefix + topic)
    ensures reply.kind !in {"pong", "subscription_confirmed"} ==>
              reply == ErrorEnvelope("Unknown message type: " + Rendered(tag))
  {
    match tag
    case Text("ping") => Envelope("pong", data)
    case Text("subscribe_agent_updates") =>
      assert tag == Text(SubscribePrefix + "agent_updates");
      Confirmation("agent_updates")
    case Text("subscribe_task_updates") =>
      assert tag == Text(SubscribePrefix + "task_updates");
      Confirmation("task_updates")
    case _ => ErrorEnvelope("Unknown message type: " + Rendered(tag))
  }

  /** The reply to one inbound frame, the parse-error path included. */
  function Reply(frame: Frame): (reply: Envelope)
    ensures frame.Malformed? ==> reply == InvalidFormat
    ensures frame.Message? ==> reply == Dispatch(frame.tag, frame.data)
    ensures reply.kind in {"pong", "subscription_confirmed", "error"}
    ensures reply != Welcome
  {
    match frame
    case Malformed => InvalidFormat
    case Message(tag, data) => Dispatch(tag, data)
  }

  /** No inbound frame is ever answered with a welcome: the welcome is sent
      on connect only. */
  lemma ReplyIsNeverWelcome(frame: Frame)
    ensures Reply(frame) != Welcome
    ensures Reply(frame).kind in {"pong", "subscription_confirmed", "error"}
  {
    match frame
    case Malformed =>
    case Message(tag, data) =>
      var r := Dispatch(tag, data);
      if r.kind !in {"pong", "subscription_confirmed"} {
        assert r.kind == "error";
      }
  }

  /** A ping is answered by a pong that echoes its data unchanged. */
  lemma PingEchoes(data: Option<Json>)
    ensures Reply(Message(Text("ping"), data)) == Envelope("pong", data)
  {
  }
}
