/// The serde mapping of the document types (`asyncapi-rust-models/src/lib.rs`)
/// as a pure encoding into a JSON tree and the decoding serde derives for it.
///
/// Field names follow the `#[serde(rename = ...)]` attributes, every `Option`
/// field marked `skip_serializing_if = "Option::is_none"` is left out when
/// `None`, `MessageRef` is untagged and `OperationAction` is lowercase. Decoding
/// follows serde's defaults: unknown keys are ignored, a missing or `null`
/// `Option` field reads as `None`, a missing required field or a value of the
/// wrong shape is an error (`None` here).
module Serialization {
  import opened Wrappers
  import opened Models

  datatype Json =
    | JNull
    | JBool(b: bool)
    | JNum(n: int)
    | JStr(s: string)
    | JArr(elems: seq<Json>)
    | JObj(fields: map<string, Json>)

  // ---------------------------------------------------------------------------
  // Encoding helpers

  /** `m` with `k` added when the value is present, as `skip_serializing_if`. */
  function With(m: map<string, Json>, k: string, v: Option<Json>): (r: map<string, Json>)
    ensures r.Keys == m.Keys + KeyIf(v, k)
  {
    if v.Some? then m[k := v.value] else m
  }

  function StrJson(s: string): Json {
    JStr(s)
  }

  function OptJson<T>(v: Option<T>, enc: T -> Json): Option<Json> {
    if v.Some? then Some(enc(v.value)) else None
  }

  function MapJson<T>(m: map<string, T>, enc: T -> Json): Json {
    JObj(map k | k in m :: enc(m[k]))
  }

  function SeqJson<T>(s: seq<T>, enc: T -> Json): Json {
    JArr(seq(|s|, i requires 0 <= i < |s| => enc(s[i])))
  }

  function OptMapJson<T>(m: Option<map<string, T>>, enc: T -> Json): Option<Json> {
    if m.Some? then Some(MapJson(m.value, enc)) else None
  }

  function OptSeqJson<T>(s: Option<seq<T>>, enc: T -> Json): Option<Json> {
    if s.Some? then Some(SeqJson(s.value, enc)) else None
  }

  /** The keys an optional field contributes. */
  function KeyIf<T>(v: Option<T>, k: string): set<string> {
    if v.Some? then {k} else {}
  }

  // ---------------------------------------------------------------------------
  // Encoding

  function InfoJson(i: Info): (j: Json)
    ensures j.JObj? && j.fields.Keys == {"title", "version"} + KeyIf(i.description, "description")
  {
    JObj(With(map["title" := JStr(i.title), "version" := JStr(i.version)], "description", OptJson(i.description, StrJson)))
  }

  function ServerJson(s: Server): (j: Json)
    ensures j.JObj? && j.fields.Keys == {"host", "protocol"} + KeyIf(s.description, "description")
  {
    JObj(With(map["host" := JStr(s.host), "protocol" := JStr(s.protocol)], "description", OptJson(s.description, StrJson)))
  }

  function SchemaJson(s: Schema): (j: Json)
    ensures j.JObj?
  {
    var props :=
      if s.properties.Properties? then
        Some(JObj(map k | k in s.properties.entries :: SchemaJson(s.properties.entries[k])))
      else None;
    JObj(With(With(With(With(map[], "type", OptJson(s.schemaType, StrJson)),
      "properties", props), "required", OptSeqJson(s.required, StrJson)), "description", OptJson(s.description, StrJson)))
  }

  function MessageJson(m: Message): (j: Json)
    ensures j.JObj?
  {
    JObj(With(With(With(With(With(With(map[],
      "name", OptJson(m.name, StrJson)),
      "title", OptJson(m.title, StrJson)),
      "summary", OptJson(m.summary, StrJson)),
      "description", OptJson(m.description, StrJson)),
      "contentType", OptJson(m.contentType, StrJson)),
      "payload", OptJson(m.payload, SchemaJson)))
  }

  /** `skip_serializing_if`, and `schema_type` written as `type`: a schema object
      carries exactly the fields that are set. */
  lemma SchemaJsonKeys(s: Schema)
    ensures SchemaJson(s).fields.Keys == KeyIf(s.schemaType, "type")
                                         + (if s.properties.Properties? then {"properties"} else {})
                                         + KeyIf(s.required, "required") + KeyIf(s.description, "description")
  {
  }

  /** `skip_serializing_if`: a message object carries exactly the fields that are set. */
  lemma MessageJsonKeys(m: Message)
    ensures MessageJson(m).fields.Keys == KeyIf(m.name, "name") + KeyIf(m.title, "title") + KeyIf(m.summary, "summary")
                                          + KeyIf(m.description, "description") + KeyIf(m.contentType, "contentType")
                                          + KeyIf(m.payload, "payload")
  {
  }

  /** Untagged: a reference is an object whose only key is `$ref`; an inline
      message is the message's own object, which never has that key. */
  function MessageRefJson(r: MessageRef): (j: Json)
    ensures j.JObj?
    ensures r.Reference? ==> j.fields.Keys == {"$ref"}
    ensures r.Inline? ==> "$ref" !in j.fields
  {
    match r
    case Reference(p) => JObj(map["$ref" := JStr(p)])
    case Inline(m) => MessageJson(m)
  }

  function ChannelJson(c: Channel): (j: Json)
    ensures j.JObj? && j.fields.Keys == KeyIf(c.address, "address") + KeyIf(c.messages, "messages")
  {
    JObj(With(With(map[], "address", OptJson(c.address, StrJson)), "messages", OptMapJson(c.messages, MessageRefJson)))
  }

  /** `rename_all = "lowercase"`. */
  function ActionJson(a: OperationAction): Json {
    match a
    case Send => JStr("send")
    case Receive => JStr("receive")
  }

  function ChannelRefJson(c: ChannelRef): (j: Json)
    ensures j.JObj? && j.fields.Keys == {"$ref"}
  {
    JObj(map["$ref" := JStr(c.reference)])
  }

  function OperationJson(o: Operation): (j: Json)
    ensures j.JObj? && j.fields.Keys == {"action", "channel"} + KeyIf(o.messages, "messages")
  {
    JObj(With(map["action" := ActionJson(o.action), "channel" := ChannelRefJson(o.channel)],
      "messages", OptSeqJson(o.messages, MessageRefJson)))
  }

  function ComponentsJson(c: Components): (j: Json)
    ensures j.JObj? && j.fields.Keys == KeyIf(c.messages, "messages") + KeyIf(c.schemas, "schemas")
  {
    JObj(With(With(map[], "messages", OptMapJson(c.messages, MessageJson)), "schemas", OptMapJson(c.schemas, SchemaJson)))
  }

  function SpecJson(d: AsyncApiSpec): (j: Json)
    ensures j.JObj?
    ensures j.fields.Keys == {"asyncapi", "info"} + KeyIf(d.servers, "servers") + KeyIf(d.channels, "channels")
                             + KeyIf(d.operations, "operations") + KeyIf(d.components, "components")
  {
    JObj(With(With(With(With(map["asyncapi" := JStr(d.asyncapi), "info" := InfoJson(d.info)],
      "servers", OptMapJson(d.servers, ServerJson)),
      "channels", OptMapJson(d.channels, ChannelJson)),
      "operations", OptMapJson(d.operations, OperationJson)),
      "components", OptJson(d.components, ComponentsJson)))
  }

  // ---------------------------------------------------------------------------
  // Decoding helpers

  function StrOf(j: Json): Option<string> {
    if j.JStr? then Some(j.s) else None
  }

  /** A required field: missing is an error. */
  function Required<T>(f: map<string, Json>, k: string, dec: Json -> Option<T>): Option<T> {
    if k in f then dec(f[k]) else None
  }

  /** An `Option` field: missing or `null` reads as `None`; the outer `None` is an error. */
  function Optional<T>(f: map<string, Json>, k: string, dec: Json -> Option<T>): Option<Option<T>> {
    if k !in f || f[k] == JNull then Some(None)
    else if dec(f[k]).Some? then Some(Some(dec(f[k]).value))
    else None
  }

  /** All entries decoded, or an error if any entry failed. */
  function AllSome<T>(m: map<string, Option<T>>): Option<map<string, T>> {
    if forall k | k in m :: m[k].Some? then Some(map k | k in m :: m[k].value) else None
  }

  function MapOf<T>(j: Json, dec: Json -> Option<T>): Option<map<string, T>> {
    if j.JObj? then AllSome(map k | k in j.fields :: dec(j.fields[k])) else None
  }

  function SeqOf<T>(j: Json, dec: Json -> Option<T>): Option<seq<T>> {
    if j.JArr? && forall i | 0 <= i < |j.elems| :: dec(j.elems[i]).Some? then
      Some(seq(|j.elems|, i requires 0 <= i < |j.elems| && dec(j.elems[i]).Some? => dec(j.elems[i]).value))
    else None
  }

  // ---------------------------------------------------------------------------
  // Decoding

  function InfoFrom(j: Json): Option<Info> {
    if !j.JObj? then None
    else
      var title :- Required(j.fields, "title", StrOf);
      var version :- Required(j.fields, "version", StrOf);
      var description :- Optional(j.fields, "description", StrOf);
      Some(Info(title, version, description))
  }

  function ServerFrom(j: Json): Option<Server> {
    if !j.JObj? then None
    else
      var host :- Required(j.fields, "host", StrOf);
      var protocol :- Required(j.fields, "protocol", StrOf);
      var description :- Optional(j.fields, "description", StrOf);
      Some(Server(host, protocol, description))
  }

  function SchemaFrom(j: Json): Option<Schema>
    decreases j, 1
  {
    if !j.JObj? then None
    else
      var f := j.fields;
      var schemaType :- Optional(f, "type", StrOf);
      var properties :- PropertiesFrom(j);
      var required :- Optional(f, "required", j => SeqOf(j, StrOf));
      var description :- Optional(f, "description", StrOf);
      Some(Schema(schemaType, properties, required, description))
  }

  /** The `properties` field of the schema object `j`, every entry read as a schema. */
  function PropertiesFrom(j: Json): Option<Properties>
    requires j.JObj?
    decreases j, 0
  {
    var f := j.fields;
    if "properties" !in f || f["properties"] == JNull then Some(NoProperties)
    else if f["properties"].JObj? then
      var p := f["properties"].fields;
      var entries :- AllSome(map k | k in p :: SchemaFrom(p[k]));
      Some(Properties(entries))
    else None
  }

  function MessageFrom(j: Json): Option<Message> {
    if !j.JObj? then None
    else
      var f := j.fields;
      var name :- Optional(f, "name", StrOf);
      var title :- Optional(f, "title", StrOf);
      var summary :- Optional(f, "summary", StrOf);
      var description :- Optional(f, "description", StrOf);
      var contentType :- Optional(f, "contentType", StrOf);
      var payload :- Optional(f, "payload", SchemaFrom);
      Some(Message(name, title, summary, description, contentType, payload))
  }

  /** Untagged: the `Reference` form is tried first, then an inline message. */
  function MessageRefFrom(j: Json): Option<MessageRef> {
    if j.JObj? && "$ref" in j.fields && j.fields["$ref"].JStr? then Some(Reference(j.fields["$ref"].s))
    else
      var m :- MessageFrom(j);
      Some(Inline(m))
  }

  function ChannelFrom(j: Json): Option<Channel> {
    if !j.JObj? then None
    else
      var address :- Optional(j.fields, "address", StrOf);
      var messages :- Optional(j.fields, "messages", j => MapOf(j, MessageRefFrom));
      Some(Channel(address, messages))
  }

  function ActionFrom(j: Json): Option<OperationAction> {
    if j == JStr("send") then Some(Send)
    else if j == JStr("receive") then Some(Receive)
    else None
  }

  function ChannelRefFrom(j: Json): Option<ChannelRef> {
    if !j.JObj? then None
    else
      var reference :- Required(j.fields, "$ref", StrOf);
      Some(ChannelRef(reference))
  }

  function OperationFrom(j: Json): Option<Operation> {
    if !j.JObj? then None
    else
      var action :- Required(j.fields, "action", ActionFrom);
      var channel :- Required(j.fields, "channel", ChannelRefFrom);
      var messages :- Optional(j.fields, "messages", j => SeqOf(j, MessageRefFrom));
      Some(Operation(action, channel, messages))
  }

  function ComponentsFrom(j: Json): Option<Components> {
    if !j.JObj? then None
    else
      var messages :- Optional(j.fields, "messages", j => MapOf(j, MessageFrom));
      var schemas :- Optional(j.fields, "schemas", j => MapOf(j, SchemaFrom));
      Some(Components(messages, schemas))
  }

  function SpecFrom(j: Json): Option<AsyncApiSpec> {
    if !j.JObj? then None
    else
      var f := j.fields;
      var asyncapi :- Required(f, "asyncapi", StrOf);
      var info :- Required(f, "info", InfoFrom);
      var servers :- Optional(f, "servers", j => MapOf(j, ServerFrom));
      var channels :- Optional(f, "channels", j => MapOf(j, ChannelFrom));
      var operations :- Optional(f, "operations", j => MapOf(j, OperationFrom));
      var components :- Optional(f, "components", ComponentsFrom);
      Some(AsyncApiSpec(asyncapi, info, servers, channels, operations, components))
  }

  // ---------------------------------------------------------------------------
  // Round trips: decoding what was encoded gives back the value, for every
  // document the types can hold.

  lemma AllSomeOfSome<T>(m: map<string, T>, d: map<string, Option<T>>)
    requires d.Keys == m.Keys && forall k | k in d :: d[k] == Some(m[k])
    ensures AllSome(d) == Some(m)
  {
    assert (map k | k in d :: d[k].value) == m;
  }

  lemma MapRoundTrip<T>(m: map<string, T>, enc: T -> Json, dec: Json -> Option<T>)
    requires forall k | k in m :: dec(enc(m[k])) == Some(m[k])
    ensures MapOf(MapJson(m, enc), dec) == Some(m)
  {
    var j := MapJson(m, enc);
    AllSomeOfSome(m, map k | k in j.fields :: dec(j.fields[k]));
  }

  lemma SeqRoundTrip<T>(s: seq<T>, enc: T -> Json, dec: Json -> Option<T>)
    requires forall i | 0 <= i < |s| :: dec(enc(s[i])) == Some(s[i])
    ensures SeqOf(SeqJson(s, enc), dec) == Some(s)
  {
    var j := SeqJson(s, enc);
    assert forall i | 0 <= i < |j.elems| :: j.elems[i] == enc(s[i]) && dec(j.elems[i]).Some?;
    var r := SeqOf(j, dec).value;
    assert |r| == |s|;
    forall i | 0 <= i < |s| ensures r[i] == s[i] {
      assert r[i] == dec(j.elems[i]).value;
    }
    assert r == s;
  }

  /** Reading back an optional field written with `skip_serializing_if`. */
  lemma ReadOptional<T>(f: map<string, Json>, k: string, v: Option<T>, enc: T -> Json, dec: Json -> Option<T>)
    requires v.None? ==> k !in f
    requires v.Some? ==> k in f && f[k] == enc(v.value) && f[k] != JNull && dec(f[k]) == Some(v.value)
    ensures Optional(f, k, dec) == Some(v)
  {
  }

  lemma InfoRoundTrip(i: Info)
    ensures InfoFrom(InfoJson(i)) == Some(i)
  {
  }

  lemma ServerRoundTrip(s: Server)
    ensures ServerFrom(ServerJson(s)) == Some(s)
  {
  }

  lemma {:induction false} SchemaRoundTrip(s: Schema)
    ensures SchemaFrom(SchemaJson(s)) == Some(s)
  {
    var j := SchemaJson(s);
    if s.properties.Properties? {
      var m := s.properties.entries;
      forall k | k in m ensures SchemaFrom(SchemaJson(m[k])) == Some(m[k]) {
        SchemaRoundTrip(m[k]);
      }
      PropertiesRoundTrip(j, m);
    } else {
      assert "properties" !in j.fields;
    }
    if s.required.Some? {
      SeqRoundTrip(s.required.value, StrJson, StrOf);
    }
    ReadOptional(j.fields, "type", s.schemaType, StrJson, StrOf);
    ReadOptional(j.fields, "required", s.required, xs => SeqJson(xs, StrJson), j => SeqOf(j, StrOf));
    ReadOptional(j.fields, "description", s.description, StrJson, StrOf);
    SchemaFromParts(j, s);
  }

  lemma PropertiesRoundTrip(j: Json, m: map<string, Schema>)
    requires forall k | k in m :: SchemaFrom(SchemaJson(m[k])) == Some(m[k])
    requires j.JObj? && "properties" in j.fields && j.fields["properties"] == JObj(map k | k in m :: SchemaJson(m[k]))
    ensures PropertiesFrom(j) == Some(Properties(m))
  {
    var p := j.fields["properties"].fields;
    forall k | k in p ensures k in m && SchemaFrom(p[k]) == Some(m[k]) {
      assert p[k] == SchemaJson(m[k]);
    }
    AllSomeOfSome(m, map k | k in p :: SchemaFrom(p[k]));
  }

  lemma SchemaFromParts(j: Json, s: Schema)
    requires j.JObj?
    requires Optional(j.fields, "type", StrOf) == Some(s.schemaType)
    requires PropertiesFrom(j) == Some(s.properties)
    requires Optional(j.fields, "required", j => SeqOf(j, StrOf)) == Some(s.required)
    requires Optional(j.fields, "description", StrOf) == Some(s.description)
    ensures SchemaFrom(j) == Some(s)
  {
  }

  lemma MessageRoundTrip(m: Message)
    ensures MessageFrom(MessageJson(m)) == Some(m)
  {
    var f := MessageJson(m).fields;
    if m.payload.Some? {
      SchemaRoundTrip(m.payload.value);
    }
    ReadOptional(f, "name", m.name, StrJson, StrOf);
    ReadOptional(f, "title", m.title, StrJson, StrOf);
    ReadOptional(f, "summary", m.summary, StrJson, StrOf);
    ReadOptional(f, "description", m.description, StrJson, StrOf);
    ReadOptional(f, "contentType", m.contentType, StrJson, StrOf);
    ReadOptional(f, "payload", m.payload, SchemaJson, SchemaFrom);
  }

  /** An inline message is never read back as a reference, and a reference is
      never read back as a message. */
  lemma MessageRefRoundTrip(r: MessageRef)
    ensures MessageRefFrom(MessageRefJson(r)) == Some(r)
  {
    if r.Inline? {
      MessageRoundTrip(r.message);
    }
  }

  lemma ChannelRoundTrip(c: Channel)
    ensures ChannelFrom(ChannelJson(c)) == Some(c)
  {
    if c.messages.Some? {
      var m := c.messages.value;
      forall k | k in m ensures MessageRefFrom(MessageRefJson(m[k])) == Some(m[k]) {
        MessageRefRoundTrip(m[k]);
      }
      MapRoundTrip(m, MessageRefJson, MessageRefFrom);
    }
  }

  lemma OperationRoundTrip(o: Operation)
    ensures OperationFrom(OperationJson(o)) == Some(o)
  {
    if o.messages.Some? {
      var s := o.messages.value;
      forall i | 0 <= i < |s| ensures MessageRefFrom(MessageRefJson(s[i])) == Some(s[i]) {
        MessageRefRoundTrip(s[i]);
      }
      SeqRoundTrip(s, MessageRefJson, MessageRefFrom);
    }
    assert ActionFrom(ActionJson(o.action)) == Some(o.action);
  }

  lemma ComponentsRoundTrip(c: Components)
    ensures ComponentsFrom(ComponentsJson(c)) == Some(c)
  {
    if c.messages.Some? {
      var m := c.messages.value;
      forall k | k in m ensures MessageFrom(MessageJson(m[k])) == Some(m[k]) {
        MessageRoundTrip(m[k]);
      }
      MapRoundTrip(m, MessageJson, MessageFrom);
    }
    if c.schemas.Some? {
      var m := c.schemas.value;
      forall k | k in m ensures SchemaFrom(SchemaJson(m[k])) == Some(m[k]) {
        SchemaRoundTrip(m[k]);
      }
      MapRoundTrip(m, SchemaJson, SchemaFrom);
    }
  }

  /** Serialising a document and reading it back gives the same document. */
  lemma SpecRoundTrip(d: AsyncApiSpec)
    ensures SpecFrom(SpecJson(d)) == Some(d)
  {
    var f := SpecJson(d).fields;
    InfoRoundTrip(d.info);
    if d.servers.Some? {
      var m := d.servers.value;
      forall k | k in m ensures ServerFrom(ServerJson(m[k])) == Some(m[k]) {
        ServerRoundTrip(m[k]);
      }
      MapRoundTrip(m, ServerJson, ServerFrom);
    }
    if d.channels.Some? {
      var m := d.channels.value;
      forall k | k in m ensures ChannelFrom(ChannelJson(m[k])) == Some(m[k]) {
        ChannelRoundTrip(m[k]);
      }
      MapRoundTrip(m, ChannelJson, ChannelFrom);
    }
    if d.operations.Some? {
      var m := d.operations.value;
      forall k | k in m ensures OperationFrom(OperationJson(m[k])) == Some(m[k]) {
        OperationRoundTrip(m[k]);
      }
      MapRoundTrip(m, OperationJson, OperationFrom);
    }
    if d.components.Some? {
      ComponentsRoundTrip(d.components.value);
    }
    ReadOptional(f, "servers", d.servers, m => MapJson(m, ServerJson), j => MapOf(j, ServerFrom));
    ReadOptional(f, "channels", d.channels, m => MapJson(m, ChannelJson), j => MapOf(j, ChannelFrom));
    ReadOptional(f, "operations", d.operations, m => MapJson(m, OperationJson), j => MapOf(j, OperationFrom));
    ReadOptional(f, "components", d.components, ComponentsJson, ComponentsFrom);
  }

  // ---------------------------------------------------------------------------
  // The unit tests of the models crate, for all values of their inputs.

  /** The default document serialises to `asyncapi: "3.0.0"` and the default
      info, with none of the optional sections. */
  lemma DefaultSpecJson()
    ensures SpecJson(DefaultSpec()) ==
      JObj(map["asyncapi" := JStr("3.0.0"), "info" := JObj(map["title" := JStr("API"), "version" := JStr("1.0.0")])])
  {
  }

  /** A document with only `asyncapi` and `info` reads back with those values
      and every optional section `None`; unknown keys are ignored. */
  lemma MinimalDocument(version: string, title: string, apiVersion: string, extra: map<string, Json>)
    requires extra.Keys !! {"asyncapi", "info", "servers", "channels", "operations", "components"}
    ensures SpecFrom(JObj(extra + map["asyncapi" := JStr(version),
                                      "info" := JObj(map["title" := JStr(title), "version" := JStr(apiVersion)])]))
         == Some(AsyncApiSpec(version, Info(title, apiVersion, None), None, None, None, None))
  {
  }

  /** The action is written as lowercase `"send"` or `"receive"`, and no other string reads as an action. */
  lemma ActionLowercase(a: OperationAction, j: Json)
    ensures ActionJson(a) == JStr(if a == Send then "send" else "receive")
    ensures ActionFrom(j).Some? <==> j == JStr("send") || j == JStr("receive")
  {
  }
}
