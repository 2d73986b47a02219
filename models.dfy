/// `asyncapi-rust-models/src/lib.rs`: the AsyncAPI 3.0 document types the
/// generated code fills in. Maps are keyed by name; `HashMap` iteration order
/// has no counterpart here.
module Models {
  import opened Wrappers

  /** The root document. */
  datatype AsyncApiSpec = AsyncApiSpec(
    asyncapi: string,
    info: Info,
    servers: Option<map<string, Server>>,
    channels: Option<map<string, Channel>>,
    operations: Option<map<string, Operation>>,
    components: Option<Components>)

  datatype Info = Info(title: string, version: string, description: Option<string>)

  datatype Server = Server(host: string, protocol: string, description: Option<string>)

  datatype Channel = Channel(address: Option<string>, messages: Option<map<string, MessageRef>>)

  /** A `$ref` to a component message, or the message itself. */
  datatype MessageRef = Reference(reference: string) | Inline(message: Message)

  datatype Message = Message(
    name: Option<string>,
    title: Option<string>,
    summary: Option<string>,
    description: Option<string>,
    contentType: Option<string>,
    payload: Option<Schema>)

  datatype Operation = Operation(action: OperationAction, channel: ChannelRef, messages: Option<seq<MessageRef>>)

  datatype OperationAction = Send | Receive

  datatype ChannelRef = ChannelRef(reference: string)

  datatype Components = Components(messages: Option<map<string, Message>>, schemas: Option<map<string, Schema>>)

  /** The simplified JSON Schema object. */
  datatype Schema = Schema(
    schemaType: Option<string>,
    properties: Properties,
    required: Option<seq<string>>,
    description: Option<string>)

  /** `Option<HashMap<String, Schema>>`, spelled out so that a property schema
      is known to be smaller than the schema holding it. */
  datatype Properties = NoProperties | Properties(entries: map<string, Schema>)

  /** `impl Default for AsyncApiSpec`. */
  function DefaultSpec(): AsyncApiSpec {
    AsyncApiSpec("3.0.0", Info("API", "1.0.0", None), None, None, None, None)
  }
}
