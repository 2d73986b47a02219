/// `asyncapi_spec_attrs.rs`: spec-level metadata read from the attributes of the
/// type that describes a whole API: the `#[asyncapi(...)]` header keys, and one
/// record per `#[asyncapi_server]`, `#[asyncapi_channel]` and
/// `#[asyncapi_operation]` block, plus the identifiers listed in
/// `#[asyncapi_messages(...)]`.
module AsyncApiSpecAttrs {
  import opened Wrappers
  import opened Attrs

  datatype ServerMeta = ServerMeta(name: string, host: string, protocol: string, description: Option<string>)

  datatype ChannelMeta = ChannelMeta(name: string, address: Option<string>, description: Option<string>)

  /** `action` is kept as written; nothing checks it against send/receive here. */
  datatype OperationMeta = OperationMeta(name: string, action: string, channel: string, description: Option<string>)

  datatype AsyncApiSpecMeta = AsyncApiSpecMeta(
    title: Option<string>,
    version: Option<string>,
    description: Option<string>,
    servers: seq<ServerMeta>,
    channels: seq<ChannelMeta>,
    operations: seq<OperationMeta>,
    messageTypes: seq<string>)

  /** `AsyncApiSpecMeta::default()`. */
  const EmptySpecMeta := AsyncApiSpecMeta(None, None, None, [], [], [], [])

  const SpecKeys := Keys({"title", "version", "description"}, {})
  const ServerKeys := Keys({"name", "host", "protocol", "description"}, {})
  const ChannelKeys := Keys({"name", "address", "description"}, {})
  const OperationKeys := Keys({"name", "action", "channel", "description"}, {})

  /** `extract_server`: the walk into fresh locals, then `Some` only if name, host
      and protocol were all read (the three `?`). A record exists exactly when
      all three were read; its fields are the literals read, verbatim, and the
      description stays `None` unless given. */
  function ExtractServer(a: Attr): (r: Option<ServerMeta>)
    ensures var seen := Reach(ServerKeys, a.items);
      && (r.Some? <==> LastLit(seen, "name").Some? && LastLit(seen, "host").Some? && LastLit(seen, "protocol").Some?)
      && (r.Some? ==> r.value == ServerMeta(LastLit(seen, "name").value, LastLit(seen, "host").value,
                                            LastLit(seen, "protocol").value, LastLit(seen, "description")))
  {
    WalkReadsReach(ServerKeys, a.items, NoFields);
    var f := ReadAttr(ServerKeys, a, NoFields).strs;
    assert Get(f, "name") == LastLit(Reach(ServerKeys, a.items), "name").Or(None);
    assert Get(f, "host") == LastLit(Reach(ServerKeys, a.items), "host").Or(None);
    assert Get(f, "protocol") == LastLit(Reach(ServerKeys, a.items), "protocol").Or(None);
    assert Get(f, "description") == LastLit(Reach(ServerKeys, a.items), "description").Or(None);
    var name :- Get(f, "name");
    var host :- Get(f, "host");
    var protocol :- Get(f, "protocol");
    Some(ServerMeta(name, host, protocol, Get(f, "description")))
  }

  /** `extract_channel`: `Some` exactly when a name was read; address and
      description are the literals read, or `None`. */
  function ExtractChannel(a: Attr): (r: Option<ChannelMeta>)
    ensures var seen := Reach(ChannelKeys, a.items);
      && (r.Some? <==> LastLit(seen, "name").Some?)
      && (r.Some? ==> r.value == ChannelMeta(LastLit(seen, "name").value, LastLit(seen, "address"),
                                             LastLit(seen, "description")))
  {
    WalkReadsReach(ChannelKeys, a.items, NoFields);
    var f := ReadAttr(ChannelKeys, a, NoFields).strs;
    assert Get(f, "name") == LastLit(Reach(ChannelKeys, a.items), "name").Or(None);
    assert Get(f, "address") == LastLit(Reach(ChannelKeys, a.items), "address").Or(None);
    assert Get(f, "description") == LastLit(Reach(ChannelKeys, a.items), "description").Or(None);
    var name :- Get(f, "name");
    Some(ChannelMeta(name, Get(f, "address"), Get(f, "description")))
  }

  /** `extract_operation`: `Some` exactly when name, action and channel were all
      read; the action is whatever literal was written. */
  function ExtractOperation(a: Attr): (r: Option<OperationMeta>)
    ensures var seen := Reach(OperationKeys, a.items);
      && (r.Some? <==> LastLit(seen, "name").Some? && LastLit(seen, "action").Some? && LastLit(seen, "channel").Some?)
      && (r.Some? ==> r.value == OperationMeta(LastLit(seen, "name").value, LastLit(seen, "action").value,
                                               LastLit(seen, "channel").value, LastLit(seen, "description")))
  {
    WalkReadsReach(OperationKeys, a.items, NoFields);
    var f := ReadAttr(OperationKeys, a, NoFields).strs;
    assert Get(f, "name") == LastLit(Reach(OperationKeys, a.items), "name").Or(None);
    assert Get(f, "action") == LastLit(Reach(OperationKeys, a.items), "action").Or(None);
    assert Get(f, "channel") == LastLit(Reach(OperationKeys, a.items), "channel").Or(None);
    assert Get(f, "description") == LastLit(Reach(OperationKeys, a.items), "description").Or(None);
    var name :- Get(f, "name");
    var action :- Get(f, "action");
    var channel :- Get(f, "channel");
    Some(OperationMeta(name, action, channel, Get(f, "description")))
  }

  /** The item is an identifier standing alone between commas. */
  predicate IsLoneIdent(it: Item) {
    it.Meta? && |it.path| == 1 && it.arg.Flag?
  }

  /** `extract_message_types`: syn's comma-separated identifier list, which fails
      as a whole at the first item that is not a lone identifier. It parses
      exactly when every item is a lone identifier, and then lists them in order. */
  function ExtractMessageTypes(items: seq<Item>): (r: Result<seq<string>, string>)
    ensures r.Success? <==> forall i :: 0 <= i < |items| ==> IsLoneIdent(items[i])
    ensures r.Success? ==> |r.value| == |items| && forall i :: 0 <= i < |items| ==> r.value[i] == items[i].path[0]
  {
    if items == [] then Success([])
    else if IsLoneIdent(items[0]) then
      var rest :- ExtractMessageTypes(items[1..]);
      assert forall i :: 0 < i < |items| ==> items[i] == items[1..][i - 1];
      Success([items[0].path[0]] + rest)
    else Failure("expected identifier")
  }

  /** What one attribute adds to the four lists. */
  function Contribution(a: Attr): AsyncApiSpecMeta {
    if IsIdent(a.path, "asyncapi_server") then
      EmptySpecMeta.(servers := if ExtractServer(a).Some? then [ExtractServer(a).value] else [])
    else if IsIdent(a.path, "asyncapi_channel") then
      EmptySpecMeta.(channels := if ExtractChannel(a).Some? then [ExtractChannel(a).value] else [])
    else if IsIdent(a.path, "asyncapi_operation") then
      EmptySpecMeta.(operations := if ExtractOperation(a).Some? then [ExtractOperation(a).value] else [])
    else if IsIdent(a.path, "asyncapi_messages") then
      EmptySpecMeta.(messageTypes := match ExtractMessageTypes(a.items) case Success(t) => t case Failure(_) => [])
    else EmptySpecMeta
  }

  /** `m`'s lists followed by `n`'s; the header is `m`'s. */
  function Join(m: AsyncApiSpecMeta, n: AsyncApiSpecMeta): AsyncApiSpecMeta {
    m.(servers := m.servers + n.servers, channels := m.channels + n.channels,
       operations := m.operations + n.operations, messageTypes := m.messageTypes + n.messageTypes)
  }

  function Lists(attrs: seq<Attr>): AsyncApiSpecMeta
    decreases |attrs|
  {
    if attrs == [] then EmptySpecMeta
    else Join(Lists(attrs[..|attrs| - 1]), Contribution(attrs[|attrs| - 1]))
  }

  /** What `extract_asyncapi_spec_meta` returns for `attrs`. */
  function SpecMetaOf(attrs: seq<Attr>): AsyncApiSpecMeta {
    var header := ReadAll(SpecKeys, "asyncapi", attrs, NoFields).strs;
    Lists(attrs).(title := Get(header, "title"), version := Get(header, "version"),
                  description := Get(header, "description"))
  }

  /** `extract_asyncapi_spec_meta`. */
  method ExtractAsyncApiSpecMeta(attrs: seq<Attr>) returns (meta: AsyncApiSpecMeta)
    ensures meta == SpecMetaOf(attrs)
  {
    var header := NoFields;
    meta := EmptySpecMeta;
    for i := 0 to |attrs|
      invariant header == ReadAll(SpecKeys, "asyncapi", attrs[..i], NoFields)
      invariant meta == Lists(attrs[..i])
    {
      var a := attrs[i];
      assert attrs[..i + 1][..i] == attrs[..i];
      if IsIdent(a.path, "asyncapi") {
        header := ReadAttr(SpecKeys, a, header);
      } else if IsIdent(a.path, "asyncapi_server") {
        var server := ExtractServer(a);
        if server.Some? {
          meta := meta.(servers := meta.servers + [server.value]);
        }
      } else if IsIdent(a.path, "asyncapi_channel") {
        var channel := ExtractChannel(a);
        if channel.Some? {
          meta := meta.(channels := meta.channels + [channel.value]);
        }
      } else if IsIdent(a.path, "asyncapi_operation") {
        var operation := ExtractOperation(a);
        if operation.Some? {
          meta := meta.(operations := meta.operations + [operation.value]);
        }
      } else if IsIdent(a.path, "asyncapi_messages") {
        var types := ExtractMessageTypes(a.items);
        if types.Success? {
          meta := meta.(messageTypes := meta.messageTypes + types.value);
        }
      }
    }
    assert attrs[..|attrs|] == attrs;
    meta := meta.(title := Get(header.strs, "title"), version := Get(header.strs, "version"),
                  description := Get(header.strs, "description"));
  }

  // ---------------------------------------------------------------------------
  // Properties

  /** Title, version and description each hold the last literal written for them
      among the items the closure sees in the `asyncapi` attributes, and `None`
      if there is none. */
  lemma HeaderIsLastLiterals(attrs: seq<Attr>)
    ensures var seen := Reached(SpecKeys, "asyncapi", attrs);
      && SpecMetaOf(attrs).title == LastLit(seen, "title")
      && SpecMetaOf(attrs).version == LastLit(seen, "version")
      && SpecMetaOf(attrs).description == LastLit(seen, "description")
  {
    ReadAllReadsReached(SpecKeys, "asyncapi", attrs, NoFields);
    var r := ReadAll(SpecKeys, "asyncapi", attrs, NoFields);
    assert Get(r.strs, "title") == LastLit(Reached(SpecKeys, "asyncapi", attrs), "title").Or(None);
    assert Get(r.strs, "version") == LastLit(Reached(SpecKeys, "asyncapi", attrs), "version").Or(None);
    assert Get(r.strs, "description") == LastLit(Reached(SpecKeys, "asyncapi", attrs), "description").Or(None);
  }

  predicate Recognised(a: Attr) {
    IsIdent(a.path, "asyncapi") || IsIdent(a.path, "asyncapi_server") || IsIdent(a.path, "asyncapi_channel")
    || IsIdent(a.path, "asyncapi_operation") || IsIdent(a.path, "asyncapi_messages")
  }

  /** With no recognised attribute the header is all `None` and the lists are empty. */
  lemma {:induction false} NothingRecognisedIsEmpty(attrs: seq<Attr>)
    requires forall i :: 0 <= i < |attrs| ==> !Recognised(attrs[i])
    ensures SpecMetaOf(attrs) == EmptySpecMeta
    decreases |attrs|
  {
    if attrs != [] {
      var init := attrs[..|attrs| - 1];
      NothingRecognisedIsEmpty(init);
      assert Contribution(attrs[|attrs| - 1]) == EmptySpecMeta;
      assert ReadAll(SpecKeys, "asyncapi", attrs, NoFields) == ReadAll(SpecKeys, "asyncapi", init, NoFields);
    }
  }

  /** Records are appended in attribute order: the lists for `a + b` are those for
      `a` followed by those for `b`, and `message_types` is the in-order
      concatenation of every list that parses. */
  lemma ListsAppend(a: seq<Attr>, b: seq<Attr>)
    ensures SpecMetaOf(a + b).servers == SpecMetaOf(a).servers + SpecMetaOf(b).servers
    ensures SpecMetaOf(a + b).channels == SpecMetaOf(a).channels + SpecMetaOf(b).channels
    ensures SpecMetaOf(a + b).operations == SpecMetaOf(a).operations + SpecMetaOf(b).operations
    ensures SpecMetaOf(a + b).messageTypes == SpecMetaOf(a).messageTypes + SpecMetaOf(b).messageTypes
  {
    JoinLists(a, b);
  }

  lemma {:induction false} JoinLists(a: seq<Attr>, b: seq<Attr>)
    ensures Lists(a + b) == Join(Lists(a), Lists(b))
    decreases |b|
  {
    if b == [] {
      assert a + b == a;
      JoinEmpty(Lists(a));
    } else {
      var init := b[..|b| - 1];
      assert (a + b)[..|a + b| - 1] == a + init;
      assert (a + b)[|a + b| - 1] == b[|b| - 1];
      JoinLists(a, init);
      JoinAssoc(Lists(a), Lists(init), Contribution(b[|b| - 1]));
    }
  }

  lemma JoinEmpty(x: AsyncApiSpecMeta)
    ensures Join(x, EmptySpecMeta) == x
  {
  }

  lemma JoinAssoc(x: AsyncApiSpecMeta, y: AsyncApiSpecMeta, z: AsyncApiSpecMeta)
    ensures Join(Join(x, y), z) == Join(x, Join(y, z))
  {
  }

  /** A recognised key whose value is not a bare string literal ends the block:
      the result is what the items before it give, plus the literal the value
      starts with when it starts with one, whatever follows. */
  lemma ServerStopsAtNonString(p: Path, pre: seq<Item>, k: string, arg: Arg, post: seq<Item>)
    requires forall i :: 0 <= i < |pre| ==> !Halts(ServerKeys, pre[i])
    requires k in ServerKeys.strs && !arg.Lit?
    ensures ExtractServer(Attr(p, pre + [Meta([k], arg)] + post))
         == ExtractServer(Attr(p, pre + (if arg.LitThen? then [Meta([k], Lit(arg.s))] else [])))
  {
    HaltKeepsEarlier(ServerKeys, pre, Meta([k], arg), post, NoFields);
    if arg.LitThen? {
      WalkAppend(ServerKeys, pre, [Meta([k], Lit(arg.s))], NoFields);
    } else {
      assert pre + [] == pre;
    }
  }
}
