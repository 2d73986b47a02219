/// The metadata half of `#[derive(ToAsyncApiMessage)]`
/// (`asyncapi-rust-codegen/src/lib.rs`).
///
/// The macro collects one `MessageMeta` per enum variant (or one for a struct),
/// rejects unions, and emits an impl whose four functions return the message
/// names, their count, the serde tag field and the `Message` objects. The
/// generated functions return constants fixed at expansion time, so the
/// expansion is modelled by the values they return. The payload schema, which
/// the generated code obtains from `schema_for!(Self)`, is a parameter.
module Codegen {
  import opened Wrappers
  import opened Attrs
  import opened SerdeAttrs
  import opened AsyncApiAttrs
  import opened Models

  datatype Variant = Variant(ident: string, attrs: seq<Attr>)

  /** The shape of the annotated item; the macro does not look at fields. */
  datatype Data = Enum(variants: seq<Variant>) | Struct | Union

  datatype DeriveInput = DeriveInput(ident: string, attrs: seq<Attr>, data: Data)

  /** The macro's local `MessageMeta` record. */
  datatype MessageMeta = MessageMeta(
    name: string,
    summary: Option<string>,
    description: Option<string>,
    title: Option<string>,
    contentType: Option<string>)

  /** What the generated `asyncapi_message_names`, `asyncapi_message_count`,
      `asyncapi_tag_field` and `asyncapi_messages` return. */
  datatype Generated = Generated(
    messageNames: seq<string>,
    messageCount: nat,
    tagField: Option<string>,
    messages: seq<Message>)

  const UnionError := "ToAsyncApiMessage cannot be derived for unions"

  const DefaultContentType := "application/json"

  // ---------------------------------------------------------------------------
  // Specification

  /** A variant's message name: its serde rename, or else its identifier. */
  function MessageName(v: Variant): string {
    FirstValue(v.attrs, "rename").GetOr(v.ident)
  }

  /** The metadata record pushed for one message; `triggers_binary` is dropped. */
  function Collect(name: string, m: AsyncApiMeta): MessageMeta {
    MessageMeta(name, m.summary, m.description, m.title, m.contentType)
  }

  function VariantMeta(v: Variant): MessageMeta {
    Collect(MessageName(v), MetaOf(v.attrs))
  }

  /** One generated `Message`: the title falls back to the name and the content
      type to JSON; every message carries the type's whole schema. */
  function ToMessage(m: MessageMeta, payload: Schema): Message {
    Message(Some(m.name), Some(m.title.GetOr(m.name)), m.summary, m.description,
      Some(m.contentType.GetOr(DefaultContentType)), Some(payload))
  }

  /** The `quote!` expansion, as the values the generated functions return. */
  function Emit(metas: seq<MessageMeta>, tag: Option<string>, payload: Schema): Generated {
    Generated(
      seq(|metas|, i requires 0 <= i < |metas| => metas[i].name),
      |metas|,
      tag,
      seq(|metas|, i requires 0 <= i < |metas| => ToMessage(metas[i], payload)))
  }

  /** What the derive produces for `input`: generated functions, or the error for a union. */
  function Expand(input: DeriveInput, payload: Schema): Result<Generated, string> {
    var tag := FirstValue(input.attrs, "tag");
    match input.data
    case Enum(vs) => Success(Emit(seq(|vs|, i requires 0 <= i < |vs| => VariantMeta(vs[i])), tag, payload))
    case Struct => Success(Emit([Collect(input.ident, MetaOf(input.attrs))], tag, payload))
    case Union => Failure(UnionError)
  }

  /** The attributes message `i` takes its metadata from: the variant's own for
      an enum, the item's for a struct. */
  function MetaAttrs(input: DeriveInput, i: nat): seq<Attr>
    requires input.data.Enum? ==> i < |input.data.variants|
  {
    if input.data.Enum? then input.data.variants[i].attrs else input.attrs
  }

  // ---------------------------------------------------------------------------
  // The macro

  /** The loop over the enum's variants. */
  method CollectVariantMetas(variants: seq<Variant>) returns (metas: seq<MessageMeta>)
    ensures |metas| == |variants|
    ensures forall i :: 0 <= i < |variants| ==> metas[i] == VariantMeta(variants[i])
  {
    metas := [];
    for i := 0 to |variants|
      invariant |metas| == i
      invariant forall j :: 0 <= j < i ==> metas[j] == VariantMeta(variants[j])
    {
      var v := variants[i];
      var rename := ExtractSerdeRename(v.attrs);
      var messageName := rename.GetOr(v.ident);
      var meta := ExtractAsyncApiMeta(v.attrs);
      metas := metas + [Collect(messageName, meta)];
    }
  }

  /** `derive_to_asyncapi_message`. */
  method DeriveToAsyncApiMessage(input: DeriveInput, payload: Schema) returns (r: Result<Generated, string>)
    ensures r.Failure? <==> input.data.Union?
    ensures r == Expand(input, payload)
  {
    var tag := ExtractSerdeTag(input.attrs);
    var metas: seq<MessageMeta>;
    match input.data {
      case Enum(vs) =>
        metas := CollectVariantMetas(vs);
        assert metas == seq(|vs|, i requires 0 <= i < |vs| => VariantMeta(vs[i]));
      case Struct =>
        var meta := ExtractAsyncApiMeta(input.attrs);
        metas := [Collect(input.ident, meta)];
      case Union =>
        return Failure(UnionError);
    }
    r := Success(Emit(metas, tag, payload));
  }

  // ---------------------------------------------------------------------------
  // Properties

  /** Unions, and only unions, are rejected with the fixed message. Otherwise
      there is one message per variant (one for a struct), the count is the
      number of names, the i-th message is named by the i-th name, every
      message has a title and a content type and carries the payload, and the
      tag field is the item's own serde tag. */
  lemma ExpandShape(input: DeriveInput, payload: Schema)
    ensures Expand(input, payload).Failure? <==> input.data.Union?
    ensures Expand(input, payload).Failure? ==> Expand(input, payload).error == UnionError
    ensures Expand(input, payload).Success? ==>
      var g := Expand(input, payload).value;
      && g.messageCount == |g.messageNames| == |g.messages|
      && |g.messages| == (if input.data.Enum? then |input.data.variants| else 1)
      && g.tagField == FirstValue(input.attrs, "tag")
      && forall i :: 0 <= i < |g.messages| ==>
           && g.messages[i].name == Some(g.messageNames[i])
           && g.messages[i].title.Some?
           && g.messages[i].contentType.Some?
           && g.messages[i].payload == Some(payload)
  {
  }

  /** A variant's message name is the `rename` of its first `serde` attribute
      that yields one, and its identifier when none does; a struct's single message
      is named by the struct's identifier, whatever its attributes say. */
  lemma MessageNames(input: DeriveInput, payload: Schema)
    requires !input.data.Union?
    ensures var g := Expand(input, payload).value;
      input.data.Struct? ==> g.messageNames == [input.ident]
    ensures var g := Expand(input, payload).value;
      input.data.Enum? ==> forall i :: 0 <= i < |input.data.variants| ==>
        var v := input.data.variants[i];
        && ((forall j :: 0 <= j < |v.attrs| && IsIdent(v.attrs[j].path, "serde") ==> ValueIn(v.attrs[j], "rename").None?)
              ==> g.messageNames[i] == v.ident)
        && (FirstValue(v.attrs, "rename").Some? ==>
              exists j :: 0 <= j < |v.attrs| && IsIdent(v.attrs[j].path, "serde")
                && ValueIn(v.attrs[j], "rename") == Some(g.messageNames[i])
                && forall j' :: 0 <= j' < j && IsIdent(v.attrs[j'].path, "serde") ==> ValueIn(v.attrs[j'], "rename").None?)
  {
    if input.data.Enum? {
      var vs := input.data.variants;
      forall i | 0 <= i < |vs|
        ensures var v := vs[i];
          && ((forall j :: 0 <= j < |v.attrs| && IsIdent(v.attrs[j].path, "serde") ==> ValueIn(v.attrs[j], "rename").None?)
                ==> Expand(input, payload).value.messageNames[i] == v.ident)
          && (FirstValue(v.attrs, "rename").Some? ==>
                exists j :: 0 <= j < |v.attrs| && IsIdent(v.attrs[j].path, "serde")
                  && ValueIn(v.attrs[j], "rename") == Some(Expand(input, payload).value.messageNames[i])
                  && forall j' :: 0 <= j' < j && IsIdent(v.attrs[j'].path, "serde") ==> ValueIn(v.attrs[j'], "rename").None?)
      {
        FirstValueIsFirst(vs[i].attrs, "rename");
      }
    }
  }

  /** Message `i`'s summary, description, title and content type are the last
      literals of those keys that the walk reads in its own `asyncapi`
      attributes; a missing title becomes the message name and a missing
      content type becomes `application/json`. */
  lemma MessageMetadata(input: DeriveInput, payload: Schema, i: nat)
    requires !input.data.Union?
    requires i < |Expand(input, payload).value.messages|
    ensures var g := Expand(input, payload).value;
      var seen := Reached(MessageKeys, "asyncapi", MetaAttrs(input, i));
      && g.messages[i].summary == LastLit(seen, "summary")
      && g.messages[i].description == LastLit(seen, "description")
      && g.messages[i].title == Some(LastLit(seen, "title").GetOr(g.messageNames[i]))
      && g.messages[i].contentType == Some(LastLit(seen, "content_type").GetOr("application/json"))
  {
    MetaIsLastLiterals(MetaAttrs(input, i));
  }

  /** For an enum only the variants' `asyncapi` attributes matter: the item's
      own attributes affect the tag field and nothing else. */
  lemma EnumAttrsOnlyGiveTag(input: DeriveInput, attrs: seq<Attr>, payload: Schema)
    requires input.data.Enum?
    ensures var g := Expand(input, payload).value;
      Expand(input.(attrs := attrs), payload) == Success(g.(tagField := FirstValue(attrs, "tag")))
  {
  }

  /** `triggers_binary` is read but never used: adding `#[asyncapi(triggers_binary)]`
      to the struct, or to any variant, changes nothing in the expansion; in
      particular the content type is not switched away from JSON. */
  lemma TriggersBinaryIgnored(input: DeriveInput, payload: Schema, i: nat)
    requires input.data.Enum? ==> i < |input.data.variants|
    ensures var x := Attr(["asyncapi"], [Meta(["triggers_binary"], Flag)]);
      var input' := if input.data.Enum?
        then input.(data := Enum(input.data.variants[i := input.data.variants[i].(attrs := input.data.variants[i].attrs + [x])]))
        else input.(attrs := input.attrs + [x]);
      Expand(input', payload) == Expand(input, payload)
  {
    var x := Attr(["asyncapi"], [Meta(["triggers_binary"], Flag)]);
    if input.data.Enum? {
      var vs := input.data.variants;
      var ws := vs[i := vs[i].(attrs := vs[i].attrs + [x])];
      VariantIgnoresTriggersBinary(vs[i]);
      assert seq(|ws|, j requires 0 <= j < |ws| => VariantMeta(ws[j]))
          == seq(|vs|, j requires 0 <= j < |vs| => VariantMeta(vs[j]));
    } else if input.data.Struct? {
      TriggersBinaryOnlySetsFlag(input.attrs);
      NonSerdeKeepsFirst(input.attrs, x, "tag");
    }
  }

  lemma VariantIgnoresTriggersBinary(v: Variant)
    ensures VariantMeta(v.(attrs := v.attrs + [Attr(["asyncapi"], [Meta(["triggers_binary"], Flag)])])) == VariantMeta(v)
  {
    var x := Attr(["asyncapi"], [Meta(["triggers_binary"], Flag)]);
    TriggersBinaryOnlySetsFlag(v.attrs);
    NonSerdeKeepsFirst(v.attrs, x, "rename");
  }

  /** An attribute with another path appended after the others leaves every
      serde reading as it was. */
  lemma {:induction false} NonSerdeKeepsFirst(attrs: seq<Attr>, x: Attr, key: string)
    requires !IsIdent(x.path, "serde")
    ensures FirstValue(attrs + [x], key) == FirstValue(attrs, key)
  {
    if attrs == [] {
      assert FirstValue([x][1..], key) == None;
    } else {
      assert (attrs + [x])[1..] == attrs[1..] + [x];
      NonSerdeKeepsFirst(attrs[1..], x, key);
    }
  }
}
