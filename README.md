# asyncapi-rust: attribute readers, message derive and document model in Dafny

This project models the compile-time half of asyncapi-rust and proves properties
of the model:

- `serde_attrs.dfy`: the serde attribute readers. They find a variant's `rename`
  and an enum's `tag` by a first-attribute-wins rule.
- `asyncapi_attrs.dfy`: the message metadata reader for `#[asyncapi(...)]`. It
  reads summary, description, title, content type and the `triggers_binary` flag.
- `asyncapi_spec_attrs.dfy`: the spec-level metadata reader. It reads the
  `#[asyncapi]` header keys, the server, channel and operation blocks, and the
  `#[asyncapi_messages(...)]` identifier lists.
- `codegen.dfy`: the metadata half of `#[derive(ToAsyncApiMessage)]`. This is the
  list of message names, the count, the tag field and the generated `Message`
  values with their defaults.
- `models.dfy` and `serialization.dfy`: the AsyncAPI 3.0 document types and
  `AsyncApiSpec::default()`. The serde mapping is modelled as an encoder into a
  JSON tree and the decoder serde derives for it.

`attrs.dfy` holds what all the readers share: a model of syn's
`parse_nested_meta` walk over the items of one attribute. Each reader's closure
is described by the set of keys it takes as a string literal and the set of
keys it takes as a flag. The walk stops at the first item that fails. An item
fails when it is not a `path` or `path = ...` meta. It also fails when a
recognised key's value is not a string literal alone. If that value starts with
a string literal, the literal is assigned before the walk stops. It also fails when an
unrecognised key (or a flag key) is followed by anything but `,`. In that last
case the closure returned `Ok` without consuming a value, so syn's comma check
fails. Everything read before that item is kept, because each reader discards
the walk's error. The properties are stated against a reference description:
the items reached before the stop (`Reach`, `Reached`), the last literal
written for a key among them (`LastLit`), and whether a key is mentioned at all
(`Mentions`).

Each imperative reader is a `method` with the source's loop and invariants. Its
`ensures` ties the result to a specification function. The lemmas prove what
that function promises. `wrappers.dfy` holds `Option` and `Result`.

## Model

| member | source | states |
|---|---|---|
| Attrs.ReadItem | asyncapi-rust-codegen/src/asyncapi_attrs.rs:24-46 | One closure call followed by syn's comma check. It stops the walk exactly when the item ends it by the reference rule `Halts`. It assigns only the closure's own string keys, and it only adds flags the closure knows. |
| Attrs.Walk | asyncapi-rust-codegen/src/asyncapi_attrs.rs:24-46 | The walk over one attribute's items assigns only the closure's own string keys, and it only adds flags the closure knows. A flag once set stays set. |
| Attrs.WalkReadsReach | asyncapi-rust-codegen/src/asyncapi_attrs.rs:24-46 | One attribute's walk leaves every string key at the last literal written for it among the items reached before the first failing item; other keys keep their earlier value. A flag is set exactly when it was set before or is mentioned among those items. The walk reports an error exactly when some item fails. |
| Attrs.ReadAllReadsReached | asyncapi-rust-codegen/src/asyncapi_attrs.rs:19-47 | Walking every attribute with the given path into one state is the same as one walk over the reached items of all of them, in order. A key repeated within or across attributes keeps the last value read. |
| Attrs.WalkAppend | asyncapi-rust-codegen/src/asyncapi_spec_attrs.rs:111-130 | Items that do not end the walk hand what they assigned on to the items after them. |
| Attrs.HaltKeepsEarlier | asyncapi-rust-codegen/src/asyncapi_spec_attrs.rs:111-130 | Once an item fails, nothing after it is read. The result is that one item read into what the items before it assigned. |
| Attrs.ReachedAppend | asyncapi-rust-codegen/src/asyncapi_attrs.rs:19-23 | The reached items of `a + b` are those of `a` followed by those of `b`, because each attribute starts its own walk. |
| Attrs.ReadValueIsWritten | asyncapi-rust-codegen/src/serde_attrs.rs:14-19 | A value read for a key is the string literal that a `key = "..."` item of the attribute starts with, copied verbatim. |
| SerdeAttrs.ExtractSerdeValue | asyncapi-rust-codegen/src/serde_attrs.rs:7-27 | The shared loop: skip non-`serde` attributes, walk each `serde` attribute into a fresh `None`, return the first value found. Its result equals `FirstValue`. |
| SerdeAttrs.ExtractSerdeRename | asyncapi-rust-codegen/src/serde_attrs.rs:6-28 | `extract_serde_rename` is the first-attribute-wins reading of `rename`. |
| SerdeAttrs.ExtractSerdeTag | asyncapi-rust-codegen/src/serde_attrs.rs:31-53 | `extract_serde_tag` is the first-attribute-wins reading of `tag`. |
| SerdeAttrs.FirstValueIsFirst | asyncapi-rust-codegen/src/serde_attrs.rs:7-27 | The result is `None` if and only if no `serde` attribute yields a value. Otherwise it is the value of some `serde` attribute, and no earlier `serde` attribute yields one. |
| SerdeAttrs.LaterAttrsIgnored | asyncapi-rust-codegen/src/serde_attrs.rs:23-25 | Once a value is found, attributes appended after it change nothing. |
| SerdeAttrs.ValueInIsLastLiteral | asyncapi-rust-codegen/src/serde_attrs.rs:12-21 | Within one serde attribute, a repeated key keeps the last literal the walk reaches. That literal is the one a `key = "..."` item of the attribute starts with, verbatim. |
| SerdeAttrs.NoValueWithoutKey | asyncapi-rust-codegen/src/serde_attrs.rs:90-97 | With no `key = ...` item in any attribute the result is `None`. So a serde attribute carrying only `rename` has no tag. |
| SerdeAttrs.TagAfterOtherOption | asyncapi-rust-codegen/src/serde_attrs.rs:39-46 | A `tag` written after another `key = value` option in the same attribute is not seen. The same tag written first is seen. |
| AsyncApiAttrs.ExtractAsyncApiMeta | asyncapi-rust-codegen/src/asyncapi_attrs.rs:16-50 | The loop over attributes updates one `meta` from its default. The result equals `MetaOf(attrs)`. |
| AsyncApiAttrs.MetaIsLastLiterals | asyncapi-rust-codegen/src/asyncapi_attrs.rs:24-46 | Each of summary, description, title and content type is the last literal written for its own key among the reached items, or `None`. `triggers_binary` holds exactly when that flag is mentioned. |
| AsyncApiAttrs.NoAsyncApiAttrIsDefault | asyncapi-rust-codegen/src/asyncapi_attrs.rs:17-22 | Without an `asyncapi` attribute the result is the default: four `None` and `false`. |
| AsyncApiAttrs.OtherAttrIgnored | asyncapi-rust-codegen/src/asyncapi_attrs.rs:19-22 | An attribute with another path can be inserted anywhere without effect. |
| AsyncApiAttrs.TriggersBinaryStays | asyncapi-rust-codegen/src/asyncapi_attrs.rs:41-44 | Once `triggers_binary` is true, more attributes never reset it. |
| AsyncApiAttrs.TriggersBinaryOnlySetsFlag | asyncapi-rust-codegen/src/asyncapi_attrs.rs:106-115 | Appending `#[asyncapi(triggers_binary)]` sets the flag and changes no other field, so the content type stays as it was. |
| AsyncApiAttrs.LiteralThenMoreTokens | asyncapi-rust-codegen/src/asyncapi_attrs.rs:25-28 | In `summary = "a" + "b"` the summary `"a"` is stored. The tokens left after it then end the walk, so a later key in the same attribute is not read. |
| AsyncApiAttrs.LeadingColonNotRead | asyncapi-rust-codegen/src/asyncapi_attrs.rs:25-45 | `::summary = "x"` is not the `summary` key. It is not read, and the value left after it ends the walk. |
| AsyncApiSpecAttrs.ExtractAsyncApiSpecMeta | asyncapi-rust-codegen/src/asyncapi_spec_attrs.rs:46-92 | The loop dispatches on the attribute path. It walks `asyncapi` attributes into the header, pushes each server, channel and operation record that is built, and extends the message types with each list that parses. The result equals `SpecMetaOf(attrs)`. |
| AsyncApiSpecAttrs.HeaderIsLastLiterals | asyncapi-rust-codegen/src/asyncapi_spec_attrs.rs:49-67 | Title, version and description each hold the last literal read for them across the `asyncapi` attributes, or `None`. |
| AsyncApiSpecAttrs.NothingRecognisedIsEmpty | asyncapi-rust-codegen/src/asyncapi_spec_attrs.rs:46-91 | With no recognised attribute the header is all `None` and all four lists are empty. |
| AsyncApiSpecAttrs.ListsAppend | asyncapi-rust-codegen/src/asyncapi_spec_attrs.rs:68-88 | The servers, channels, operations and message types for `a + b` are those for `a` followed by those for `b`. Records are kept in attribute order. |
| AsyncApiSpecAttrs.ExtractServer | asyncapi-rust-codegen/src/asyncapi_spec_attrs.rs:105-139 | A server block gives a record exactly when name, host and protocol were all read. The record's fields are the literals read, and the description is `None` unless given. |
| AsyncApiSpecAttrs.ExtractChannel | asyncapi-rust-codegen/src/asyncapi_spec_attrs.rs:142-170 | A channel block gives a record exactly when a name was read. Address and description are the literals read, or `None`. |
| AsyncApiSpecAttrs.ExtractOperation | asyncapi-rust-codegen/src/asyncapi_spec_attrs.rs:173-207 | An operation block gives a record exactly when name, action and channel were all read. The action is whatever literal was written. |
| AsyncApiSpecAttrs.ServerStopsAtNonString | asyncapi-rust-codegen/src/asyncapi_spec_attrs.rs:111-130 | A recognised key whose value is not a bare string literal ends the block. The result is what the items before it give, plus the literal the value starts with when it starts with one, whatever follows. |
| AsyncApiSpecAttrs.ExtractMessageTypes | asyncapi-rust-codegen/src/asyncapi_spec_attrs.rs:95-102 | An identifier list parses exactly when every item is a lone identifier. It then yields those identifiers in order. |
| Codegen.CollectVariantMetas | asyncapi-rust-codegen/src/lib.rs:53-77 | The variant loop gives one record per variant, in order. Each record is named by the variant's serde rename or else its identifier, and carries that variant's asyncapi metadata. |
| Codegen.DeriveToAsyncApiMessage | asyncapi-rust-codegen/src/lib.rs:36-189 | The derive fails exactly for unions. Otherwise its output equals `Expand(input, payload)`. |
| Codegen.ExpandShape | asyncapi-rust-codegen/src/lib.rs:53-183 | Only unions are rejected, with the fixed message. Otherwise there is one message per variant, or one for a struct. The count equals the number of names. Message `i` is named by name `i`, always has a title and a content type, and carries the payload. The tag field is the item's own serde tag. |
| Codegen.MessageNames | asyncapi-rust-codegen/src/lib.rs:57-88 | A variant's name is its identifier when no `serde` attribute yields a `rename`. Otherwise it is the rename of the first `serde` attribute that yields one; no earlier `serde` attribute yields a rename. A struct's single message is named by the struct's identifier. |
| Codegen.MessageMetadata | asyncapi-rust-codegen/src/lib.rs:102-130 | Summary and description are the last literals read from the message's own `asyncapi` attributes. The title is that, or else the message name. The content type is that, or else `application/json`. |
| Codegen.EnumAttrsOnlyGiveTag | asyncapi-rust-codegen/src/lib.rs:41-76 | For an enum, the item's own attributes affect only the tag field. |
| Codegen.TriggersBinaryIgnored | asyncapi-rust-codegen/src/lib.rs:124-130 | Adding `#[asyncapi(triggers_binary)]` to a struct or to any variant leaves the whole expansion unchanged. In particular the content type stays JSON. |
| Codegen.VariantIgnoresTriggersBinary | asyncapi-rust-codegen/src/lib.rs:64-73 | Adding `#[asyncapi(triggers_binary)]` to a variant leaves its message record unchanged. |
| Codegen.NonSerdeKeepsFirst | asyncapi-rust-codegen/src/serde_attrs.rs:32-35 | Appending an attribute with another path leaves every serde reading unchanged. |
| Serialization.InfoJson | asyncapi-rust-models/src/lib.rs:40-52 | An info object has `title` and `version`, plus `description` only when it is set. |
| Serialization.ServerJson | asyncapi-rust-models/src/lib.rs:54-66 | A server object has `host` and `protocol`, plus `description` only when it is set. |
| Serialization.SchemaJsonKeys | asyncapi-rust-models/src/lib.rs:166-186 | A schema object has exactly the fields that are set, with the schema type under `type`. |
| Serialization.MessageJsonKeys | asyncapi-rust-models/src/lib.rs:94-120 | A message object has exactly the fields that are set, with the content type under `contentType`. |
| Serialization.MessageRefJson | asyncapi-rust-models/src/lib.rs:80-92 | A reference is an object whose only key is `$ref`. An inline message never has that key. |
| Serialization.ChannelJson | asyncapi-rust-models/src/lib.rs:68-78 | A channel object has `address` and `messages` only when they are set. |
| Serialization.ChannelRefJson | asyncapi-rust-models/src/lib.rs:146-152 | A channel reference is an object whose only key is `$ref`. |
| Serialization.OperationJson | asyncapi-rust-models/src/lib.rs:122-134 | An operation object has `action` and `channel`, plus `messages` only when they are set. |
| Serialization.ComponentsJson | asyncapi-rust-models/src/lib.rs:154-164 | A components object has `messages` and `schemas` only when they are set. |
| Serialization.SpecJson | asyncapi-rust-models/src/lib.rs:12-38 | A document has `asyncapi` and `info`, plus each of servers, channels, operations and components only when it is set. |
| Serialization.InfoRoundTrip | asyncapi-rust-models/src/lib.rs:40-52 | Decoding an encoded info gives it back. |
| Serialization.ServerRoundTrip | asyncapi-rust-models/src/lib.rs:54-66 | Decoding an encoded server gives it back. |
| Serialization.SchemaRoundTrip | asyncapi-rust-models/src/lib.rs:166-186 | Decoding an encoded schema gives it back, at every depth of nested properties. |
| Serialization.MessageRoundTrip | asyncapi-rust-models/src/lib.rs:94-120 | Decoding an encoded message gives it back. |
| Serialization.MessageRefRoundTrip | asyncapi-rust-models/src/lib.rs:80-92 | The untagged reference and inline forms each decode back to themselves. |
| Serialization.ChannelRoundTrip | asyncapi-rust-models/src/lib.rs:68-78 | Decoding an encoded channel gives it back. |
| Serialization.OperationRoundTrip | asyncapi-rust-models/src/lib.rs:122-134 | Decoding an encoded operation gives it back. |
| Serialization.ComponentsRoundTrip | asyncapi-rust-models/src/lib.rs:154-164 | Decoding encoded components gives them back. |
| Serialization.SpecRoundTrip | asyncapi-rust-models/src/lib.rs:12-38 | Decoding an encoded document gives back the same document. |
| Serialization.DefaultSpecJson | asyncapi-rust-models/src/lib.rs:188-215 | The default document is `asyncapi` `"3.0.0"` with info title `"API"` and version `"1.0.0"`, and it has no optional section. |
| Serialization.MinimalDocument | asyncapi-rust-models/src/lib.rs:217-229 | A document with only `asyncapi` and `info` reads back with those values and every optional section `None`. Unknown keys are ignored. |
| Serialization.ActionLowercase | asyncapi-rust-models/src/lib.rs:136-144 | An action is written as `"send"` or `"receive"`, and only those two strings read back as an action. |

## Left out

- syn, `proc_macro` and `quote`: token parsing and emission are not modelled.
  Attributes are given as a path and a list of items.
  - An item is one of: a `path`; a `path = "literal"`; a `path = "literal"` followed by more tokens before the next `,`; a `path = <other expression>`; a parenthesised group; or something that is not a meta.
  - A path with a leading `::` has an empty first segment, so it is never a single identifier.
  - An attribute without a parenthesised list is modelled as an empty list.
  - The generated impl is modelled by the values its four functions return.
- syn's notion of an identifier: the model does not check that an identifier is not a Rust keyword.
- `schema_for!` and the serde_json conversion of its result: these are reflection and JSON calls outside this code. The payload schema is a parameter of the derive.
- `derive_asyncapi` (asyncapi-rust-codegen/src/lib.rs:205-224): it only formats a placeholder string.
- Document assembly: the examples call `asyncapi_spec()` and write `pathname = ...` and `variable(...)` in server blocks (asyncapi-rust/examples/server_variables.rs:60-131). The code shown implements none of these. `asyncapi_spec_attrs.rs` is not declared as a module in `lib.rs` (asyncapi-rust-codegen/src/lib.rs:13-14), so none of its output reaches a generated document.
- Server `pathname` and `variables`: the `Server` type (asyncapi-rust-models/src/lib.rs:54-66) and `extract_server` have neither. A `pathname` key in a server block is ignored like any unknown key, so the walk stops at its value.
- The examples and the re-exporting `asyncapi-rust/src/lib.rs`: they are demos, printing and file I/O.
- HashMap hashing and iteration order, and JSON text layout: maps are Dafny maps and JSON is a tree.
- Serialization.SchemaJson: its contract states only that the result is an object. Its key set is stated by `SchemaJsonKeys`.
- Serialization.MessageJson: its contract states only that the result is an object. Its key set is stated by `MessageJsonKeys`.
- Decoding errors: serde's error messages are not modelled; a failed decode is `None`.
- Other serde decoding paths: serde also accepts a struct written as a JSON array of its fields, and an enum written in the externally tagged `{"send": null}` form. Neither is modelled.
- Integers: the model does not use any. `asyncapi_message_count`'s `usize` is a `nat`, and a list longer than `usize` can count does not arise.
