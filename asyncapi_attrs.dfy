/// `asyncapi_attrs.rs`: message metadata read from `#[asyncapi(...)]` attributes
/// on an enum variant or a struct.
///
/// One `meta` value starts at its default and every `asyncapi` attribute is
/// walked into it in turn, so a later attribute overwrites what an earlier one set.
module AsyncApiAttrs {
  import opened Wrappers
  import opened Attrs

  datatype AsyncApiMeta = AsyncApiMeta(
    summary: Option<string>,
    description: Option<string>,
    title: Option<string>,
    contentType: Option<string>,
    triggersBinary: bool)

  /** `AsyncApiMeta::default()`. */
  const DefaultMeta := AsyncApiMeta(None, None, None, None, false)

  /** The closure's branches: four string keys and the `triggers_binary` flag. */
  const MessageKeys := Keys({"summary", "description", "title", "content_type"}, {"triggers_binary"})

  /** The record the closure's assignments amount to. */
  function ToMeta(f: Fields): AsyncApiMeta {
    AsyncApiMeta(
      Get(f.strs, "summary"), Get(f.strs, "description"), Get(f.strs, "title"),
      Get(f.strs, "content_type"), "triggers_binary" in f.flags)
  }

  /** What `extract_asyncapi_meta` returns for `attrs`. */
  function MetaOf(attrs: seq<Attr>): AsyncApiMeta {
    ToMeta(ReadAll(MessageKeys, "asyncapi", attrs, NoFields))
  }

  /** `extract_asyncapi_meta`. */
  method ExtractAsyncApiMeta(attrs: seq<Attr>) returns (meta: AsyncApiMeta)
    ensures meta == MetaOf(attrs)
  {
    var fields := NoFields;
    for i := 0 to |attrs|
      invariant fields == ReadAll(MessageKeys, "asyncapi", attrs[..i], NoFields)
    {
      assert attrs[..i + 1][..i] == attrs[..i];
      if !IsIdent(attrs[i].path, "asyncapi") {
        continue;
      }
      fields := ReadAttr(MessageKeys, attrs[i], fields);
    }
    assert attrs[..|attrs|] == attrs;
    meta := ToMeta(fields);
  }

  // ---------------------------------------------------------------------------
  // Properties

  /** Each field holds the last literal written for its own key among the items
      the closure sees in the `asyncapi` attributes, copied verbatim, and `None`
      if there is none; the summary does not depend on the description or any
      other key. `triggersBinary` holds exactly when `triggers_binary` was seen. */
  lemma MetaIsLastLiterals(attrs: seq<Attr>)
    ensures var seen := Reached(MessageKeys, "asyncapi", attrs);
      MetaOf(attrs) == AsyncApiMeta(
        LastLit(seen, "summary"), LastLit(seen, "description"), LastLit(seen, "title"),
        LastLit(seen, "content_type"), Mentions(seen, "triggers_binary"))
  {
    ReadAllReadsReached(MessageKeys, "asyncapi", attrs, NoFields);
    var r := ReadAll(MessageKeys, "asyncapi", attrs, NoFields);
    assert Get(r.strs, "summary") == LastLit(Reached(MessageKeys, "asyncapi", attrs), "summary").Or(None);
    assert Get(r.strs, "description") == LastLit(Reached(MessageKeys, "asyncapi", attrs), "description").Or(None);
    assert Get(r.strs, "title") == LastLit(Reached(MessageKeys, "asyncapi", attrs), "title").Or(None);
    assert Get(r.strs, "content_type") == LastLit(Reached(MessageKeys, "asyncapi", attrs), "content_type").Or(None);
    assert "triggers_binary" in r.flags <==> Mentions(Reached(MessageKeys, "asyncapi", attrs), "triggers_binary");
  }

  /** Without an `asyncapi` attribute the result is the default. */
  lemma {:induction false} NoAsyncApiAttrIsDefault(attrs: seq<Attr>)
    requires forall i :: 0 <= i < |attrs| ==> !IsIdent(attrs[i].path, "asyncapi")
    ensures MetaOf(attrs) == DefaultMeta
  {
    NoneNamedReadsNothing(attrs);
  }

  lemma {:induction false} NoneNamedReadsNothing(attrs: seq<Attr>)
    requires forall i :: 0 <= i < |attrs| ==> !IsIdent(attrs[i].path, "asyncapi")
    ensures ReadAll(MessageKeys, "asyncapi", attrs, NoFields) == NoFields
    decreases |attrs|
  {
    if attrs != [] {
      NoneNamedReadsNothing(attrs[..|attrs| - 1]);
    }
  }

  /** An attribute with another path can be inserted anywhere without effect. */
  lemma OtherAttrIgnored(pre: seq<Attr>, x: Attr, post: seq<Attr>)
    requires !IsIdent(x.path, "asyncapi")
    ensures MetaOf(pre + [x] + post) == MetaOf(pre + post)
  {
    ReachedAppend(MessageKeys, "asyncapi", pre + [x], post);
    ReachedAppend(MessageKeys, "asyncapi", pre, [x]);
    ReachedAppend(MessageKeys, "asyncapi", pre, post);
    assert Reached(MessageKeys, "asyncapi", [x]) == [] by {
      assert [x][..0] == [];
    }
    assert Reached(MessageKeys, "asyncapi", pre + [x]) == Reached(MessageKeys, "asyncapi", pre);
    assert Reached(MessageKeys, "asyncapi", pre + [x] + post) == Reached(MessageKeys, "asyncapi", pre + post);
    MetaIsLastLiterals(pre + [x] + post);
    MetaIsLastLiterals(pre + post);
  }

  /** `triggers_binary` is never reset: more attributes keep it true. */
  lemma TriggersBinaryStays(attrs: seq<Attr>, more: seq<Attr>)
    requires MetaOf(attrs).triggersBinary
    ensures MetaOf(attrs + more).triggersBinary
  {
    MetaIsLastLiterals(attrs);
    MetaIsLastLiterals(attrs + more);
    ReachedAppend(MessageKeys, "asyncapi", attrs, more);
    MentionsAppend(Reached(MessageKeys, "asyncapi", attrs), Reached(MessageKeys, "asyncapi", more), "triggers_binary");
  }

  /** A `#[asyncapi(triggers_binary)]` attribute sets the flag and nothing else;
      in particular the content type stays as it was. */
  lemma TriggersBinaryOnlySetsFlag(attrs: seq<Attr>)
    ensures MetaOf(attrs + [Attr(["asyncapi"], [Meta(["triggers_binary"], Flag)])])
         == MetaOf(attrs).(triggersBinary := true)
  {
    var x := Attr(["asyncapi"], [Meta(["triggers_binary"], Flag)]);
    assert (attrs + [x])[..|attrs|] == attrs;
    var prev := ReadAll(MessageKeys, "asyncapi", attrs, NoFields);
    assert Walk(MessageKeys, x.items, prev) == Next(prev.(flags := prev.flags + {"triggers_binary"}));
  }

  /** `parse::<LitStr>()` takes the literal alone: in `summary = "a" + "b"` the
      summary `"a"` is stored before the tokens left after it end the walk, so
      a later key in the same attribute is not read. */
  lemma LiteralThenMoreTokens(s: string, t: string)
    ensures MetaOf([Attr(["asyncapi"], [Meta(["summary"], LitThen(s)), Meta(["title"], Lit(t))])])
         == DefaultMeta.(summary := Some(s))
  {
    var a := Attr(["asyncapi"], [Meta(["summary"], LitThen(s)), Meta(["title"], Lit(t))]);
    assert [a][..0] == [];
    assert ReadItem(MessageKeys, a.items[0], NoFields) == Halt(Fields(map["summary" := s], {}));
    assert ReadAll(MessageKeys, "asyncapi", [a], NoFields) == Fields(map["summary" := s], {});
  }

  /** `is_ident` is false for a path with a leading `::`, so `::summary = "x"`
      is not read, and the value left after it ends the walk. */
  lemma LeadingColonNotRead(s: string, t: string)
    ensures MetaOf([Attr(["asyncapi"], [Meta(["", "summary"], Lit(s)), Meta(["title"], Lit(t))])]) == DefaultMeta
  {
    var a := Attr(["asyncapi"], [Meta(["", "summary"], Lit(s)), Meta(["title"], Lit(t))]);
    assert [a][..0] == [];
    assert ReadItem(MessageKeys, a.items[0], NoFields) == Halt(NoFields);
    assert ReadAll(MessageKeys, "asyncapi", [a], NoFields) == NoFields;
  }
}
