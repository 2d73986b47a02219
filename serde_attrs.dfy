/// `serde_attrs.rs`: the variant rename and the enum tag field, read from
/// `#[serde(...)]` attributes.
///
/// Each reader loops over the attributes, skips those not named `serde`, walks
/// one `serde` attribute with a fresh local, and returns as soon as that local
/// holds a value.
module SerdeAttrs {
  import opened Wrappers
  import opened Attrs

  /** The closure recognises the one key `key` and no flag. */
  function KeyOnly(key: string): Keys {
    Keys({key}, {})
  }

  /** The value one attribute yields for `key`, read into a fresh `None` local. */
  function ValueIn(a: Attr, key: string): Option<string> {
    Get(ReadAttr(KeyOnly(key), a, NoFields).strs, key)
  }

  /** The value of the first `serde` attribute that yields one. */
  function FirstValue(attrs: seq<Attr>, key: string): Option<string> {
    if attrs == [] then None
    else if IsIdent(attrs[0].path, "serde") && ValueIn(attrs[0], key).Some? then ValueIn(attrs[0], key)
    else FirstValue(attrs[1..], key)
  }

  /** The common loop of both readers. */
  method ExtractSerdeValue(attrs: seq<Attr>, key: string) returns (r: Option<string>)
    ensures r == FirstValue(attrs, key)
  {
    for i := 0 to |attrs|
      invariant FirstValue(attrs, key) == FirstValue(attrs[i..], key)
    {
      assert attrs[i..][1..] == attrs[i + 1..];
      if !IsIdent(attrs[i].path, "serde") {
        continue;
      }
      var value := ValueIn(attrs[i], key);
      if value.Some? {
        return value;
      }
    }
    return None;
  }

  /** `extract_serde_rename`. */
  method ExtractSerdeRename(attrs: seq<Attr>) returns (r: Option<string>)
    ensures r == FirstValue(attrs, "rename")
  {
    r := ExtractSerdeValue(attrs, "rename");
  }

  /** `extract_serde_tag`. */
  method ExtractSerdeTag(attrs: seq<Attr>) returns (r: Option<string>)
    ensures r == FirstValue(attrs, "tag")
  {
    r := ExtractSerdeValue(attrs, "tag");
  }

  // ---------------------------------------------------------------------------
  // Properties

  /** First attribute wins: the result is the value of the first `serde` attribute
      that yields one; it is `None` exactly when no `serde` attribute yields one,
      so attributes with another path and attributes after the deciding one are
      never consulted. */
  lemma {:induction false} FirstValueIsFirst(attrs: seq<Attr>, key: string)
    ensures FirstValue(attrs, key).None? <==>
      forall i :: 0 <= i < |attrs| && IsIdent(attrs[i].path, "serde") ==> ValueIn(attrs[i], key).None?
    ensures FirstValue(attrs, key).Some? ==>
      exists i :: 0 <= i < |attrs| && IsIdent(attrs[i].path, "serde")
        && FirstValue(attrs, key) == ValueIn(attrs[i], key)
        && forall j :: 0 <= j < i && IsIdent(attrs[j].path, "serde") ==> ValueIn(attrs[j], key).None?
  {
    if attrs != [] {
      var rest := attrs[1..];
      FirstValueIsFirst(rest, key);
      forall i | 0 < i < |attrs| ensures attrs[i] == rest[i - 1] { }
      if IsIdent(attrs[0].path, "serde") && ValueIn(attrs[0], key).Some? {
      } else if FirstValue(rest, key).Some? {
        var i :| 0 <= i < |rest| && IsIdent(rest[i].path, "serde")
          && FirstValue(rest, key) == ValueIn(rest[i], key)
          && forall j :: 0 <= j < i && IsIdent(rest[j].path, "serde") ==> ValueIn(rest[j], key).None?;
        assert attrs[i + 1] == rest[i];
      }
    }
  }

  /** Once a value is found, attributes appended after it change nothing. */
  lemma {:induction false} LaterAttrsIgnored(attrs: seq<Attr>, later: seq<Attr>, key: string)
    requires FirstValue(attrs, key).Some?
    ensures FirstValue(attrs + later, key) == FirstValue(attrs, key)
  {
    assert attrs != [];
    assert (attrs + later)[0] == attrs[0];
    assert (attrs + later)[1..] == attrs[1..] + later;
    if !(IsIdent(attrs[0].path, "serde") && ValueIn(attrs[0], key).Some?) {
      LaterAttrsIgnored(attrs[1..], later, key);
    }
  }

  /** Within one attribute, a repeated key keeps the last literal the walk reads,
      and that literal is the one an item `key = "..."` of the attribute starts
      with, returned verbatim. */
  lemma ValueInIsLastLiteral(a: Attr, key: string)
    ensures ValueIn(a, key) == LastLit(Reach(KeyOnly(key), a.items), key)
    ensures ValueIn(a, key).Some? ==>
      exists j :: 0 <= j < |a.items| && LitOf(a.items[j], key) == ValueIn(a, key)
  {
    WalkReadsReach(KeyOnly(key), a.items, NoFields);
    ReadValueIsWritten(KeyOnly(key), a.items, key);
  }

  /** With no item `key = ...` in any `serde` attribute the result is `None`;
      in particular a `serde` attribute carrying only `rename` has no tag. */
  lemma NoValueWithoutKey(attrs: seq<Attr>, key: string)
    requires forall i, j :: 0 <= i < |attrs| && 0 <= j < |attrs[i].items| ==> !(attrs[i].items[j].Meta? && attrs[i].items[j].path == [key])
    ensures FirstValue(attrs, key) == None
  {
    forall i | 0 <= i < |attrs| ensures ValueIn(attrs[i], key).None? {
      ValueInIsLastLiteral(attrs[i], key);
    }
    FirstValueIsFirst(attrs, key);
  }

  /** The walk ends at the first `key = value` the closure does not consume: a tag
      written after another serde option is not seen, while the same tag written
      first is. */
  lemma TagAfterOtherOption(t: string)
    ensures FirstValue([Attr(["serde"], [Meta(["rename_all"], Lit("snake_case")), Meta(["tag"], Lit(t))])], "tag") == None
    ensures FirstValue([Attr(["serde"], [Meta(["tag"], Lit(t)), Meta(["rename_all"], Lit("snake_case"))])], "tag") == Some(t)
  {
    var a := Attr(["serde"], [Meta(["rename_all"], Lit("snake_case")), Meta(["tag"], Lit(t))]);
    assert Walk(KeyOnly("tag"), a.items, NoFields) == Halt(NoFields);
    var b := Attr(["serde"], [Meta(["tag"], Lit(t)), Meta(["rename_all"], Lit("snake_case"))]);
    assert Walk(KeyOnly("tag"), b.items, NoFields) == Halt(Fields(map["tag" := t], {}));
  }
}
