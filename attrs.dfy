/// The attributes the readers receive, as syn delivers them, and syn's
/// `parse_nested_meta` walk over the items inside an attribute's parentheses.
///
/// Every reader hands `parse_nested_meta` a closure and discards the walk's
/// result. The closure either reads `key = "literal"` into a string field or,
/// for a flag key, sets a flag. The walk goes left to right and ends at the
/// first item the closure rejects or leaves partly unconsumed; what the closure
/// assigned before that point is kept.
module Attrs {
  import opened Wrappers

  /** A path such as `rename` or `serde::rename`, segment by segment. A leading
      `::` is an empty first segment: `::rename` is `["", "rename"]`. */
  type Path = seq<string>

  /** What follows an item's path inside the parentheses. */
  datatype Arg =
    | Flag            // `key` alone
    | Lit(s: string)      // `key = "text"`
    | LitThen(s: string)  // `key = "text"` and more tokens before the next `,`, such as `key = "a" + "b"`
    | Expr                // `key = <any other expression>`, such as `key = 5`
    | Group           // `key(...)`

  datatype Item =
    | Meta(path: Path, arg: Arg)
    | Junk            // an item that does not start with a path, such as a bare literal

  /** `#[path(items)]`; an attribute written without parentheses has no items. */
  datatype Attr = Attr(path: Path, items: seq<Item>)

  /** syn's `Path::is_ident`: the path is exactly the one identifier `name`. */
  predicate IsIdent(p: Path, name: string) {
    p == [name]
  }

  /** The identifiers a closure recognises: `strs` are read as `key = "literal"`,
      `flags` are set by the key alone. A key in both is read as a string. */
  datatype Keys = Keys(strs: set<string>, flags: set<string>)

  /** What a closure has assigned so far: string fields by key, and the flags set. */
  datatype Fields = Fields(strs: map<string, string>, flags: set<string>)

  const NoFields := Fields(map[], {})

  /** One closure call followed by syn's check for `,` or the end. */
  datatype Step = Next(state: Fields) | Halt(state: Fields)

  predicate IsStrKey(keys: Keys, p: Path) {
    |p| == 1 && p[0] in keys.strs
  }

  predicate IsFlagKey(keys: Keys, p: Path) {
    |p| == 1 && p[0] !in keys.strs && p[0] in keys.flags
  }

  /** The closure on one item. A string key needs `= "literal"` (`value()?` and
      `parse::<LitStr>()?`); `parse::<LitStr>()` takes the literal alone, so
      tokens after it are left for syn, which then stops the walk. A flag key is
      set before syn looks at what follows it; any other key is ignored, and a
      value left after it stops the walk. */
  function ReadItem(keys: Keys, it: Item, st: Fields): (r: Step)
    ensures r.Halt? <==> Halts(keys, it)
    ensures forall k :: k !in keys.strs ==> Get(r.state.strs, k) == Get(st.strs, k)
    ensures st.flags <= r.state.flags && r.state.flags - st.flags <= keys.flags
  {
    match it
    case Junk => Halt(st)
    case Meta(p, a) =>
      if IsStrKey(keys, p) then
        if a.Lit? then Next(st.(strs := st.strs[p[0] := a.s]))
        else if a.LitThen? then Halt(st.(strs := st.strs[p[0] := a.s]))
        else Halt(st)
      else if IsFlagKey(keys, p) then
        var set' := st.(flags := st.flags + {p[0]});
        if a.Flag? then Next(set') else Halt(set')
      else
        if a.Flag? then Next(st) else Halt(st)
  }

  /** `parse_nested_meta`: items left to right until the first `Halt`. Only the
      closure's own keys are assigned, and flags are only ever added. */
  function Walk(keys: Keys, items: seq<Item>, st: Fields): (r: Step)
    ensures forall k :: k !in keys.strs ==> Get(r.state.strs, k) == Get(st.strs, k)
    ensures st.flags <= r.state.flags && r.state.flags - st.flags <= keys.flags
  {
    if items == [] then Next(st)
    else match ReadItem(keys, items[0], st)
      case Halt(t) => Halt(t)
      case Next(t) => Walk(keys, items[1..], t)
  }

  /** `let _ = attr.parse_nested_meta(closure)`: what the closure assigned, whatever the walk returned. */
  function ReadAttr(keys: Keys, a: Attr, st: Fields): Fields {
    Walk(keys, a.items, st).state
  }

  /** The attributes named `name`, read in order into one set of fields,
      as a reader whose closure captures a variable declared outside its loop. */
  function ReadAll(keys: Keys, name: string, attrs: seq<Attr>, st: Fields): Fields
    decreases |attrs|
  {
    if attrs == [] then st
    else
      var prev := ReadAll(keys, name, attrs[..|attrs| - 1], st);
      var a := attrs[|attrs| - 1];
      if IsIdent(a.path, name) then ReadAttr(keys, a, prev) else prev
  }

  // ---------------------------------------------------------------------------
  // A reference description of what the walk reads, independent of the walk.

  /** The item ends the walk, whatever has been read before it. */
  predicate Halts(keys: Keys, it: Item) {
    it.Junk? || (if IsStrKey(keys, it.path) then !it.arg.Lit? else !it.arg.Flag?)
  }

  /** The items the closure sees: all of them up to and including the first one that ends the walk. */
  function Reach(keys: Keys, items: seq<Item>): seq<Item> {
    if items == [] then []
    else if Halts(keys, items[0]) then [items[0]]
    else [items[0]] + Reach(keys, items[1..])
  }

  /** The items the closure sees over all attributes named `name`, in order. */
  function Reached(keys: Keys, name: string, attrs: seq<Attr>): seq<Item>
    decreases |attrs|
  {
    if attrs == [] then []
    else
      var a := attrs[|attrs| - 1];
      Reached(keys, name, attrs[..|attrs| - 1]) + (if IsIdent(a.path, name) then Reach(keys, a.items) else [])
  }

  /** The string literal the value of an item `k = "..."` starts with. */
  function LitOf(it: Item, k: string): Option<string> {
    if it.Meta? && it.path == [k] && (it.arg.Lit? || it.arg.LitThen?) then Some(it.arg.s) else None
  }

  /** The literal of the last `k = "..."` among `items`. */
  function LastLit(items: seq<Item>, k: string): Option<string> {
    if items == [] then None else LastLit(items[1..], k).Or(LitOf(items[0], k))
  }

  /** Some item of `items` has the path `k`. */
  predicate Mentions(items: seq<Item>, k: string) {
    exists i :: 0 <= i < |items| && items[i].Meta? && items[i].path == [k]
  }

  /** What a walk over `seen` leaves in the fields, given the fields it started from. */
  ghost predicate ReadsAs(keys: Keys, seen: seq<Item>, st: Fields, r: Fields) {
    && (forall k :: Get(r.strs, k) == if k in keys.strs then LastLit(seen, k).Or(Get(st.strs, k)) else Get(st.strs, k))
    && (forall k :: k in r.flags <==> k in st.flags || (k in keys.flags && k !in keys.strs && Mentions(seen, k)))
  }

  // ---------------------------------------------------------------------------
  // Lemmas

  lemma LastLitAppend(a: seq<Item>, b: seq<Item>, k: string)
    ensures LastLit(a + b, k) == LastLit(b, k).Or(LastLit(a, k))
  {
    if a != [] {
      assert (a + b)[1..] == a[1..] + b;
      LastLitAppend(a[1..], b, k);
    } else {
      assert a + b == b;
    }
  }

  lemma MentionsAppend(a: seq<Item>, b: seq<Item>, k: string)
    ensures Mentions(a + b, k) <==> Mentions(a, k) || Mentions(b, k)
  {
    if Mentions(a + b, k) {
      var i :| 0 <= i < |a + b| && (a + b)[i].Meta? && (a + b)[i].path == [k];
      if i >= |a| { assert b[i - |a|] == (a + b)[i]; }
    }
    if Mentions(a, k) {
      var i :| 0 <= i < |a| && a[i].Meta? && a[i].path == [k];
      assert (a + b)[i] == a[i];
    }
    if Mentions(b, k) {
      var i :| 0 <= i < |b| && b[i].Meta? && b[i].path == [k];
      assert (a + b)[|a| + i] == b[i];
    }
  }

  /** The walk reads exactly what the reference description says: each string key
      holds the last literal written for it among the items the closure sees, or
      what it held before; a flag is set when its key is among those items; nothing
      else changes. The walk reports an error exactly when some item ends it. */
  lemma {:induction false} WalkReadsReach(keys: Keys, items: seq<Item>, st: Fields)
    ensures ReadsAs(keys, Reach(keys, items), st, Walk(keys, items, st).state)
    ensures Walk(keys, items, st).Halt? <==> exists i :: 0 <= i < |items| && Halts(keys, items[i])
  {
    WalkHalts(keys, items, st);
    if items != [] {
      var x := items[0];
      var step := ReadItem(keys, x, st);
      ReadItemReadsAs(keys, x, st);
      if step.Halt? {
        assert Reach(keys, items) == [x];
      } else {
        var rest := items[1..];
        WalkReadsReach(keys, rest, step.state);
        assert Reach(keys, items) == [x] + Reach(keys, rest);
        ReadsAsCompose(keys, [x], Reach(keys, rest), st, step.state, Walk(keys, rest, step.state).state);
      }
    }
  }

  lemma {:induction false} WalkHalts(keys: Keys, items: seq<Item>, st: Fields)
    ensures Walk(keys, items, st).Halt? <==> exists i :: 0 <= i < |items| && Halts(keys, items[i])
  {
    if items != [] {
      var step := ReadItem(keys, items[0], st);
      if step.Next? {
        var rest := items[1..];
        WalkHalts(keys, rest, step.state);
        if exists i :: 0 <= i < |items| && Halts(keys, items[i]) {
          var i :| 0 <= i < |items| && Halts(keys, items[i]);
          assert i > 0 && Halts(keys, rest[i - 1]);
        }
        if exists i :: 0 <= i < |rest| && Halts(keys, rest[i]) {
          var i :| 0 <= i < |rest| && Halts(keys, rest[i]);
          assert items[i + 1] == rest[i];
        }
      }
    }
  }

  /** One closure call reads as its own item describes. */
  lemma ReadItemReadsAs(keys: Keys, x: Item, st: Fields)
    ensures ReadsAs(keys, [x], st, ReadItem(keys, x, st).state)
  {
    forall k ensures LastLit([x], k) == LitOf(x, k) { assert [x][1..] == []; }
    forall k ensures Mentions([x], k) <==> x.Meta? && x.path == [k] {
      if x.Meta? && x.path == [k] { assert [x][0] == x; }
    }
  }

  /** Reading `a` and then `b` reads as reading `a + b`. */
  lemma ReadsAsCompose(keys: Keys, a: seq<Item>, b: seq<Item>, st: Fields, m: Fields, r: Fields)
    requires ReadsAs(keys, a, st, m) && ReadsAs(keys, b, m, r)
    ensures ReadsAs(keys, a + b, st, r)
  {
    forall k
      ensures LastLit(a + b, k) == LastLit(b, k).Or(LastLit(a, k))
      ensures Mentions(a + b, k) <==> Mentions(a, k) || Mentions(b, k)
    {
      LastLitAppend(a, b, k);
      MentionsAppend(a, b, k);
    }
  }

  /** Across attributes the same holds over the concatenation of what the closure
      saw in each attribute named `name`: a key given in several of them keeps the
      last literal read, and other attributes are not consulted. */
  lemma {:induction false} ReadAllReadsReached(keys: Keys, name: string, attrs: seq<Attr>, st: Fields)
    ensures ReadsAs(keys, Reached(keys, name, attrs), st, ReadAll(keys, name, attrs, st))
    decreases |attrs|
  {
    if attrs != [] {
      var init := attrs[..|attrs| - 1];
      var a := attrs[|attrs| - 1];
      var prev := ReadAll(keys, name, init, st);
      ReadAllReadsReached(keys, name, init, st);
      var seen := Reached(keys, name, init);
      if IsIdent(a.path, name) {
        WalkReadsReach(keys, a.items, prev);
        forall k
          ensures LastLit(Reached(keys, name, attrs), k) == LastLit(Reach(keys, a.items), k).Or(LastLit(seen, k))
          ensures Mentions(Reached(keys, name, attrs), k) <==> Mentions(seen, k) || Mentions(Reach(keys, a.items), k)
        {
          LastLitAppend(seen, Reach(keys, a.items), k);
          MentionsAppend(seen, Reach(keys, a.items), k);
        }
      } else {
        assert Reached(keys, name, attrs) == seen;
      }
    }
  }

  /** Items that do not end the walk hand their fields on to what follows. */
  lemma {:induction false} WalkAppend(keys: Keys, pre: seq<Item>, post: seq<Item>, st: Fields)
    requires forall i :: 0 <= i < |pre| ==> !Halts(keys, pre[i])
    ensures Walk(keys, pre + post, st) == Walk(keys, post, Walk(keys, pre, st).state)
  {
    if pre == [] {
      assert pre + post == post;
    } else {
      var step := ReadItem(keys, pre[0], st);
      assert (pre + post)[0] == pre[0];
      assert (pre + post)[1..] == pre[1..] + post;
      WalkAppend(keys, pre[1..], post, step.state);
    }
  }

  /** An item that ends the walk is the last one read: the result is that item
      read into what the items before it assigned, whatever follows it. */
  lemma HaltKeepsEarlier(keys: Keys, pre: seq<Item>, x: Item, post: seq<Item>, st: Fields)
    requires forall i :: 0 <= i < |pre| ==> !Halts(keys, pre[i])
    requires Halts(keys, x)
    ensures Walk(keys, pre + [x] + post, st) == ReadItem(keys, x, Walk(keys, pre, st).state)
  {
    assert pre + [x] + post == pre + ([x] + post);
    WalkAppend(keys, pre, [x] + post, st);
  }

  lemma {:induction false} ReachedAppend(keys: Keys, name: string, a: seq<Attr>, b: seq<Attr>)
    ensures Reached(keys, name, a + b) == Reached(keys, name, a) + Reached(keys, name, b)
    decreases |b|
  {
    if b == [] {
      assert a + b == a;
    } else {
      var init := b[..|b| - 1];
      assert (a + b)[..|a + b| - 1] == a + init;
      assert (a + b)[|a + b| - 1] == b[|b| - 1];
      ReachedAppend(keys, name, a, init);
    }
  }

  /** A value the closure reads is one written in the attribute: the literal an
      item `k = "..."` starts with, returned exactly as written. */
  lemma {:induction false} ReadValueIsWritten(keys: Keys, items: seq<Item>, k: string)
    ensures LastLit(Reach(keys, items), k).Some? ==>
      exists j :: 0 <= j < |items| && LitOf(items[j], k) == LastLit(Reach(keys, items), k)
  {
    if items != [] {
      var x := items[0];
      var rest := items[1..];
      assert [x][1..] == [];
      if Halts(keys, x) {
        assert Reach(keys, items) == [x];
        assert LastLit(Reach(keys, items), k) == LitOf(x, k);
      } else {
        assert Reach(keys, items) == [x] + Reach(keys, rest);
        LastLitAppend([x], Reach(keys, rest), k);
        ReadValueIsWritten(keys, rest, k);
        var v := LastLit(Reach(keys, rest), k);
        if v.Some? {
          var j :| 0 <= j < |rest| && LitOf(rest[j], k) == v;
          assert items[j + 1] == rest[j];
        }
      }
    }
  }
}
