/**
  The `get`, `set` and `type` subcommands after their input has been parsed:
  `do_get`, `do_set` and `do_type` without the JSON text on either side.
 */
module Commands {
  import opened Wrappers
  import opened Json
  import opened ArrayIndex
  import opened Syntax
  import opened Read
  import opened Write

  /** `do_get` and `do_set` first turn every `\/` of the pointer into `/`. */
  function Unslash(pointer: string): string {
    Replace(pointer, "\\/", "/")
  }

  /** What `set` produces for already-parsed tokens: the walk's document
      with `w` assigned at the location, or the walk's document on failure. */
  function SetTokens(doc: Value, tokens: seq<string>, w: Value): Value {
    var r := WalkMut(doc, tokens);
    if r.loc.Some? then PutAt(r.doc, r.loc.value, w) else r.doc
  }

  /** The document `do_set` prints. */
  function SetPointer(doc: Value, pointer: string, w: Value): Value {
    match ParsePointer(Unslash(pointer))
    case None => doc
    case Some(tokens) => SetTokens(doc, tokens, w)
  }

  /** The value `do_get` prints; `None` is its empty output. What it prints
      is a value found in the document, never one made up by the walk. */
  function GetPointer(doc: Value, pointer: string): (r: Option<Value>)
    ensures r.Some? ==> exists p: Path :: ValidPath(doc, p) && At(doc, p) == r.value
  {
    match ParsePointer(Unslash(pointer))
    case None => None
    case Some(tokens) =>
      ResolveIsUnchangedWalk(doc, tokens);
      Resolve(doc, tokens)
  }

  /** Get finds a value exactly when the pointer parses and the write walk
      along its tokens reaches a location without changing anything, and
      the value found is the one at that location. */
  lemma GetAtWalk(doc: Value, pointer: string)
    ensures GetPointer(doc, pointer).Some? <==>
      ParsePointer(Unslash(pointer)).Some? &&
      var tokens := ParsePointer(Unslash(pointer)).value;
      WalkMut(doc, tokens).loc.Some? && WalkMut(doc, tokens).doc == doc
    ensures GetPointer(doc, pointer).Some? ==>
      var tokens := ParsePointer(Unslash(pointer)).value;
      GetPointer(doc, pointer).value == At(doc, WalkMut(doc, tokens).loc.value)
  {
    if ParsePointer(Unslash(pointer)).Some? {
      ResolveIsUnchangedWalk(doc, ParsePointer(Unslash(pointer)).value);
    }
  }

  /** `do_set`: edit the document in place through the location that
      `pointer_mut` hands back, then return the whole document. */
  method DoSet(doc: Value, pointer: string, value: Value) returns (out: Value)
    ensures out == SetPointer(doc, pointer, value)
  {
    var d := new Document(doc);
    var loc := d.PointerMut(Unslash(pointer));
    if loc.Some? {
      d.root := PutAt(d.root, loc.value, value);
    }
    out := d.root;
  }

  const TypeTags: set<string> := {"null", "boolean", "number", "string", "array", "object"}

  /** `do_type`: the tag of a value's variant. */
  function TypeOf(v: Value): (tag: string)
    ensures tag in TypeTags
  {
    match v
    case Null => "null"
    case Bool(_) => "boolean"
    case Number(_) => "number"
    case String(_) => "string"
    case Array(_) => "array"
    case Object(_) => "object"
  }

  predicate SameVariant(a: Value, b: Value) {
    || (a.Null? && b.Null?)
    || (a.Bool? && b.Bool?)
    || (a.Number? && b.Number?)
    || (a.String? && b.String?)
    || (a.Array? && b.Array?)
    || (a.Object? && b.Object?)
  }

  /** Two values get the same tag exactly when they are the same variant. */
  lemma TypeOfExclusive(a: Value, b: Value)
    ensures TypeOf(a) == TypeOf(b) <==> SameVariant(a, b)
  {
  }

  /** A formatted pointer survives the `\\/` replacement when no token
      contains a backslash, so get and set address exactly its tokens. */
  lemma FormattedPointerThroughCommands(tokens: seq<string>)
    requires forall i :: 0 <= i < |tokens| ==> '\\' !in tokens[i]
    ensures ParsePointer(Unslash(FormatPointer(tokens))) == Some(tokens)
  {
    FormatIntroduces(tokens, '\\');
    ParseFormat(tokens);
  }

  /** The replacement turns `\/` followed by text without a backslash
      into `/` followed by that text. */
  lemma UnslashSeparator(b: string)
    requires '\\' !in b
    ensures Unslash("\\/" + b) == "/" + b
  {
    assert Replace(b, "\\/", "/") == b;
    ReplaceFront(b, "\\/", "/");
  }

  /** The replacement removes the backslash in front of the second
      separator of `/c\/b`, for any `c` and any `b` without a backslash. */
  lemma UnslashAfterKey(c: char, b: string)
    requires c != '\\' && c != '/' && '\\' !in b
    ensures Unslash(['/'] + ([c] + ("\\/" + b))) == ['/'] + ([c] + ("/" + b))
  {
    UnslashSeparator(b);
    ReplaceSkip(c, "\\/" + b, "\\/", "/");
    ReplaceSkip('/', [c] + ("\\/" + b), "\\/", "/");
  }

  /** With a key that ends in a backslash the replacement changes the
      pointer: the tokens `c\` and `b` come back as `c` and `b`. */
  lemma BackslashKeyPair(c: char, b: string)
    requires c != '~' && c != '/' && c != '\\'
    requires '~' !in b && '/' !in b && '\\' !in b
    ensures Unslash(FormatPointer([[c, '\\'], b])) == FormatPointer([[c], b])
  {
    FormatTwo([c, '\\'], b);
    FormatTwo([c], b);
    UnslashAfterKey(c, b);
    assert ['/'] + [c, '\\'] + ['/'] + b == ['/'] + ([c] + ("\\/" + b));
    assert ['/'] + [c] + ['/'] + b == ['/'] + ([c] + ("/" + b));
  }

  /** A pattern cannot start inside a prefix that lacks its first character. */
  lemma NoOccurrenceIn(u: string, t: string, pat: string)
    requires pat != [] && pat[0] !in u
    ensures forall i :: 0 <= i < |u| ==> !OccursAt(u + t, pat, i)
  {
  }

  /** The replacement turns the first `\/` after a prefix without a
      backslash into `/`, and leaves a tail without a backslash alone. */
  lemma UnslashAfterPrefix(u: string, b: string)
    requires '\\' !in u && '\\' !in b
    ensures Unslash(u + ("\\/" + b)) == u + ("/" + b)
  {
    var s := u + ("\\/" + b);
    var n := |u|;
    assert s[..n] == u && s[n + 2..] == b;
    assert s[n..n + 2] == "\\/";
    NoOccurrenceIn(u, "\\/" + b, "\\/");
    ReplaceFirst(s, "\\/", "/", n);
    assert Replace(b, "\\/", "/") == b;
  }

  /** Any plain key followed by a backslash, before a plain key: the
      backslash is taken with the separator, so the pointer addresses the
      key without it. */
  lemma BackslashKeyGeneral(a: string, b: string)
    requires '~' !in a && '/' !in a && '\\' !in a
    requires '~' !in b && '/' !in b && '\\' !in b
    ensures Unslash(FormatPointer([a + "\\", b])) == FormatPointer([a, b])
    ensures ParsePointer(Unslash(FormatPointer([a + "\\", b]))) == Some([a, b])
  {
    FormatTwo(a + "\\", b);
    FormatTwo(a, b);
    var u := ['/'] + a;
    assert '\\' !in u;
    UnslashAfterPrefix(u, b);
    assert ['/'] + (a + "\\") + ['/'] + b == u + ("\\/" + b);
    assert ['/'] + a + ['/'] + b == u + ("/" + b);
    FormattedPointerThroughCommands([a, b]);
  }

  /** The same for the keys `a\` and `b`. */
  lemma BackslashBeforeSeparator()
    ensures Unslash(FormatPointer(["a\\", "b"])) == FormatPointer(["a", "b"])
  {
    BackslashKeyPair('a', "b");
    assert "a\\" == ['a', '\\'] && "a" == ['a'];
  }

  /** Any plain key followed by a backslash comes through when it is the
      only token: no `/` follows its backslash. */
  lemma BackslashLastKey(a: string)
    requires '~' !in a && '/' !in a && '\\' !in a
    ensures ParsePointer(Unslash(FormatPointer([a + "\\"]))) == Some([a + "\\"])
  {
    var k := a + "\\";
    var u := ['/'] + a;
    var s := u + "\\";
    EscapePlain(k);
    assert [k][1..] == [];
    assert FormatPointer([k]) == s;
    assert '\\' !in u;
    NoOccurrenceIn(u, "\\", "\\/");
    assert forall i :: !OccursAt(s, "\\/", i);
    ReplaceAbsent(s, "\\/", "/");
    ParseFormat([k]);
  }

  /** A key that ends in a backslash still comes through when it is the
      last token: no `/` follows its backslash. */
  lemma BackslashLastToken()
    ensures ParsePointer(Unslash(FormatPointer(["a\\"]))) == Some(["a\\"])
  {
    var bs: string := ['\\'];
    var abs: string := ['a'] + bs;
    var whole: string := ['/'] + abs;
    assert Replace(bs, "\\/", "/") == bs;
    ReplaceSkip('a', bs, "\\/", "/");
    ReplaceSkip('/', abs, "\\/", "/");
    assert Unslash(whole) == whole;
    EscapePlain("a\\");
    assert ["a\\"][1..] == [];
    assert FormatPointer(["a\\"]) == whole;
    ParseFormat(["a\\"]);
  }

  lemma FormatTwo(k1: string, k2: string)
    requires '~' !in k1 && '/' !in k1 && '~' !in k2 && '/' !in k2
    ensures FormatPointer([k1, k2]) == ['/'] + k1 + ['/'] + k2
  {
    EscapePlain(k1);
    EscapePlain(k2);
    assert [k1, k2][1..] == [k2];
    assert [k2][1..] == [];
    assert FormatPointer([k2]) == "/" + k2 + FormatPointer([]);
    assert FormatPointer([k1, k2]) == "/" + k1 + FormatPointer([k2]);
  }

  /** After a set, a get at the same pointer finds the value just written;
      otherwise the set failed, left the document as it was, and a get
      there finds nothing either. */
  lemma SetThenGet(doc: Value, pointer: string, w: Value)
    ensures || GetPointer(SetPointer(doc, pointer, w), pointer) == Some(w)
            || (SetPointer(doc, pointer, w) == doc && GetPointer(doc, pointer) == None)
  {
    match ParsePointer(Unslash(pointer))
    case None =>
    case Some(tokens) =>
      var r := WalkMut(doc, tokens);
      if r.loc.Some? {
        ResolveAfterWalk(doc, tokens, w);
      } else {
        ResolveIsUnchangedWalk(doc, tokens);
      }
  }

  /** Setting the value that is already there changes nothing. */
  lemma SetExistingIsNoop(doc: Value, pointer: string, x: Value)
    requires GetPointer(doc, pointer) == Some(x)
    ensures SetPointer(doc, pointer, x) == doc
  {
    var tokens := ParsePointer(Unslash(pointer)).value;
    ResolveIsUnchangedWalk(doc, tokens);
    PutAtSelf(doc, WalkMut(doc, tokens).loc.value);
  }

  /** Setting the same value twice is setting it once. */
  lemma SetIdempotent(doc: Value, pointer: string, w: Value)
    ensures SetPointer(SetPointer(doc, pointer, w), pointer, w) == SetPointer(doc, pointer, w)
  {
    SetThenGet(doc, pointer, w);
    if GetPointer(SetPointer(doc, pointer, w), pointer) == Some(w) {
      SetExistingIsNoop(SetPointer(doc, pointer, w), pointer, w);
    }
  }

  /** The empty pointer addresses the whole document. */
  lemma EmptyPointer(doc: Value, w: Value)
    ensures SetPointer(doc, "", w) == w
    ensures GetPointer(doc, "") == Some(doc)
  {
    assert Unslash("") == "";
  }

  /** A pointer that starts neither with `/` nor with `\/` is refused:
      set returns the document unchanged and get returns nothing. */
  lemma MalformedPointer(doc: Value, pointer: string, w: Value)
    requires pointer != [] && pointer[0] != '/'
    requires |pointer| < 2 || pointer[..2] != "\\/"
    ensures SetPointer(doc, pointer, w) == doc
    ensures GetPointer(doc, pointer) == None
  {
    var c, t := pointer[0], pointer[1..];
    assert pointer == [c] + t;
    ReplaceMiss(c, t, "\\/", "/");
  }

  /** A set through an object keeps every other key and its value, and adds
      the first token as a key if it was missing. */
  lemma SetKeepsSiblings(m: map<string, Value>, tokens: seq<string>, w: Value)
    requires tokens != []
    ensures var r := SetTokens(Object(m), tokens, w);
      && r.Object?
      && r.obj.Keys == m.Keys + {tokens[0]}
      && forall k :: k in m && k != tokens[0] ==> r.obj[k] == m[k]
  {
    var t := tokens[0];
    var st := PointerInner(Object(m), t);
    var w' := WalkMut(Object(m), tokens);
    var r := WalkMut(Child(st.target, Key(t)), tokens[1..]);
    if r.loc.Some? {
      assert w'.loc.value[0] == Key(t) && w'.loc.value[1..] == r.loc.value;
    }
  }

  /** A set through an array never changes its length or any element other
      than the one the index addresses; with a bad index it fails outright. */
  lemma SetKeepsArrayShape(a: seq<Value>, tokens: seq<string>, w: Value)
    requires tokens != []
    ensures var r := SetTokens(Array(a), tokens, w);
      && r.Array?
      && |r.arr| == |a|
      && (forall j :: 0 <= j < |a| && ParseIndex(tokens[0]) != Some(j) ==> r.arr[j] == a[j])
      && (ParseIndex(tokens[0]).None? || ParseIndex(tokens[0]).value >= |a| ==> r == Array(a))
  {
    var t := tokens[0];
    var st := PointerInner(Array(a), t);
    if st.step.Some? {
      var s := st.step.value;
      var w' := WalkMut(Array(a), tokens);
      var r := WalkMut(Child(st.target, s), tokens[1..]);
      if r.loc.Some? {
        assert w'.loc.value[0] == s && w'.loc.value[1..] == r.loc.value;
      }
    }
  }

  /** The chain of one-key objects that a set builds below a new key. */
  function Nested(tokens: seq<string>, w: Value): Value
    decreases |tokens|
  {
    if tokens == [] then w else Object(map[tokens[0] := Nested(tokens[1..], w)])
  }

  /** A set into null never fails: it builds one object per token. */
  lemma {:induction false} SetIntoNull(tokens: seq<string>, w: Value)
    ensures SetTokens(Null, tokens, w) == Nested(tokens, w)
    decreases |tokens|
  {
    if tokens != [] {
      var t := tokens[0];
      var r := WalkMut(Null, tokens[1..]);
      var whole := WalkMut(Null, tokens);
      assert whole.loc.value[0] == Key(t) && whole.loc.value[1..] == r.loc.value;
      SetIntoNull(tokens[1..], w);
      assert map[t := Null][t := PutAt(r.doc, r.loc.value, w)] == map[t := Nested(tokens[1..], w)];
    }
  }

  /** A set through a scalar never fails: the scalar is replaced by an
      object whose only key is the first token. */
  lemma SetThroughScalar(v: Value, tokens: seq<string>, w: Value)
    requires IsScalar(v) && tokens != []
    ensures SetTokens(v, tokens, w) == Nested(tokens, w)
  {
    var t := tokens[0];
    var st := PointerInner(v, t);
    assert st == PointerInner(Null, t);
    assert WalkMut(v, tokens) == WalkMut(Null, tokens);
    SetIntoNull(tokens, w);
  }

  /** A set below a key that an object lacks adds that key, bound to the
      nested objects the rest of the pointer describes. */
  lemma SetNewKey(m: map<string, Value>, tokens: seq<string>, w: Value)
    requires tokens != [] && tokens[0] !in m
    ensures SetTokens(Object(m), tokens, w) == Object(m[tokens[0] := Nested(tokens[1..], w)])
  {
    var t := tokens[0];
    var r := WalkMut(Null, tokens[1..]);
    var whole := WalkMut(Object(m), tokens);
    assert whole.loc.value[0] == Key(t) && whole.loc.value[1..] == r.loc.value;
    SetIntoNull(tokens[1..], w);
    assert m[t := Null][t := PutAt(r.doc, r.loc.value, w)] == m[t := Nested(tokens[1..], w)];
  }

  /** A set below an existing key is the same set applied to that key's
      value, with every other key and value kept. */
  lemma SetStepKey(m: map<string, Value>, t: string, rest: seq<string>, w: Value)
    requires t in m
    ensures SetTokens(Object(m), [t] + rest, w) == Object(m[t := SetTokens(m[t], rest, w)])
  {
    var tokens := [t] + rest;
    assert tokens[0] == t && tokens[1..] == rest;
    var st := PointerInner(Object(m), t);
    assert st.target.obj == m;
    var r := WalkMut(m[t], rest);
    var whole := WalkMut(Object(m), tokens);
    assert whole.doc == Object(m[t := r.doc]);
    if r.loc.Some? {
      assert whole.loc.value == [Key(t)] + r.loc.value;
      assert whole.loc.value[0] == Key(t) && whole.loc.value[1..] == r.loc.value;
      assert m[t := r.doc][t := PutAt(r.doc, r.loc.value, w)] == m[t := PutAt(r.doc, r.loc.value, w)];
    } else {
      assert m[t := r.doc] == m;
    }
  }

  /** A set below an in-range index is the same set applied to that
      element, with the length and every other element kept. */
  lemma SetStepIndex(a: seq<Value>, t: string, rest: seq<string>, w: Value)
    requires ParseIndex(t).Some? && ParseIndex(t).value < |a|
    ensures var i := ParseIndex(t).value;
      SetTokens(Array(a), [t] + rest, w) == Array(a[i := SetTokens(a[i], rest, w)])
  {
    var i := ParseIndex(t).value;
    var tokens := [t] + rest;
    assert tokens[0] == t && tokens[1..] == rest;
    var r := WalkMut(a[i], rest);
    var whole := WalkMut(Array(a), tokens);
    assert whole.doc == Array(a[i := r.doc]);
    if r.loc.Some? {
      assert whole.loc.value[0] == Index(i) && whole.loc.value[1..] == r.loc.value;
      assert a[i := r.doc][i := PutAt(r.doc, r.loc.value, w)] == a[i := PutAt(r.doc, r.loc.value, w)];
    } else {
      assert a[i := r.doc] == a;
    }
  }

  /** A set that replaces an existing value leaves every location that
      branches off the written one, at any depth, as it was. */
  lemma SetKeepsOutside(doc: Value, tokens: seq<string>, w: Value, q: Path, n: nat)
    requires WalkMut(doc, tokens).loc.Some? && WalkMut(doc, tokens).doc == doc
    requires ValidPath(doc, q)
    requires var p := WalkMut(doc, tokens).loc.value;
      n < |p| && n < |q| && p[..n] == q[..n] && p[n] != q[n]
    ensures ValidPath(SetTokens(doc, tokens, w), q) && At(SetTokens(doc, tokens, w), q) == At(doc, q)
  {
    PutAtFrame(doc, WalkMut(doc, tokens).loc.value, q, w, n);
  }
}
