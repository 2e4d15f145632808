/**
  The cases the repository's own tests and help text check, stated on the
  model. Documents are given already parsed; `1` is `PosInt(1)` and `1.0`
  is `Float(1.0)`.
 */
module Examples {
  import opened Wrappers
  import opened Json
  import opened ArrayIndex
  import opened Syntax
  import opened Read
  import opened Write
  import opened Commands

  lemma FormatCons(t: string, rest: seq<string>)
    requires '~' !in t && '/' !in t
    ensures FormatPointer([t] + rest) == ['/'] + t + FormatPointer(rest)
  {
    EscapePlain(t);
    assert ([t] + rest)[1..] == rest;
  }

  lemma FormatOne(t: string)
    requires '~' !in t && '/' !in t
    ensures FormatPointer([t]) == ['/'] + t
  {
    FormatCons(t, []);
    assert [t] + [] == [t];
  }

  /** A set or get whose pointer reads as `tokens` works on those tokens. */
  lemma ThroughTokens(doc: Value, pointer: string, tokens: seq<string>, w: Value)
    requires ParsePointer(Unslash(pointer)) == Some(tokens)
    ensures SetPointer(doc, pointer, w) == SetTokens(doc, tokens, w)
    ensures GetPointer(doc, pointer) == Resolve(doc, tokens)
  {
  }

  lemma PointerOne(a: string, pointer: string)
    requires '~' !in a && '/' !in a && '\\' !in a
    requires pointer == ['/'] + a
    ensures ParsePointer(Unslash(pointer)) == Some([a])
  {
    FormatOne(a);
    FormattedPointerThroughCommands([a]);
  }

  lemma PointerTwo(a: string, b: string, pointer: string)
    requires '~' !in a && '/' !in a && '\\' !in a
    requires '~' !in b && '/' !in b && '\\' !in b
    requires pointer == ['/'] + a + ['/'] + b
    ensures ParsePointer(Unslash(pointer)) == Some([a, b])
  {
    FormatOne(b);
    FormatCons(a, [b]);
    assert [a] + [b] == [a, b];
    assert pointer == FormatPointer([a, b]);
    FormattedPointerThroughCommands([a, b]);
  }

  lemma PointerThree(a: string, b: string, c: string, pointer: string)
    requires '~' !in a && '/' !in a && '\\' !in a
    requires '~' !in b && '/' !in b && '\\' !in b
    requires '~' !in c && '/' !in c && '\\' !in c
    requires pointer == ['/'] + a + (['/'] + b + ['/'] + c)
    ensures ParsePointer(Unslash(pointer)) == Some([a, b, c])
  {
    FormatTwo(b, c);
    FormatCons(a, [b, c]);
    assert [a] + [b, c] == [a, b, c];
    FormattedPointerThroughCommands([a, b, c]);
  }

  lemma PointerFour(a: string, b: string, c: string, d: string, pointer: string)
    requires '~' !in a && '/' !in a && '\\' !in a
    requires '~' !in b && '/' !in b && '\\' !in b
    requires '~' !in c && '/' !in c && '\\' !in c
    requires '~' !in d && '/' !in d && '\\' !in d
    requires pointer == ['/'] + a + (['/'] + b + (['/'] + c + ['/'] + d))
    ensures ParsePointer(Unslash(pointer)) == Some([a, b, c, d])
  {
    FormatTwo(c, d);
    FormatCons(b, [c, d]);
    assert [b] + [c, d] == [b, c, d];
    FormatCons(a, [b, c, d]);
    assert [a] + [b, c, d] == [a, b, c, d];
    assert pointer == FormatPointer([a, b, c, d]);
    FormattedPointerThroughCommands([a, b, c, d]);
  }

  function One(): Value { Number(PosInt(1)) }
  function OnePointZero(): Value { Number(Float(1.0)) }

  lemma IndexZero()
    ensures ParseIndex("0") == Some(0)
  {
    assert "0"[..0] == [];
  }

  lemma IndexOne()
    ensures ParseIndex("1") == Some(1)
  {
    assert "1"[..0] == [];
  }

  lemma IndexTwo()
    ensures ParseIndex("2") == Some(2)
  {
    assert "2"[..0] == [];
  }

  /** get `{"test": [1, 2, 3, 4]}` `/test/2` prints `3`. */
  lemma GetArrayElement()
    ensures GetPointer(Object(map["test" := Array([One(), Number(PosInt(2)), Number(PosInt(3)), Number(PosInt(4))])]), "/test/2")
         == Some(Number(PosInt(3)))
  {
    var a := [One(), Number(PosInt(2)), Number(PosInt(3)), Number(PosInt(4))];
    var doc := Object(map["test" := Array(a)]);
    PointerTwo("test", "2", "/test/2");
    ThroughTokens(doc, "/test/2", ["test", "2"], Null);
    GetArrayElementTokens();
  }

  lemma GetArrayElementTokens()
    ensures Resolve(Object(map["test" := Array([One(), Number(PosInt(2)), Number(PosInt(3)), Number(PosInt(4))])]), ["test", "2"])
         == Some(Number(PosInt(3)))
  {
    var a := [One(), Number(PosInt(2)), Number(PosInt(3)), Number(PosInt(4))];
    IndexTwo();
    assert ["test", "2"][1..] == ["2"] && ["2"][1..] == [];
    assert Resolve(Array(a), ["2"]) == Resolve(a[2], []);
  }

  /** get `{"key": "number"}` `\/key` prints `"number"`: the `\/` is read as `/`. */
  lemma GetEscapedKey()
    ensures GetPointer(Object(map["key" := String("number")]), "\\/key") == Some(String("number"))
  {
    var key := "key";
    ReplaceFront(key, "\\/", "/");
    assert "\\/key" == "\\/" + key;
    assert Unslash("\\/key") == "/key";
    FormatOne("key");
    assert ParsePointer(FormatPointer(["key"])) == Some(["key"]) by { ParseFormat(["key"]); }
  }

  /** set `{"key": "number"}` `invalid key` `1.0` prints the input unchanged. */
  lemma SetInvalidKey()
    ensures SetPointer(Object(map["key" := String("number")]), "invalid key", OnePointZero())
         == Object(map["key" := String("number")])
  {
    MalformedPointer(Object(map["key" := String("number")]), "invalid key", OnePointZero());
  }

  /** set `{}` `/test/key` `1.0` prints `{"test":{"key":1.0}}`. */
  lemma SetBuildsObjects()
    ensures SetPointer(Object(map[]), "/test/key", OnePointZero())
         == Object(map["test" := Object(map["key" := OnePointZero()])])
  {
    PointerTwo("test", "key", "/test/key");
    ThroughTokens(Object(map[]), "/test/key", ["test", "key"], OnePointZero());
    SetBuildsObjectsTokens();
  }

  lemma SetBuildsObjectsTokens()
    ensures SetTokens(Object(map[]), ["test", "key"], OnePointZero())
         == Object(map["test" := Object(map["key" := OnePointZero()])])
  {
    SetNewKey(map[], ["test", "key"], OnePointZero());
    assert ["test", "key"][1..] == ["key"];
    assert Nested(["key"], OnePointZero()) == Object(map["key" := OnePointZero()]) by {
      assert ["key"][1..] == [];
    }
  }

  /** set `{"key": "number"}` `/key` `1.0` replaces the string. */
  lemma SetReplaces()
    ensures SetPointer(Object(map["key" := String("number")]), "/key", OnePointZero())
         == Object(map["key" := OnePointZero()])
  {
    var doc := Object(map["key" := String("number")]);
    PointerOne("key", "/key");
    ThroughTokens(doc, "/key", ["key"], OnePointZero());
    SetReplacesTokens();
  }

  lemma SetReplacesTokens()
    ensures SetTokens(Object(map["key" := String("number")]), ["key"], OnePointZero())
         == Object(map["key" := OnePointZero()])
  {
    var doc := Object(map["key" := String("number")]);
    var tokens := ["key"];
    assert tokens[0] == "key" && tokens[1..] == [];
    var m := map["key" := String("number")];
    assert PointerInner(doc, "key") == StepResult(doc, Some(Key("key")));
    assert WalkMut(String("number"), []) == MutResult(String("number"), Some([]));
    assert m["key" := m["key"]] == m;
    assert Child(doc, Key("key")) == String("number");
    assert [Key("key")] + [] == [Key("key")];
    var w := WalkMut(doc, tokens);
    assert w.loc == Some([Key("key")]);
    assert w.doc == doc;
    assert [Key("key")][1..] == [];
  }

  /** set `{"key": "number"}` `/a/b/c/d/e/f/g/h` `1.0` keeps `key` and adds
      eight nested objects. */
  lemma SetDeep()
    ensures SetPointer(Object(map["key" := String("number")]), "/a/b/c/d/e/f/g/h", OnePointZero())
         == Object(map["key" := String("number"), "a" := Nested(["b", "c", "d", "e", "f", "g", "h"], OnePointZero())])
  {
    var tokens := ["a", "b", "c", "d", "e", "f", "g", "h"];
    PointerDeep();
    ThroughTokens(Object(map["key" := String("number")]), "/a/b/c/d/e/f/g/h", tokens, OnePointZero());
    SetDeepTokens();
  }

  /** Each character of `cs` as a one-character key. */
  function Singles(cs: string): seq<string>
    decreases |cs|
  {
    if cs == [] then [] else [[cs[0]]] + Singles(cs[1..])
  }

  /** Each character of `cs` preceded by `/`. */
  function Slashed(cs: string): string
    decreases |cs|
  {
    if cs == [] then [] else ['/', cs[0]] + Slashed(cs[1..])
  }

  /** One-character keys without escapes or backslashes are written as
      `/` followed by the character. */
  lemma {:induction false} FormatSingles(cs: string)
    requires forall i :: 0 <= i < |cs| ==> cs[i] != '~' && cs[i] != '/' && cs[i] != '\\'
    ensures FormatPointer(Singles(cs)) == Slashed(cs)
    decreases |cs|
  {
    if cs != [] {
      var t: string, rest := [cs[0]], Singles(cs[1..]);
      assert forall i :: 0 <= i < |cs[1..]| ==> cs[1..][i] == cs[i + 1];
      FormatSingles(cs[1..]);
      EscapePlain(t);
      var s := Singles(cs);
      assert s[0] == t && s[1..] == rest;
      assert FormatPointer(s) == "/" + t + FormatPointer(rest);
      assert "/" + t == ['/', cs[0]];
    }
  }

  /** None of those keys holds a backslash. */
  lemma {:induction false} SinglesPlain(cs: string)
    requires forall i :: 0 <= i < |cs| ==> cs[i] != '\\'
    ensures forall i :: 0 <= i < |Singles(cs)| ==> '\\' !in Singles(cs)[i]
    decreases |cs|
  {
    if cs != [] {
      SinglesPlain(cs[1..]);
      assert Singles(cs)[0] == [cs[0]] && Singles(cs)[1..] == Singles(cs[1..]);
    }
  }

  lemma {:induction false} SlashedAppend(a: string, b: string)
    ensures Slashed(a + b) == Slashed(a) + Slashed(b)
    decreases |a|
  {
    if a == [] {
      assert a + b == b;
    } else {
      assert (a + b)[0] == a[0] && (a + b)[1..] == a[1..] + b;
      SlashedAppend(a[1..], b);
      assert Slashed(a + b) == ['/', a[0]] + Slashed(a[1..] + b);
      assert Slashed(a) == ['/', a[0]] + Slashed(a[1..]);
    }
  }

  lemma {:induction false} SinglesAppend(a: string, b: string)
    ensures Singles(a + b) == Singles(a) + Singles(b)
    decreases |a|
  {
    if a == [] {
      assert a + b == b;
    } else {
      assert (a + b)[0] == a[0] && (a + b)[1..] == a[1..] + b;
      SinglesAppend(a[1..], b);
      assert Singles(a + b) == [[a[0]]] + Singles(a[1..] + b);
      assert Singles(a) == [[a[0]]] + Singles(a[1..]);
    }
  }

  lemma SlashedFour(a: char, b: char, c: char, d: char)
    ensures Slashed([a, b, c, d]) == ['/', a, '/', b, '/', c, '/', d]
  {
    assert [a, b, c, d][1..] == [b, c, d] && [b, c, d][1..] == [c, d];
    assert [c, d][1..] == [d] && [d][1..] == [];
    assert Slashed([d]) == ['/', d];
    assert Slashed([c, d]) == ['/', c] + Slashed([d]);
    assert Slashed([b, c, d]) == ['/', b] + Slashed([c, d]);
    assert Slashed([a, b, c, d]) == ['/', a] + Slashed([b, c, d]);
  }

  lemma SinglesFour(a: char, b: char, c: char, d: char)
    ensures Singles([a, b, c, d]) == [[a], [b], [c], [d]]
  {
    assert [a, b, c, d][1..] == [b, c, d] && [b, c, d][1..] == [c, d];
    assert [c, d][1..] == [d] && [d][1..] == [];
    assert Singles([d]) == [[d]];
    assert Singles([c, d]) == [[c]] + Singles([d]);
    assert Singles([b, c, d]) == [[b]] + Singles([c, d]);
    assert Singles([a, b, c, d]) == [[a]] + Singles([b, c, d]);
  }

  lemma SlashedDeep()
    ensures Slashed("abcdefgh") == "/a/b/c/d/e/f/g/h"
  {
    assert "abcdefgh" == "abcd" + "efgh";
    SlashedAppend("abcd", "efgh");
    SlashedFour('a', 'b', 'c', 'd');
    SlashedFour('e', 'f', 'g', 'h');
  }

  lemma SinglesDeep()
    ensures Singles("abcdefgh") == ["a", "b", "c", "d", "e", "f", "g", "h"]
  {
    assert "abcdefgh" == "abcd" + "efgh";
    SinglesAppend("abcd", "efgh");
    SinglesFour('a', 'b', 'c', 'd');
    SinglesFour('e', 'f', 'g', 'h');
  }

  /** A pointer of one-character plain keys reads back as those keys. */
  lemma PointerSingles(cs: string)
    requires forall i :: 0 <= i < |cs| ==> cs[i] != '~' && cs[i] != '/' && cs[i] != '\\'
    ensures ParsePointer(Unslash(Slashed(cs))) == Some(Singles(cs))
  {
    FormatSingles(cs);
    SinglesPlain(cs);
    FormattedPointerThroughCommands(Singles(cs));
  }

  lemma PointerDeep()
    ensures ParsePointer(Unslash("/a/b/c/d/e/f/g/h")) == Some(["a", "b", "c", "d", "e", "f", "g", "h"])
  {
    PointerSingles("abcdefgh");
    SlashedDeep();
    SinglesDeep();
  }

  lemma SetDeepTokens()
    ensures SetTokens(Object(map["key" := String("number")]), ["a", "b", "c", "d", "e", "f", "g", "h"], OnePointZero())
         == Object(map["key" := String("number"), "a" := Nested(["b", "c", "d", "e", "f", "g", "h"], OnePointZero())])
  {
    var tokens := ["a", "b", "c", "d", "e", "f", "g", "h"];
    SetNewKey(map["key" := String("number")], tokens, OnePointZero());
    assert tokens[1..] == ["b", "c", "d", "e", "f", "g", "h"];
  }

  lemma IndexFive()
    ensures ParseIndex("5") == Some(5)
  {
    assert "5"[..0] == [];
  }

  /** set `{"k": [1, 2]}` `/k/5` `9` fails and leaves the array as it was. */
  lemma SetOutOfRange()
    ensures SetPointer(Object(map["k" := Array([One(), Number(PosInt(2))])]), "/k/5", Number(PosInt(9)))
         == Object(map["k" := Array([One(), Number(PosInt(2))])])
  {
    var doc := Object(map["k" := Array([One(), Number(PosInt(2))])]);
    PointerTwo("k", "5", "/k/5");
    ThroughTokens(doc, "/k/5", ["k", "5"], Number(PosInt(9)));
    SetOutOfRangeTokens();
  }

  lemma SetOutOfRangeTokens()
    ensures SetTokens(Object(map["k" := Array([One(), Number(PosInt(2))])]), ["k", "5"], Number(PosInt(9)))
         == Object(map["k" := Array([One(), Number(PosInt(2))])])
  {
    var a := [One(), Number(PosInt(2))];
    IndexFive();
    assert ["k", "5"][1..] == ["5"];
    assert WalkMut(Array(a), ["5"]).loc == None;
  }

  /** `set {} /test 1` prints `{"test":1}` and `get {"test":1} /test`
      prints `1`. */
  lemma SetThenGetOnEmpty()
    ensures SetPointer(Object(map[]), "/test", One()) == Object(map["test" := One()])
    ensures GetPointer(Object(map["test" := One()]), "/test") == Some(One())
  {
    PointerOne("test", "/test");
    ThroughTokens(Object(map[]), "/test", ["test"], One());
    ThroughTokens(Object(map["test" := One()]), "/test", ["test"], One());
    SetOneKeyOnEmpty();
  }

  lemma SetOneKeyOnEmpty()
    ensures SetTokens(Object(map[]), ["test"], One()) == Object(map["test" := One()])
  {
    SetNewKey(map[], ["test"], One());
    assert ["test"][1..] == [];
  }

  /** set `{"key": "number"}` `/other` `1.0` keeps `key` and adds `other`. */
  lemma SetAddsKey()
    ensures SetPointer(Object(map["key" := String("number")]), "/other", OnePointZero())
         == Object(map["key" := String("number"), "other" := OnePointZero()])
  {
    PointerOne("other", "/other");
    ThroughTokens(Object(map["key" := String("number")]), "/other", ["other"], OnePointZero());
    SetAddsKeyTokens();
  }

  lemma SetAddsKeyTokens()
    ensures SetTokens(Object(map["key" := String("number")]), ["other"], OnePointZero())
         == Object(map["key" := String("number"), "other" := OnePointZero()])
  {
    SetNewKey(map["key" := String("number")], ["other"], OnePointZero());
    assert ["other"][1..] == [];
  }

  /** `~01` decodes to `~1`, not to `/`: `~1` is replaced before `~0`. */
  lemma DecodeOrder()
    ensures DecodeToken("~01") == "~1"
  {
    ReplaceSkip('0', "1", "~1", "/");
    assert Replace("1", "~1", "/") == "1";
    var s := "~01";
    assert s[..2] == "~0" && s[1..] == "01";
    assert "01" == ['0'] + "1";
    assert Replace("~01", "~1", "/") == "~01";
    ReplaceFront("1", "~0", "~");
    assert "~01" == "~0" + "1";
  }

  /** The `number` type test: `1.123`, `1`, `3e-12` and `-2.1e5` are numbers. */
  lemma TypeOfNumbers()
    ensures TypeOf(Number(Float(1.123))) == "number"
    ensures TypeOf(One()) == "number"
    ensures TypeOf(Number(Float(0.000000000003))) == "number"
    ensures TypeOf(Number(Float(-210000.0))) == "number"
  {
  }

  /** The `object` type test: `{}` and `{"key": 123}` are objects. */
  lemma TypeOfObjects()
    ensures TypeOf(Object(map[])) == "object"
    ensures TypeOf(Object(map["key" := Number(PosInt(123))])) == "object"
  {
  }

  /** The `array` type test: `[]` and `[1,2,3,4]` are arrays. */
  lemma TypeOfArrays()
    ensures TypeOf(Array([])) == "array"
    ensures TypeOf(Array([One(), Number(PosInt(2)), Number(PosInt(3)), Number(PosInt(4))])) == "array"
  {
  }

  /** The `null` type test on the input that parses: `null`. */
  lemma TypeOfNull()
    ensures TypeOf(Null) == "null"
  {
  }

  /** The `boolean` type test: `true` and `false` are booleans. */
  lemma TypeOfBooleans()
    ensures TypeOf(Bool(true)) == "boolean"
    ensures TypeOf(Bool(false)) == "boolean"
  {
  }

  /** The `string` type test: `"test"`, `"false"`, `"1.123"` and `"string"`
      are strings, whatever they spell. */
  lemma TypeOfStrings()
    ensures TypeOf(String("test")) == "string"
    ensures TypeOf(String("false")) == "string"
    ensures TypeOf(String("1.123")) == "string"
    ensures TypeOf(String("string")) == "string"
  {
  }

  /** get `{"test": "input"}` `/test` prints `"input"`. */
  lemma GetKey()
    ensures GetPointer(Object(map["test" := String("input")]), "/test") == Some(String("input"))
  {
    PointerOne("test", "/test");
    ThroughTokens(Object(map["test" := String("input")]), "/test", ["test"], Null);
    assert ["test"][1..] == [];
  }

  /** get `{"key": "number"}` `/key` prints `"number"`. */
  lemma GetWorks()
    ensures GetPointer(Object(map["key" := String("number")]), "/key") == Some(String("number"))
  {
    PointerOne("key", "/key");
    ThroughTokens(Object(map["key" := String("number")]), "/key", ["key"], Null);
    assert ["key"][1..] == [];
  }

  function Words(): seq<Value> { [String("one"), String("two"), String("three")] }

  /** get `{"key": ["one", "two", "three"]}` `/key/1` prints `"two"`. */
  lemma GetSliceSecond()
    ensures GetPointer(Object(map["key" := Array(Words())]), "/key/1") == Some(String("two"))
  {
    PointerTwo("key", "1", "/key/1");
    ThroughTokens(Object(map["key" := Array(Words())]), "/key/1", ["key", "1"], Null);
    GetSliceSecondTokens();
  }

  lemma GetSliceSecondTokens()
    ensures Resolve(Object(map["key" := Array(Words())]), ["key", "1"]) == Some(String("two"))
  {
    IndexOne();
    assert ["key", "1"][1..] == ["1"] && ["1"][1..] == [];
  }

  /** get `{"key": ["one", "two", "three"]}` `/key/2` prints `"three"`. */
  lemma GetSliceThird()
    ensures GetPointer(Object(map["key" := Array(Words())]), "/key/2") == Some(String("three"))
  {
    PointerTwo("key", "2", "/key/2");
    ThroughTokens(Object(map["key" := Array(Words())]), "/key/2", ["key", "2"], Null);
    GetSliceThirdTokens();
  }

  lemma GetSliceThirdTokens()
    ensures Resolve(Object(map["key" := Array(Words())]), ["key", "2"]) == Some(String("three"))
  {
    IndexTwo();
    assert ["key", "2"][1..] == ["2"] && ["2"][1..] == [];
  }

  function Pairs(): seq<Value> {
    [Object(map["one" := One()]), Object(map["two" := Number(PosInt(2))]), Object(map["three" := Number(PosInt(3))])]
  }

  /** get `{"key": [{"one": 1}, {"two": 2}, {"three": 3}]}` `/key/2/three` prints `3`. */
  lemma GetNestedThree()
    ensures GetPointer(Object(map["key" := Array(Pairs())]), "/key/2/three") == Some(Number(PosInt(3)))
  {
    PointerThree("key", "2", "three", "/key/2/three");
    ThroughTokens(Object(map["key" := Array(Pairs())]), "/key/2/three", ["key", "2", "three"], Null);
    GetNestedThreeTokens();
  }

  lemma GetNestedThreeTokens()
    ensures Resolve(Object(map["key" := Array(Pairs())]), ["key", "2", "three"]) == Some(Number(PosInt(3)))
  {
    IndexTwo();
    assert ["key", "2", "three"][1..] == ["2", "three"] && ["2", "three"][1..] == ["three"] && ["three"][1..] == [];
  }

  /** The same document at `/key/1/two` prints `2`. */
  lemma GetNestedTwo()
    ensures GetPointer(Object(map["key" := Array(Pairs())]), "/key/1/two") == Some(Number(PosInt(2)))
  {
    PointerThree("key", "1", "two", "/key/1/two");
    ThroughTokens(Object(map["key" := Array(Pairs())]), "/key/1/two", ["key", "1", "two"], Null);
    GetNestedTwoTokens();
  }

  lemma GetNestedTwoTokens()
    ensures Resolve(Object(map["key" := Array(Pairs())]), ["key", "1", "two"]) == Some(Number(PosInt(2)))
  {
    IndexOne();
    assert ["key", "1", "two"][1..] == ["1", "two"] && ["1", "two"][1..] == ["two"] && ["two"][1..] == [];
  }

  /** The same document at `/key/0` prints `{"one":1}`. */
  lemma GetNestedFirst()
    ensures GetPointer(Object(map["key" := Array(Pairs())]), "/key/0") == Some(Object(map["one" := One()]))
  {
    PointerTwo("key", "0", "/key/0");
    ThroughTokens(Object(map["key" := Array(Pairs())]), "/key/0", ["key", "0"], Null);
    GetNestedFirstTokens();
  }

  lemma GetNestedFirstTokens()
    ensures Resolve(Object(map["key" := Array(Pairs())]), ["key", "0"]) == Some(Object(map["one" := One()]))
  {
    IndexZero();
    assert ["key", "0"][1..] == ["0"] && ["0"][1..] == [];
  }

  /** get `{"test": [{"sub": ["ok"]}]}` `/test/0/sub/0` prints `"ok"`. */
  lemma GetDeepHelp()
    ensures GetPointer(Object(map["test" := Array([Object(map["sub" := Array([String("ok")])])])]), "/test/0/sub/0")
         == Some(String("ok"))
  {
    var doc := Object(map["test" := Array([Object(map["sub" := Array([String("ok")])])])]);
    PointerFour("test", "0", "sub", "0", "/test/0/sub/0");
    ThroughTokens(doc, "/test/0/sub/0", ["test", "0", "sub", "0"], Null);
    GetDeepHelpTokens();
  }

  lemma GetDeepHelpTokens()
    ensures Resolve(Object(map["test" := Array([Object(map["sub" := Array([String("ok")])])])]), ["test", "0", "sub", "0"])
         == Some(String("ok"))
  {
    IndexZero();
    var tokens := ["test", "0", "sub", "0"];
    assert tokens[1..] == ["0", "sub", "0"] && tokens[1..][1..] == ["sub", "0"];
    assert tokens[1..][1..][1..] == ["0"] && ["0"][1..] == [];
  }

  /** set `{"test": "input"}` `/test` `"input"` prints the input unchanged. */
  lemma SetSameValue()
    ensures SetPointer(Object(map["test" := String("input")]), "/test", String("input"))
         == Object(map["test" := String("input")])
  {
    GetKey();
    SetExistingIsNoop(Object(map["test" := String("input")]), "/test", String("input"));
  }

  /** set `{}` `/test` `"input"` prints `{"test":"input"}`. */
  lemma SetOnEmptyHelp()
    ensures SetPointer(Object(map[]), "/test", String("input")) == Object(map["test" := String("input")])
  {
    PointerOne("test", "/test");
    ThroughTokens(Object(map[]), "/test", ["test"], String("input"));
    SetNewKey(map[], ["test"], String("input"));
    assert ["test"][1..] == [];
  }

  /** set `{"key": "number"}` `/nested/other` `1.0` keeps `key` and adds
      `{"nested": {"other": 1.0}}`. */
  lemma SetNestedAddition()
    ensures SetPointer(Object(map["key" := String("number")]), "/nested/other", OnePointZero())
         == Object(map["key" := String("number"), "nested" := Object(map["other" := OnePointZero()])])
  {
    PointerTwo("nested", "other", "/nested/other");
    ThroughTokens(Object(map["key" := String("number")]), "/nested/other", ["nested", "other"], OnePointZero());
    SetNestedAdditionTokens();
  }

  lemma SetNestedAdditionTokens()
    ensures SetTokens(Object(map["key" := String("number")]), ["nested", "other"], OnePointZero())
         == Object(map["key" := String("number"), "nested" := Object(map["other" := OnePointZero()])])
  {
    SetNewKey(map["key" := String("number")], ["nested", "other"], OnePointZero());
    assert ["nested", "other"][1..] == ["other"];
    assert Nested(["other"], OnePointZero()) == Object(map["other" := OnePointZero()]) by {
      assert ["other"][1..] == [];
    }
  }

  /** `type 1` prints `number`. */
  lemma TypeOfOne()
    ensures TypeOf(One()) == "number"
  {
  }
}
