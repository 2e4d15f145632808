# bash_map JSON Pointer engine, modelled in Dafny

`bash_map` is a small command-line tool that reads and writes inside a JSON
document addressed by a JSON Pointer (RFC 6901). This project models its
engine, which lives in `src/main.rs`:

- **Pointer text** (`Syntax`). Rust's `str::replace` and `str::split`, the
  token decoding of section 4 of RFC 6901 (`~1` becomes `/` first, then `~0`
  becomes `~`), and the pointer rules: the empty pointer is the whole
  document, and any other pointer must start with `/`. The escaping of
  section 3 of RFC 6901 (`EscapeToken`, `FormatPointer`) is modelled as the partner that
  decoding inverts.
- **Array indices** (`ArrayIndex`). `parse_index` and the
  `str::parse::<usize>` it calls, with `usize` taken as 64 bits.
- **Read resolver** (`Read.Resolve`). serde_json's `Value::pointer`, which
  `do_get` calls. A missing key, a bad or out-of-range index, or a step into
  a scalar fails. Nothing changes.
- **Write resolver** (`Write`). `pointer_inner` is the pure function
  `PointerInner`. The `try_fold` over the tokens is the pure function
  `WalkMut`. The in-place version is the class `Document`: `Inner` changes
  `root` the way `pointer_inner` changes its `&mut Value`, `Walk` is the fold
  as a loop, and `PointerMut` is `pointer_mut`. Each is proved equal to the
  pure functions. A `&mut Value` handle is a `Path`, the steps from the root
  to the addressed value (module `Json`).
- **Commands** (`Commands`). `do_set` is the method `DoSet`, and its result
  is the function `SetPointer`. `do_get` is `GetPointer`, and `do_type` is
  `TypeOf`. All three take documents that are already parsed.
- **Examples** (`Examples`). The cases of the repository's unit tests, help
  tables and command-line tests that run on parsed documents, stated on the
  model. The test that reads a document from an environment variable, and
  the inputs of the `null` type test that are not JSON, are not among them
  (see "Left out").

What the proofs establish, beyond the contracts of each step:

- After a successful set, a get at the same pointer returns the value just
  written. If a set fails, the document is unchanged and a get there fails
  too (`SetThenGet`).
- A set that fails changes nothing at all. An object step changes something
  only when it adds a missing key bound to null. A scalar step always
  changes something: it replaces the scalar with a one-key object. Either
  way the walk then continues from a fresh `null`, and from `null` every
  later step succeeds. Only an existing array can make the walk fail, and
  the walk reaches an existing array only if nothing has changed so far
  (`WalkMut`'s contract).
- Read resolution succeeds exactly where write resolution succeeds without
  changing anything, and both reach the same value
  (`ResolveIsUnchangedWalk`).
- An index has exactly one accepted spelling (`ParseIndexRoundTrip`).
  Parsing a formatted pointer gives its tokens back, whatever `/` or `~`
  they contain (`ParseFormat`).

Points of the code worth knowing. Where a bullet names a lemma, that lemma
proves it:

- There is no `compare` subcommand and no structural comparator. Only
  `init`, `get`, `set` and `type` exist.
- `''` and `""` are not empty pointers. Like any other non-empty text that
  does not start with `/` or `\/`, they make `set` return the document
  unchanged and `get` print nothing (`MalformedPointer`).
- Every `\/` in a pointer becomes `/`, not only a leading one. So a key of
  plain characters that ends in a backslash, followed by a plain key,
  cannot be addressed by its RFC 6901 spelling: the pointer addresses the
  key without the backslash (`BackslashKeyGeneral`). As the only token such
  a key is read correctly (`BackslashLastKey`). Pointers whose keys contain
  no backslash are unaffected (`FormattedPointerThroughCommands`).
- A failed set changes nothing, because a key is never created before a
  failing array step (`WalkMut`'s contract, the second point of the list
  above). So `set` is all-or-nothing.

## Model

| member | source | states |
|---|---|---|
| `Json.PutAt` | src/main.rs:107 | assigning through a location keeps the location valid and leaves exactly the assigned value there |
| `Json.PutAtFrame` | src/main.rs:107 | assigning through a location leaves every location that branches off it before its end valid and holding what it held |
| `Syntax.Replace` | src/main.rs:105 | `str::replace`, as `Unslash` uses it, leaves a string unchanged when the pattern's first character never occurs in it |
| `Syntax.ReplaceAbsent` | src/main.rs:105 | `str::replace` leaves a string unchanged when the pattern occurs nowhere in it |
| `Syntax.ReplaceFirst` | src/main.rs:105 | `str::replace` copies the text before the leftmost occurrence, puts the replacement in its place and carries on after it, so every occurrence is replaced from left to right without overlap |
| `Syntax.Split` | src/main.rs:122-123 | splitting on `/` gives at least one piece, and no piece contains `/` |
| `Syntax.JoinSplit` | src/main.rs:122-123 | joining the pieces of a split with the separator gives back the original string |
| `Syntax.SplitJoin` | src/main.rs:122-123 | pieces that contain no separator come back unchanged from splitting their join |
| `Syntax.DecodeEscape` | src/main.rs:125 | `DecodeToken`, which replaces `~1` then `~0`, inverts the section 3 escaping of RFC 6901 for every key |
| `Syntax.ParsePointer` | src/main.rs:116-125 | a pointer yields tokens exactly when it is empty or starts with `/`; the empty pointer yields no tokens |
| `Syntax.ParseFormat` | src/main.rs:116-125 | parsing the RFC 6901 spelling of any token sequence gives that sequence back |
| `Syntax.EscapeIntroduces` | src/main.rs:125 | escaping a key adds no character other than `~`, `0` and `1` |
| `Syntax.FormatIntroduces` | src/main.rs:122-125 | formatting a pointer adds no character other than `/`, `~`, `0` and `1` |
| `ArrayIndex.ParseIndex` | src/main.rs:151-156 | `parse_index`, with `ParseUsize` as `str::parse::<usize>`: an index parses exactly when it is `0` or a digit string that starts with 1-9 and fits in a usize; the result is its decimal value, so `+`, `-`, leading zeros, non-digits and the empty token are refused |
| `ArrayIndex.ParseIndexRoundTrip` | src/main.rs:151-156 | every index up to usize::MAX parses from its decimal spelling, and that spelling is the only one accepted |
| `Read.Resolve` | src/main.rs:159 | no tokens give the document itself; a scalar, a missing key, or a bad or out-of-range index fails the read |
| `Write.PointerInner` | src/main.rs:129-149 | an object gains the token bound to null only if the key is missing, and every existing key and value is kept; an array is never changed, and a step is taken exactly for a valid in-range index; a scalar becomes `{token: null}`; any change leads into a fresh null |
| `Write.WalkMut` | src/main.rs:122-126 | a successful walk returns a valid location as long as the pointer; a failed walk leaves the document exactly as it was; a walk from a scalar never fails |
| `Write.ResolveIsUnchangedWalk` | src/main.rs:114-159 | the read resolver succeeds exactly when the write resolver succeeds without changing the document, and both reach the same value |
| `Write.ResolveAfterWalk` | src/main.rs:105-107 | whatever is assigned at the location the write resolver returns is what the read resolver then finds |
| `Write.WalkStep` | src/main.rs:126 | one turn of the fold, seen from the root, is the step at the current location followed by the rest of the walk from the child |
| `Write.Document.Inner` | src/main.rs:129-149 | editing in place at a location gives the document with that location's value replaced by `PointerInner`'s new target, and returns the child's location or nothing |
| `Write.Document.Walk` | src/main.rs:126 | the loop over the tokens leaves the document and returns the location that `WalkMut` describes |
| `Write.Document.PointerMut` | src/main.rs:114-127 | `pointer_mut` edits the document and returns the location as specified: the root for the empty pointer, and nothing with no change for a pointer not starting with `/` |
| `Commands.DoSet` | src/main.rs:103-112 | the document printed by `set` is `SetPointer` of the input: the value is assigned at the location reached, or the document is returned as it stands when there is no location |
| `Commands.TypeOf` | src/main.rs:89-101 | every value gets one of the six tags |
| `Commands.TypeOfExclusive` | src/main.rs:89-101 | two values get the same tag exactly when they are the same variant |
| `Commands.SetThenGet` | src/main.rs:103-162 | after a set, a get at the same pointer returns the written value; otherwise the set changed nothing and the get fails too |
| `Commands.SetExistingIsNoop` | src/main.rs:103-112 | setting the value a get already finds leaves the document unchanged |
| `Commands.SetIdempotent` | src/main.rs:103-112 | setting the same value at the same pointer twice is the same as setting it once |
| `Commands.EmptyPointer` | src/main.rs:116-118 | the empty pointer makes set replace the whole document and get return the whole document |
| `Commands.MalformedPointer` | src/main.rs:105-121 | a non-empty pointer that starts neither with `/` nor with `\/` makes set return the document unchanged and get return nothing |
| `Commands.GetPointer` | src/main.rs:158-162 | whatever get returns is the value at some valid location of the document |
| `Commands.GetAtWalk` | src/main.rs:158-162 | get finds a value exactly when the pointer parses and the write walk along its tokens reaches a location without changing the document, and the value is the one at that location |
| `Commands.SetStepKey` | src/main.rs:122-134 | a set whose first token is an existing key of an object replaces that key's value with the set of the rest of the tokens inside it |
| `Commands.SetStepIndex` | src/main.rs:122-135 | a set whose first token is an in-range index of an array replaces that element with the set of the rest of the tokens inside it |
| `Commands.SetKeepsOutside` | src/main.rs:103-112 | a set that creates nothing leaves every location branching off the written one valid and unchanged |
| `Commands.SetKeepsSiblings` | src/main.rs:131-134 | a set through an object keeps every other key and value, and its keys become the old keys plus the first token |
| `Commands.SetNewKey` | src/main.rs:131-134 | a set below a missing key adds that key, bound to nested one-key objects that end in the value |
| `Commands.SetKeepsArrayShape` | src/main.rs:135 | a set through an array keeps its length and every element other than the addressed one; with a bad or out-of-range index the array is returned as it was |
| `Commands.SetIntoNull` | src/main.rs:136-147 | a set into null never fails and builds one nested object per token |
| `Commands.SetThroughScalar` | src/main.rs:136-147 | a set through any scalar replaces it with nested one-key objects ending in the value |
| `Commands.FormattedPointerThroughCommands` | src/main.rs:105 | when no token contains a backslash, the `\/` replacement leaves the RFC 6901 spelling of the tokens intact |
| `Commands.BackslashKeyGeneral` | src/main.rs:105-125 | for any key `a` without `~`, `/` or `\` and any such key `b`, the replacement turns the spelling of `a\` and `b` into the spelling of `a` and `b`, and the pointer parses to `a` and `b` |
| `Commands.BackslashKeyPair` | src/main.rs:105 | for any one-character key `c` and any plain key `b`, the replacement turns the spelling of the keys `c\` and `b` into the spelling of `c` and `b` |
| `Commands.BackslashBeforeSeparator` | src/main.rs:105 | the replacement turns the spelling of the keys `a\` and `b` into the spelling of `a` and `b` |
| `Commands.BackslashLastKey` | src/main.rs:105-125 | for any key `a` without `~`, `/` or `\`, the pointer spelling the single key `a\` reads back as `a\` |
| `Commands.BackslashLastToken` | src/main.rs:105 | the spelling of the single key `a\` reads back as `a\` |
| `Examples.GetKey` | src/main.rs:42 | get `{"test":"input"}` at `/test` gives `"input"` |
| `Examples.GetArrayElement` | src/main.rs:43 | get `{"test":[1,2,3,4]}` at `/test/2` gives `3` |
| `Examples.GetDeepHelp` | src/main.rs:44 | get `{"test":[{"sub":["ok"]}]}` at `/test/0/sub/0` gives `"ok"` |
| `Examples.SetSameValue` | src/main.rs:60 | set `{"test":"input"}` at `/test` to `"input"` gives the input unchanged |
| `Examples.SetOnEmptyHelp` | src/main.rs:61 | set `{}` at `/test` to `"input"` gives `{"test":"input"}` |
| `Examples.GetWorks` | src/main.rs:407-420 | get `{"key":"number"}` at `/key` gives `"number"` |
| `Examples.GetSliceSecond` | src/main.rs:423-439 | get `{"key":["one","two","three"]}` at `/key/1` gives `"two"` |
| `Examples.GetSliceThird` | src/main.rs:423-447 | get `{"key":["one","two","three"]}` at `/key/2` gives `"three"` |
| `Examples.GetNestedThree` | src/main.rs:451-467 | get `{"key":[{"one":1},{"two":2},{"three":3}]}` at `/key/2/three` gives `3` |
| `Examples.GetNestedTwo` | src/main.rs:451-475 | the same document at `/key/1/two` gives `2` |
| `Examples.GetNestedFirst` | src/main.rs:451-483 | the same document at `/key/0` gives `{"one":1}` |
| `Examples.SetNestedAddition` | src/main.rs:344-362 | set `{"key":"number"}` at `/nested/other` to `1.0` keeps `key` and adds `{"nested":{"other":1.0}}` |
| `Examples.GetEscapedKey` | src/main.rs:391-404 | get `{"key":"number"}` at `\/key` gives `"number"` |
| `Examples.SetInvalidKey` | src/main.rs:286-300 | set with the pointer `invalid key` returns the input unchanged |
| `Examples.SetBuildsObjects` | src/main.rs:62 | set `{}` at `/test/key` to `1.0` gives `{"test":{"key":1.0}}` |
| `Examples.SetReplaces` | src/main.rs:303-320 | set `{"key":"number"}` at `/key` to `1.0` gives `{"key":1.0}` |
| `Examples.SetAddsKey` | src/main.rs:323-341 | set `{"key":"number"}` at `/other` to `1.0` keeps `key` and adds `other` |
| `Examples.SetDeep` | src/main.rs:365-383 | set `{"key":"number"}` at the pointer `/a/b/c/d/e/f/g/h` to `1.0` keeps `key` and adds `a` bound to nested one-key objects for `b` to `h` ending in `1.0` |
| `Examples.SetOutOfRange` | src/main.rs:135 | set `{"k":[1,2]}` at `/k/5` returns the document unchanged |
| `Examples.SetThenGetOnEmpty` | tests/cli.rs:14-29 | set `{}` at `/test` to `1` gives `{"test":1}`, and get `{"test":1}` at `/test` gives `1` |
| `Examples.DecodeOrder` | src/main.rs:125 | the token `~01` decodes to `~1`, not `/` |
| `Examples.TypeOfOne` | tests/cli.rs:32-37 | `type 1` gives `number` |
| `Examples.TypeOfNumbers` | src/main.rs:491-517 | `1.123`, `1`, `3e-12` and `-2.1e5` get the tag `number` |
| `Examples.TypeOfObjects` | src/main.rs:519-533 | `{}` and `{"key":123}` get the tag `object` |
| `Examples.TypeOfArrays` | src/main.rs:535-549 | `[]` and `[1,2,3,4]` get the tag `array` |
| `Examples.TypeOfNull` | src/main.rs:551-577 | `null` gets the tag `null` |
| `Examples.TypeOfBooleans` | src/main.rs:579-593 | `true` and `false` get the tag `boolean` |
| `Examples.TypeOfStrings` | src/main.rs:595-621 | `"test"`, `"false"`, `"1.123"` and `"string"` get the tag `string` |

## Left out

- Command-line parsing, help text, `main` and printing (src/main.rs:1-87) are not modelled. They are user interface, not engine logic.
- `variable_or_object` and `variable_or_value` (src/main.rs:165-183) are not modelled. They parse JSON text and read environment variables. The commands take the already-parsed document or value instead, so `type` on unparseable input (which gives `null`) is out of the model.
- Rendering with `serde_json::to_string` (src/main.rs:108, 110, 160) is not modelled. Get yields an `Option<Value>`, where `None` stands for the empty output, and set yields the document.
- Numbers are not modelled beyond their kind. They keep serde_json's kind (`PosInt`, `NegInt`, `Float`) as unbounded integers or reals, because they are only copied.
- Object key order is not modelled. Objects are maps.
- `usize` is taken as 64 bits (`ArrayIndex.USIZE_MAX`). On a 32-bit target the bound would be 2^32 - 1.
- The `doc_test` help-table scraper (src/main.rs:186-279) is not modelled. It is test-harness text parsing. Its rows appear under `Examples` instead.
- The `init` subcommand and the external `baret` command run by tests/cli.rs are not modelled. `init` only prints `{}`.
