/**
  Pointer text: splitting a JSON Pointer (RFC 6901) into reference tokens and
  decoding the `~1` / `~0` escapes of section 4 of RFC 6901.
 */
module Syntax {
  import opened Wrappers

  /** `pat` occurs in `s` starting at position `i`. */
  predicate OccursAt(s: string, pat: string, i: int) {
    0 <= i && i + |pat| <= |s| && s[i..i + |pat|] == pat
  }

  /** Rust's `str::replace`: every non-overlapping occurrence of `pat`,
      found from left to right, is replaced by `rep`. */
  function Replace(s: string, pat: string, rep: string): (r: string)
    requires pat != []
    ensures (forall i :: 0 <= i < |s| ==> s[i] != pat[0]) ==> r == s
    decreases |s|
  {
    if |s| < |pat| then s
    else if s[..|pat|] == pat then rep + Replace(s[|pat|..], pat, rep)
    else [s[0]] + Replace(s[1..], pat, rep)
  }

  /** Occurrences in `t` are the occurrences in `[c] + t`, one place later. */
  lemma OccursShift(c: char, t: string, pat: string, i: nat)
    ensures OccursAt([c] + t, pat, i + 1) <==> OccursAt(t, pat, i)
  {
    if i + |pat| <= |t| {
      assert ([c] + t)[i + 1..i + 1 + |pat|] == t[i..i + |pat|];
    }
  }

  /** A string in which `pat` occurs nowhere is left as it is. */
  lemma {:induction false} ReplaceAbsent(s: string, pat: string, rep: string)
    requires pat != []
    requires forall i :: !OccursAt(s, pat, i)
    ensures Replace(s, pat, rep) == s
    decreases |s|
  {
    if |s| >= |pat| {
      var t := s[1..];
      assert s == [s[0]] + t;
      assert !OccursAt(s, pat, 0);
      forall i: int
        ensures !OccursAt(t, pat, i)
      {
        if i >= 0 {
          OccursShift(s[0], t, pat, i);
        }
      }
      ReplaceAbsent(t, pat, rep);
    }
  }

  /** The first occurrence of `pat`, at position `n`, is replaced, the text
      before it is copied, and the search goes on after it. */
  lemma ReplaceFirst(s: string, pat: string, rep: string, n: nat)
    requires pat != []
    requires OccursAt(s, pat, n)
    requires forall i :: 0 <= i < n ==> !OccursAt(s, pat, i)
    ensures Replace(s, pat, rep) == s[..n] + (rep + Replace(s[n + |pat|..], pat, rep))
  {
    ReplaceCopy(s, pat, rep, n);
    ReplaceAt(s, pat, rep, n);
  }

  /** An occurrence at the front of `s[n..]` is replaced. */
  lemma ReplaceAt(s: string, pat: string, rep: string, n: nat)
    requires pat != [] && OccursAt(s, pat, n)
    ensures Replace(s[n..], pat, rep) == rep + Replace(s[n + |pat|..], pat, rep)
  {
    var rest := s[n..];
    assert rest[..|pat|] == pat;
    assert rest[|pat|..] == s[n + |pat|..];
  }

  /** Up to the first occurrence of `pat`, `Replace` copies its input. */
  lemma {:induction false} ReplaceCopy(s: string, pat: string, rep: string, n: nat)
    requires pat != [] && n <= |s|
    requires forall i :: 0 <= i < n ==> !OccursAt(s, pat, i)
    ensures Replace(s, pat, rep) == s[..n] + Replace(s[n..], pat, rep)
    decreases n
  {
    if n == 0 {
      assert s[..0] == [] && s[0..] == s;
    } else {
      var t := s[1..];
      var tail := Replace(s[n..], pat, rep);
      assert Replace(s, pat, rep) == [s[0]] + Replace(t, pat, rep) by {
        assert s == [s[0]] + t;
        assert !OccursAt(s, pat, 0);
        ReplaceMiss(s[0], t, pat, rep);
      }
      NoneBeforeShift(s, pat, n);
      ReplaceCopy(t, pat, rep, n - 1);
      assert t[n - 1..] == s[n..];
      CopyStep(s, n, tail);
    }
  }

  lemma CopyStep(s: string, n: nat, tail: string)
    requires 0 < n <= |s|
    ensures [s[0]] + (s[1..][..n - 1] + tail) == s[..n] + tail
  {
    assert s[..n] == [s[0]] + s[1..][..n - 1];
  }

  lemma NoneBeforeShift(s: string, pat: string, n: nat)
    requires 0 < n && n <= |s|
    requires forall i :: 0 <= i < n ==> !OccursAt(s, pat, i)
    ensures forall i :: 0 <= i < n - 1 ==> !OccursAt(s[1..], pat, i)
  {
    assert s == [s[0]] + s[1..];
    forall i | 0 <= i < n - 1
      ensures !OccursAt(s[1..], pat, i)
    {
      OccursShift(s[0], s[1..], pat, i);
    }
  }

  /** Rust's `str::split` on one character: the pieces between separators,
      including empty ones; an empty string gives one empty piece. */
  function Split(s: string, sep: char): (parts: seq<string>)
    ensures |parts| >= 1
    ensures forall i :: 0 <= i < |parts| ==> sep !in parts[i]
    decreases |s|
  {
    if s == [] then [[]]
    else
      var rest := Split(s[1..], sep);
      if s[0] == sep then [[]] + rest
      else [[s[0]] + rest[0]] + rest[1..]
  }

  /** The pieces glued back together with `sep` between them. */
  function Join(parts: seq<string>, sep: char): string
    requires |parts| >= 1
    decreases |parts|
  {
    if |parts| == 1 then parts[0] else parts[0] + [sep] + Join(parts[1..], sep)
  }

  lemma {:induction false} JoinExtendFirst(c: char, parts: seq<string>, sep: char)
    requires |parts| >= 1
    ensures Join([[c] + parts[0]] + parts[1..], sep) == [c] + Join(parts, sep)
  {
    var ps := [[c] + parts[0]] + parts[1..];
    assert ps[1..] == parts[1..];
  }

  /** Splitting loses nothing: joining the pieces gives the string back. */
  lemma {:induction false} JoinSplit(s: string, sep: char)
    ensures Join(Split(s, sep), sep) == s
    decreases |s|
  {
    if s != [] {
      var rest := Split(s[1..], sep);
      JoinSplit(s[1..], sep);
      if s[0] == sep {
        assert ([[]] + rest)[1..] == rest;
        assert s == [s[0]] + s[1..];
      } else {
        JoinExtendFirst(s[0], rest, sep);
        assert s == [s[0]] + s[1..];
      }
    }
  }

  /** Pieces that contain no separator come back from `Split` unchanged. */
  lemma {:induction false} SplitJoin(parts: seq<string>, sep: char)
    requires |parts| >= 1
    requires forall i :: 0 <= i < |parts| ==> sep !in parts[i]
    ensures Split(Join(parts, sep), sep) == parts
    decreases |parts|
  {
    if |parts| == 1 {
      SplitNoSeparator(parts[0], sep);
    } else {
      SplitJoin(parts[1..], sep);
      SplitAfterPiece(parts[0], Join(parts[1..], sep), sep);
      assert parts == [parts[0]] + parts[1..];
    }
  }

  lemma {:induction false} SplitNoSeparator(s: string, sep: char)
    requires sep !in s
    ensures Split(s, sep) == [s]
    decreases |s|
  {
    if s != [] {
      SplitNoSeparator(s[1..], sep);
      assert s == [s[0]] + s[1..];
    }
  }

  /** A leading piece without separator, then a separator, then the rest. */
  lemma {:induction false} SplitAfterPiece(a: string, b: string, sep: char)
    requires sep !in a
    ensures Split(a + [sep] + b, sep) == [a] + Split(b, sep)
    decreases |a|
  {
    var s := a + [sep] + b;
    if a == [] {
      assert s[0] == sep && s[1..] == b;
    } else {
      assert s[0] == a[0] && s[1..] == a[1..] + [sep] + b;
      SplitAfterPiece(a[1..], b, sep);
      assert [a[0]] + a[1..] == a;
    }
  }

  /** Section 4 of RFC 6901: `~1` becomes `/` first, then `~0` becomes `~`. */
  function DecodeToken(t: string): string {
    Replace(Replace(t, "~1", "/"), "~0", "~")
  }

  /** Section 3 of RFC 6901: how a key is written inside a pointer. */
  function EscapeToken(k: string): (e: string)
    ensures '/' !in e
    decreases |k|
  {
    if k == [] then []
    else (if k[0] == '~' then "~0" else if k[0] == '/' then "~1" else [k[0]]) + EscapeToken(k[1..])
  }

  /** `k` with each `~` written as `~0` and nothing else changed. */
  function EscapeTilde(k: string): string
    decreases |k|
  {
    if k == [] then [] else (if k[0] == '~' then "~0" else [k[0]]) + EscapeTilde(k[1..])
  }

  /** A character where no occurrence of the pattern starts is copied. */
  lemma ReplaceMiss(c: char, t: string, pat: string, rep: string)
    requires pat != []
    requires |t| + 1 < |pat| || ([c] + t)[..|pat|] != pat
    ensures Replace([c] + t, pat, rep) == [c] + Replace(t, pat, rep)
  {
    var s := [c] + t;
    assert s[0] == c && s[1..] == t;
    if |s| < |pat| {
      assert Replace(t, pat, rep) == t;
    }
  }

  /** A character that cannot start the pattern is copied as it is. */
  lemma ReplaceSkip(c: char, t: string, pat: string, rep: string)
    requires pat != [] && c != pat[0]
    ensures Replace([c] + t, pat, rep) == [c] + Replace(t, pat, rep)
  {
    if |t| + 1 >= |pat| {
      assert ([c] + t)[..|pat|][0] == c;
    }
    ReplaceMiss(c, t, pat, rep);
  }

  /** An occurrence of the pattern at the front is replaced. */
  lemma ReplaceFront(t: string, pat: string, rep: string)
    requires pat != []
    ensures Replace(pat + t, pat, rep) == rep + Replace(t, pat, rep)
  {
    var s := pat + t;
    assert s[..|pat|] == pat && s[|pat|..] == t;
  }

  /** `~0` holds no `~1`: both characters are copied. */
  lemma ReplaceTildeZero(t: string)
    ensures Replace("~0" + t, "~1", "/") == "~0" + Replace(t, "~1", "/")
  {
    var zt := ['0'] + t;
    assert "~0" + t == ['~'] + zt;
    assert (['~'] + zt)[..2] == "~0";
    ReplaceMiss('~', zt, "~1", "/");
    ReplaceSkip('0', t, "~1", "/");
  }

  lemma {:induction false} UnescapeSlash(k: string)
    ensures Replace(EscapeToken(k), "~1", "/") == EscapeTilde(k)
    decreases |k|
  {
    if k != [] {
      var tail := EscapeToken(k[1..]);
      UnescapeSlash(k[1..]);
      if k[0] == '~' {
        assert EscapeToken(k) == "~0" + tail;
        ReplaceTildeZero(tail);
        assert EscapeTilde(k) == "~0" + EscapeTilde(k[1..]);
      } else if k[0] == '/' {
        assert EscapeToken(k) == "~1" + tail;
        ReplaceFront(tail, "~1", "/");
        assert EscapeTilde(k) == "/" + EscapeTilde(k[1..]);
      } else {
        assert EscapeToken(k) == [k[0]] + tail;
        ReplaceSkip(k[0], tail, "~1", "/");
        assert EscapeTilde(k) == [k[0]] + EscapeTilde(k[1..]);
      }
    }
  }

  lemma {:induction false} UnescapeTilde(k: string)
    ensures Replace(EscapeTilde(k), "~0", "~") == k
    decreases |k|
  {
    if k != [] {
      var tail := EscapeTilde(k[1..]);
      UnescapeTilde(k[1..]);
      if k[0] == '~' {
        assert EscapeTilde(k) == "~0" + tail;
        ReplaceFront(tail, "~0", "~");
      } else {
        assert EscapeTilde(k) == [k[0]] + tail;
        ReplaceSkip(k[0], tail, "~0", "~");
      }
      assert k == [k[0]] + k[1..];
    }
  }

  /** Decoding undoes the escaping of section 3 of RFC 6901. */
  lemma DecodeEscape(k: string)
    ensures DecodeToken(EscapeToken(k)) == k
  {
    UnescapeSlash(k);
    UnescapeTilde(k);
  }

  /** Each piece decoded on its own. */
  function DecodeAll(pieces: seq<string>): (tokens: seq<string>)
    ensures |tokens| == |pieces|
    decreases |pieces|
  {
    if pieces == [] then [] else [DecodeToken(pieces[0])] + DecodeAll(pieces[1..])
  }

  /** The reference tokens of a pointer that starts with `/`: the pieces
      after the first, each decoded. */
  function Tokens(pointer: string): seq<string> {
    DecodeAll(Split(pointer, '/')[1..])
  }

  /** The empty pointer is the whole document (no tokens); any other pointer
      must start with `/`. */
  function ParsePointer(pointer: string): (r: Option<seq<string>>)
    ensures r.Some? <==> pointer == [] || pointer[0] == '/'
    ensures pointer == [] ==> r == Some([])
  {
    if pointer == [] then Some([])
    else if pointer[0] != '/' then None
    else Some(Tokens(pointer))
  }

  /** Section 3 of RFC 6901: a pointer that addresses `tokens`. */
  function FormatPointer(tokens: seq<string>): string
    decreases |tokens|
  {
    if tokens == [] then [] else "/" + EscapeToken(tokens[0]) + FormatPointer(tokens[1..])
  }

  function EscapeAll(tokens: seq<string>): seq<string>
    decreases |tokens|
  {
    if tokens == [] then [] else [EscapeToken(tokens[0])] + EscapeAll(tokens[1..])
  }

  lemma {:induction false} SplitFormatted(first: string, tokens: seq<string>)
    requires '/' !in first
    ensures Split(first + FormatPointer(tokens), '/') == [first] + EscapeAll(tokens)
    decreases |tokens|
  {
    if tokens == [] {
      assert first + FormatPointer(tokens) == first;
      SplitNoSeparator(first, '/');
    } else {
      var e := EscapeToken(tokens[0]);
      var rest := FormatPointer(tokens[1..]);
      var f := FormatPointer(tokens);
      assert f == "/" + e + rest;
      assert first + f == first + ['/'] + (e + rest);
      SplitAfterPiece(first, e + rest, '/');
      SplitFormatted(e, tokens[1..]);
      assert EscapeAll(tokens) == [e] + EscapeAll(tokens[1..]);
    }
  }

  lemma {:induction false} DecodeEscapeAll(tokens: seq<string>)
    ensures DecodeAll(EscapeAll(tokens)) == tokens
    decreases |tokens|
  {
    if tokens != [] {
      DecodeEscape(tokens[0]);
      DecodeEscapeAll(tokens[1..]);
      assert EscapeAll(tokens)[1..] == EscapeAll(tokens[1..]);
    }
  }

  /** A key without `~` or `/` is written as it is. */
  lemma {:induction false} EscapePlain(k: string)
    requires '~' !in k && '/' !in k
    ensures EscapeToken(k) == k
    decreases |k|
  {
    if k != [] {
      EscapePlain(k[1..]);
      assert k == [k[0]] + k[1..];
    }
  }

  /** Escaping introduces only `~`, `0` and `1`. */
  lemma {:induction false} EscapeIntroduces(k: string, c: char)
    requires c != '~' && c != '0' && c != '1' && c !in k
    ensures c !in EscapeToken(k)
    decreases |k|
  {
    if k != [] {
      EscapeIntroduces(k[1..], c);
    }
  }

  /** Formatting introduces only `/`, `~`, `0` and `1`. */
  lemma {:induction false} FormatIntroduces(tokens: seq<string>, c: char)
    requires c != '/' && c != '~' && c != '0' && c != '1'
    requires forall i :: 0 <= i < |tokens| ==> c !in tokens[i]
    ensures c !in FormatPointer(tokens)
    decreases |tokens|
  {
    if tokens != [] {
      EscapeIntroduces(tokens[0], c);
      FormatIntroduces(tokens[1..], c);
    }
  }

  /** Parsing a formatted pointer gives back its tokens, whatever `/` or `~`
      they contain. */
  lemma ParseFormat(tokens: seq<string>)
    ensures ParsePointer(FormatPointer(tokens)) == Some(tokens)
  {
    if tokens != [] {
      var p := FormatPointer(tokens);
      SplitFormatted([], tokens);
      assert [] + p == p;
      DecodeEscapeAll(tokens);
    }
  }
}
