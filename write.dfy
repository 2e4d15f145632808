/**
  The write resolver `pointer_mut` with its step `pointer_inner`: it walks the
  tokens, inserting missing object keys bound to null and replacing scalars by
  one-key objects, and hands back a location that the caller assigns.
 */
module Write {
  import opened Wrappers
  import opened Json
  import opened ArrayIndex
  import opened Syntax
  import opened Read

  /** The target after one step, and the step taken into it (`None` when the
      target is an array and the token is not a usable index). */
  datatype StepResult = StepResult(target: Value, step: Option<Step>)

  /** `pointer_inner`, as a function of the target before the step. */
  function PointerInner(target: Value, token: string): (r: StepResult)
    ensures r.step.Some? ==> HasChild(r.target, r.step.value)
    // an object gains the key, bound to null, only if it lacked it
    ensures target.Object? ==>
      && r.step == Some(Key(token))
      && r.target.Object?
      && r.target.obj.Keys == target.obj.Keys + {token}
      && target.obj.Items <= r.target.obj.Items
      && (token !in target.obj ==> r.target.obj[token] == Null)
    // an array is never changed; the step exists exactly for an in-range index
    ensures target.Array? ==>
      && r.target == target
      && (r.step.Some? <==> ParseIndex(token).Some? && ParseIndex(token).value < |target.arr|)
      && (r.step.Some? ==> r.step.value == Index(ParseIndex(token).value))
    // a scalar is replaced by an object holding only the token, bound to null
    ensures IsScalar(target) ==> r.target == Object(map[token := Null]) && r.step == Some(Key(token))
    // whatever a step changes, it leads into a fresh null
    ensures r.step.None? ==> r.target == target
    ensures r.step.Some? && r.target != target ==> Child(r.target, r.step.value) == Null
  {
    match target
    case Object(m) =>
      if token in m then StepResult(target, Some(Key(token)))
      else StepResult(Object(m[token := Null]), Some(Key(token)))
    case Array(a) =>
      var i := ParseIndex(token);
      if i.Some? && i.value < |a| then StepResult(target, Some(Index(i.value)))
      else StepResult(target, None)
    case _ =>
      StepResult(Object(map[token := Null]), Some(Key(token)))
  }

  /** The document after the walk and, when it succeeds, the location reached. */
  datatype MutResult = MutResult(doc: Value, loc: Option<Path>)

  /** The `try_fold` of `pointer_inner` over the tokens, starting at `v`. */
  function WalkMut(v: Value, tokens: seq<string>): (r: MutResult)
    ensures r.loc.Some? ==> ValidPath(r.doc, r.loc.value) && |r.loc.value| == |tokens|
    // a failed walk leaves the document exactly as it was
    ensures r.loc.None? ==> r.doc == v
    // only an array step can fail, so a walk from a scalar always succeeds
    ensures IsScalar(v) ==> r.loc.Some?
    decreases |tokens|
  {
    if tokens == [] then MutResult(v, Some([]))
    else
      var st := PointerInner(v, tokens[0]);
      match st.step
      case None => MutResult(st.target, None)
      case Some(s) =>
        var r := WalkMut(Child(st.target, s), tokens[1..]);
        MutResult(WithChild(st.target, s, r.doc), Prefix([s], r.loc))
  }

  /** A location found below `at`, seen from above `at`. */
  function Prefix(at: Path, loc: Option<Path>): Option<Path> {
    if loc.Some? then Some(at + loc.value) else None
  }

  /** `pointer_mut`: the empty pointer is the root itself; a pointer that
      does not start with `/` reaches nothing and changes nothing. */
  function PointerMutSpec(v: Value, pointer: string): MutResult {
    match ParsePointer(pointer)
    case None => MutResult(v, None)
    case Some(tokens) => WalkMut(v, tokens)
  }

  /** A walk that continues from location `at` inside `v`, seen from the root. */
  function Graft(v: Value, at: Path, r: MutResult): MutResult
    requires ValidPath(v, at)
  {
    MutResult(PutAt(v, at, r.doc), Prefix(at, r.loc))
  }

  /** A location one step below a rewritten location, seen from the root. */
  lemma PutAtExtend(v: Value, at: Path, t: Value, s: Step, x: Value)
    requires ValidPath(v, at) && HasChild(t, s)
    ensures ValidPath(PutAt(v, at, t), at + [s])
    ensures At(PutAt(v, at, t), at + [s]) == Child(t, s)
    ensures PutAt(PutAt(v, at, t), at + [s], x) == PutAt(v, at, WithChild(t, s, x))
  {
    var v' := PutAt(v, at, t);
    assert At(v', at) == t;
    assert [s][0] == s && [s][1..] == [];
    assert ValidPath(t, [s]);
    assert At(t, [s]) == At(Child(t, s), []) == Child(t, s);
    ValidPathAppend(v', at, [s]);
    PutAtAppend(v', at, [s], x);
    assert PutAt(t, [s], x) == WithChild(t, s, x) by { assert [s][1..] == []; }
    PutAtTwice(v, at, t, WithChild(t, s, x));
  }

  lemma PrefixTwice(at: Path, s: Step, loc: Option<Path>)
    ensures Prefix(at, Prefix([s], loc)) == Prefix(at + [s], loc)
  {
    if loc.Some? {
      assert at + ([s] + loc.value) == (at + [s]) + loc.value;
    }
  }

  lemma GraftStep(v: Value, at: Path, t: Value, s: Step, r: MutResult)
    requires ValidPath(v, at) && HasChild(t, s)
    ensures ValidPath(PutAt(v, at, t), at + [s])
    ensures Graft(v, at, MutResult(WithChild(t, s, r.doc), Prefix([s], r.loc)))
         == Graft(PutAt(v, at, t), at + [s], r)
  {
    PutAtExtend(v, at, t, s, r.doc);
    PrefixTwice(at, s, r.loc);
  }

  /** One turn of the fold, seen from the root: the remaining walk from `at`
      is the step at `at` followed by the remaining walk from the child. */
  lemma WalkStep(v: Value, at: Path, token: string, rest: seq<string>)
    requires ValidPath(v, at)
    ensures var st := PointerInner(At(v, at), token);
      var whole := Graft(v, at, WalkMut(At(v, at), [token] + rest));
      && (st.step.None? ==> whole == MutResult(v, None))
      && (st.step.Some? ==>
            var v' := PutAt(v, at, st.target);
            && ValidPath(v', at + [st.step.value])
            && whole == Graft(v', at + [st.step.value], WalkMut(At(v', at + [st.step.value]), rest)))
  {
    var tokens := [token] + rest;
    assert tokens[0] == token && tokens[1..] == rest;
    var st := PointerInner(At(v, at), token);
    if st.step.None? {
      PutAtSelf(v, at);
    } else {
      var s := st.step.value;
      PutAtExtend(v, at, st.target, s, Null);
      GraftStep(v, at, st.target, s, WalkMut(Child(st.target, s), rest));
    }
  }

  /** The walk that is left when every token has been used. */
  lemma WalkDone(v: Value, at: Path)
    requires ValidPath(v, at)
    ensures Graft(v, at, WalkMut(At(v, at), [])) == MutResult(v, Some(at))
  {
    PutAtSelf(v, at);
    assert at + [] == at;
  }

  /** `Value::pointer` succeeds exactly where `pointer_mut` succeeds without
      changing anything, and both reach the same value. */
  lemma {:induction false} ResolveIsUnchangedWalk(v: Value, tokens: seq<string>)
    ensures Resolve(v, tokens).Some? <==> WalkMut(v, tokens).loc.Some? && WalkMut(v, tokens).doc == v
    ensures Resolve(v, tokens).Some? ==> Resolve(v, tokens).value == At(v, WalkMut(v, tokens).loc.value)
    decreases |tokens|
  {
    if tokens != [] {
      var t, rest := tokens[0], tokens[1..];
      var st := PointerInner(v, t);
      var w := WalkMut(v, tokens);
      match v
      case Object(m) =>
        if t in m {
          var r := WalkMut(m[t], rest);
          ResolveIsUnchangedWalk(m[t], rest);
          assert w.doc == Object(m[t := r.doc]);
          assert w.doc == v <==> r.doc == m[t] by {
            if r.doc == m[t] { assert m[t := r.doc] == m; }
          }
          if r.loc.Some? {
            assert w.loc.value[0] == Key(t) && w.loc.value[1..] == r.loc.value;
          }
        } else {
          assert t in w.doc.obj;
        }
      case Array(a) =>
        var i := ParseIndex(t);
        if i.Some? && i.value < |a| {
          var r := WalkMut(a[i.value], rest);
          ResolveIsUnchangedWalk(a[i.value], rest);
          assert w.doc == Array(a[i.value := r.doc]);
          assert w.doc == v <==> r.doc == a[i.value] by {
            if r.doc == a[i.value] { assert a[i.value := r.doc] == a; }
          }
          if r.loc.Some? {
            assert w.loc.value[0] == Index(i.value) && w.loc.value[1..] == r.loc.value;
          }
        }
      case _ =>
        assert w.doc.Object?;
    }
  }

  /** Whatever is assigned at the location `pointer_mut` returns is what
      `Value::pointer` then finds there. */
  lemma {:induction false} ResolveAfterWalk(v: Value, tokens: seq<string>, x: Value)
    requires WalkMut(v, tokens).loc.Some?
    ensures var w := WalkMut(v, tokens);
      Resolve(PutAt(w.doc, w.loc.value, x), tokens) == Some(x)
    decreases |tokens|
  {
    if tokens != [] {
      var t, rest := tokens[0], tokens[1..];
      var st := PointerInner(v, t);
      var s := st.step.value;
      var r := WalkMut(Child(st.target, s), rest);
      var w := WalkMut(v, tokens);
      var q := r.loc.value;
      ResolveAfterWalk(Child(st.target, s), rest, x);
      assert w.loc.value[0] == s && w.loc.value[1..] == q;
      var written := PutAt(w.doc, w.loc.value, x);
      assert written == WithChild(w.doc, s, PutAt(r.doc, q, x));
      match s
      case Key(k) =>
        assert written.obj[t] == PutAt(r.doc, q, x);
      case Index(i) =>
        assert written.arr[i] == PutAt(r.doc, q, x);
    }
  }

  /** The document being edited; locations in it stand for `&mut Value`. */
  class Document {
    var root: Value

    constructor (v: Value)
      ensures root == v
    {
      root := v;
    }

    /** `pointer_inner` applied in place to the value at `at`. */
    method Inner(at: Path, token: string) returns (next: Option<Path>)
      requires ValidPath(root, at)
      modifies this
      ensures var st := PointerInner(old(At(root, at)), token);
        && root == PutAt(old(root), at, st.target)
        && next == if st.step.Some? then Some(at + [st.step.value]) else None
    {
      match At(root, at)
      case Object(m) =>
        if token !in m {
          root := PutAt(root, at, Object(m[token := Null]));
        } else {
          PutAtSelf(root, at);
        }
        next := Some(at + [Key(token)]);
      case Array(a) =>
        PutAtSelf(root, at);
        var i := ParseIndex(token);
        if i.Some? && i.value < |a| {
          next := Some(at + [Index(i.value)]);
        } else {
          next := None;
        }
      case _ =>
        root := PutAt(root, at, Object(map[token := Null]));
        next := Some(at + [Key(token)]);
    }

    /** `pointer_mut`: walks the pointer's tokens, editing `root` on the way,
        and returns the location to assign. */
    method PointerMut(pointer: string) returns (loc: Option<Path>)
      modifies this
      ensures MutResult(root, loc) == PointerMutSpec(old(root), pointer)
      ensures loc.Some? ==> ValidPath(root, loc.value)
    {
      if pointer == [] {
        return Some([]);
      }
      if pointer[0] != '/' {
        return None;
      }
      var tokens := Tokens(pointer);
      assert ParsePointer(pointer) == Some(tokens);
      loc := Walk(tokens);
    }

    /** The `try_fold` of `pointer_inner` over `tokens`, from the root. */
    method Walk(tokens: seq<string>) returns (loc: Option<Path>)
      modifies this
      ensures MutResult(root, loc) == WalkMut(old(root), tokens)
    {
      var at: Path := [];
      assert tokens[0..] == tokens;
      ghost var whole := WalkMut(root, tokens);
      assert whole.loc.Some? ==> [] + whole.loc.value == whole.loc.value;
      var i := 0;
      while i < |tokens|
        invariant 0 <= i <= |tokens|
        invariant ValidPath(root, at)
        invariant whole == Graft(root, at, WalkMut(At(root, at), tokens[i..]))
      {
        assert tokens[i..] == [tokens[i]] + tokens[i + 1..];
        WalkStep(root, at, tokens[i], tokens[i + 1..]);
        var next := Inner(at, tokens[i]);
        if next.None? {
          return None;
        }
        at := next.value;
        i := i + 1;
      }
      assert tokens[i..] == [];
      WalkDone(root, at);
      return Some(at);
    }
  }
}
