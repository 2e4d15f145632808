/**
  The JSON value model (serde_json's `Value`) and locations inside a value.

  A `&mut Value` handed out by the write resolver is modelled as a `Path`:
  the sequence of steps from the document root to the addressed value.
 */
module Json {

  /** serde_json keeps a number as one of three representations. Numbers are
      only copied, never computed with, so widths and IEEE-754 are not modelled. */
  datatype Num = PosInt(u: nat) | NegInt(i: Negative) | Float(f: real)

  /** serde_json uses its signed representation only below zero. */
  type Negative = i: int | i < 0 witness -1

  /** The six variants of a JSON value. An object is a map: key order plays
      no part in anything modelled here. */
  datatype Value =
    | Null
    | Bool(b: bool)
    | Number(n: Num)
    | String(s: string)
    | Array(arr: seq<Value>)
    | Object(obj: map<string, Value>)

  /** Null, booleans, numbers and strings have no children. */
  predicate IsScalar(v: Value) {
    !v.Array? && !v.Object?
  }

  /** One step into a container: a key of an object or a position of an array. */
  datatype Step = Key(key: string) | Index(index: nat)

  type Path = seq<Step>

  predicate HasChild(v: Value, s: Step) {
    match s
    case Key(k) => v.Object? && k in v.obj
    case Index(i) => v.Array? && i < |v.arr|
  }

  function Child(v: Value, s: Step): Value
    requires HasChild(v, s)
  {
    match s
    case Key(k) => v.obj[k]
    case Index(i) => v.arr[i]
  }

  /** `v` with the child at `s` replaced by `x`; nothing else changes. */
  function WithChild(v: Value, s: Step, x: Value): Value
    requires HasChild(v, s)
  {
    match s
    case Key(k) => Object(v.obj[k := x])
    case Index(i) => Array(v.arr[i := x])
  }

  /** `p` leads from `v` to an existing value. */
  predicate ValidPath(v: Value, p: Path)
    decreases |p|
  {
    p == [] || (HasChild(v, p[0]) && ValidPath(Child(v, p[0]), p[1..]))
  }

  /** The value that `p` addresses inside `v`. */
  function At(v: Value, p: Path): Value
    requires ValidPath(v, p)
    decreases |p|
  {
    if p == [] then v else At(Child(v, p[0]), p[1..])
  }

  /** `v` with the value at `p` replaced by `x`: the effect of `*handle = x`. */
  function PutAt(v: Value, p: Path, x: Value): (r: Value)
    requires ValidPath(v, p)
    ensures ValidPath(r, p) && At(r, p) == x
    decreases |p|
  {
    if p == [] then x
    else WithChild(v, p[0], PutAt(Child(v, p[0]), p[1..], x))
  }

  /** Writing back what is already there changes nothing. */
  lemma {:induction false} PutAtSelf(v: Value, p: Path)
    requires ValidPath(v, p)
    ensures PutAt(v, p, At(v, p)) == v
    decreases |p|
  {
    if p != [] {
      PutAtSelf(Child(v, p[0]), p[1..]);
      match p[0]
      case Key(k) =>
        assert v.obj[k := v.obj[k]] == v.obj;
      case Index(i) =>
        assert v.arr[i := v.arr[i]] == v.arr;
    }
  }

  /** The second of two writes at the same place wins. */
  lemma {:induction false} PutAtTwice(v: Value, p: Path, x: Value, y: Value)
    requires ValidPath(v, p)
    ensures PutAt(PutAt(v, p, x), p, y) == PutAt(v, p, y)
    decreases |p|
  {
    if p != [] {
      PutAtTwice(Child(v, p[0]), p[1..], x, y);
      match p[0]
      case Key(k) =>
        assert v.obj[k := PutAt(v.obj[k], p[1..], x)][k := PutAt(v.obj[k], p[1..], y)]
            == v.obj[k := PutAt(v.obj[k], p[1..], y)];
      case Index(i) =>
    }
  }

  /** A path is valid exactly when its two halves are, one after the other. */
  lemma {:induction false} ValidPathAppend(v: Value, p: Path, q: Path)
    ensures ValidPath(v, p + q) <==> ValidPath(v, p) && ValidPath(At(v, p), q)
    ensures ValidPath(v, p + q) ==> At(v, p + q) == At(At(v, p), q)
    decreases |p|
  {
    if p != [] {
      assert (p + q)[0] == p[0] && (p + q)[1..] == p[1..] + q;
      if HasChild(v, p[0]) {
        ValidPathAppend(Child(v, p[0]), p[1..], q);
      }
    } else {
      assert p + q == q;
    }
  }

  /** Writing through `p + q` is writing through `q` inside the value at `p`. */
  lemma {:induction false} PutAtAppend(v: Value, p: Path, q: Path, x: Value)
    requires ValidPath(v, p) && ValidPath(At(v, p), q)
    ensures ValidPath(v, p + q)
    ensures PutAt(v, p + q, x) == PutAt(v, p, PutAt(At(v, p), q, x))
    decreases |p|
  {
    ValidPathAppend(v, p, q);
    if p != [] {
      assert (p + q)[0] == p[0] && (p + q)[1..] == p[1..] + q;
      PutAtAppend(Child(v, p[0]), p[1..], q, x);
    } else {
      assert p + q == q;
    }
  }

  /** Replacing one child leaves every other child as it was. */
  lemma WithChildOther(v: Value, s: Step, t: Step, x: Value)
    requires HasChild(v, s) && HasChild(v, t) && s != t
    ensures HasChild(WithChild(v, s, x), t) && Child(WithChild(v, s, x), t) == Child(v, t)
  {
  }

  /** Writing through `p` changes nothing at a location `q` that leaves `p`
      at step `n`: every value outside the written place keeps its value. */
  lemma {:induction false} PutAtFrame(v: Value, p: Path, q: Path, x: Value, n: nat)
    requires ValidPath(v, p) && ValidPath(v, q)
    requires n < |p| && n < |q| && p[..n] == q[..n] && p[n] != q[n]
    ensures ValidPath(PutAt(v, p, x), q) && At(PutAt(v, p, x), q) == At(v, q)
    decreases n
  {
    var r := PutAt(v, p, x);
    var inner := PutAt(Child(v, p[0]), p[1..], x);
    assert r == WithChild(v, p[0], inner);
    if n == 0 {
      WithChildOther(v, p[0], q[0], inner);
    } else {
      assert p[0] == p[..n][0] == q[..n][0] == q[0];
      assert p[1..][..n - 1] == p[..n][1..] == q[..n][1..] == q[1..][..n - 1];
      PutAtFrame(Child(v, p[0]), p[1..], q[1..], x, n - 1);
    }
  }
}
