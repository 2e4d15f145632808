/**
  The read resolver: serde_json's `Value::pointer`, applied to tokens that
  have already been split and decoded. It changes nothing.
 */
module Read {
  import opened Wrappers
  import opened Json
  import opened ArrayIndex

  /** Follows `tokens` from `v`: an object by key, an array by index.
      A missing key, a bad or out-of-range index, or a scalar ends the walk
      with `None`. */
  function Resolve(v: Value, tokens: seq<string>): (r: Option<Value>)
    ensures tokens == [] ==> r == Some(v)
    // a scalar has no children
    ensures tokens != [] && IsScalar(v) ==> r.None?
    ensures tokens != [] && v.Object? && tokens[0] !in v.obj ==> r.None?
    ensures tokens != [] && v.Array? && (ParseIndex(tokens[0]).None? || ParseIndex(tokens[0]).value >= |v.arr|)
            ==> r.None?
    decreases |tokens|
  {
    if tokens == [] then Some(v)
    else
      match v
      case Object(m) =>
        if tokens[0] in m then Resolve(m[tokens[0]], tokens[1..]) else None
      case Array(a) =>
        (match ParseIndex(tokens[0])
         case Some(i) => if i < |a| then Resolve(a[i], tokens[1..]) else None
         case None => None)
      case _ => None
  }
}
