/** Python-level values the lexer and parser pass around: an optional value
    (`None` or a value) and the outcome of subscripting a list or string with
    Python's indexing rules. */
module Lookups {

  datatype Option<T> = None | Some(value: T)

  /** What `s[p]` gives for a cursor `p` that may be `None`: the element,
      `None` itself (the cursor ran off the end), or an IndexError. */
  datatype Lookup<T> = Value(value: T) | NoValue | OutOfRange

  /** Python subscripting: non-negative indices count from the front,
      negative ones from the back, anything else raises IndexError. */
  function Index<T>(s: seq<T>, p: Option<int>): (r: Lookup<T>)
    ensures r.OutOfRange? <==> p.Some? && !(-|s| <= p.value < |s|)
    ensures p.Some? && 0 <= p.value < |s| ==> r == Value(s[p.value])
    ensures p.Some? && -|s| <= p.value < 0 ==> r == Value(s[|s| + p.value])
    ensures r.NoValue? <==> p.None?
  {
    match p
    case None => NoValue
    case Some(k) =>
      if 0 <= k < |s| then Value(s[k])
      else if -|s| <= k < 0 then Value(s[|s| + k])
      else OutOfRange
  }

  /** `Position.advance`: the next index while it is inside a text of
      length `n`, otherwise `None`. */
  function Step(n: nat, p: int): (r: Option<int>)
    ensures r.Some? <==> p + 1 < n
    ensures r.Some? ==> r.value == p + 1
  {
    if p + 1 < n then Some(p + 1) else None
  }
}
