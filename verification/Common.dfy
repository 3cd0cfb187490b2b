/** Small helpers shared by every other module. */
module Common {

  datatype Option<+T> = None | Some(value: T)

  newtype byte = b: int | 0 <= b < 256

  type Bytes = seq<byte>

  /** Python's `int()` of a float: truncation toward zero. */
  function Trunc(x: real): int {
    if x >= 0.0 then x.Floor else -((-x).Floor)
  }

  lemma TruncExact(x: real)
    ensures if x >= 0.0 then Trunc(x) as real <= x < Trunc(x) as real + 1.0
      else Trunc(x) as real - 1.0 < x <= Trunc(x) as real
  {
  }

  function Last<T>(s: seq<T>): T
    requires s != []
  {
    s[|s| - 1]
  }

  function Front<T>(s: seq<T>): seq<T>
    requires s != []
  {
    s[..|s| - 1]
  }

  /** Where `k` first occurs among the keys, if anywhere. */
  function IndexOf<K(==)>(keys: seq<K>, k: K): (r: Option<nat>)
    ensures r.Some? ==> r.value < |keys| && keys[r.value] == k && k !in keys[..r.value]
    ensures r.None? <==> k !in keys
  {
    if keys == [] then None
    else
      var earlier := IndexOf(Front(keys), k);
      if earlier.Some? then earlier
      else if Last(keys) == k then Some(|keys| - 1) else None
  }
}
