// BaseComplexModelCollection: every model collection answers `this[value]`
// and `Contains(value)` through its own `GetBy`, and every `GetBy` in the
// model is a first-match search (List.Find) over a key of the items.

module Collections {
  import opened Wrappers

  /** The position of the first key equal to `v`, or None: List.Find over the keys. */
  function FirstIndex<K(==)>(keys: seq<K>, v: K): (r: Option<nat>)
    ensures r.Some? ==> r.value < |keys| && keys[r.value] == v
    ensures r.Some? ==> forall j | 0 <= j < r.value :: keys[j] != v
    ensures r.None? <==> v !in keys
  {
    if |keys| == 0 then None
    else if keys[0] == v then Some(0)
    else
      match FirstIndex(keys[1..], v)
      case None => None
      case Some(i) => Some(i + 1)
  }

  /** `a` is `b` with some elements left out, the rest in their order. */
  predicate IsSubsequence<T(==)>(a: seq<T>, b: seq<T>)
    decreases |b|
  {
    if a == [] then true
    else if b == [] then false
    else (a[0] == b[0] && IsSubsequence(a[1..], b[1..])) || IsSubsequence(a, b[1..])
  }

  /** A subsequence is no longer than the sequence, and its elements come from it. */
  lemma {:induction false} SubsequenceBounds<T>(a: seq<T>, b: seq<T>)
    requires IsSubsequence(a, b)
    ensures |a| <= |b|
    ensures forall x | x in a :: x in b
    decreases |b|
  {
    if a != [] {
      if a[0] == b[0] && IsSubsequence(a[1..], b[1..]) {
        SubsequenceBounds(a[1..], b[1..]);
        assert a == [a[0]] + a[1..] && b == [b[0]] + b[1..];
      } else {
        SubsequenceBounds(a, b[1..]);
        assert b == [b[0]] + b[1..];
      }
    }
  }

  /** List.Find with `item.Key.Equals(value)` over keys that may be null:
      the first key equal to the value; a null key met first throws, as
      calling Equals on it does. */
  function FindKey(keys: seq<Option<string>>, value: string): (r: Result<Option<nat>>)
    ensures r == Ok(None) <==> forall i | 0 <= i < |keys| :: keys[i].Some? && keys[i].value != value
    ensures r.Ok? && r.value.Some? ==>
              r.value.value < |keys| && keys[r.value.value] == Some(value) &&
              forall j | 0 <= j < r.value.value :: keys[j].Some? && keys[j].value != value
    ensures r.Fail? ==>
              r.error == NullReference &&
              exists i | 0 <= i < |keys| :: keys[i].None? && forall j | 0 <= j < i :: keys[j].Some? && keys[j].value != value
  {
    if keys == [] then Ok(None)
    else if keys[0].None? then Fail(NullReference)
    else if keys[0].value == value then Ok(Some(0))
    else
      match FindKey(keys[1..], value)
      case Fail(e) => Fail(e)
      case Ok(None) => Ok(None)
      case Ok(Some(i)) => Ok(Some(i + 1))
  }

  /** The search stops at the first key that is null or equal to the value. */
  lemma {:induction false} FindKeyStops(keys: seq<Option<string>>, value: string, i: nat)
    requires i < |keys| && forall j | 0 <= j < i :: keys[j].Some? && keys[j].value != value
    ensures keys[i].None? ==> FindKey(keys, value) == Fail(NullReference)
    ensures keys[i] == Some(value) ==> FindKey(keys, value) == Ok(Some(i))
    decreases i
  {
    if i > 0 {
      FindKeyStops(keys[1..], value, i - 1);
    }
  }
}
