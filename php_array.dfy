/**
 * A PHP array with integer keys, as the search scripts use `$results`: an
 * ordered list of key/value pairs. Assigning to a present key replaces its
 * value where it stands, assigning to a new key appends the pair, and
 * `unset` removes the pair and keeps the others in order.
 */
module PhpArray {
  import opened Wrappers

  type Arr<V> = seq<(int, V)>

  /** `key` is not a key of `arr`. */
  predicate Absent<V>(arr: Arr<V>, key: int) {
    forall i :: 0 <= i < |arr| ==> arr[i].0 != key
  }

  /** Where `key` stands, if anywhere. */
  function IndexOf<V>(arr: Arr<V>, key: int): (r: Option<nat>)
    ensures r.Some? ==> r.value < |arr| && arr[r.value].0 == key && Absent(arr[..r.value], key)
    ensures r.None? <==> Absent(arr, key)
  {
    if arr == [] then None
    else if arr[0].0 == key then Some(0)
    else match IndexOf(arr[1..], key)
      case Some(i) => Some(i + 1)
      case None => None
  }

  /** `$arr[$key] ?? null`. */
  function Get<V>(arr: Arr<V>, key: int): Option<V> {
    match IndexOf(arr, key)
    case Some(i) => Some(arr[i].1)
    case None => None
  }

  /** `$arr[$key] = $v`. */
  function Put<V>(arr: Arr<V>, key: int, v: V): Arr<V> {
    match IndexOf(arr, key)
    case Some(i) => arr[i := (key, v)]
    case None => arr + [(key, v)]
  }

  /** `unset($arr[$key])`. */
  function Unset<V>(arr: Arr<V>, key: int): Arr<V> {
    match IndexOf(arr, key)
    case Some(i) => arr[..i] + arr[i + 1..]
    case None => arr
  }

  /** The first pair with `key` sits right after a prefix that does not hold it. */
  lemma IndexOfAt<V>(pre: Arr<V>, key: int, v: V, post: Arr<V>)
    requires Absent(pre, key)
    ensures IndexOf(pre + [(key, v)] + post, key) == Some(|pre|)
  {
    var arr := pre + [(key, v)] + post;
    assert arr[|pre|].0 == key;
    assert forall i :: 0 <= i < |pre| ==> arr[i] == pre[i];
  }

  /**
   * Reading, replacing and unsetting a key that stands after a prefix
   * without it: the value is found there, a new value takes its place, and
   * unsetting closes the gap.
   */
  lemma AtKey<V>(pre: Arr<V>, key: int, v: V, post: Arr<V>, w: V)
    requires Absent(pre, key)
    ensures Get(pre + [(key, v)] + post, key) == Some(v)
    ensures Put(pre + [(key, v)] + post, key, w) == pre + [(key, w)] + post
    ensures Unset(pre + [(key, v)] + post, key) == pre + post
  {
    var arr := pre + [(key, v)] + post;
    IndexOfAt(pre, key, v, post);
    assert arr[..|pre|] == pre;
    assert arr[|pre| + 1..] == post;
    assert arr[|pre| := (key, w)] == pre + [(key, w)] + post;
  }

  /** A new key is appended. */
  lemma PutAbsent<V>(arr: Arr<V>, key: int, v: V)
    requires Absent(arr, key)
    ensures Put(arr, key, v) == arr + [(key, v)]
    ensures Get(Put(arr, key, v), key) == Some(v)
  {
    assert arr + [(key, v)] == arr + [(key, v)] + [];
    AtKey(arr, key, v, [], v);
  }
}
