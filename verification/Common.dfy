/** Small datatypes and the one counting argument shared by the other modules. */
module Common {

  datatype Option<+T> = None | Some(value: T)

  datatype Result<+T, +E> = Ok(value: T) | Err(error: E)

  /** A map read the way `HashMap::get(..).cloned()` reads it. */
  function Lookup<K, V>(m: map<K, V>, k: K): Option<V> {
    if k in m then Some(m[k]) else None
  }

  /** More positions than values: two positions hold the same value. */
  lemma {:induction false} Pigeonhole<T>(s: seq<T>, pool: set<T>) returns (i: nat, j: nat)
    requires |s| > |pool|
    requires forall k :: 0 <= k < |s| ==> s[k] in pool
    ensures i < j < |s| && s[i] == s[j]
  {
    var last := s[|s| - 1];
    var rest := s[..|s| - 1];
    if last in rest {
      i :| 0 <= i < |rest| && rest[i] == last;
      j := |s| - 1;
    } else {
      assert forall k :: 0 <= k < |rest| ==> rest[k] == s[k];
      i, j := Pigeonhole(rest, pool - {last});
    }
  }
}
