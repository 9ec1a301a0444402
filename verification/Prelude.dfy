/** Small shared vocabulary. */
module Prelude {

  datatype Option<+T> = None | Some(value: T)

  datatype Result<+T> = Ok(value: T) | Err(message: string)

  function Min(a: nat, b: nat): nat {
    if a <= b then a else b
  }

  /** The value a map holds for a key, if any. */
  function Lookup<K, V>(m: map<K, V>, k: K): Option<V> {
    if k in m then Some(m[k]) else None
  }

  function Last<T>(s: seq<T>): T
    requires s != []
  {
    s[|s| - 1]
  }

  function DropLast<T>(s: seq<T>): seq<T>
    requires s != []
  {
    s[..|s| - 1]
  }

  ghost predicate Distinct<T(!new)>(s: seq<T>) {
    forall i, j :: 0 <= i < j < |s| ==> s[i] != s[j]
  }

  /** The elements of a sequence, as a set. */
  function Elems<T>(s: seq<T>): set<T> {
    set x | x in s
  }

  /** All the values, if none is missing. */
  function AllSome<T>(s: seq<Option<T>>): Option<seq<T>> {
    if forall i :: 0 <= i < |s| ==> s[i].Some?
    then Some(seq(|s|, i requires 0 <= i < |s| => s[i].value))
    else None
  }

  lemma AllSomeOf<T>(s: seq<Option<T>>, t: seq<T>)
    requires |s| == |t| && forall i :: 0 <= i < |s| ==> s[i] == Some(t[i])
    ensures AllSome(s) == Some(t)
  {
    assert AllSome(s).value == t;
  }
}
