/** Types and facts that several modules share. */
module Wrappers {

  datatype Option<T> = None | Some(value: T)

  /** The elements that pass, in their order. */
  function Filter<T>(f: T -> bool, s: seq<T>): seq<T> {
    if s == [] then [] else (if f(s[0]) then [s[0]] else []) + Filter(f, s[1..])
  }

  function Map<T, U>(f: T -> U, s: seq<T>): seq<U> {
    seq(|s|, i requires 0 <= i < |s| => f(s[i]))
  }

  lemma FilterStep<T>(f: T -> bool, s: seq<T>)
    ensures Filter(f, []) == []
    ensures s != [] ==> Filter(f, s) == (if f(s[0]) then [s[0]] else []) + Filter(f, s[1..])
  {
  }

  lemma MapStep<T, U>(f: T -> U, first: T, rest: seq<T>)
    ensures Map(f, [first] + rest) == [f(first)] + Map(f, rest)
  {
  }

  /** How updating or removing an entry changes the number of entries. */
  lemma MapCount<K, V>(m: map<K, V>, k: K, v: V)
    ensures k !in m ==> |m[k := v]| == |m| + 1
    ensures k in m ==> |m[k := v]| == |m| && |m - {k}| == |m| - 1
    ensures |m| == 0 <==> m == map[]
  {
    assert m[k := v].Keys == m.Keys + {k};
    assert (m - {k}).Keys == m.Keys - {k};
    assert k in m ==> m.Keys == (m - {k}).Keys + {k};
    assert |m| == |m.Keys| && |m - {k}| == |(m - {k}).Keys| && |m[k := v]| == |m[k := v].Keys|;
  }
}
