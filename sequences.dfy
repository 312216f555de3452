/** Order-preserving selection from a sequence. */
module Sequences {

  /** s is obtained from t by deleting elements. */
  predicate IsSubsequence<T(==)>(s: seq<T>, t: seq<T>) {
    if t == [] then s == []
    else (s != [] && s[0] == t[0] && IsSubsequence(s[1..], t[1..])) || IsSubsequence(s, t[1..])
  }
}
