/** What several components share: options, bytes, sequences without repetition, and sorted numbers. */
module Collections {

  datatype Option<+T> = None | Some(value: T)

  type Byte = b: int | 0 <= b < 256
  type Bytes = seq<Byte>

  ghost predicate Distinct<T>(s: seq<T>) {
    forall i, j :: 0 <= i < j < |s| ==> s[i] != s[j]
  }

  ghost function Listed<T>(s: seq<T>): set<T> {
    set x | x in s
  }

  lemma {:induction false} ListedSize<T>(s: seq<T>)
    requires Distinct(s)
    ensures |Listed(s)| == |s|
  {
    if s != [] {
      var n := |s| - 1;
      ListedSize(s[..n]);
      assert Listed(s) == Listed(s[..n]) + {s[n]};
      assert s[n] !in Listed(s[..n]);
    }
  }

  ghost predicate Rising(s: seq<int>) {
    forall i, j :: 0 <= i < j < |s| ==> s[i] <= s[j]
  }

  ghost predicate AtMost(s: seq<int>, bound: int) {
    forall i :: 0 <= i < |s| ==> s[i] <= bound
  }

  ghost predicate Above(s: seq<int>, bound: int) {
    forall i :: 0 <= i < |s| ==> bound < s[i]
  }
}
