/** Sequences with one element taken out. */
module Sequences {

  function Without<T>(s: seq<T>, index: int): (r: seq<T>)
    ensures 0 <= index < |s| ==> |r| == |s| - 1
  {
    if 0 <= index < |s| then s[..index] + s[index + 1..] else s
  }

  lemma WithoutAt<T>(s: seq<T>, index: nat, j: nat)
    requires index < |s| && j < |s| - 1
    ensures Without(s, index)[j] == s[if j < index then j else j + 1]
  {
  }
}
