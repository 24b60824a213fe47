/** memmove and memset as src/mem/Buddy.cpp defines them: plain forward loops. */
module Bytes {

  /** k reduced by d until it is below d. */
  ghost function Wrap(k: nat, d: nat): (r: nat)
    requires d > 0
    ensures r <= k
    ensures k < d ==> r == k
  {
    if k < d then k else Wrap(k - d, d)
  }

  /** The source byte that ends up at dest + k: with dest behind src the first bytes repeat. */
  ghost function SourceOf(dest: nat, src: nat, k: nat): nat {
    if dest > src then src + Wrap(k, dest - src) else src + k
  }

  /** Byte j of the destination range holds what the forward loop puts there. */
  ghost predicate Moved(after: seq<bv8>, before: seq<bv8>, dest: nat, src: nat, n: nat)
    requires |after| == |before|
    requires dest + n <= |before| && src + n <= |before|
  {
    && (forall k | 0 <= k < n :: after[dest + k] == before[SourceOf(dest, src, k)])
    && forall j | 0 <= j < |before| && !(dest <= j < dest + n) :: after[j] == before[j]
  }

  lemma NextSource(now: seq<bv8>, before: seq<bv8>, dest: nat, src: nat, i: nat)
    requires |now| == |before| && dest + i < |before| && src + i < |before|
    requires Moved(now, before, dest, src, i)
    ensures now[src + i] == before[SourceOf(dest, src, i)]
  {
    if dest > src && src + i >= dest {
      var k := src + i - dest;
      assert now[dest + k] == before[SourceOf(dest, src, k)];
      assert Wrap(i, dest - src) == Wrap(k, dest - src);
    }
  }

  method MemMove(bytes: array<bv8>, dest: nat, src: nat, n: nat)
    requires dest + n <= bytes.Length && src + n <= bytes.Length
    modifies bytes
    ensures Moved(bytes[..], old(bytes[..]), dest, src, n)
  {
    ghost var before := bytes[..];
    for i := 0 to n
      invariant Moved(bytes[..], before, dest, src, i)
    {
      NextSource(bytes[..], before, dest, src, i);
      bytes[dest + i] := bytes[src + i];
    }
  }

  ghost predicate Arrives(after: seq<bv8>, before: seq<bv8>, dest: nat, src: nat, n: nat)
    requires |after| == |before| && dest + n <= |before| && src + n <= |before|
  {
    after[dest..dest + n] == before[src..src + n]
  }

  /** With the destination in front, or the ranges apart, every byte arrives. */
  lemma MovedExactly(after: seq<bv8>, before: seq<bv8>, dest: nat, src: nat, n: nat)
    requires |after| == |before| && dest + n <= |before| && src + n <= |before|
    requires Moved(after, before, dest, src, n)
    requires dest <= src || src + n <= dest
    ensures Arrives(after, before, dest, src, n)
  {
    var there, here := after[dest..dest + n], before[src..src + n];
    forall k | 0 <= k < n ensures there[k] == here[k] {
      assert after[dest + k] == before[SourceOf(dest, src, k)];
    }
  }

  /** For any other pair of ranges there are contents that do not arrive. */
  lemma MovedWrongly(dest: nat, src: nat, n: nat) returns (before: seq<bv8>, after: seq<bv8>)
    requires src < dest < src + n
    ensures |after| == |before| == dest + n && Moved(after, before, dest, src, n)
    ensures !Arrives(after, before, dest, src, n)
  {
    before := seq(dest + n, j => if j == dest then 1 else 0);
    var b := before;
    after := seq(dest + n, j requires 0 <= j < dest + n =>
      if dest <= j then b[SourceOf(dest, src, j - dest)] else b[j]);
    var k := dest - src;
    assert SourceOf(dest, src, k) == src;
    assert after[dest..dest + n][k] == 0 && before[src..src + n][k] == 1;
  }

  /** n bytes from dest on are zero, and the others are as before. */
  ghost predicate Zeroed(after: seq<bv8>, dest: nat, n: nat, before: seq<bv8>) {
    && |after| == |before| && dest + n <= |after|
    && forall j | 0 <= j < |after| :: after[j] == if dest <= j < dest + n then 0 else before[j]
  }

  method MemSet(bytes: array<bv8>, dest: nat, v: bv8, n: nat)
    requires dest + n <= bytes.Length
    modifies bytes
    ensures forall j | 0 <= j < bytes.Length ::
              bytes[j] == if dest <= j < dest + n then v else old(bytes[j])
  {
    for i := 0 to n
      invariant forall j | 0 <= j < bytes.Length ::
                  bytes[j] == if dest <= j < dest + i then v else old(bytes[j])
    {
      bytes[dest + i] := v;
    }
  }
}
