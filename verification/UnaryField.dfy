/** A status stored in unary in a range of bits, as the two internal-position accessors keep it. */
module UnaryField {
  import opened Bitset
  import opened TreeLayout

  /**
   The h bits from loc on hold the value v. A zero is told by the first bit alone, so that the
   other bits may be stale.
   */
  ghost predicate Holds(bytes: seq<bv8>, loc: nat, h: nat, v: nat) {
    && h >= 1 && v <= h && loc + h <= 8 * |bytes|
    && (v == 0 ==> !Bit(bytes, loc))
    && (v > 0 ==> forall k | loc <= k < loc + h :: Bit(bytes, k) <==> k < loc + v)
  }

  /** No bit outside loc..loc+h-1 differs. */
  ghost predicate SameOutside(after: seq<bv8>, before: seq<bv8>, loc: nat, h: nat) {
    && |after| == |before|
    && forall k | 0 <= k < 8 * |after| && !(loc <= k < loc + h) :: Bit(after, k) <==> Bit(before, k)
  }

  lemma {:induction false} CountOfPrefix(bytes: seq<bv8>, loc: nat, h: nat, v: nat, hi: nat)
    requires Holds(bytes, loc, h, v) && v > 0 && loc <= hi <= loc + h
    ensures CountBits(bytes, loc, hi) == if hi <= loc + v then hi - loc else v
    decreases hi
  {
    if hi > loc {
      CountOfPrefix(bytes, loc, h, v, hi - 1);
    }
  }

  lemma HoldsElsewhere(after: seq<bv8>, before: seq<bv8>, loc: nat, h: nat, loc': nat, h': nat, v: nat)
    requires SameOutside(after, before, loc, h) && Holds(before, loc', h', v)
    requires loc + h <= loc' || loc' + h' <= loc
    ensures Holds(after, loc', h', v)
  {
  }

  method WriteToInternalPosition(bitset: array<bv8>, pos: InternalPosition, value: nat)
    requires 1 <= pos.localOffset && value <= pos.localOffset
    requires pos.bitsetLocation + pos.localOffset <= 8 * bitset.Length
    modifies bitset
    ensures Holds(bitset[..], pos.bitsetLocation, pos.localOffset, value)
    ensures SameOutside(bitset[..], old(bitset[..]), pos.bitsetLocation, pos.localOffset)
  {
    if value == 0 {
      Clear(bitset, pos.bitsetLocation);
      return;
    }
    ClearRange(bitset, pos.bitsetLocation, pos.bitsetLocation + pos.localOffset - 1);
    SetRange(bitset, pos.bitsetLocation, pos.bitsetLocation + value - 1);
  }

  /** What reading the field yields, whatever its bits are. */
  ghost function FieldValue(bytes: seq<bv8>, loc: nat, h: nat): (v: nat)
    requires h >= 1 && loc + h <= 8 * |bytes|
  {
    if Bit(bytes, loc) then CountBits(bytes, loc, loc + h) else 0
  }

  /** A field reads back the value it holds. */
  lemma FieldReadsBack(bytes: seq<bv8>, loc: nat, h: nat, v: nat)
    requires Holds(bytes, loc, h, v)
    ensures FieldValue(bytes, loc, h) == v
  {
    if v > 0 {
      CountOfPrefix(bytes, loc, h, v, loc + h);
    }
  }

  method ReadFromInternalPosition(bitset: array<bv8>, pos: InternalPosition) returns (r: nat)
    requires 1 <= pos.localOffset && pos.bitsetLocation + pos.localOffset <= 8 * bitset.Length
    ensures r == FieldValue(bitset[..], pos.bitsetLocation, pos.localOffset)
  {
    var first := Test(bitset, pos.bitsetLocation);
    if !first {
      return 0;
    }
    r := CountRange(bitset, pos.bitsetLocation, pos.bitsetLocation + pos.localOffset - 1);
  }
}
