/** The char-backed bitset of src/mem/Buddy.cpp: bytes, masks and in-place range operations. */
module Bitset {

  /** The table bitset_char_mask, row by row. */
  function CharMaskTable(first: nat, last: nat): bv8
    requires first < 8 && last < 8
  {
    match first
    case 0 => Column(last, 1, 3, 7, 15, 31, 63, 127, 255)
    case 1 => Column(last, 0, 2, 6, 14, 30, 62, 126, 254)
    case 2 => Column(last, 0, 0, 4, 12, 28, 60, 124, 252)
    case 3 => Column(last, 0, 0, 0, 8, 24, 56, 120, 248)
    case 4 => Column(last, 0, 0, 0, 0, 16, 48, 112, 240)
    case 5 => Column(last, 0, 0, 0, 0, 0, 32, 96, 224)
    case 6 => Column(last, 0, 0, 0, 0, 0, 0, 64, 192)
    case 7 => Column(last, 0, 0, 0, 0, 0, 0, 0, 128)
  }

  function Column(k: nat, a: bv8, b: bv8, c: bv8, d: bv8, e: bv8, f: bv8, g: bv8, h: bv8): bv8
    requires k < 8
  {
    match k
    case 0 => a
    case 1 => b
    case 2 => c
    case 3 => d
    case 4 => e
    case 5 => f
    case 6 => g
    case 7 => h
  }

  const POPCOUNT: seq<nat> := [0, 1, 1, 2, 1, 2, 2, 3, 1, 2, 2, 3, 2, 3, 3, 4]

  /** The table bitset_index_mask. */
  function IndexMask(k: nat): bv8
    requires k < 8
  {
    Column(k, 1, 2, 4, 8, 16, 32, 64, 128)
  }

  predicate ByteBit(b: bv8, k: nat)
    requires k < 8
  {
    b & IndexMask(k) != 0
  }

  /** Bit k of a byte buffer. */
  predicate Bit(bytes: seq<bv8>, k: nat)
    requires k / 8 < |bytes|
  {
    ByteBit(bytes[k / 8], k % 8)
  }

  /** The number of set bits among positions lo..hi-1 of one byte. */
  function CountByte(b: bv8, lo: nat, hi: nat): (n: nat)
    requires lo <= hi <= 8
    decreases hi
  {
    if lo == hi then 0 else CountByte(b, lo, hi - 1) + (if ByteBit(b, hi - 1) then 1 else 0)
  }

  /** The number of set bits among positions lo..hi-1 of a buffer. */
  function CountBits(bytes: seq<bv8>, lo: nat, hi: nat): (n: nat)
    requires lo <= hi <= 8 * |bytes|
    decreases hi
  {
    if lo == hi then 0 else CountBits(bytes, lo, hi - 1) + (if Bit(bytes, hi - 1) then 1 else 0)
  }

  // ----- bytes and masks -----

  lemma OrBit(b: bv8, m: bv8, k: nat)
    requires k < 8
    ensures ByteBit(b | m, k) <==> ByteBit(b, k) || ByteBit(m, k)
  {
  }

  lemma AndNotBit(b: bv8, m: bv8, k: nat)
    requires k < 8
    ensures ByteBit(b & !m, k) <==> ByteBit(b, k) && !ByteBit(m, k)
  {
  }

  lemma AndBit(b: bv8, m: bv8, k: nat)
    requires k < 8
    ensures ByteBit(b & m, k) <==> ByteBit(b, k) && ByteBit(m, k)
  {
  }

  lemma SingleMask(index: nat, k: nat)
    requires index < 8 && k < 8
    ensures ByteBit(IndexMask(index), k) <==> k == index
  {
  }

  /** A byte whose set bits are exactly the columns first..last. */
  ghost predicate Columns(m: bv8, first: nat, last: nat) {
    forall k | 0 <= k < 8 :: ByteBit(m, k) <==> first <= k <= last
  }

  lemma MaskRow0(last: nat)
    requires last < 8
    ensures Columns(CharMaskTable(0, last), 0, last)
  {
  }

  /** Dropping the lowest column of a row of the table gives the next row. */
  lemma MaskNextRow(first: nat, last: nat)
    requires 0 < first < 8 && last < 8
    ensures CharMaskTable(first, last) == CharMaskTable(first - 1, last) & !IndexMask(first - 1)
  {
  }

  lemma {:induction false} MaskColumns(first: nat, last: nat)
    requires first < 8 && last < 8
    ensures Columns(CharMaskTable(first, last), first, last)
  {
    if first == 0 {
      MaskRow0(last);
    } else {
      MaskColumns(first - 1, last);
      MaskNextRow(first, last);
      DropColumn(CharMaskTable(first - 1, last), first - 1, last);
    }
  }

  lemma DropColumn(m: bv8, first: nat, last: nat)
    requires first < 8 && Columns(m, first, last)
    ensures Columns(m & !IndexMask(first), first + 1, last)
  {
    var rest := m & !IndexMask(first);
    forall k | 0 <= k < 8 ensures ByteBit(rest, k) <==> first + 1 <= k <= last {
      AndNotBit(m, IndexMask(first), k);
      SingleMask(first, k);
    }
  }

  /** The table lookup bitset_char_mask[first][last]. */
  method CharMask(first: nat, last: nat) returns (m: bv8)
    requires first <= last < 8
    ensures Columns(m, first, last)
  {
    MaskColumns(first, last);
    m := CharMaskTable(first, last);
  }

  // ----- counting set bits -----

  function PopcountByte(b: bv8): (n: nat) {
    POPCOUNT[(b & 15) as nat] + POPCOUNT[(b >> 4) as nat]
  }

  function Digit(b: bv8, k: nat): nat
    requires k < 8
  {
    if ByteBit(b, k) then 1 else 0
  }

  lemma NibbleCount(n: bv8)
    requires n <= 15
    ensures POPCOUNT[n as nat] == Digit(n, 0) + Digit(n, 1) + Digit(n, 2) + Digit(n, 3)
  {
    if n <= 7 {
      assert n == 0 || n == 1 || n == 2 || n == 3 || n == 4 || n == 5 || n == 6 || n == 7;
    } else {
      assert n == 8 || n == 9 || n == 10 || n == 11 || n == 12 || n == 13 || n == 14 || n == 15;
    }
  }

  lemma NibbleDigits(b: bv8)
    ensures b & 15 <= 15 && b >> 4 <= 15
    ensures Digit(b & 15, 0) == Digit(b, 0) && Digit(b & 15, 1) == Digit(b, 1)
    ensures Digit(b & 15, 2) == Digit(b, 2) && Digit(b & 15, 3) == Digit(b, 3)
    ensures Digit(b >> 4, 0) == Digit(b, 4) && Digit(b >> 4, 1) == Digit(b, 5)
    ensures Digit(b >> 4, 2) == Digit(b, 6) && Digit(b >> 4, 3) == Digit(b, 7)
  {
  }

  lemma ByteDigits(b: bv8)
    ensures CountByte(b, 0, 8)
         == Digit(b, 0) + Digit(b, 1) + Digit(b, 2) + Digit(b, 3)
          + Digit(b, 4) + Digit(b, 5) + Digit(b, 6) + Digit(b, 7)
  {
    assert CountByte(b, 0, 3) == Digit(b, 0) + Digit(b, 1) + Digit(b, 2);
    assert CountByte(b, 0, 6) == CountByte(b, 0, 3) + Digit(b, 3) + Digit(b, 4) + Digit(b, 5);
  }

  lemma PopcountCounts(b: bv8)
    ensures PopcountByte(b) == CountByte(b, 0, 8)
  {
    NibbleDigits(b);
    NibbleCount(b & 15);
    NibbleCount(b >> 4);
    ByteDigits(b);
  }

  /** Counting under the mask for columns first..last counts exactly those columns. */
  lemma MaskedPopcount(b: bv8, m: bv8, first: nat, last: nat)
    requires first <= last < 8 && Columns(m, first, last)
    ensures PopcountByte(b & m) == CountByte(b, first, last + 1)
  {
    var masked := b & m;
    PopcountCounts(masked);
    forall k | 0 <= k < 8 ensures ByteBit(masked, k) <==> ByteBit(b, k) && first <= k <= last {
      AndBit(b, m, k);
    }
    CountWithin(masked, b, first, last, 8);
  }

  lemma {:induction false} CountWithin(m: bv8, b: bv8, first: nat, last: nat, hi: nat)
    requires first <= last < 8 && hi <= 8
    requires forall k | 0 <= k < 8 :: ByteBit(m, k) <==> ByteBit(b, k) && first <= k <= last
    ensures CountByte(m, 0, hi) ==
            if hi <= first then 0 else CountByte(b, first, if hi <= last then hi else last + 1)
    decreases hi
  {
    if hi > 0 {
      CountWithin(m, b, first, last, hi - 1);
    }
  }

  // ----- in-place updates; ranges include both ends -----

  /** Buffer `after` is `before` with the bits first..last changed to the value. */
  ghost predicate Filled(after: seq<bv8>, before: seq<bv8>, first: nat, last: nat, value: bool) {
    && |after| == |before|
    && forall k | 0 <= k < 8 * |after| ::
         Bit(after, k) <==> if first <= k <= last then value else Bit(before, k)
  }

  /** A change to the columns lo..hi of one byte is that change to the buffer. */
  lemma FilledByByte(before: seq<bv8>, bucket: nat, x: bv8, lo: nat, hi: nat, value: bool)
    requires bucket < |before| && lo <= hi < 8
    requires forall c | 0 <= c < 8 ::
               ByteBit(x, c) <==> if lo <= c <= hi then value else ByteBit(before[bucket], c)
    ensures Filled(before[bucket := x], before, 8 * bucket + lo, 8 * bucket + hi, value)
  {
    var after := before[bucket := x];
    forall k | 0 <= k < 8 * |after|
      ensures Bit(after, k)
         <==> if 8 * bucket + lo <= k <= 8 * bucket + hi then value else Bit(before, k)
    {
      if k / 8 == bucket {
        assert k == 8 * bucket + k % 8;
      }
    }
  }

  /** Columns lo..hi of one bucket, by mask. */
  method ClearBucket(bitset: array<bv8>, bucket: nat, lo: nat, hi: nat)
    requires bucket < bitset.Length && lo <= hi < 8
    modifies bitset
    ensures Filled(bitset[..], old(bitset[..]), 8 * bucket + lo, 8 * bucket + hi, false)
  {
    var m := CharMask(lo, hi);
    var x := bitset[bucket] & !m;
    forall c | 0 <= c < 8 ensures ByteBit(x, c) <==> !(lo <= c <= hi) && ByteBit(bitset[bucket], c) {
      AndNotBit(bitset[bucket], m, c);
    }
    FilledByByte(bitset[..], bucket, x, lo, hi, false);
    bitset[bucket] := x;
    assert bitset[..] == old(bitset[..])[bucket := x];
  }

  method SetBucket(bitset: array<bv8>, bucket: nat, lo: nat, hi: nat)
    requires bucket < bitset.Length && lo <= hi < 8
    modifies bitset
    ensures Filled(bitset[..], old(bitset[..]), 8 * bucket + lo, 8 * bucket + hi, true)
  {
    var m := CharMask(lo, hi);
    var x := bitset[bucket] | m;
    forall c | 0 <= c < 8 ensures ByteBit(x, c) <==> lo <= c <= hi || ByteBit(bitset[bucket], c) {
      OrBit(bitset[bucket], m, c);
    }
    FilledByByte(bitset[..], bucket, x, lo, hi, true);
    bitset[bucket] := x;
    assert bitset[..] == old(bitset[..])[bucket := x];
  }

  method Set(bitset: array<bv8>, pos: nat)
    requires pos < 8 * bitset.Length
    modifies bitset
    ensures Filled(bitset[..], old(bitset[..]), pos, pos, true)
  {
    var bucket, index := pos / 8, pos % 8;
    var x := bitset[bucket] | IndexMask(index);
    forall c | 0 <= c < 8 ensures ByteBit(x, c) <==> c == index || ByteBit(bitset[bucket], c) {
      OrBit(bitset[bucket], IndexMask(index), c);
      SingleMask(index, c);
    }
    FilledByByte(bitset[..], bucket, x, index, index, true);
    bitset[bucket] := x;
    assert bitset[..] == old(bitset[..])[bucket := x];
  }

  method Clear(bitset: array<bv8>, pos: nat)
    requires pos < 8 * bitset.Length
    modifies bitset
    ensures Filled(bitset[..], old(bitset[..]), pos, pos, false)
  {
    var bucket, index := pos / 8, pos % 8;
    var x := bitset[bucket] & !IndexMask(index);
    forall c | 0 <= c < 8 ensures ByteBit(x, c) <==> c != index && ByteBit(bitset[bucket], c) {
      AndNotBit(bitset[bucket], IndexMask(index), c);
      SingleMask(index, c);
    }
    FilledByByte(bitset[..], bucket, x, index, index, false);
    bitset[bucket] := x;
    assert bitset[..] == old(bitset[..])[bucket := x];
  }

  method Test(bitset: array<bv8>, pos: nat) returns (r: bool)
    requires pos < 8 * bitset.Length
    ensures r <==> Bit(bitset[..], pos)
  {
    r := bitset[pos / 8] & IndexMask(pos % 8) != 0;
  }

  lemma WholeByte(before: seq<bv8>, bucket: nat, value: bool)
    requires bucket < |before|
    ensures Filled(before[bucket := if value then 255 else 0], before, 8 * bucket, 8 * bucket + 7, value)
  {
  }

  /** As Filled, for the two ranges a..b and c..d. */
  ghost predicate FilledEnds(after: seq<bv8>, before: seq<bv8>, a: nat, b: nat, c: nat, d: nat,
                             value: bool)
  {
    && |after| == |before|
    && forall k | 0 <= k < 8 * |after| ::
         Bit(after, k) <==> if a <= k <= b || c <= k <= d then value else Bit(before, k)
  }

  lemma BothEnds(s0: seq<bv8>, s1: seq<bv8>, s2: seq<bv8>, a: nat, b: nat, c: nat, d: nat,
                 value: bool)
    requires Filled(s1, s0, a, b, value) && Filled(s2, s1, c, d, value)
    ensures FilledEnds(s2, s0, a, b, c, d, value)
  {
  }

  lemma ExtendFirstEnd(s0: seq<bv8>, s1: seq<bv8>, s2: seq<bv8>, a: nat, b: nat, b': nat, c: nat,
                       d: nat, value: bool)
    requires FilledEnds(s1, s0, a, b, c, d, value) && Filled(s2, s1, b + 1, b', value)
    requires a <= b < b'
    ensures FilledEnds(s2, s0, a, b', c, d, value)
  {
  }

  lemma EndsMeet(s0: seq<bv8>, s1: seq<bv8>, a: nat, b: nat, d: nat, value: bool)
    requires FilledEnds(s1, s0, a, b, b + 1, d, value) && a <= b < d
    ensures Filled(s1, s0, a, d, value)
  {
  }

  method ClearRange(bitset: array<bv8>, first: nat, last: nat)
    requires first <= last < 8 * bitset.Length
    modifies bitset
    ensures Filled(bitset[..], old(bitset[..]), first, last, false)
  {
    var fromBucket, toBucket := first / 8, last / 8;
    var fromIndex, toIndex := first % 8, last % 8;
    if fromBucket == toBucket {
      ClearBucket(bitset, fromBucket, fromIndex, toIndex);
    } else {
      ghost var start := bitset[..];
      ClearBucket(bitset, fromBucket, fromIndex, 7);
      ghost var head := bitset[..];
      ClearBucket(bitset, toBucket, 0, toIndex);
      BothEnds(start, head, bitset[..], first, 8 * fromBucket + 7, 8 * toBucket, last, false);
      fromBucket := fromBucket + 1;
      while fromBucket != toBucket
        invariant first / 8 < fromBucket <= toBucket
        invariant FilledEnds(bitset[..], start, first, 8 * fromBucket - 1, 8 * toBucket, last, false)
      {
        ghost var here := bitset[..];
        WholeByte(here, fromBucket, false);
        bitset[fromBucket] := 0;
        assert bitset[..] == here[fromBucket := 0];
        ExtendFirstEnd(start, here, bitset[..], first, 8 * fromBucket - 1, 8 * fromBucket + 7,
                       8 * toBucket, last, false);
        fromBucket := fromBucket + 1;
      }
      EndsMeet(start, bitset[..], first, 8 * toBucket - 1, last, false);
    }
  }

  method SetRange(bitset: array<bv8>, first: nat, last: nat)
    requires first <= last < 8 * bitset.Length
    modifies bitset
    ensures Filled(bitset[..], old(bitset[..]), first, last, true)
  {
    var fromBucket, toBucket := first / 8, last / 8;
    var fromIndex, toIndex := first % 8, last % 8;
    if fromBucket == toBucket {
      SetBucket(bitset, fromBucket, fromIndex, toIndex);
    } else {
      ghost var start := bitset[..];
      SetBucket(bitset, fromBucket, fromIndex, 7);
      ghost var head := bitset[..];
      SetBucket(bitset, toBucket, 0, toIndex);
      BothEnds(start, head, bitset[..], first, 8 * fromBucket + 7, 8 * toBucket, last, true);
      fromBucket := fromBucket + 1;
      while fromBucket != toBucket
        invariant first / 8 < fromBucket <= toBucket
        invariant FilledEnds(bitset[..], start, first, 8 * fromBucket - 1, 8 * toBucket, last, true)
      {
        ghost var here := bitset[..];
        WholeByte(here, fromBucket, true);
        bitset[fromBucket] := 255;
        assert bitset[..] == here[fromBucket := 255];
        ExtendFirstEnd(start, here, bitset[..], first, 8 * fromBucket - 1, 8 * fromBucket + 7,
                       8 * toBucket, last, true);
        fromBucket := fromBucket + 1;
      }
      EndsMeet(start, bitset[..], first, 8 * toBucket - 1, last, true);
    }
  }

  /**
   The bits from..upTo moved up by `distance`; the bits they leave behind on the low side are cleared.
   The source moves bit upTo too, one more than the range it is given.
   */
  ghost predicate Shifted(after: seq<bv8>, before: seq<bv8>, first: nat, upTo: nat, distance: nat) {
    && |after| == |before|
    && forall k {:trigger Bit(after, k)} | 0 <= k < 8 * |after| ::
         Bit(after, k) <==> if first <= k < first + distance then false
                            else if first + distance <= k <= upTo + distance then Bit(before, k - distance)
                            else Bit(before, k)
  }

  /** As Shifted before the low side is cleared, when the bits from `next` on have moved. */
  ghost predicate ShiftedDownTo(after: seq<bv8>, before: seq<bv8>, next: nat, upTo: nat, distance: nat) {
    && |after| == |before|
    && forall k {:trigger Bit(after, k)} | 0 <= k < 8 * |after| ::
         Bit(after, k) <==> if next + distance <= k <= upTo + distance then Bit(before, k - distance)
                            else Bit(before, k)
  }

  /** One bit of the copy, from `at` to `at + distance`. */
  method CopyBit(bitset: array<bv8>, at: nat, distance: nat)
    requires at + distance < 8 * bitset.Length
    modifies bitset
    ensures Filled(bitset[..], old(bitset[..]), at + distance, at + distance, Bit(old(bitset[..]), at))
  {
    var on := Test(bitset, at);
    if on {
      Set(bitset, at + distance);
    } else {
      Clear(bitset, at + distance);
    }
  }

  lemma FilledAt(after: seq<bv8>, before: seq<bv8>, first: nat, last: nat, value: bool, k: nat)
    requires Filled(after, before, first, last, value) && k < 8 * |after|
    ensures Bit(after, k) <==> if first <= k <= last then value else Bit(before, k)
  {
  }

  lemma ShiftOneMore(s0: seq<bv8>, s1: seq<bv8>, s2: seq<bv8>, at: nat, upTo: nat, distance: nat)
    requires distance >= 1 && at <= upTo && upTo + distance < 8 * |s0|
    requires ShiftedDownTo(s1, s0, at + 1, upTo, distance)
    requires Filled(s2, s1, at + distance, at + distance, Bit(s1, at))
    ensures ShiftedDownTo(s2, s0, at, upTo, distance)
  {
    forall k | 0 <= k < 8 * |s2|
      ensures Bit(s2, k) <==> if at + distance <= k <= upTo + distance then Bit(s0, k - distance) else Bit(s0, k)
    {
      assert Bit(s1, at) <==> Bit(s0, at);
      FilledAt(s2, s1, at + distance, at + distance, Bit(s1, at), k);
    }
  }

  lemma ShiftDone(s0: seq<bv8>, s1: seq<bv8>, s2: seq<bv8>, first: nat, upTo: nat, distance: nat)
    requires distance >= 1 && ShiftedDownTo(s1, s0, first, upTo, distance)
    requires Filled(s2, s1, first, first + distance - 1, false)
    ensures Shifted(s2, s0, first, upTo, distance)
  {
    forall k | 0 <= k < 8 * |s2|
      ensures Bit(s2, k) <==> if first <= k < first + distance then false
                              else if first + distance <= k <= upTo + distance then Bit(s0, k - distance)
                              else Bit(s0, k)
    {
      FilledAt(s2, s1, first, first + distance - 1, false, k);
    }
  }

  /** bitset_shift_right, which starts at the end that is overwritten last. */
  method ShiftBitsRight(bitset: array<bv8>, first: nat, upTo: nat, distance: nat)
    requires distance >= 1 && first <= upTo && upTo + distance < 8 * bitset.Length
    modifies bitset
    ensures Shifted(bitset[..], old(bitset[..]), first, upTo, distance)
  {
    ghost var start := bitset[..];
    var length: int := upTo - first;
    while length >= 0
      invariant -1 <= length <= upTo - first
      invariant ShiftedDownTo(bitset[..], start, first + length + 1, upTo, distance)
    {
      ghost var here := bitset[..];
      CopyBit(bitset, first + length, distance);
      ShiftOneMore(start, here, bitset[..], first + length, upTo, distance);
      length := length - 1;
    }
    ghost var moved := bitset[..];
    ClearRange(bitset, first, first + distance - 1);
    ShiftDone(start, moved, bitset[..], first, upTo, distance);
  }

  /** The columns lo..hi-1 of one byte, counted in the buffer. */
  lemma {:induction false} CountInByte(bytes: seq<bv8>, j: nat, lo: nat, hi: nat)
    requires j < |bytes| && lo <= hi <= 8
    ensures CountBits(bytes, 8 * j + lo, 8 * j + hi) == CountByte(bytes[j], lo, hi)
    decreases hi
  {
    if lo < hi {
      CountInByte(bytes, j, lo, hi - 1);
      assert (8 * j + hi - 1) / 8 == j && (8 * j + hi - 1) % 8 == hi - 1;
    }
  }

  lemma {:induction false} CountSplit(bytes: seq<bv8>, lo: nat, mid: nat, hi: nat)
    requires lo <= mid <= hi <= 8 * |bytes|
    ensures CountBits(bytes, lo, hi) == CountBits(bytes, lo, mid) + CountBits(bytes, mid, hi)
    decreases hi
  {
    if mid < hi {
      CountSplit(bytes, lo, mid, hi - 1);
    }
  }

  /** The masked count within one bucket is the count of the buffer bits in those columns. */
  method CountBucket(bitset: array<bv8>, first: nat, last: nat) returns (n: nat)
    requires first <= last < 8 * bitset.Length && first / 8 == last / 8
    ensures n == CountBits(bitset[..], first, last + 1)
  {
    var bucket := first / 8;
    var m := CharMask(first % 8, last % 8);
    MaskedPopcount(bitset[bucket], m, first % 8, last % 8);
    CountInByte(bitset[..], bucket, first % 8, last % 8 + 1);
    n := PopcountByte(bitset[bucket] & m);
  }

  lemma WholeBucket(bytes: seq<bv8>, first: nat, j: nat)
    requires j < |bytes| && first <= 8 * j
    ensures CountBits(bytes, first, 8 * (j + 1)) == CountBits(bytes, first, 8 * j) + PopcountByte(bytes[j])
  {
    PopcountCounts(bytes[j]);
    CountInByte(bytes, j, 0, 8);
    CountSplit(bytes, first, 8 * j, 8 * j + 8);
  }

  method CountRange(bitset: array<bv8>, first: nat, last: nat) returns (result: nat)
    requires first <= last < 8 * bitset.Length
    ensures result == CountBits(bitset[..], first, last + 1)
  {
    var fromBucket, toBucket := first / 8, last / 8;
    if fromBucket == toBucket {
      result := CountBucket(bitset, first, last);
      return;
    }
    var head := CountBucket(bitset, first, 8 * fromBucket + 7);
    var tail := CountBucket(bitset, 8 * toBucket, last);
    var middle := 0;
    ghost var bytes := bitset[..];
    fromBucket := fromBucket + 1;
    assert 8 * fromBucket == 8 * (first / 8) + 7 + 1;
    while fromBucket != toBucket
      invariant first / 8 < fromBucket <= toBucket
      invariant head + middle == CountBits(bytes, first, 8 * fromBucket)
    {
      WholeBucket(bytes, first, fromBucket);
      middle := middle + PopcountByte(bitset[fromBucket]);
      fromBucket := fromBucket + 1;
    }
    CountSplit(bytes, first, 8 * toBucket, last + 1);
    result := head + tail + middle;
  }
}
