/**
 `count_unique` of `xdp-entropy.c`: a 256-bit bitmap of the byte values seen and a
 branch-free population count, proved to be the cardinality of the set of bytes read.
 */
module ByteDiversity {
  import opened Prelude

  const MAX_ANALYZE := 1500
  const WORDS := 8

  // --- the parallel population count, stage by stage ---

  function PairCounts(v: bv32): bv32 { v - ((v >> 1) & 0x55555555) }
  function NibbleCounts(v: bv32): bv32 { (v & 0x33333333) + ((v >> 2) & 0x33333333) }
  function ByteCounts(v: bv32): bv32 { (v + (v >> 4)) & 0x0F0F0F0F }
  function SumOfBytes(v: bv32): bv32 { (v * 0x01010101) >> 24 }

  function ParallelPopcount(v: bv32): bv32 {
    SumOfBytes(ByteCounts(NibbleCounts(PairCounts(v))))
  }

  function Byte0(v: bv32): bv32 { v & 0xFF }
  function Byte1(v: bv32): bv32 { (v >> 8) & 0xFF }
  function Byte2(v: bv32): bv32 { (v >> 16) & 0xFF }
  function Byte3(v: bv32): bv32 { v >> 24 }

  /** The first three stages applied to one byte alone. */
  function OneByteCount(b: bv32): bv32 {
    ByteCounts(NibbleCounts(PairCounts(b)))
  }

  // Each stage works on every byte as if the others were not there.

  lemma PairsPerByte(v: bv32)
    ensures Byte0(PairCounts(v)) == PairCounts(Byte0(v)) && Byte1(PairCounts(v)) == PairCounts(Byte1(v))
    ensures Byte2(PairCounts(v)) == PairCounts(Byte2(v)) && Byte3(PairCounts(v)) == PairCounts(Byte3(v))
  {}

  lemma NibblesPerByte(v: bv32)
    ensures Byte0(NibbleCounts(v)) == NibbleCounts(Byte0(v)) && Byte1(NibbleCounts(v)) == NibbleCounts(Byte1(v))
    ensures Byte2(NibbleCounts(v)) == NibbleCounts(Byte2(v)) && Byte3(NibbleCounts(v)) == NibbleCounts(Byte3(v))
  {}

  lemma BytesPerByte(v: bv32)
    ensures var n := NibbleCounts(v);
            && Byte0(ByteCounts(n)) == ByteCounts(Byte0(n)) && Byte1(ByteCounts(n)) == ByteCounts(Byte1(n))
            && Byte2(ByteCounts(n)) == ByteCounts(Byte2(n)) && Byte3(ByteCounts(n)) == ByteCounts(Byte3(n))
  {}

  lemma Count0(v: bv32)
    ensures Byte0(OneByteCount(v)) == OneByteCount(Byte0(v))
  {
    PairsPerByte(v);
    NibblesPerByte(PairCounts(v));
    BytesPerByte(PairCounts(v));
  }

  lemma Count1(v: bv32)
    ensures Byte1(OneByteCount(v)) == OneByteCount(Byte1(v))
  {
    PairsPerByte(v);
    NibblesPerByte(PairCounts(v));
    BytesPerByte(PairCounts(v));
  }

  lemma Count2(v: bv32)
    ensures Byte2(OneByteCount(v)) == OneByteCount(Byte2(v))
  {
    PairsPerByte(v);
    NibblesPerByte(PairCounts(v));
    BytesPerByte(PairCounts(v));
  }

  lemma Count3(v: bv32)
    ensures Byte3(OneByteCount(v)) == OneByteCount(Byte3(v))
  {
    PairsPerByte(v);
    NibblesPerByte(PairCounts(v));
    BytesPerByte(PairCounts(v));
  }

  function Sum4(a: bv32, b: bv32, c: bv32, d: bv32): bv32 { a + b + c + d }

  lemma MultiplySumsBytes(v: bv32)
    requires v & 0xF0F0F0F0 == 0
    ensures SumOfBytes(v) == Sum4(Byte0(v), Byte1(v), Byte2(v), Byte3(v))
  {}

  lemma SumOfCounts(v: bv32)
    ensures var c := OneByteCount(v);
            ParallelPopcount(v) == Sum4(Byte0(c), Byte1(c), Byte2(c), Byte3(c))
  {
    MultiplySumsBytes(OneByteCount(v));
  }

  /** The whole count is the sum of what the stages give on each byte alone. */
  lemma PopcountPerByte(v: bv32)
    ensures ParallelPopcount(v) == Sum4(OneByteCount(Byte0(v)), OneByteCount(Byte1(v)),
                                        OneByteCount(Byte2(v)), OneByteCount(Byte3(v)))
  {
    SumOfCounts(v);
    Count0(v);
    Count1(v);
    Count2(v);
    Count3(v);
  }

  // --- the same count as a number ---

  function CountOf(b: bv32): nat { OneByteCount(b) as nat }

  function Tally(b0: bv32, b1: bv32, b2: bv32, b3: bv32): nat { CountOf(b0) + CountOf(b1) + CountOf(b2) + CountOf(b3) }

  function Popcount(v: bv32): nat { ParallelPopcount(v) as nat }

  lemma AddAsNat(a: bv32, b: bv32, bound: bv32)
    requires a <= bound <= 24 && b <= 8
    ensures (a + b) as nat == a as nat + b as nat && a + b <= bound + 8
  {}

  lemma Sum3AsNat(a: bv32, b: bv32, c: bv32)
    requires a <= 8 && b <= 8 && c <= 8
    ensures (a + b + c) as nat == a as nat + b as nat + c as nat && a + b + c <= 24
  {
    AddAsNat(a, b, 8);
    AddAsNat(a + b, c, 16);
  }

  lemma Sum4AsNat(a: bv32, b: bv32, c: bv32, d: bv32)
    requires a <= 8 && b <= 8 && c <= 8 && d <= 8
    ensures Sum4(a, b, c, d) as nat == a as nat + b as nat + c as nat + d as nat
  {
    Sum3AsNat(a, b, c);
    AddAsNat(a + b + c, d, 24);
  }

  lemma OneByteBound(b: bv32)
    ensures b < 256 ==> OneByteCount(b) <= 8
  {}

  lemma ByteBounds(v: bv32)
    ensures Byte0(v) < 256 && Byte1(v) < 256 && Byte2(v) < 256 && Byte3(v) < 256
  {}

  lemma BytesBounded(v: bv32)
    ensures OneByteCount(Byte0(v)) <= 8 && OneByteCount(Byte1(v)) <= 8
    ensures OneByteCount(Byte2(v)) <= 8 && OneByteCount(Byte3(v)) <= 8
  {
    ByteBounds(v);
    OneByteBound(Byte0(v));
    OneByteBound(Byte1(v));
    OneByteBound(Byte2(v));
    OneByteBound(Byte3(v));
  }

  lemma PopcountIsTally(v: bv32)
    ensures Popcount(v) == Tally(Byte0(v), Byte1(v), Byte2(v), Byte3(v))
  {
    PopcountPerByte(v);
    BytesBounded(v);
    Sum4AsNat(OneByteCount(Byte0(v)), OneByteCount(Byte1(v)), OneByteCount(Byte2(v)), OneByteCount(Byte3(v)));
  }

  // --- setting a bit adds one ---

  predicate OneBit(m: bv32) {
    m != 0 && m & (m - 1) == 0
  }

  lemma OneByteCountGrows(b: bv32, m: bv32)
    requires b < 256 && m < 256 && OneBit(m) && b & m == 0
    ensures OneByteCount(b | m) == OneByteCount(b) + 1
  {}

  lemma CountGrows(b: bv32, m: bv32)
    requires b < 256 && m < 256 && OneBit(m) && b & m == 0
    ensures CountOf(b | m) == CountOf(b) + 1
  {
    OneByteCountGrows(b, m);
    OneByteBound(b);
    AddAsNat(OneByteCount(b), 1, 8);
  }

  lemma BitInByte0(v: bv32, m: bv32)
    requires OneBit(m) && m < 0x100 && v & m == 0
    ensures Byte0(v) < 256 && Byte0(m) < 256 && OneBit(Byte0(m)) && Byte0(v) & Byte0(m) == 0
    ensures Byte0(v | m) == Byte0(v) | Byte0(m) && Byte1(v | m) == Byte1(v)
    ensures Byte2(v | m) == Byte2(v) && Byte3(v | m) == Byte3(v)
  {}

  lemma BitInByte1(v: bv32, m: bv32)
    requires OneBit(m) && 0x100 <= m < 0x10000 && v & m == 0
    ensures Byte1(v) < 256 && Byte1(m) < 256 && OneBit(Byte1(m)) && Byte1(v) & Byte1(m) == 0
    ensures Byte1(v | m) == Byte1(v) | Byte1(m) && Byte0(v | m) == Byte0(v)
    ensures Byte2(v | m) == Byte2(v) && Byte3(v | m) == Byte3(v)
  {}

  lemma BitInByte2(v: bv32, m: bv32)
    requires OneBit(m) && 0x10000 <= m < 0x1000000 && v & m == 0
    ensures Byte2(v) < 256 && Byte2(m) < 256 && OneBit(Byte2(m)) && Byte2(v) & Byte2(m) == 0
    ensures Byte2(v | m) == Byte2(v) | Byte2(m) && Byte0(v | m) == Byte0(v)
    ensures Byte1(v | m) == Byte1(v) && Byte3(v | m) == Byte3(v)
  {}

  lemma BitInByte3(v: bv32, m: bv32)
    requires OneBit(m) && 0x1000000 <= m && v & m == 0
    ensures Byte3(v) < 256 && Byte3(m) < 256 && OneBit(Byte3(m)) && Byte3(v) & Byte3(m) == 0
    ensures Byte3(v | m) == Byte3(v) | Byte3(m) && Byte0(v | m) == Byte0(v)
    ensures Byte1(v | m) == Byte1(v) && Byte2(v | m) == Byte2(v)
  {}

  lemma TallyGrows0(v: bv32, m: bv32)
    requires OneBit(m) && m < 0x100 && v & m == 0
    ensures Tally(Byte0(v | m), Byte1(v | m), Byte2(v | m), Byte3(v | m)) ==
            Tally(Byte0(v), Byte1(v), Byte2(v), Byte3(v)) + 1
  {
    BitInByte0(v, m);
    CountGrows(Byte0(v), Byte0(m));
  }

  lemma TallyGrows1(v: bv32, m: bv32)
    requires OneBit(m) && 0x100 <= m < 0x10000 && v & m == 0
    ensures Tally(Byte0(v | m), Byte1(v | m), Byte2(v | m), Byte3(v | m)) ==
            Tally(Byte0(v), Byte1(v), Byte2(v), Byte3(v)) + 1
  {
    BitInByte1(v, m);
    CountGrows(Byte1(v), Byte1(m));
  }

  lemma TallyGrows2(v: bv32, m: bv32)
    requires OneBit(m) && 0x10000 <= m < 0x1000000 && v & m == 0
    ensures Tally(Byte0(v | m), Byte1(v | m), Byte2(v | m), Byte3(v | m)) ==
            Tally(Byte0(v), Byte1(v), Byte2(v), Byte3(v)) + 1
  {
    BitInByte2(v, m);
    CountGrows(Byte2(v), Byte2(m));
  }

  lemma TallyGrows3(v: bv32, m: bv32)
    requires OneBit(m) && 0x1000000 <= m && v & m == 0
    ensures Tally(Byte0(v | m), Byte1(v | m), Byte2(v | m), Byte3(v | m)) ==
            Tally(Byte0(v), Byte1(v), Byte2(v), Byte3(v)) + 1
  {
    BitInByte3(v, m);
    CountGrows(Byte3(v), Byte3(m));
  }

  lemma TallyGrows(v: bv32, m: bv32)
    requires OneBit(m) && v & m == 0
    ensures Tally(Byte0(v | m), Byte1(v | m), Byte2(v | m), Byte3(v | m)) ==
            Tally(Byte0(v), Byte1(v), Byte2(v), Byte3(v)) + 1
  {
    if m < 0x100 {
      TallyGrows0(v, m);
    } else if m < 0x10000 {
      TallyGrows1(v, m);
    } else if m < 0x1000000 {
      TallyGrows2(v, m);
    } else {
      TallyGrows3(v, m);
    }
  }

  /** Setting a bit that was clear adds one to the population count. */
  lemma PopcountGrows(v: bv32, m: bv32)
    requires OneBit(m) && v & m == 0
    ensures Popcount(v | m) == Popcount(v) + 1
  {
    PopcountIsTally(v);
    PopcountIsTally(v | m);
    TallyGrows(v, m);
  }

  // --- the bitmap ---

  function Word(b: bv8): (w: nat)
    ensures w < WORDS
  {
    (b >> 5) as nat
  }

  function Mask(b: bv8): bv32 {
    1 << (b & 31)
  }

  lemma MaskIsOneBit(b: bv8)
    ensures OneBit(Mask(b))
  {}

  lemma MasksAreSeparate(b: bv8, c: bv8)
    requires Word(b) == Word(c) && b != c
    ensures Mask(b) & Mask(c) == 0
  {}

  /** Setting `b`'s bit adds exactly `b` to what a word records. */
  lemma SetBit(v: bv32, b: bv8, c: bv8)
    requires Word(b) == Word(c)
    ensures (v | Mask(b)) & Mask(c) != 0 <==> v & Mask(c) != 0 || c == b
  {
    if c != b {
      MasksAreSeparate(b, c);
    } else {
      MaskIsOneBit(b);
    }
  }

  /** The bitmap records exactly the values in `values`. */
  ghost predicate Records(seen: seq<bv32>, values: set<bv8>) {
    |seen| == WORDS && forall c: bv8 :: c in values <==> seen[Word(c)] & Mask(c) != 0
  }

  /** A count summed over the words of a bitmap. */
  ghost function Total(count: bv32 -> nat, seen: seq<bv32>): nat {
    if seen == [] then 0 else Total(count, seen[..|seen| - 1]) + count(seen[|seen| - 1])
  }

  lemma {:induction false} TotalUpdate(count: bv32 -> nat, seen: seq<bv32>, w: nat, v: bv32)
    requires w < |seen|
    ensures Total(count, seen[w := v]) + count(seen[w]) == Total(count, seen) + count(v)
  {
    var last := |seen| - 1;
    if w == last {
      assert seen[w := v][..last] == seen[..last];
    } else {
      TotalUpdate(count, seen[..last], w, v);
      assert seen[w := v][..last] == seen[..last][w := v];
    }
  }

  lemma {:induction false} TotalOfZeros(count: bv32 -> nat, seen: seq<bv32>)
    requires count(0) == 0 && forall i :: 0 <= i < |seen| ==> seen[i] == 0
    ensures Total(count, seen) == 0
  {
    if seen != [] {
      TotalOfZeros(count, seen[..|seen| - 1]);
    }
  }

  function WithByte(seen: seq<bv32>, b: bv8): (seen': seq<bv32>)
    requires |seen| == WORDS
    ensures |seen'| == WORDS
  {
    seen[Word(b) := seen[Word(b)] | Mask(b)]
  }

  /** One byte read: the bitmap stays exact ... */
  lemma RecordByte(seen: seq<bv32>, values: set<bv8>, b: bv8)
    requires Records(seen, values)
    ensures Records(WithByte(seen, b), values + {b})
  {
    forall c: bv8
      ensures c in values + {b} <==> WithByte(seen, b)[Word(c)] & Mask(c) != 0
    {
      if Word(c) == Word(b) {
        SetBit(seen[Word(b)], b, c);
      }
    }
  }

  /** Setting a byte's bit adds one to the count, unless it was set. */
  ghost predicate CountsBit(count: bv32 -> nat, v: bv32, b: bv8) {
    count(v | Mask(b)) == count(v) + if v & Mask(b) != 0 then 0 else 1
  }

  /** What a population count is: zero on zero, one more for every bit newly set. */
  ghost predicate CountsBits(count: bv32 -> nat) {
    count(0) == 0 && forall v: bv32, b: bv8 :: CountsBit(count, v, b)
  }

  lemma BitAlreadySet(v: bv32, m: bv32)
    requires OneBit(m) && v & m != 0
    ensures v | m == v
  {}

  lemma PopcountOfSetBit(v: bv32, m: bv32, b: bv8)
    requires m == Mask(b)
    ensures Popcount(v | m) == Popcount(v) + if v & m != 0 then 0 else 1
  {
    MaskIsOneBit(b);
    if v & m != 0 {
      BitAlreadySet(v, m);
    } else {
      PopcountGrows(v, m);
    }
  }

  lemma PopcountCountsBit(v: bv32, b: bv8)
    ensures CountsBit(Popcount, v, b)
  {
    PopcountOfSetBit(v, Mask(b), b);
  }

  /** The parallel count is a population count. */
  lemma ParallelPopcountCountsBits()
    ensures CountsBits(Popcount)
  {
    forall v: bv32, b: bv8
      ensures CountsBit(Popcount, v, b)
    {
      PopcountCountsBit(v, b);
    }
  }

  /** ... and its population grows exactly when the value is new. */
  lemma CountByte(count: bv32 -> nat, seen: seq<bv32>, values: set<bv8>, b: bv8)
    requires Records(seen, values) && CountsBits(count)
    ensures Total(count, WithByte(seen, b)) == Total(count, seen) + if b in values then 0 else 1
  {
    assert CountsBit(count, seen[Word(b)], b);
    TotalUpdate(count, seen, Word(b), seen[Word(b)] | Mask(b));
  }

  /** The bitmap records the values, and its population is how many they are. */
  ghost predicate Counted(count: bv32 -> nat, seen: seq<bv32>, values: set<bv8>) {
    Records(seen, values) && Total(count, seen) == |values|
  }

  lemma AddByte(count: bv32 -> nat, seen: seq<bv32>, values: set<bv8>, b: bv8)
    requires CountsBits(count) && Counted(count, seen, values)
    ensures Counted(count, WithByte(seen, b), values + {b})
  {
    RecordByte(seen, values, b);
    CountByte(count, seen, values, b);
    assert b in values ==> values + {b} == values;
  }

  lemma NoBytes(count: bv32 -> nat, seen: seq<bv32>)
    requires CountsBits(count) && |seen| == WORDS && forall i :: 0 <= i < WORDS ==> seen[i] == 0
    ensures Counted(count, seen, {})
  {
    TotalOfZeros(count, seen);
  }

  ghost function ValuesIn(bytes: Bytes): set<bv8> {
    set b | b in bytes
  }

  /** How many bytes the loop reads: the length asked for, the analysis limit, the end of the packet. */
  function ReadLength(data: Bytes, off: nat, len: nat): nat {
    var inPacket := if off < |data| then |data| - off else 0;
    if len <= MAX_ANALYZE && len <= inPacket then len else if MAX_ANALYZE <= inPacket then MAX_ANALYZE else inPacket
  }

  /** The bytes the loop reads, all of them inside the packet. */
  function BytesRead(data: Bytes, off: nat, len: nat): Bytes {
    if off < |data| then data[off..off + ReadLength(data, off, len)] else []
  }

  /** The bitmap after reading some bytes. */
  ghost function BitmapOf(bytes: Bytes): (seen: seq<bv32>)
    ensures |seen| == WORDS
  {
    if bytes == [] then seq(WORDS, _ => 0) else WithByte(BitmapOf(bytes[..|bytes| - 1]), bytes[|bytes| - 1])
  }

  lemma {:induction false} BitmapCounts(count: bv32 -> nat, bytes: Bytes)
    requires CountsBits(count)
    ensures Counted(count, BitmapOf(bytes), ValuesIn(bytes))
  {
    if bytes == [] {
      NoBytes(count, BitmapOf(bytes));
      assert ValuesIn(bytes) == {};
    } else {
      var init, b := bytes[..|bytes| - 1], bytes[|bytes| - 1];
      BitmapCounts(count, init);
      AddByte(count, BitmapOf(init), ValuesIn(init), b);
      assert bytes == init + [b];
      assert ValuesIn(bytes) == ValuesIn(init) + {b};
    }
  }

  lemma BitmapPush(bytes: Bytes, i: nat)
    requires i < |bytes|
    ensures BitmapOf(bytes[..i + 1]) == WithByte(BitmapOf(bytes[..i]), bytes[i])
  {
    assert bytes[..i + 1][..i] == bytes[..i];
  }

  lemma NextByte(data: Bytes, off: nat, len: nat, i: nat)
    requires i < len && i < 1500 && off + i < |data|
    ensures i < |BytesRead(data, off, len)| && BytesRead(data, off, len)[i] == data[off + i]
  {
  }

  /** The bytes counted, with the numbers written out. */
  lemma BytesReadAre(data: Bytes, off: nat, len: nat)
    ensures off + len <= |data| ==>
              BytesRead(data, off, len) == data[off..off + if len <= 1500 then len else 1500]
    ensures forall b :: b in ValuesIn(BytesRead(data, off, len)) <==> b in BytesRead(data, off, len)
  {
  }

  /** The first loop of `count_unique`. */
  method FillBitmap(data: Bytes, off: nat, len: nat) returns (seen: array<bv32>)
    ensures seen[..] == BitmapOf(BytesRead(data, off, len))
  {
    seen := new bv32[WORDS](_ => 0);
    ghost var bytes := BytesRead(data, off, len);
    var i := 0;
    while i < MAX_ANALYZE
      invariant 0 <= i <= |bytes| && seen[..] == BitmapOf(bytes[..i])
    {
      if i >= len {
        break;
      }
      if off + i + 1 > |data| {
        break;
      }
      var b := data[off + i];
      NextByte(data, off, len, i);
      BitmapPush(bytes, i);
      seen[Word(b)] := seen[Word(b)] | Mask(b);
      i := i + 1;
    }
    assert bytes[..i] == bytes;
  }

  /** The second loop of `count_unique`. */
  method SumPopcounts(seen: array<bv32>) returns (unique: nat)
    ensures unique == Total(Popcount, seen[..])
  {
    unique := 0;
    for w := 0 to seen.Length
      invariant unique == Total(Popcount, seen[..w])
    {
      assert seen[..w + 1][..w] == seen[..w];
      unique := unique + Popcount(seen[w]);
    }
    assert seen[..seen.Length] == seen[..];
  }

  /** `count_unique`: the number of different byte values among the bytes read. */
  method CountUnique(data: Bytes, off: nat, len: nat) returns (unique: nat)
    ensures unique == |ValuesIn(BytesRead(data, off, len))|
  {
    var seen := FillBitmap(data, off, len);
    unique := SumPopcounts(seen);
    ParallelPopcountCountsBits();
    BitmapCounts(Popcount, BytesRead(data, off, len));
  }
}
