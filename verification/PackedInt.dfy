/** The variable-length packed integers of ByteBauble (src/bytebauble.cpp): seven data bits a byte,
    the top bit of a byte saying that another byte follows. */
module PackedInt {
  import opened ByteOrder

  // ----- bits -----

  function Pow2(n: nat): (r: nat)
    ensures r > 0
  {
    if n == 0 then 1 else 2 * Pow2(n - 1)
  }

  /** `x >> k`. */
  function Shr(x: nat, k: nat): nat {
    if k == 0 then x else Shr(x / 2, k - 1)
  }

  /** `(x >> k) & 1UL`. */
  function Bit(x: nat, k: nat): nat {
    Shr(x, k) % 2
  }

  /** `x | (1UL << k)`. */
  function SetBit(x: nat, k: nat): nat {
    if Bit(x, k) == 1 then x else x + Pow2(k)
  }

  /** The low `k` bits of `x`. */
  function Low(x: nat, k: nat): nat {
    if k == 0 then 0 else x % 2 + 2 * Low(x / 2, k - 1)
  }

  lemma {:induction false} Pow2Add(a: nat, b: nat)
    ensures Pow2(a + b) == Pow2(a) * Pow2(b)
  {
    if a == 0 {
    } else {
      Pow2Add(a - 1, b);
      assert 2 * (Pow2(a - 1) * Pow2(b)) == (2 * Pow2(a - 1)) * Pow2(b);
    }
  }

  lemma {:induction false} ShrShr(x: nat, a: nat, b: nat)
    ensures Shr(Shr(x, a), b) == Shr(x, a + b)
  {
    if a == 0 {
    } else {
      ShrShr(x / 2, a - 1, b);
    }
  }

  /** The low `j + 1` bits are the low `j` bits and bit `j`. */
  lemma {:induction false} LowNext(x: nat, j: nat)
    ensures Low(x, j + 1) == Low(x, j) + if Bit(x, j) == 1 then Pow2(j) else 0
  {
    if j == 0 {
    } else {
      LowNext(x / 2, j - 1);
    }
  }

  lemma {:induction false} SetFreshBit(x: nat, k: nat)
    requires x < Pow2(k)
    ensures Bit(x, k) == 0 && SetBit(x, k) == x + Pow2(k) < Pow2(k + 1)
  {
    if k == 0 {
    } else {
      SetFreshBit(x / 2, k - 1);
    }
  }

  lemma {:induction false} LowAndHigh(x: nat, k: nat)
    ensures x == Low(x, k) + Pow2(k) * Shr(x, k)
    ensures Low(x, k) < Pow2(k)
  {
    if k == 0 {
    } else {
      LowAndHigh(x / 2, k - 1);
      assert 2 * (Pow2(k - 1) * Shr(x, k)) == (2 * Pow2(k - 1)) * Shr(x, k);
    }
  }

  lemma SevenBits(x: nat)
    ensures Low(x, 7) == x % 0x80
    ensures Shr(x, 7) == x / 0x80
    ensures Pow2(7) == 0x80
  {
    LowAndHigh(x, 7);
  }

  lemma EightBits(x: nat)
    ensures Shr(x, 8) == x / 0x100
    ensures Pow2(8) == 0x100
  {
    SevenBits(x / 2);
  }

  /** The loop invariant of the bit loop: the low `j` bits of `y` are in place at `idx`. */
  ghost predicate Copied(y: nat, j: nat, idx: nat, previous: nat, output: nat) {
    output == previous + Low(y, j) * Pow2(idx) && output < Pow2(idx + j)
  }

  lemma BitOfShift(x: nat, src: nat, j: nat)
    ensures Bit(x, src + j) == Bit(Shr(x, src), j)
  {
    ShrShr(x, src, j);
  }

  lemma CopyStep(y: nat, j: nat, idx: nat, previous: nat, output: nat)
    requires Copied(y, j, idx, previous, output)
    ensures Copied(y, j + 1, idx, previous, if Bit(y, j) == 1 then SetBit(output, idx + j) else output)
  {
    hide Low, Bit, SetBit, Pow2;
    LowNext(y, j);
    SetFreshBit(output, idx + j);
    Pow2Add(j, idx);
    assert idx + (j + 1) == idx + j + 1;
    var low, bit, place := Low(y, j), Pow2(j), Pow2(idx);
    assert (low + bit) * place == low * place + bit * place;
  }

  /** The bit loop both functions share: seven bits of `source`, starting at bit `src`, are copied to
      `output`, starting at bit `idx`. */
  method CopySevenBits(source: nat, src: nat, idx: nat, previous: nat) returns (output: nat)
    requires previous < Pow2(idx)
    ensures output == previous + Shr(source, src) % 0x80 * Pow2(idx)
    ensures output < Pow2(idx + 7)
  {
    output := previous;
    ghost var y := Shr(source, src);
    assert Low(y, 0) == 0;
    for j := 0 to 7
      invariant Copied(y, j, idx, previous, output)
    {
      hide *;
      BitOfShift(source, src, j);
      CopyStep(y, j, idx, previous, output);
      if Bit(source, src + j) == 1 {
        output := SetBit(output, idx + j);
      }
    }
    SevenBits(y);
  }

  // ----- writing -----

  /** The number of bytes the writer decides on; 0 when the integer is out of range. */
  function PackedLength(x: uint32): nat {
    if x <= 0x80 then 1
    else if x <= 0x4000 then 2
    else if x <= 0x20_0000 then 3
    else if x <= 0x1000_0000 then 4
    else 0
  }

  /** The byte the writer emits when `y` is left, and whether more bytes follow. */
  function PackedByte(y: nat, more: bool): (r: nat)
    ensures r < 0x100
  {
    y % 0x80 + if more then 0x80 else 0
  }

  /** The first `k` base-128 digits of `x` as `k` bytes, continuation bit set on all but the last. */
  function Packed(x: nat, k: nat): nat {
    if k == 0 then 0 else PackedByte(x, k > 1) + 0x100 * Packed(x / 0x80, k - 1)
  }

  lemma PackedFits(x: nat, k: nat)
    requires k <= 4
    ensures Packed(x, k) < 0x1_0000_0000
  {
    var y := x / 0x80;
    var z := y / 0x80;
    assert Packed(z / 0x80, if k < 3 then 0 else k - 3) < 0x100;
    assert Packed(z, if k < 2 then 0 else k - 2) < 0x1_0000;
    assert Packed(y, if k < 1 then 0 else k - 1) < 0x100_0000;
  }

  /** The loop invariant of the writer: the first `i` of `total` bytes are in place. */
  ghost predicate Written(x: nat, total: nat, i: nat, bits: nat)
    requires i <= total
  {
    bits < Pow2(8 * i) && bits + Pow2(8 * i) * Packed(Shr(x, 7 * i), total - i) == Packed(x, total)
  }

  lemma NextByteAt(x: nat, i: nat)
    ensures Pow2(8 * (i + 1)) == Pow2(8 * i) * 0x100
    ensures Pow2(7 * (i + 1)) == Pow2(7 * i) * 0x80
    ensures Shr(x, 7 * (i + 1)) == Shr(x, 7 * i) / 0x80
    ensures Shr(x, 8 * (i + 1)) == Shr(x, 8 * i) / 0x100
  {
    Pow2Add(8 * i, 8);
    Pow2Add(7 * i, 7);
    ShrShr(x, 7 * i, 7);
    ShrShr(x, 8 * i, 8);
    SevenBits(Shr(x, 7 * i));
    EightBits(Shr(x, 8 * i));
    assert 7 * (i + 1) == 7 * i + 7 && 8 * (i + 1) == 8 * i + 8;
  }

  /** Moving one digit `low` of a positional number out of the part still to come. */
  lemma MoveDigit(p: nat, base: nat, low: nat, rest: nat, bits: nat)
    requires low < base && bits < p
    ensures bits + p * (low + base * rest) == (bits + low * p) + (p * base) * rest
    ensures bits + low * p < p * base
  {
    assert p * (base * rest) == (p * base) * rest;
    assert p * base == p * (base - 1 - low) + p * low + p;
    assert p * (base - 1 - low) >= 0;
  }

  lemma WrittenStep(x: nat, total: nat, i: nat, bits: nat)
    requires i < total && Written(x, total, i, bits)
    ensures Written(x, total, i + 1, bits + PackedByte(Shr(x, 7 * i), i + 1 < total) * Pow2(8 * i))
  {
    hide Shr, Pow2;
    var y := Shr(x, 7 * i);
    NextByteAt(x, i);
    MoveDigit(Pow2(8 * i), 0x100, PackedByte(y, i + 1 < total), Packed(y / 0x80, total - i - 1), bits);
  }

  lemma PowersOf128()
    ensures Pow2(7) == 0x80 && Pow2(14) == 0x4000 && Pow2(21) == 0x20_0000 && Pow2(28) == 0x1000_0000
  {
    Pow2Add(7, 7);
    Pow2Add(14, 7);
    Pow2Add(21, 7);
    SevenBits(0);
  }

  lemma WrittenEnds(x: nat, total: nat, bits: nat)
    ensures Written(x, total, 0, 0)
    ensures Written(x, total, total, bits) ==> bits == Packed(x, total)
  {
  }

  /** One round of the writer's outer loop: seven data bits, then the continuation bit. */
  method WriteByte(integer: uint32, src: nat, idx: nat, more: bool, previous: nat) returns (output: nat)
    requires previous < Pow2(idx)
    ensures output == previous + PackedByte(Shr(integer, src), more) * Pow2(idx)
  {
    output := CopySevenBits(integer, src, idx, previous);
    if more {
      SetFreshBit(output, idx + 7);
      output := SetBit(output, idx + 7);
      Pow2Add(7, idx);
      SevenBits(0);
      assert (Shr(integer, src) % 0x80 + 0x80) * Pow2(idx) == Shr(integer, src) % 0x80 * Pow2(idx) + 0x80 * Pow2(idx);
    }
  }

  method WritePackedInt(integer: uint32, previous: uint32) returns (totalBytes: nat, output: uint32)
    ensures totalBytes == PackedLength(integer)
    ensures totalBytes == 0 <==> integer > 0x1000_0000
    ensures totalBytes > 0 ==>
              totalBytes <= 4 && integer <= Pow2(7 * totalBytes)
              && (totalBytes > 1 ==> integer > Pow2(7 * (totalBytes - 1)))
    ensures output == if totalBytes == 0 then previous else Packed(integer, totalBytes)
  {
    totalBytes := 0;
    if integer <= 0x80 { totalBytes := 1; }
    else if integer <= 0x4000 { totalBytes := 2; }
    else if integer <= 0x20_0000 { totalBytes := 3; }
    else if integer <= 0x1000_0000 { totalBytes := 4; }
    else { return 0, previous; }

    var bits: nat := 0;
    var idx, src := 0, 0;
    WrittenEnds(integer, totalBytes, 0);
    for i := 0 to totalBytes
      invariant idx == 8 * i && src == 7 * i
      invariant Written(integer, totalBytes, i, bits)
    {
      hide Shr, Pow2, Packed, PackedByte;
      WrittenStep(integer, totalBytes, i, bits);
      bits := WriteByte(integer, src, idx, i + 1 < totalBytes, bits);
      src, idx := src + 7, idx + 8;
    }
    PowersOf128();
    WrittenEnds(integer, totalBytes, bits);
    PackedFits(integer, totalBytes);
    output := bits;
  }

  // ----- reading -----

  /** The top bit of the first byte is set. */
  predicate Continues(packed: nat) {
    packed / 0x80 % 2 == 1
  }

  /** The value in `packed` when at most `k` bytes may be read. */
  function Unpacked(packed: nat, k: nat): nat {
    if k == 0 then 0
    else packed % 0x80 + if Continues(packed) then 0x80 * Unpacked(packed / 0x100, k - 1) else 0
  }

  /** The byte count the reader reports: one more than the number of leading continuation bits. */
  function ByteCount(packed: nat, k: nat): (r: nat)
    ensures 1 <= r <= k + 1
  {
    if k == 0 || !Continues(packed) then 1 else 1 + ByteCount(packed / 0x100, k - 1)
  }

  lemma UnpackedFits(packed: nat)
    ensures Unpacked(packed, 4) < 0x1000_0000
  {
    var p := packed / 0x100;
    var q := p / 0x100;
    assert Unpacked(q / 0x100, 1) < 0x80;
    assert Unpacked(q, 2) < 0x4000;
    assert Unpacked(p, 3) < 0x20_0000;
  }

  /** The loop invariant of the reader: the value of the first `i` bytes, all continued, is in
      `bits`. */
  ghost predicate Collected(packed: nat, total: nat, i: nat, bits: nat)
    requires i <= total
  {
    && bits < Pow2(7 * i)
    && bits + Pow2(7 * i) * Unpacked(Shr(packed, 8 * i), total - i) == Unpacked(packed, total)
    && i + ByteCount(Shr(packed, 8 * i), total - i) == ByteCount(packed, total)
  }

  lemma ReadStep(y: nat, k: nat)
    requires k > 0
    ensures Unpacked(y, k) == y % 0x80 + 0x80 * if Continues(y) then Unpacked(y / 0x100, k - 1) else 0
    ensures ByteCount(y, k) == if Continues(y) then 1 + ByteCount(y / 0x100, k - 1) else 1
  {
  }

  lemma CollectedMore(packed: nat, total: nat, i: nat, bits: nat)
    requires i < total && Collected(packed, total, i, bits) && Continues(Shr(packed, 8 * i))
    ensures Collected(packed, total, i + 1, bits + Shr(packed, 8 * i) % 0x80 * Pow2(7 * i))
  {
    hide Shr, Pow2, Continues, Unpacked, ByteCount;
    var y := Shr(packed, 8 * i);
    ReadStep(y, total - i);
    NextByteAt(packed, i);
    assert total - (i + 1) == total - i - 1;
    MoveDigit(Pow2(7 * i), 0x80, y % 0x80, Unpacked(y / 0x100, total - i - 1), bits);
  }

  lemma CollectedLast(packed: nat, total: nat, i: nat, bits: nat)
    requires i < total && Collected(packed, total, i, bits) && !Continues(Shr(packed, 8 * i))
    ensures bits + Shr(packed, 8 * i) % 0x80 * Pow2(7 * i) == Unpacked(packed, total)
    ensures i + 1 == ByteCount(packed, total)
  {
    hide Shr, Pow2, Continues, Unpacked, ByteCount;
    ReadStep(Shr(packed, 8 * i), total - i);
  }

  lemma ContinuationBit(packed: nat, i: nat)
    ensures Bit(packed, 8 * i + 7) == if Continues(Shr(packed, 8 * i)) then 1 else 0
  {
    ShrShr(packed, 8 * i, 7);
    SevenBits(Shr(packed, 8 * i));
  }

  method ReadPackedInt(packed: uint32) returns (count: nat, output: uint32)
    ensures count == ByteCount(packed, 4)
    ensures output == Unpacked(packed, 4)
  {
    var bits: nat := 0;
    var idx, src := 0, 0;
    var i := 0;
    while i < 4
      invariant 0 <= i <= 4 && idx == 7 * i && src == 8 * i
      invariant Collected(packed, 4, i, bits)
    {
      ContinuationBit(packed, i);
      if Continues(Shr(packed, src)) {
        CollectedMore(packed, 4, i, bits);
      } else {
        CollectedLast(packed, 4, i, bits);
      }
      bits := CopySevenBits(packed, src, idx, bits);
      src, idx := src + 7, idx + 7;
      if Bit(packed, src) == 0 {
        break;
      }
      src, i := src + 1, i + 1;
    }
    UnpackedFits(packed);
    return i + 1, bits;
  }

  // ----- what the pair keeps -----

  /** The low `k` base-128 digits of `x`. */
  function Digits(x: nat, k: nat): nat {
    if k == 0 then 0 else x % 0x80 + 0x80 * Digits(x / 0x80, k - 1)
  }

  lemma PackedParts(x: nat, k: nat)
    requires k >= 1
    ensures var p := Packed(x, k);
            p % 0x80 == x % 0x80 && Continues(p) == (k > 1) && p / 0x100 == Packed(x / 0x80, k - 1)
  {
    ByteOnTop(x % 0x80, if k > 1 then 1 else 0, Packed(x / 0x80, k - 1));
  }

  lemma ByteOnTop(low: nat, bit: nat, rest: nat)
    requires low < 0x80 && bit < 2
    ensures var p := low + 0x80 * bit + 0x100 * rest;
            p % 0x80 == low && p / 0x80 == bit + 2 * rest && p / 0x80 % 2 == bit && p / 0x100 == rest
  {
  }

  lemma {:induction false} UnpackPacked(x: nat, k: nat, limit: nat)
    requires 1 <= k <= limit
    ensures Unpacked(Packed(x, k), limit) == Digits(x, k)
    ensures ByteCount(Packed(x, k), limit) == k
  {
    hide Packed, Continues;
    PackedParts(x, k);
    if k > 1 {
      UnpackPacked(x / 0x80, k - 1, limit - 1);
    }
  }

  lemma {:induction false} DigitsBelow(x: nat, k: nat)
    requires x < Pow2(7 * k)
    ensures Digits(x, k) == x
  {
    if k == 0 {
    } else {
      Pow2Add(7, 7 * (k - 1));
      SevenBits(0);
      assert 7 + 7 * (k - 1) == 7 * k;
      DigitsBelow(x / 0x80, k - 1);
    }
  }

  lemma {:induction false} DigitsOfPower(k: nat)
    ensures k > 0 ==> Digits(Pow2(7 * k), k) == 0
  {
    if k > 1 {
      Pow2Add(7, 7 * (k - 1));
      SevenBits(0);
      assert 7 + 7 * (k - 1) == 7 * k;
      DigitsOfPower(k - 1);
    } else if k == 1 {
      SevenBits(0);
      assert Digits(0x80, 1) == 0x80 % 0x80 + 0x80 * Digits(0x80 / 0x80, 0);
    }
  }

  lemma DigitsInRange(x: uint32)
    requires x <= 0x1000_0000
    ensures Digits(x, PackedLength(x)) == if x in {0x80, 0x4000, 0x20_0000, 0x1000_0000} then 0 else x
  {
    hide Digits, Pow2;
    PowersOf128();
    var k := PackedLength(x);
    if x < Pow2(7 * k) {
      DigitsBelow(x, k);
    } else {
      DigitsOfPower(k);
    }
  }

  /** Every integer in range is read back with the length it was written with, and with its value,
      except exactly the four powers of 128 at the writer's range bounds, which come back as 0. */
  lemma PackedRoundTrip(x: uint32)
    requires x <= 0x1000_0000
    ensures var packed := Packed(x, PackedLength(x));
            && packed < 0x1_0000_0000
            && ByteCount(packed, 4) == PackedLength(x)
            && Unpacked(packed, 4) == if x in {0x80, 0x4000, 0x20_0000, 0x1000_0000} then 0 else x
  {
    UnpackPacked(x, PackedLength(x), 4);
    PackedFits(x, PackedLength(x));
    DigitsInRange(x);
  }

  /** `p` and `q` agree on their first `n` bytes. */
  predicate SameBytes(p: nat, q: nat, n: nat) {
    n == 0 || (p % 0x100 == q % 0x100 && SameBytes(p / 0x100, q / 0x100, n - 1))
  }

  lemma FirstByte(p: nat)
    ensures p % 0x80 == p % 0x100 % 0x80 && Continues(p) == (p % 0x100 >= 0x80)
  {
  }

  /** Nothing past the first byte with a clear continuation bit is looked at. */
  lemma {:induction false} ReadsPrefixOnly(p: nat, q: nat, k: nat)
    requires SameBytes(p, q, if ByteCount(p, k) > k then k else ByteCount(p, k))
    ensures Unpacked(p, k) == Unpacked(q, k) && ByteCount(p, k) == ByteCount(q, k)
  {
    if k == 0 {
    } else {
      FirstByte(p);
      FirstByte(q);
      if Continues(p) {
        ReadsPrefixOnly(p / 0x100, q / 0x100, k - 1);
      }
    }
  }

  /** The reported length exceeds the four bytes there are exactly when all four continuation bits
      are set. */
  lemma FiveBytesReported(p: uint32)
    ensures ByteCount(p, 4) == 5 <==> Bit(p, 7) == 1 && Bit(p, 15) == 1 && Bit(p, 23) == 1 && Bit(p, 31) == 1
  {
    ContinuationBit(p, 0);
    ContinuationBit(p, 1);
    ContinuationBit(p, 2);
    ContinuationBit(p, 3);
    NextByteAt(p, 0);
    NextByteAt(p, 1);
    NextByteAt(p, 2);
    var p1 := p / 0x100;
    var p2 := p1 / 0x100;
    var p3 := p2 / 0x100;
    assert ByteCount(p3, 1) == 2 <==> Continues(p3);
    assert ByteCount(p2, 2) == 3 <==> Continues(p2) && ByteCount(p3, 1) == 2;
    assert ByteCount(p1, 3) == 4 <==> Continues(p1) && ByteCount(p2, 2) == 3;
  }

  // ----- bit by bit -----

  lemma {:induction false} BitOfLow(x: nat, k: nat, j: nat)
    requires j < k
    ensures Bit(Low(x, k), j) == Bit(x, j)
  {
    if j == 0 {
    } else {
      BitOfLow(x / 2, k - 1, j - 1);
    }
  }

  lemma SameLowBits(a: nat, b: nat, j: nat)
    requires a % 0x80 == b % 0x80 && j < 7
    ensures Bit(a, j) == Bit(b, j)
  {
    hide Bit, Low;
    SevenBits(a);
    SevenBits(b);
    BitOfLow(a, 7, j);
    BitOfLow(b, 7, j);
  }

  lemma {:induction false} PackedFrom(x: nat, k: nat, i: nat)
    requires i < k
    ensures Shr(Packed(x, k), 8 * i) == Packed(Shr(x, 7 * i), k - i)
  {
    hide Packed;
    if i == 0 {
    } else {
      PackedFrom(x, k, i - 1);
      NextByteAt(Packed(x, k), i - 1);
      NextByteAt(x, i - 1);
      PackedParts(Shr(x, 7 * (i - 1)), k - (i - 1));
      assert 8 * (i - 1 + 1) == 8 * i && 7 * (i - 1 + 1) == 7 * i && k - (i - 1) - 1 == k - i;
    }
  }

  /** In the packed form every byte holds seven bits of the integer, the low ones first, and its top bit
      is set on all bytes but the last. */
  lemma PackedBits(x: nat, k: nat, i: nat, j: nat)
    requires i < k && j < 7
    ensures Bit(Packed(x, k), 8 * i + j) == Bit(x, 7 * i + j)
    ensures Bit(Packed(x, k), 8 * i + 7) == if i + 1 < k then 1 else 0
  {
    hide Packed, Shr, Continues;
    PackedFrom(x, k, i);
    PackedParts(Shr(x, 7 * i), k - i);
    BitOfShift(Packed(x, k), 8 * i, j);
    BitOfShift(x, 7 * i, j);
    SameLowBits(Packed(Shr(x, 7 * i), k - i), Shr(x, 7 * i), j);
    ContinuationBit(Packed(x, k), i);
  }
}
