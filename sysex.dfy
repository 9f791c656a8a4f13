/** The 7-bit SysEx codec: a fixed five-word packing of a `u32` and a group
    packing of byte runs, one mask word followed by up to seven low-7-bit words
    per group. */
module Sysex {
  import opened Midi

  /** How many units a codec call consumed and produced. */
  datatype CodingResult = CodingResult(bytesRead: nat, bytesWritten: nat)

  datatype Result<+T> = Ok(value: T) | Err(message: string)

  // ---------------------------------------------------------------------
  // u32: [mask, b3, b2, b1, b0], each byte's top bit folded into the mask

  /** Byte k of a u32, byte 0 being the most significant. */
  function ByteOf(v: u32, k: nat): byte
    requires k < 4
  {
    if k == 0 then Truncate(v >> 24)
    else if k == 1 then Truncate(v >> 16)
    else if k == 2 then Truncate(v >> 8)
    else Truncate(v)
  }

  /** A Rust `as u8` cast: keep the low eight bits. */
  function Truncate(x: u32): byte
  {
    (x & 0xFF) as byte
  }

  /** The byte with only bit i set. */
  function Bit(i: nat): byte
    requires i < 8
  {
    if i == 0 then 1 else if i == 1 then 2 else if i == 2 then 4 else if i == 3 then 8
    else if i == 4 then 0x10 else if i == 5 then 0x20 else if i == 6 then 0x40 else 0x80
  }

  /** The byte that a low-7-bit word and bit `i` of a mask word stand for. */
  function Unpack(mask: U7, i: nat, low: U7): byte
    requires i < 7
  {
    (if mask & Bit(i) != 0 then 0x80 else 0) | low
  }

  /** The decoders' shift-and-mask computation of a top bit is `Unpack`. */
  lemma ShiftedTopBit(mask: U7, i: nat, low: U7)
    requires i < 7
    ensures (((mask >> i) & 1) << 7) | low == Unpack(mask, i, low)
  {
  }

  /** The encoder's shift of a set top bit into mask position i is `Bit(i)`. */
  lemma ShiftIsBit(msb: byte, i: nat)
    requires msb == 1 && i < 8
    ensures msb << i == Bit(i)
  {
  }

  /** The top bits mask bits 0..3 stand for: bit 0 for byte 0 (the most
      significant) up to bit 3 for byte 3. */
  function HighBits(mask: U7): u32
  {
    (if mask & 0x01 > 0 then 0x8000_0000 else 0) | (if mask & 0x02 > 0 then 0x80_0000 else 0)
    | (if mask & 0x04 > 0 then 0x8000 else 0) | (if mask & 0x08 > 0 then 0x80 else 0)
  }

  /** Four 7-bit words placed at the bottom of the four bytes of a u32. */
  function LowBits(b0: U7, b1: U7, b2: U7, b3: U7): u32
  {
    (b0 as u32 << 24) | (b1 as u32 << 16) | (b2 as u32 << 8) | b3 as u32
  }

  /** The decoder's arithmetic: the shifted words summed, then each mask
      bit's top bit added. */
  function Assemble(mask: U7, b0: U7, b1: U7, b2: U7, b3: U7): u32
  {
    var msb := mask as u32;
    var y := (b0 as u32 << 24) + (b1 as u32 << 16) + (b2 as u32 << 8) + b3 as u32;
    var y := if msb & 0x01 > 0 then y + 0x8000_0000 else y;
    var y := if msb & 0x02 > 0 then y + 0x80_0000 else y;
    var y := if msb & 0x04 > 0 then y + 0x8000 else y;
    if msb & 0x08 > 0 then y + 0x80 else y
  }

  lemma AddDisjoint(a: u32, b: u32)
    requires a & b == 0
    ensures a + b == a | b
  {
  }

  /** No addition of the decoder carries: each adds bits the sum so far
      does not have, so the sum is the union of low words and top bits. */
  lemma AssembleIsUnion(mask: U7, b0: U7, b1: U7, b2: U7, b3: U7)
    ensures Assemble(mask, b0, b1, b2, b3) == LowBits(b0, b1, b2, b3) | HighBits(mask)
  {
    var msb := mask as u32;
    AddDisjoint(b0 as u32 << 24, b1 as u32 << 16);
    AddDisjoint((b0 as u32 << 24) | (b1 as u32 << 16), b2 as u32 << 8);
    AddDisjoint((b0 as u32 << 24) | (b1 as u32 << 16) | (b2 as u32 << 8), b3 as u32);
    var y0 := LowBits(b0, b1, b2, b3);
    var y1 := if msb & 0x01 > 0 then y0 + 0x8000_0000 else y0;
    if msb & 0x01 > 0 { AddDisjoint(y0, 0x8000_0000); }
    var y2 := if msb & 0x02 > 0 then y1 + 0x80_0000 else y1;
    if msb & 0x02 > 0 { AddDisjoint(y1, 0x80_0000); }
    var y3 := if msb & 0x04 > 0 then y2 + 0x8000 else y2;
    if msb & 0x04 > 0 { AddDisjoint(y2, 0x8000); }
    if msb & 0x08 > 0 { AddDisjoint(y3, 0x80); }
  }

  lemma UnionByte0(mask: U7, b0: U7, b1: U7, b2: U7, b3: U7)
    ensures ByteOf(LowBits(b0, b1, b2, b3) | HighBits(mask), 0) == Unpack(mask, 0, b0)
  {
  }

  lemma UnionByte1(mask: U7, b0: U7, b1: U7, b2: U7, b3: U7)
    ensures ByteOf(LowBits(b0, b1, b2, b3) | HighBits(mask), 1) == Unpack(mask, 1, b1)
  {
  }

  lemma UnionByte2(mask: U7, b0: U7, b1: U7, b2: U7, b3: U7)
    ensures ByteOf(LowBits(b0, b1, b2, b3) | HighBits(mask), 2) == Unpack(mask, 2, b2)
  {
  }

  lemma UnionByte3(mask: U7, b0: U7, b1: U7, b2: U7, b3: U7)
    ensures ByteOf(LowBits(b0, b1, b2, b3) | HighBits(mask), 3) == Unpack(mask, 3, b3)
  {
  }

  /** Byte k of the decoder's sum is the byte mask bit k and word k stand for. */
  lemma AssembledBytes(mask: U7, b0: U7, b1: U7, b2: U7, b3: U7)
    ensures var y := Assemble(mask, b0, b1, b2, b3);
      && ByteOf(y, 0) == Unpack(mask, 0, b0) && ByteOf(y, 1) == Unpack(mask, 1, b1)
      && ByteOf(y, 2) == Unpack(mask, 2, b2) && ByteOf(y, 3) == Unpack(mask, 3, b3)
  {
    AssembleIsUnion(mask, b0, b1, b2, b3);
    UnionByte0(mask, b0, b1, b2, b3);
    UnionByte1(mask, b0, b1, b2, b3);
    UnionByte2(mask, b0, b1, b2, b3);
    UnionByte3(mask, b0, b1, b2, b3);
  }

  /** `u32::decode`: fails on fewer than five words; otherwise byte k of the
      value has its top bit from mask bit k and its low bits from word k + 1. */
  function DecodeU32(data: seq<U7>): (r: Result<(u32, CodingResult)>)
    ensures |data| < 5 <==> r.Err?
    ensures r.Err? ==> r.message == "Not enough data"
    ensures r.Ok? ==> r.value.1 == CodingResult(5, 4)
    ensures r.Ok? ==> && ByteOf(r.value.0, 0) == Unpack(data[0], 0, data[1])
                      && ByteOf(r.value.0, 1) == Unpack(data[0], 1, data[2])
                      && ByteOf(r.value.0, 2) == Unpack(data[0], 2, data[3])
                      && ByteOf(r.value.0, 3) == Unpack(data[0], 3, data[4])
  {
    if |data| >= 5 then
      AssembledBytes(data[0], data[1], data[2], data[3], data[4]);
      Ok((Assemble(data[0], data[1], data[2], data[3], data[4]), CodingResult(5, 4)))
    else
      Err("Not enough data")
  }

  /** The encoder's mask byte: bit k set when byte k of the value has its
      top bit set. */
  function TopBitMask(value: u32): byte
  {
    var first: byte := 0;
    var first := if value & 0x8000_0000 > 0 then first | 1 else first;
    var first := if value & 0x80_0000 > 0 then first | 2 else first;
    var first := if value & 0x8000 > 0 then first | 4 else first;
    if value & 0x80 > 0 then first | 8 else first
  }

  lemma TopBitsRestored(v: u32)
    ensures TopBitMask(v) < 0x10
    ensures HighBits(FromU8Lossy(TopBitMask(v))) == v & 0x8080_8080
  {
  }

  lemma LowBitsRestored(v: u32)
    ensures LowBits(FromU8Lossy(Truncate(v >> 24)), FromU8Lossy(Truncate(v >> 16)),
                    FromU8Lossy(Truncate(v >> 8)), FromU8Lossy(Truncate(v))) == v & 0x7F7F_7F7F
  {
  }

  lemma SplitTopBits(v: u32)
    ensures (v & 0x7F7F_7F7F) | (v & 0x8080_8080) == v
  {
  }

  /** `u32::encode` into a buffer of `bufLen` words: refused unless the buffer
      holds exactly five words; otherwise the mask uses bits 0..3 only and the
      words decode back to the value. */
  function EncodeU32(value: u32, bufLen: nat): (r: Result<(seq<U7>, CodingResult)>)
    ensures bufLen != 5 <==> r.Err?
    ensures r.Err? ==> r.message == "Invalid buffer size"
    ensures r.Ok? ==> |r.value.0| == 5 && r.value.0[0] < 0x10 && r.value.1 == CodingResult(4, 5)
    ensures r.Ok? ==> DecodeU32(r.value.0) == Ok((value, CodingResult(5, 4)))
  {
    if bufLen != 5 then
      Err("Invalid buffer size")
    else
      var words := [FromU8Lossy(TopBitMask(value)), FromU8Lossy(Truncate(value >> 24)),
                    FromU8Lossy(Truncate(value >> 16)), FromU8Lossy(Truncate(value >> 8)),
                    FromU8Lossy(Truncate(value))];
      TopBitsRestored(value);
      LowBitsRestored(value);
      SplitTopBits(value);
      AssembleIsUnion(words[0], words[1], words[2], words[3], words[4]);
      Ok((words, CodingResult(4, 5)))
  }

  /** The decoder looks at the first five words only. */
  lemma DecodeU32ReadsFiveWords(data: seq<U7>)
    requires |data| >= 5
    ensures DecodeU32(data) == DecodeU32(data[..5])
  {
  }

  /** The unit-test vectors of the u32 codec. */
  lemma U32Vectors()
    ensures EncodeU32(1, 5) == Ok(([0, 0, 0, 0, 1], CodingResult(4, 5)))
    ensures EncodeU32(32812, 5) == Ok(([4, 0, 0, 0, 0x2c], CodingResult(4, 5)))
    ensures DecodeU32([0, 0, 0, 0, 1]) == Ok((1, CodingResult(5, 4)))
    ensures DecodeU32([4, 0, 0, 0, 0x2c]) == Ok((32812, CodingResult(5, 4)))
    ensures DecodeU32([0, 0, 0, 1]) == Err("Not enough data")
  {
  }

  // ---------------------------------------------------------------------
  // Byte runs: groups of [mask, up to 7 low-7-bit words]

  /** Words the group packing of n bytes occupies: n data words and one mask
      word per started group of seven bytes. */
  function EncodedLength(n: nat): nat
  {
    n + (n + 6) / 7
  }

  /** Bytes carried by `len` words: every started group of eight words spends
      one of them on its mask. */
  function DecodedLength(len: nat): nat
  {
    len - (len + 7) / 8
  }

  /** The destination size the decoder insists on before it writes anything. */
  function DecodeCapacity(len: nat): nat
  {
    len * 7 / 8 + len % 8
  }

  function Min(a: nat, b: nat): nat { if a < b then a else b }

  /** Group g of a byte run: bytes 7g up to 7g + 7. */
  function GroupOf(src: seq<byte>, g: nat): (group: seq<byte>)
    requires 7 * g < |src|
    ensures 1 <= |group| <= 7
  {
    src[7 * g .. Min(7 * g + 7, |src|)]
  }

  /** Mask bit i of a group: set when the group has an i-th byte and that
      byte's top bit is set. */
  function TopBitAt(group: seq<byte>, i: nat): byte
    requires i < 7
  {
    if i < |group| && group[i] >> 7 > 0 then Bit(i) else 0
  }

  /** Mask bits 0 .. n - 1 of a group. */
  function MaskUpTo(group: seq<byte>, n: nat): U7
    requires n <= 7
  {
    if n == 0 then 0 else MaskUpTo(group, n - 1) | TopBitAt(group, n - 1)
  }

  /** The mask word of a group of at most seven bytes. */
  function MaskOf(group: seq<byte>): U7
    requires |group| <= 7
  {
    MaskUpTo(group, 7)
  }

  lemma {:induction false} MaskUpToBit(group: seq<byte>, n: nat, i: nat)
    requires n <= 7 && i < 7
    ensures MaskUpTo(group, n) & Bit(i) != 0 <==> i < n && i < |group| && group[i] >> 7 > 0
  {
    if n > 0 {
      MaskUpToBit(group, n - 1, i);
    }
  }

  /** Bit i of a group's mask is set exactly when the group has an i-th byte
      with its top bit set. */
  lemma MaskOfBit(group: seq<byte>, i: nat)
    requires |group| <= 7 && i < 7
    ensures MaskOf(group) & Bit(i) != 0 <==> i < |group| && group[i] >> 7 > 0
  {
    MaskUpToBit(group, 7, i);
  }

  lemma {:induction false} MaskUpToSnoc(group: seq<byte>, b: byte, n: nat)
    requires |group| < 7 && n <= 7
    ensures MaskUpTo(group + [b], n) ==
      if b >> 7 > 0 && |group| < n then MaskUpTo(group, n) | Bit(|group|) else MaskUpTo(group, n)
  {
    if n > 0 {
      MaskUpToSnoc(group, b, n - 1);
      assert TopBitAt(group + [b], n - 1) ==
        if n - 1 == |group| && b >> 7 > 0 then Bit(n - 1) else TopBitAt(group, n - 1);
    }
  }

  /** Adding a byte to a group sets the mask bit at its position when the
      byte's top bit is set, and leaves the mask alone otherwise. */
  lemma MaskOfSnoc(group: seq<byte>, b: byte)
    requires |group| < 7
    ensures MaskOf(group + [b]) == if b >> 7 > 0 then MaskOf(group) | Bit(|group|) else MaskOf(group)
  {
    MaskUpToSnoc(group, b, 7);
  }

  /** The encoder's running mask after byte `n`, the `c`-th of the open
      group g. */
  lemma MaskStep(src: seq<byte>, g: nat, n: nat, c: nat, bitmask: byte)
    requires 7 * g <= n < |src| && c == n - 7 * g && c < 7 && bitmask == MaskOf(src[7 * g .. n])
    ensures MaskOf(src[7 * g .. n + 1]) == if src[n] >> 7 > 0 then bitmask | Bit(c) else bitmask
  {
    assert src[7 * g .. n + 1] == src[7 * g .. n] + [src[n]];
    MaskOfSnoc(src[7 * g .. n], src[n]);
  }

  lemma EncodedIndex(n: nat, k: nat)
    requires k < EncodedLength(n)
    ensures 7 * (k / 8) < n
    ensures k % 8 != 0 ==> 7 * (k / 8) + k % 8 - 1 < n
  {
  }

  /** Word k of the group packing of `src`: word 8g is group g's mask, word
      8g + 1 + i the low seven bits of byte 7g + i. */
  function EncodedWord(src: seq<byte>, k: nat): U7
    requires k < EncodedLength(|src|)
  {
    EncodedIndex(|src|, k);
    if k % 8 == 0 then MaskOf(GroupOf(src, k / 8))
    else FromU8Lossy(src[7 * (k / 8) + k % 8 - 1])
  }

  /** The group packing of a byte run, every group with its mask word. */
  function Encoded(src: seq<byte>): (words: seq<U7>)
    ensures |words| == EncodedLength(|src|)
  {
    seq(EncodedLength(|src|), k requires 0 <= k < EncodedLength(|src|) => EncodedWord(src, k))
  }

  /** The one word the byte encoder may leave as it was: the mask of a
      trailing group after the first when none of that group's bytes has its
      top bit set (the mask is then zero and never stored). */
  predicate LeavesMaskWord(src: seq<byte>, k: nat)
  {
    && |src| > 7
    && k == 8 * ((|src| - 1) / 7)
    && MaskOf(GroupOf(src, k / 8)) == 0
  }

  /** The buffer `prev` after the byte encoder has written the packing of `src`
      into it. */
  function EncodeInto(src: seq<byte>, prev: seq<U7>): (buf: seq<U7>)
    requires EncodedLength(|src|) <= |prev|
    ensures |buf| == |prev|
  {
    seq(|prev|, k requires 0 <= k < |prev| =>
      if k < EncodedLength(|src|) && !LeavesMaskWord(src, k) then EncodedWord(src, k) else prev[k])
  }

  /** The word byte 7h + i of a run is packed into. */
  function Slot(h: nat, i: nat): nat
  {
    8 * h + i + 1
  }

  lemma EncodedLengthAt(g: nat, c: nat)
    requires 1 <= c <= 7
    ensures EncodedLength(7 * g + c) == 8 * g + c + 1
    ensures (7 * g + c) % 7 == 0 <==> c == 7
  {
  }

  lemma EncodedLengthMonotone(n: nat, m: nat)
    requires n <= m
    ensures EncodedLength(n) <= EncodedLength(m)
  {
  }

  /** The encoder's progress: the first `n` bytes of `src` have their data
      words in `buf`, the first `g` groups (all complete) have their masks,
      and from word `top` on the buffer is as it was (`prev`). */
  ghost predicate Packed(src: seq<byte>, prev: seq<U7>, buf: seq<U7>, n: nat, g: nat, top: nat)
  {
    && |buf| == |prev|
    && n <= |src|
    && 7 * g <= n
    && top <= |buf|
    && (forall h: nat, i :: 0 <= i < 7 && 7 * h + i < n ==>
          Slot(h, i) < top && buf[Slot(h, i)] == FromU8Lossy(src[7 * h + i]))
    && (forall h: nat :: h < g ==> 8 * h < top && buf[8 * h] == MaskOf(src[7 * h .. 7 * h + 7]))
    && (forall k :: top <= k < |buf| ==> buf[k] == prev[k])
  }

  /** Storing the low bits of byte n = 7g + c in its data word `at`. */
  lemma PackedAddByte(src: seq<byte>, prev: seq<U7>, buf: seq<U7>, n: nat, g: nat, c: nat,
                      top: nat, at: nat, newTop: nat)
    requires Packed(src, prev, buf, n, g, top)
    requires c < 7 && n == 7 * g + c && n < |src|
    requires at == Slot(g, c) && top <= at && newTop == at + 1 && newTop <= |buf|
    ensures Packed(src, prev, buf[at := FromU8Lossy(src[n])], n + 1, g, newTop)
  {
    var buf' := buf[at := FromU8Lossy(src[n])];
    forall h: nat, i | 0 <= i < 7 && 7 * h + i < n + 1
      ensures Slot(h, i) < newTop && buf'[Slot(h, i)] == FromU8Lossy(src[7 * h + i])
    {
      if 7 * h + i == n {
        assert h == g && i == c;
      } else {
        assert Slot(h, i) < top && Slot(h, i) != at;
      }
    }
  }

  /** Storing a mask word `m` for the open group g, at word `at`. */
  lemma PackedSetMask(src: seq<byte>, prev: seq<U7>, buf: seq<U7>, n: nat, g: nat, top: nat, at: nat, m: U7)
    requires Packed(src, prev, buf, n, g, top)
    requires at == 8 * g && at < top
    ensures Packed(src, prev, buf[at := m], n, g, top)
  {
    var buf' := buf[at := m];
    forall h: nat, i | 0 <= i < 7 && 7 * h + i < n
      ensures buf'[Slot(h, i)] == FromU8Lossy(src[7 * h + i])
    {
      assert Slot(h, i) != at;
    }
  }

  /** Storing the final mask `m` of group g, at word `pos`, once its seven
      bytes are in. */
  lemma PackedCloseGroup(src: seq<byte>, prev: seq<U7>, buf: seq<U7>, g: nat, pos: nat, n: nat,
                         top: nat, newTop: nat, m: U7)
    requires Packed(src, prev, buf, n, g, top)
    requires pos == 8 * g && n == 7 * g + 7 && top == newTop && newTop == pos + 8
    requires m == MaskOf(src[7 * g .. n])
    ensures Packed(src, prev, buf[pos := m], n, g + 1, newTop)
  {
    var buf' := buf[pos := m];
    forall h: nat, i | 0 <= i < 7 && 7 * h + i < n
      ensures buf'[Slot(h, i)] == FromU8Lossy(src[7 * h + i])
    {
      assert Slot(h, i) != pos;
    }
  }

  /** The encoder's loop invariant after `cnt` bytes: the byte count, write
      position, open group's length and running mask agree, the packing so far
      is in place, and the open group's mask word holds the running mask when
      the encoder has stored it (always for the first group, otherwise once a
      top bit was seen). */
  ghost predicate EncInv(src: seq<byte>, prev: seq<U7>, buf: seq<U7>,
                         cnt: nat, pos: nat, cnt7: nat, bitmask: byte, g: nat)
  {
    && cnt <= |src|
    && |buf| == |prev|
    && EncodedLength(|src|) <= |buf|
    && (cnt == 0 ==> pos == 0 && cnt7 == 0 && bitmask == 0 && g == 0 && Packed(src, prev, buf, 0, 0, 0))
    && (cnt > 0 ==>
          && 1 <= cnt7 <= 7 && pos == 8 * g && cnt == 7 * g + cnt7
          && bitmask == MaskOf(src[7 * g .. cnt])
          && Packed(src, prev, buf, cnt, g, pos + cnt7 + 1)
          && buf[pos] == if pos == 0 || bitmask != 0 then bitmask else prev[pos])
  }

  /** The state between the group bookkeeping and the store of byte `cnt`:
      the open group g has `cnt7` < 7 bytes. */
  ghost predicate EncMid(src: seq<byte>, prev: seq<U7>, buf: seq<U7>,
                         cnt: nat, pos: nat, cnt7: nat, bitmask: byte, g: nat)
  {
    && cnt < |src|
    && |buf| == |prev|
    && EncodedLength(|src|) <= |buf|
    && cnt7 < 7 && pos == 8 * g && cnt == 7 * g + cnt7
    && pos + cnt7 + 1 < |buf|
    && bitmask == MaskOf(src[7 * g .. cnt])
    && Packed(src, prev, buf, cnt, g, if cnt7 == 0 && g > 0 then pos else pos + cnt7 + 1)
    && buf[pos] == if pos == 0 || bitmask != 0 then bitmask else prev[pos]
  }

  /** Before the first byte: the first mask word is stored as zero. */
  lemma EncOpenFirst(src: seq<byte>, prev: seq<U7>, buf: seq<U7>, pos: nat, bitmask: byte)
    requires EncInv(src, prev, buf, 0, pos, 0, bitmask, 0) && 0 < |src|
    ensures pos == 0 && bitmask == 0
    ensures EncMid(src, prev, buf[pos := FromU8Lossy(bitmask)], 0, pos, 0, 0, 0)
  {
    EncodedLengthMonotone(1, |src|);
    assert src[0 .. 0] == [];
    MaskOfLowBytes([], 7);
  }

  /** Inside a group nothing happens before the byte is stored. */
  lemma EncContinue(src: seq<byte>, prev: seq<U7>, buf: seq<U7>,
                    cnt: nat, pos: nat, cnt7: nat, bitmask: byte, g: nat)
    requires EncInv(src, prev, buf, cnt, pos, cnt7, bitmask, g) && cnt < |src|
    requires cnt > 0 && cnt % 7 != 0
    ensures EncMid(src, prev, buf, cnt, pos, cnt7, bitmask, g)
  {
    EncodedLengthAt(g, cnt7);
    EncodedLengthAt(g, cnt7 + 1);
    EncodedLengthMonotone(cnt + 1, |src|);
  }

  /** After seven bytes the group's final mask is stored and the next group
      opens, its mask word left as it was. */
  lemma EncCloseGroup(src: seq<byte>, prev: seq<U7>, buf: seq<U7>,
                      cnt: nat, pos: nat, cnt7: nat, bitmask: byte, g: nat)
    requires EncInv(src, prev, buf, cnt, pos, cnt7, bitmask, g) && cnt < |src|
    requires cnt > 0 && cnt % 7 == 0
    ensures EncMid(src, prev, buf[pos := FromU8Lossy(bitmask)], cnt, pos + 8, 0, 0, g + 1)
  {
    EncodedLengthAt(g, cnt7);
    PackedCloseGroup(src, prev, buf, g, pos, cnt, pos + cnt7 + 1, pos + 8, FromU8Lossy(bitmask));
    assert src[7 * (g + 1) .. cnt] == [];
    MaskOfLowBytes([], 7);
    EncodedLengthMonotone(cnt + 1, |src|);
    EncodedLengthAt(g + 1, 1);
  }

  /** Storing the low bits of byte `cnt`; its top bit is clear, so the mask
      word stays as it was. */
  lemma EncStoreLow(src: seq<byte>, prev: seq<U7>, buf: seq<U7>, after: seq<U7>,
                    cnt: nat, pos: nat, cnt7: nat, bitmask: byte, g: nat)
    requires EncMid(src, prev, buf, cnt, pos, cnt7, bitmask, g)
    requires src[cnt] >> 7 == 0
    requires after == buf[pos + cnt7 + 1 := FromU8Lossy(src[cnt])]
    ensures EncInv(src, prev, after, cnt + 1, pos, cnt7 + 1, bitmask, g)
  {
    EncodedLengthAt(g, cnt7 + 1);
    EncodedLengthMonotone(cnt + 1, |src|);
    PackedAddByte(src, prev, buf, cnt, g, cnt7, if cnt7 == 0 && g > 0 then pos else pos + cnt7 + 1,
                  pos + cnt7 + 1, pos + (cnt7 + 1) + 1);
    MaskStep(src, g, cnt, cnt7, bitmask);
  }

  /** Storing the low bits of byte `cnt` whose top bit is set: the running
      mask gains bit `cnt7` and is stored in the mask word. */
  lemma EncStoreHigh(src: seq<byte>, prev: seq<U7>, buf: seq<U7>, after: seq<U7>, bitmask': byte,
                     cnt: nat, pos: nat, cnt7: nat, bitmask: byte, g: nat)
    requires EncMid(src, prev, buf, cnt, pos, cnt7, bitmask, g)
    requires src[cnt] >> 7 != 0
    requires bitmask' == bitmask | Bit(cnt7)
    requires after == buf[pos + cnt7 + 1 := FromU8Lossy(src[cnt])][pos := FromU8Lossy(bitmask')]
    ensures EncInv(src, prev, after, cnt + 1, pos, cnt7 + 1, bitmask', g)
  {
    EncodedLengthAt(g, cnt7 + 1);
    EncodedLengthMonotone(cnt + 1, |src|);
    var buf1 := buf[pos + cnt7 + 1 := FromU8Lossy(src[cnt])];
    PackedAddByte(src, prev, buf, cnt, g, cnt7, if cnt7 == 0 && g > 0 then pos else pos + cnt7 + 1,
                  pos + cnt7 + 1, pos + (cnt7 + 1) + 1);
    MaskStep(src, g, cnt, cnt7, bitmask);
    var m := MaskOf(src[7 * g .. cnt + 1]);
    assert m == bitmask | Bit(cnt7);
    assert FromU8Lossy(bitmask | Bit(cnt7)) == m;
    PackedSetMask(src, prev, buf1, cnt + 1, g, pos + (cnt7 + 1) + 1, pos, FromU8Lossy(bitmask'));
    assert m != 0 by {
      assert Bit(cnt7) != 0;
    }
  }

  /** `[u8]::encode`: packs `src` into `buf` group by group. The caller's
      buffer must be large enough (the source indexes it without a check). */
  method EncodeBytes(src: seq<byte>, buf: array<U7>) returns (r: CodingResult)
    requires EncodedLength(|src|) <= buf.Length
    modifies buf
    ensures r == CodingResult(|src|, if |src| == 0 then 1 else EncodedLength(|src|))
    ensures buf[..] == EncodeInto(src, old(buf[..]))
  {
    var pos: nat := 0;
    var bitmask: byte := 0;
    var cnt7: nat := 0;
    ghost var g: nat := 0;
    var cnt := 0;
    while cnt < |src|
      invariant EncInv(src, old(buf[..]), buf[..], cnt, pos, cnt7, bitmask, g)
    {
      pos, cnt7, bitmask, g := EncodeGroupStart(src, old(buf[..]), buf, cnt, pos, cnt7, bitmask, g);
      bitmask := EncodeStore(src, old(buf[..]), buf, cnt, pos, cnt7, bitmask, g);
      cnt7 := cnt7 + 1;
      cnt := cnt + 1;
    }
    r := CodingResult(|src|, pos + cnt7 + 1);
    EncodeFinished(src, old(buf[..]), buf[..], pos, cnt7, bitmask, g);
  }

  /** The encoder's bookkeeping before byte `cnt`: at a multiple of seven it
      stores the running mask at `pos` (the finished group's mask, or zero for
      the very first word), clears the mask and, past the first group, moves
      `pos` on by eight. */
  method EncodeGroupStart(src: seq<byte>, ghost prev: seq<U7>, buf: array<U7>,
                          cnt: nat, pos: nat, cnt7: nat, bitmask: byte, ghost g: nat)
    returns (pos': nat, cnt7': nat, bitmask': byte, ghost g': nat)
    requires EncInv(src, prev, buf[..], cnt, pos, cnt7, bitmask, g) && cnt < |src|
    modifies buf
    ensures EncMid(src, prev, buf[..], cnt, pos', cnt7', bitmask', g')
  {
    ghost var before := buf[..];
    if cnt % 7 == 0 {
      if cnt > 0 {
        EncCloseGroup(src, prev, before, cnt, pos, cnt7, bitmask, g);
      } else {
        EncOpenFirst(src, prev, before, pos, bitmask);
      }
      buf[pos] := FromU8Lossy(bitmask);
      assert buf[..] == before[pos := FromU8Lossy(bitmask)];
      bitmask' := 0;
      if cnt > 0 {
        pos', g' := pos + 8, g + 1;
      } else {
        pos', g' := pos, g;
      }
      cnt7' := 0;
    } else {
      EncContinue(src, prev, before, cnt, pos, cnt7, bitmask, g);
      pos', cnt7', bitmask', g' := pos, cnt7, bitmask, g;
    }
  }

  /** The encoder's store of byte `cnt`: its low seven bits go to word
      `pos + cnt7 + 1`; a set top bit is added to the running mask, which is
      then stored at `pos`. */
  method EncodeStore(src: seq<byte>, ghost prev: seq<U7>, buf: array<U7>,
                     cnt: nat, pos: nat, cnt7: nat, bitmask: byte, ghost g: nat)
    returns (bitmask': byte)
    requires EncMid(src, prev, buf[..], cnt, pos, cnt7, bitmask, g)
    modifies buf
    ensures EncInv(src, prev, buf[..], cnt + 1, pos, cnt7 + 1, bitmask', g)
  {
    ghost var mid := buf[..];
    buf[pos + cnt7 + 1] := FromU8Lossy(src[cnt]);
    assert buf[..] == mid[pos + cnt7 + 1 := FromU8Lossy(src[cnt])];
    var msb := src[cnt] >> 7;
    if msb > 0 {
      ShiftIsBit(msb, cnt7);
      bitmask' := bitmask | (msb << cnt7);
      ghost var stored := buf[..];
      buf[pos] := FromU8Lossy(bitmask');
      assert buf[..] == stored[pos := FromU8Lossy(bitmask')];
      EncStoreHigh(src, prev, mid, buf[..], bitmask', cnt, pos, cnt7, bitmask, g);
    } else {
      bitmask' := bitmask;
      EncStoreLow(src, prev, mid, buf[..], cnt, pos, cnt7, bitmask, g);
    }
  }

  /** Word k of a finished packing, by the kind of word it is. */
  lemma EncodeFinishedAt(src: seq<byte>, prev: seq<U7>, buf: seq<U7>, g: nat, cnt7: nat, bitmask: byte, k: nat)
    requires |src| > 0 && 1 <= cnt7 <= 7 && |src| == 7 * g + cnt7 && bitmask == MaskOf(src[7 * g ..])
    requires Packed(src, prev, buf, |src|, g, 8 * g + cnt7 + 1)
    requires buf[8 * g] == if g == 0 || bitmask != 0 then bitmask else prev[8 * g]
    requires k < |buf|
    ensures buf[k] == EncodeInto(src, prev)[k]
  {
    EncodedLengthAt(g, cnt7);
    if k < EncodedLength(|src|) {
      var h, i := k / 8, k % 8;
      assert k == 8 * h + i;
      EncodedIndex(|src|, k);
      if i != 0 {
        FinishedDataWord(src, prev, buf, g, cnt7, h, i - 1);
        assert Slot(h, i - 1) == k;
      } else if h < g {
        FinishedClosedMask(src, prev, buf, g, cnt7, h);
      } else {
        assert h == g;
        FinishedLastMask(src, prev, buf, g, cnt7, bitmask);
      }
    } else {
      assert buf[k] == prev[k];
      assert EncodeInto(src, prev)[k] == prev[k];
    }
  }

  lemma FinishedDataWord(src: seq<byte>, prev: seq<U7>, buf: seq<U7>, g: nat, cnt7: nat, h: nat, i: nat)
    requires |src| > 0 && 1 <= cnt7 <= 7 && |src| == 7 * g + cnt7
    requires Packed(src, prev, buf, |src|, g, 8 * g + cnt7 + 1)
    requires i < 7 && 7 * h + i < |src|
    ensures Slot(h, i) < |buf| && buf[Slot(h, i)] == EncodeInto(src, prev)[Slot(h, i)]
  {
    var k := Slot(h, i);
    assert k / 8 == h && k % 8 == i + 1;
    EncodedLengthAt(g, cnt7);
    assert EncodedWord(src, k) == FromU8Lossy(src[7 * h + i]);
  }

  lemma FinishedClosedMask(src: seq<byte>, prev: seq<U7>, buf: seq<U7>, g: nat, cnt7: nat, h: nat)
    requires |src| > 0 && 1 <= cnt7 <= 7 && |src| == 7 * g + cnt7
    requires Packed(src, prev, buf, |src|, g, 8 * g + cnt7 + 1)
    requires h < g
    ensures 8 * h < |buf| && buf[8 * h] == EncodeInto(src, prev)[8 * h]
  {
    var k := 8 * h;
    assert k / 8 == h && k % 8 == 0;
    EncodedLengthAt(g, cnt7);
    assert GroupOf(src, h) == src[7 * h .. 7 * h + 7];
    assert EncodedWord(src, k) == MaskOf(GroupOf(src, h));
    assert (|src| - 1) / 7 == g;
  }

  lemma FinishedLastMask(src: seq<byte>, prev: seq<U7>, buf: seq<U7>, g: nat, cnt7: nat, bitmask: byte)
    requires |src| > 0 && 1 <= cnt7 <= 7 && |src| == 7 * g + cnt7 && bitmask == MaskOf(src[7 * g ..])
    requires Packed(src, prev, buf, |src|, g, 8 * g + cnt7 + 1)
    requires buf[8 * g] == if g == 0 || bitmask != 0 then bitmask else prev[8 * g]
    ensures buf[8 * g] == EncodeInto(src, prev)[8 * g]
  {
    var k := 8 * g;
    assert k / 8 == g && k % 8 == 0;
    EncodedLengthAt(g, cnt7);
    assert Min(7 * g + 7, |src|) == |src|;
    assert GroupOf(src, g) == src[7 * g ..];
    assert EncodedWord(src, k) == MaskOf(GroupOf(src, g));
    assert (|src| - 1) / 7 == g;
  }

  /** What the encoder's loop leaves behind is the packing written into the
      buffer, and its reported length is the packing's (one word for an empty
      run). */
  lemma EncodeFinished(src: seq<byte>, prev: seq<U7>, buf: seq<U7>, pos: nat, cnt7: nat, bitmask: byte, g: nat)
    requires EncInv(src, prev, buf, |src|, pos, cnt7, bitmask, g)
    ensures buf == EncodeInto(src, prev)
    ensures pos + cnt7 + 1 == if |src| == 0 then 1 else EncodedLength(|src|)
  {
    if |src| > 0 {
      EncodedLengthAt(g, cnt7);
      assert src[7 * g ..] == src[7 * g .. |src|];
    }
    forall k | 0 <= k < |buf|
      ensures buf[k] == EncodeInto(src, prev)[k]
    {
      if |src| > 0 {
        EncodeFinishedAt(src, prev, buf, g, cnt7, bitmask, k);
      }
    }
  }

  /** The word the decoder takes group g's mask from, as the source has it:
      word 0 for the first group and word 7g + 1 after it. That is word 8 for
      the second group, where the encoder puts it, and one word too early for
      every later group. */
  function MaskIndex(g: nat): nat
  {
    if g == 0 then 0 else 7 * g + 1
  }

  lemma DecodedIndex(len: nat, j: nat)
    requires j < DecodedLength(len)
    ensures 8 * (j / 7) + j % 7 + 1 < len
    ensures MaskIndex(j / 7) < len
  {
  }

  /** Output byte j of the decoder as written. */
  function DecodedByte(data: seq<U7>, j: nat): byte
    requires j < DecodedLength(|data|)
  {
    DecodedIndex(|data|, j);
    Unpack(data[MaskIndex(j / 7)], j % 7, data[8 * (j / 7) + j % 7 + 1])
  }

  /** What the byte decoder produces from `data`, as written. */
  function Decoded(data: seq<U7>): (out: seq<byte>)
    ensures |out| == DecodedLength(|data|)
  {
    seq(DecodedLength(|data|), j requires 0 <= j < DecodedLength(|data|) => DecodedByte(data, j))
  }

  /** Output byte j of a decoder that takes every group's mask from word 8g. */
  function IntendedByte(data: seq<U7>, j: nat): byte
    requires j < DecodedLength(|data|)
  {
    DecodedIndex(|data|, j);
    Unpack(data[8 * (j / 7)], j % 7, data[8 * (j / 7) + j % 7 + 1])
  }

  /** The group unpacking as the wire format defines it. */
  function DecodedIntended(data: seq<U7>): (out: seq<byte>)
    ensures |out| == DecodedLength(|data|)
  {
    seq(DecodedLength(|data|), j requires 0 <= j < DecodedLength(|data|) => IntendedByte(data, j))
  }

  /** Every decoded byte fits in a destination of the size the decoder asks
      for. */
  lemma DecodedFits(len: nat)
    ensures DecodedLength(len) <= DecodeCapacity(len)
  {
    var a, b := len / 8, len % 8;
    assert len == 8 * a + b;
    assert len * 7 == 8 * (7 * a) + 7 * b;
    assert len * 7 / 8 == 7 * a + 7 * b / 8;
    assert (len + 7) / 8 == a + (b + 7) / 8;
  }

  /** The decoder's loop invariant after `cnt` words: past word 0, word `cnt - 1`
      was data byte `cnt7` of group q (or, with `cnt7 == 7`, its last), `pos`
      is where group q's output starts, `bitmask` is the word the decoder took
      for group q's mask, the output so far is in place and the rest of the
      destination is untouched. */
  ghost predicate DecInv(data: seq<U7>, prev: seq<byte>, out: seq<byte>,
                         cnt: nat, pos: nat, cnt7: nat, bitmask: U7, q: nat)
  {
    && cnt <= |data|
    && |out| == |prev|
    && DecodedLength(|data|) <= |out|
    && (cnt == 0 ==> pos == 0 && cnt7 == 0 && q == 0)
    && (cnt > 0 ==> pos == 7 * q && cnt7 <= 7 && cnt == 8 * q + cnt7 + 1)
    && (|data| > 0 ==> MaskIndex(q) < |data| && bitmask == data[MaskIndex(q)])
    && pos + cnt7 <= DecodedLength(|data|)
    && (forall j :: 0 <= j < pos + cnt7 ==> out[j] == DecodedByte(data, j))
    && (forall j :: pos + cnt7 <= j < |out| ==> out[j] == prev[j])
  }

  /** Word `cnt` opens group q + 1: the decoder moves `pos` on by seven and,
      as written, takes the new mask from word `pos + 1`. */
  lemma DecNextGroup(data: seq<U7>, prev: seq<byte>, out: seq<byte>,
                     cnt: nat, pos: nat, cnt7: nat, bitmask: U7, q: nat, pos': nat)
    requires DecInv(data, prev, out, cnt, pos, cnt7, bitmask, q)
    requires cnt < |data| && cnt7 == 7 && pos' == pos + 7
    ensures pos' + 1 < |data|
    ensures DecInv(data, prev, out, cnt + 1, pos', 0, data[pos' + 1], q + 1)
  {
    assert MaskIndex(q + 1) == pos' + 1;
  }

  /** Word `cnt` is data byte `cnt7` of group q: the decoder writes the
      unpacked byte at `pos + cnt7`. */
  lemma DecStore(data: seq<U7>, prev: seq<byte>, out: seq<byte>,
                 cnt: nat, pos: nat, cnt7: nat, bitmask: U7, q: nat, v: byte)
    requires DecInv(data, prev, out, cnt, pos, cnt7, bitmask, q)
    requires 0 < cnt < |data| && cnt7 < 7 && v == Unpack(bitmask, cnt7, data[cnt])
    ensures pos + cnt7 < |out|
    ensures DecInv(data, prev, out[pos + cnt7 := v], cnt + 1, pos, cnt7 + 1, bitmask, q)
  {
    var j := pos + cnt7;
    var len := |data|;
    assert (len + 7) / 8 <= q + 1 + (len - (8 * q + cnt7 + 2)) / 8 + 1;
    assert j < DecodedLength(len);
    assert j / 7 == q && j % 7 == cnt7;
    assert DecodedByte(data, j) == v;
  }

  /** At the end of the loop the decoder has written exactly the decoded
      length. */
  lemma DecFinished(data: seq<U7>, prev: seq<byte>, out: seq<byte>,
                    pos: nat, cnt7: nat, bitmask: U7, q: nat)
    requires DecInv(data, prev, out, |data|, pos, cnt7, bitmask, q)
    ensures pos + cnt7 == DecodedLength(|data|)
    ensures out[..DecodedLength(|data|)] == Decoded(data)
    ensures out[DecodedLength(|data|)..] == prev[DecodedLength(|data|)..]
  {
    if |data| > 0 {
      assert (|data| + 7) / 8 == q + 1;
    }
  }

  /** The decoder's handling of word `cnt`: after seven data words it moves
      to the next group and takes that group's mask word; word 0 only supplies
      the first mask; any other word is unpacked into `dest[pos + cnt7]`. */
  method DecodeWord(dest: array<byte>, data: seq<U7>, ghost prev: seq<byte>,
                    cnt: nat, pos: nat, cnt7: nat, bitmask: U7, ghost q: nat)
    returns (pos': nat, cnt7': nat, bitmask': U7, ghost q': nat)
    requires DecInv(data, prev, dest[..], cnt, pos, cnt7, bitmask, q) && cnt < |data|
    modifies dest
    ensures DecInv(data, prev, dest[..], cnt + 1, pos', cnt7', bitmask', q')
  {
    var c := data[cnt];
    if cnt7 == 7 {
      DecNextGroup(data, prev, dest[..], cnt, pos, cnt7, bitmask, q, pos + 7);
      cnt7' := 0;
      pos' := pos + 7;
      q' := q + 1;
      bitmask' := data[pos' + 1];
    } else if cnt > 0 {
      var msb := ((bitmask >> cnt7) & 1) << 7;
      ShiftedTopBit(bitmask, cnt7, c);
      DecStore(data, prev, dest[..], cnt, pos, cnt7, bitmask, q, msb | c);
      ghost var before := dest[..];
      dest[pos + cnt7] := msb | c;
      assert dest[..] == before[pos + cnt7 := msb | c];
      pos', cnt7', bitmask', q' := pos, cnt7 + 1, bitmask, q;
    } else {
      pos', cnt7', bitmask', q' := pos, cnt7, bitmask, q;
    }
  }

  /** `[u8]::decode`: refuses a destination smaller than `DecodeCapacity`
      without touching it; otherwise writes exactly the decoded bytes to the
      front of `dest` and leaves the rest alone. */
  method DecodeBytes(dest: array<byte>, data: seq<U7>) returns (r: Result<CodingResult>)
    modifies dest
    ensures dest.Length < DecodeCapacity(|data|) ==> r == Err("Buffer too small") && dest[..] == old(dest[..])
    ensures dest.Length >= DecodeCapacity(|data|) ==>
      && DecodedLength(|data|) <= dest.Length
      && r == Ok(CodingResult(if |data| == 0 then 1 else |data|, DecodedLength(|data|)))
      && dest[..DecodedLength(|data|)] == Decoded(data)
      && dest[DecodedLength(|data|)..] == old(dest[..])[DecodedLength(|data|)..]
  {
    var ownLen := dest.Length;
    var len := |data|;
    var maxLen := len * 7 / 8;
    if len % 8 > 0 {
      maxLen := maxLen + len % 8;
    }
    if ownLen < maxLen {
      return Err("Buffer too small");
    }
    DecodedFits(len);
    var bitmask: U7 := 0;
    if |data| > 0 {
      bitmask := data[0];
    }
    var pos: nat := 0;
    var cnt7: nat := 0;
    var lastCnt: nat := 0;
    ghost var q: nat := 0;
    var cnt := 0;
    while cnt < |data|
      invariant DecInv(data, old(dest[..]), dest[..], cnt, pos, cnt7, bitmask, q)
      invariant lastCnt == if cnt == 0 then 0 else cnt - 1
    {
      lastCnt := cnt;
      pos, cnt7, bitmask, q := DecodeWord(dest, data, old(dest[..]), cnt, pos, cnt7, bitmask, q);
      cnt := cnt + 1;
    }
    DecFinished(data, old(dest[..]), dest[..], pos, cnt7, bitmask, q);
    r := Ok(CodingResult(lastCnt + 1, pos + cnt7));
  }

  // ---------------------------------------------------------------------
  // Properties of the byte packing

  /** The layout of the packing: word 8g is a mask whose bit i is the top bit
      of byte 7g + i, and word 8g + 1 + i holds that byte's low seven bits. */
  lemma EncodedLayout(src: seq<byte>, g: nat, i: nat)
    requires i < 7 && 7 * g + i < |src|
    ensures 8 * g + i + 1 < EncodedLength(|src|)
    ensures Encoded(src)[8 * g] & Bit(i) != 0 <==> src[7 * g + i] >> 7 > 0
    ensures Encoded(src)[8 * g + i + 1] == src[7 * g + i] & 0x7F
  {
    var group := GroupOf(src, g);
    MaskOfBit(group, i);
    assert group[i] == src[7 * g + i];
    EncodedLengthAt(g, i + 1);
    EncodedLengthMonotone(7 * g + i + 1, |src|);
    var k := Slot(g, i);
    assert (8 * g) / 8 == g && (8 * g) % 8 == 0;
    assert k / 8 == g && k % 8 == i + 1;
    assert Encoded(src)[8 * g] == EncodedWord(src, 8 * g) == MaskOf(group);
    assert Encoded(src)[k] == EncodedWord(src, k) == FromU8Lossy(src[7 * g + i]);
  }

  lemma {:induction false} LengthsAgree(n: nat)
    ensures DecodedLength(EncodedLength(n)) == n
  {
  }

  /** Unpacking, with each group's mask taken from word 8g, inverts the packing
      for every byte run. */
  lemma {:induction false} IntendedRoundTrip(src: seq<byte>)
    ensures DecodedIntended(Encoded(src)) == src
  {
    var words := Encoded(src);
    LengthsAgree(|src|);
    forall j | 0 <= j < |src|
      ensures IntendedByte(words, j) == src[j]
    {
      var g, i := j / 7, j % 7;
      EncodedLayout(src, g, i);
    }
  }

  /** Up to two groups (sixteen words) the decoder reads the right mask words. */
  lemma AsWrittenMatchesIntendedForTwoGroups(data: seq<U7>)
    requires |data| <= 16
    ensures Decoded(data) == DecodedIntended(data)
  {
    forall j | 0 <= j < DecodedLength(|data|)
      ensures DecodedByte(data, j) == IntendedByte(data, j)
    {
      assert j / 7 <= 1;
    }
  }

  /** The decoder as written inverts the encoder for runs of at most 14 bytes. */
  lemma RoundTripUpTo14(src: seq<byte>)
    requires |src| <= 14
    ensures Decoded(Encoded(src)) == src
  {
    IntendedRoundTrip(src);
    AsWrittenMatchesIntendedForTwoGroups(Encoded(src));
  }

  /** Fifteen bytes are enough to break the round trip: the third group's
      mask is read from word 15, the low bits of byte 13, so a set low bit
      there turns byte 14 from 0 into 128. */
  lemma RoundTripFailsAt15()
    ensures var src: seq<byte> := seq(13, _ => 0) + [1, 0];
      Decoded(Encoded(src))[14] == 128 && Decoded(Encoded(src)) != src
  {
    var src: seq<byte> := seq(13, _ => 0) + [1, 0];
    var words := Encoded(src);
    assert |words| == 18;
    assert words[15] == 1 by {
      assert EncodedWord(src, 15) == FromU8Lossy(src[13]);
    }
    assert words[17] == 0 by {
      assert EncodedWord(src, 17) == FromU8Lossy(src[14]);
    }
    assert DecodedByte(words, 14) == Unpack(words[15], 0, words[17]);
  }

  /** In a zero-filled buffer the words the encoder skips are already the
      packing's (zero) mask words. */
  lemma ZeroFilledBufferGetsPacking(src: seq<byte>, prev: seq<U7>)
    requires EncodedLength(|src|) <= |prev|
    requires forall k :: 0 <= k < |prev| ==> prev[k] == 0
    ensures EncodeInto(src, prev)[..EncodedLength(|src|)] == Encoded(src)
  {
  }

  /** Without a zero-filled buffer the trailing mask word is stale: eight
      bytes with clear top bits leave word 8 as it was. */
  lemma StaleTrailingMask()
    ensures var src: seq<byte> := seq(8, _ => 0);
      var prev: seq<U7> := seq(10, _ => 1);
      EncodeInto(src, prev)[8] == 1 && Encoded(src)[8] == 0
  {
    var src: seq<byte> := seq(8, _ => 0);
    assert GroupOf(src, 1) == [0];
    MaskOfLowBytes([0], 7);
    assert EncodedWord(src, 8) == MaskOf(GroupOf(src, 1));
  }

  /** A group whose bytes all have a clear top bit has an empty mask. */
  lemma {:induction false} MaskOfLowBytes(group: seq<byte>, n: nat)
    requires n <= 7
    requires forall i :: 0 <= i < |group| ==> group[i] < 0x80
    ensures MaskUpTo(group, n) == 0
  {
    if n > 0 {
      MaskOfLowBytes(group, n - 1);
    }
  }

  /** Unit-test vectors of the byte packing: one byte with its top bit set. */
  lemma EncodeVectorOneByte()
    ensures Encoded([128]) == [1, 0]
  {
    assert GroupOf([128], 0) == [128];
    MaskOfLowBytes([], 7);
    MaskOfSnoc([], 128);
    assert [] + [128 as byte] == [128];
  }

  /** Two bytes with their top bits set give mask 3. */
  lemma TwoTopBitsMask()
    ensures MaskOf([128, 129]) == 3
  {
    MaskOfLowBytes([], 7);
    MaskOfSnoc([], 128);
    assert [] + [128 as byte] == [128];
    MaskOfSnoc([128], 129);
    assert [128 as byte] + [129] == [128, 129];
  }

  /** Unit-test vector: a full group of small bytes, then two bytes with their
      top bits set. */
  lemma EncodeVectorTwoGroups(src: seq<byte>)
    requires src == [1, 2, 3, 4, 5, 6, 7, 128, 129]
    ensures Encoded(src) == [0, 1, 2, 3, 4, 5, 6, 7, 3, 0, 1]
  {
    var group0, group1 := GroupOf(src, 0), GroupOf(src, 1);
    MaskOfLowBytes(group0, 7);
    assert group1 == [128, 129];
    TwoTopBitsMask();
    var words := Encoded(src);
    assert |words| == 11;
    assert words[0] == MaskOf(group0) && words[8] == MaskOf(group1);
    forall k | 1 <= k < 8
      ensures words[k] == src[k - 1]
    {
      assert k / 8 == 0 && k % 8 == k;
      assert src[k - 1] < 0x80;
      assert words[k] == EncodedWord(src, k) == FromU8Lossy(src[k - 1]);
    }
    assert words[9] == FromU8Lossy(src[7]) == 0;
    assert words[10] == FromU8Lossy(src[8]) == 1;
  }

  /** Unit-test vector of the byte unpacking: a mask with bit 0 set. */
  lemma DecodeVectorOneByte()
    ensures Decoded([1, 0]) == [128]
  {
  }

  /** Unit-test vector of the byte unpacking across the second group's mask
      word, which the decoder reads from word 8. */
  lemma DecodeVectorTwoGroups(data: seq<U7>)
    requires data == [0, 1, 2, 3, 4, 5, 6, 7, 3, 0, 1]
    ensures Decoded(data) == [1, 2, 3, 4, 5, 6, 7, 128, 129]
  {
    var out := Decoded(data);
    assert |out| == 9;
    forall j | 0 <= j < 7
      ensures out[j] == data[j + 1]
    {
      assert out[j] == Unpack(data[0], j, data[j + 1]);
    }
    assert out[7] == Unpack(data[8], 0, data[9]) == 128;
    assert out[8] == Unpack(data[8], 1, data[10]) == 129;
  }
}
