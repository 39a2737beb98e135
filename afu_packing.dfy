/** Packing unsigned values of a fixed bit width into cache lines and reading
    them back (`array_put` and `array_get`). Bit `k` of a buffer is bit
    `k mod 8` of byte `k / 8`; value bit `j` is stored at bit `P + j`, where `P`
    is the value's slot position, so the layout is little-endian bit by bit and
    ignores byte boundaries. A cache line holds 64 bytes, 512 bits (`CL(1)` and
    `CL(1) * CHAR_BIT`). After a value is placed, the next one stays in the same
    line only if it still fits in the rest of that line; otherwise it moves to
    the start of the next line. */
module AfuPacking {
  import opened Bits

  // ---------------------------------------------------------------------------
  // Slot layout, shared by array_put and array_get

  /** Where a value is stored: the cache line (counted from the first line
      used) and the bit position within that line. */
  datatype SlotPos = SlotPos(line: nat, bit: nat)

  /** The slot of value `i` for bit width `w`: the advance step of both loops,
      started from line 0, bit 0. */
  function Slot(w: nat, i: nat): SlotPos
  {
    if i == 0 then SlotPos(0, 0) else Advance(w, Slot(w, i - 1))
  }

  /** One advance step: move `w` bits on, and start a fresh line when the next
      value would not fit in the current one. */
  function Advance(w: nat, p: SlotPos): SlotPos
  {
    if p.bit + w + w > 512 then SlotPos(p.line + 1, 0) else SlotPos(p.line, p.bit + w)
  }

  /** The absolute bit position of value `i` when the values start at line
      `cacheLine`. */
  function SlotBit(cacheLine: nat, w: nat, i: nat): nat
  {
    512 * (cacheLine + Slot(w, i).line) + Slot(w, i).bit
  }

  /** With a width of at most one line, no value straddles a line boundary. */
  lemma {:induction false} SlotInLine(w: nat, i: nat)
    requires w <= 512
    ensures Slot(w, i).bit + w <= 512
    decreases i
  {
    if i > 0 {
      SlotInLine(w, i - 1);
    }
  }

  /** Consecutive values do not overlap. */
  lemma SlotStep(cacheLine: nat, w: nat, i: nat)
    requires w <= 512
    ensures SlotBit(cacheLine, w, i) + w <= SlotBit(cacheLine, w, i + 1)
  {
    SlotInLine(w, i);
    var p := Slot(w, i);
    assert Slot(w, i + 1) == Advance(w, p);
    if p.bit + w + w > 512 {
      assert 512 * (cacheLine + p.line + 1) == 512 * (cacheLine + p.line) + 512;
    }
  }

  /** Any two values are stored in disjoint bit ranges, in index order. */
  lemma {:induction false} SlotsSeparate(cacheLine: nat, w: nat, j: nat, i: nat)
    requires w <= 512 && j < i
    ensures SlotBit(cacheLine, w, j) + w <= SlotBit(cacheLine, w, i)
    decreases i - j
  {
    SlotStep(cacheLine, w, j);
    if j + 1 < i {
      SlotsSeparate(cacheLine, w, j + 1, i);
    }
  }

  /** The closed form of the layout: for `1 <= w <= 512`, each line holds
      `n = 512 / w` values, and value `i` sits in line `i / n` at bit
      `(i mod n) * w`. */
  lemma {:induction false} SlotClosedForm(w: nat, i: nat)
    requires 1 <= w <= 512
    ensures var n := 512 / w; n >= 1 && Slot(w, i) == SlotPos(i / n, (i % n) * w)
    decreases i
  {
    LineCapacity(w);
    var n := 512 / w;
    if i == 0 {
      DivModUnique(0, n, 0, 0);
    } else {
      SlotClosedForm(w, i - 1);
      ClosedFormStep(w, n, i - 1, (i - 1) / n, (i - 1) % n, ((i - 1) % n) * w, (i % n) * w);
    }
  }

  /** The closed form carries over one advance step. */
  lemma ClosedFormStep(w: nat, n: nat, k: nat, q: nat, r: nat, bit: nat, bit': nat)
    requires 1 <= w && n >= 1 && n * w <= 512 < (n + 1) * w
    requires q == k / n && r == k % n
    requires bit == r * w && bit' == ((k + 1) % n) * w
    ensures Advance(w, SlotPos(q, bit)) == SlotPos((k + 1) / n, bit')
  {
    AdvanceInLine(w, n, r);
    if r + 1 == n {
      NextLine(n, k, q, r);
    } else {
      SameLine(n, k, q, r);
      assert (r + 1) * w == r * w + w;
    }
  }

  /** After the last slot of a line comes the first slot of the next. */
  lemma NextLine(n: nat, k: nat, q: nat, r: nat)
    requires n >= 1 && q == k / n && r == k % n && r + 1 == n
    ensures (k + 1) / n == q + 1 && (k + 1) % n == 0
  {
    assert k == n * q + r;
    assert n * (q + 1) == n * q + n;
    DivModUnique(k + 1, n, q + 1, 0);
  }

  /** Any other slot is followed by the next slot of the same line. */
  lemma SameLine(n: nat, k: nat, q: nat, r: nat)
    requires n >= 1 && q == k / n && r == k % n && r + 1 < n
    ensures (k + 1) / n == q && (k + 1) % n == r + 1
  {
    assert k == n * q + r;
    DivModUnique(k + 1, n, q, r + 1);
  }

  /** `n = 512 / w` values fit in a line and `n + 1` do not. */
  lemma LineCapacity(w: nat)
    requires 1 <= w <= 512
    ensures 512 / w >= 1
    ensures (512 / w) * w <= 512 < (512 / w + 1) * w
  {
    var n, r := 512 / w, 512 % w;
    assert 512 == n * w + r;
    assert (n + 1) * w == n * w + w;
  }

  /** At slot `r` of a line holding `n` values, the next value starts a new
      line exactly when `r` is the last slot. */
  lemma AdvanceInLine(w: nat, n: nat, r: nat)
    requires 1 <= w && n * w <= 512 < (n + 1) * w && r < n
    ensures (r * w + w + w > 512) <==> (r + 1 == n)
  {
    if r + 1 < n {
      MulMonotonic(r + 2, n, w);
      assert r * w + w + w == (r + 2) * w;
    } else {
      assert r * w + w + w == (n + 1) * w;
    }
  }

  lemma MulMonotonic(a: nat, b: nat, w: nat)
    requires a <= b
    ensures a * w <= b * w
  {
    assert b * w == a * w + (b - a) * w;
  }

  // ---------------------------------------------------------------------------
  // Bits of a buffer and the fields they form

  /** Bit `k` of a buffer: bit `k mod 8` of byte `k / 8`; there are no set
      bits past the end of the buffer. */
  predicate BitAt(s: seq<byte>, k: nat)
  {
    k < 8 * |s| && Bit(s[k / 8], k % 8)
  }

  /** The `w`-bit field starting at bit `p`, read least significant bit first. */
  function Field(s: seq<byte>, p: nat, w: nat): nat
    decreases w
  {
    if w == 0 then 0 else (if BitAt(s, p) then 1 else 0) + 2 * Field(s, p + 1, w - 1)
  }

  /** A `w`-bit field holds a number below `2^w`. */
  lemma {:induction false} FieldBound(s: seq<byte>, p: nat, w: nat)
    ensures Field(s, p, w) < Pow2(w)
    decreases w
  {
    if w > 0 {
      FieldBound(s, p + 1, w - 1);
    }
  }

  /** Bit `j` of a field is buffer bit `p + j`. */
  lemma {:induction false} FieldBit(s: seq<byte>, p: nat, w: nat, j: nat)
    requires j < w
    ensures Bit(Field(s, p, w), j) == BitAt(s, p + j)
    decreases w
  {
    var f := Field(s, p, w);
    var rest := Field(s, p + 1, w - 1);
    assert f == (if BitAt(s, p) then 1 else 0) + 2 * rest;
    if j == 0 {
      BitZeroIndex(f);
    } else {
      BitHalf(f, j - 1);
      assert f / 2 == rest;
      FieldBit(s, p + 1, w - 1, j - 1);
    }
  }

  /** A field splits into its low `a` bits and the `b` bits above them. */
  lemma {:induction false} FieldSplit(s: seq<byte>, p: nat, a: nat, b: nat)
    ensures Field(s, p, a + b) == Field(s, p, a) + Pow2(a) * Field(s, p + a, b)
    decreases a
  {
    if a > 0 {
      var d := if BitAt(s, p) then 1 else 0;
      var hi := Field(s, p + a, b);
      var lo := Field(s, p + 1, a - 1);
      assert Field(s, p, a + b) == d + 2 * Field(s, p + 1, a - 1 + b);
      assert Field(s, p + 1, a - 1 + b) == lo + Pow2(a - 1) * hi by {
        FieldSplit(s, p + 1, a - 1, b);
      }
      assert Field(s, p, a) == d + 2 * lo;
      DoubleProduct(Pow2(a), Pow2(a - 1), hi);
    }
  }

  /** `u` bits starting at bit `d` of byte `q`, when they stay inside that
      byte, are the byte shifted right by `d` and masked to `u` bits. */
  lemma {:induction false} FieldInByte(s: seq<byte>, q: nat, d: nat, u: nat)
    requires q < |s| && d + u <= 8
    ensures Field(s, 8 * q + d, u) == (s[q] / Pow2(d)) % Pow2(u)
    decreases u
  {
    if u > 0 {
      var k := 8 * q + d;
      var x := s[q] / Pow2(d);
      ShrNonnegative(s[q], d);
      var b := if Bit(s[q], d) then 1 else 0;
      var rest := Field(s, k + 1, u - 1);
      assert Field(s, k, u) == b + 2 * rest by {
        DivModUnique(k, 8, q, d);
      }
      assert rest == (x / 2) % Pow2(u - 1) by {
        FieldInByte(s, q, d + 1, u - 1);
        ShrStep(s[q], d);
      }
      assert x % Pow2(u) == x % 2 + 2 * ((x / 2) % Pow2(u - 1)) by {
        HalfDivMod(x, u - 1);
      }
    }
  }

  /** One pass of the inner loop of `array_get`: the chunk taken from one byte,
      shifted to position `consumed` and ORed in, extends the field by `u` bits. */
  lemma GetChunk(s: seq<byte>, p: nat, w: nat, consumed: nat, q: nat, d: nat, u: nat, chunk: nat, shifted: nat)
    requires p + w <= 8 * |s| && consumed < w
    requires p + consumed == 8 * q + d && d < 8
    requires u == (if 8 - d > w - consumed then w - consumed else 8 - d)
    requires chunk == (s[q] / Pow2(d)) % Pow2(u) && shifted == chunk * Pow2(consumed)
    ensures Or(Field(s, p, consumed), shifted) == Field(s, p, consumed + u)
    ensures Field(s, p, consumed + u) < Pow2(consumed + u)
    ensures w <= 64 ==> Field(s, p, consumed + u) < 0x1_0000_0000_0000_0000
  {
    ChunkIsField(s, p, consumed, q, d, u, chunk);
    FieldExtend(s, p, consumed, u, chunk, shifted);
    FieldBound(s, p, consumed + u);
    if w <= 64 {
      BelowWord(Field(s, p, consumed + u), consumed + u);
    }
  }

  /** The chunk taken from byte `q` is the next `u` bits of the field. */
  lemma ChunkIsField(s: seq<byte>, p: nat, consumed: nat, q: nat, d: nat, u: nat, chunk: nat)
    requires q < |s| && d + u <= 8 && p + consumed == 8 * q + d
    requires chunk == (s[q] / Pow2(d)) % Pow2(u)
    ensures Field(s, p + consumed, u) == chunk
  {
    FieldInByte(s, q, d, u);
  }

  /** ORing the next `u` bits in above the `consumed` bits read so far
      extends the field. */
  lemma FieldExtend(s: seq<byte>, p: nat, consumed: nat, u: nat, chunk: nat, shifted: nat)
    requires Field(s, p + consumed, u) == chunk && shifted == chunk * Pow2(consumed)
    ensures Or(Field(s, p, consumed), shifted) == Field(s, p, consumed + u)
  {
    var lo := Field(s, p, consumed);
    FieldSplit(s, p, consumed, u);
    FieldBound(s, p, consumed);
    OrDisjoint(lo, chunk, consumed);
    assert chunk * Pow2(consumed) == Pow2(consumed) * chunk;
  }

  // ---------------------------------------------------------------------------
  // array_get

  /** The fields of `n` consecutive slots starting at line `cacheLine`. */
  function Fields(s: seq<byte>, cacheLine: nat, w: nat, n: nat): (r: seq<nat>)
    ensures |r| == n
    decreases n
  {
    if n == 0 then [] else Fields(s, cacheLine, w, n - 1) + [Field(s, SlotBit(cacheLine, w, n - 1), w)]
  }

  lemma {:induction false} FieldsAt(s: seq<byte>, cacheLine: nat, w: nat, n: nat, i: nat)
    requires i < n
    ensures Fields(s, cacheLine, w, n)[i] == Field(s, SlotBit(cacheLine, w, i), w)
    decreases n
  {
    if i < n - 1 {
      FieldsAt(s, cacheLine, w, n - 1, i);
    }
  }

  /** Writing the next element just past a prefix extends the prefix. */
  lemma AppendUpdate<T>(a: seq<T>, b: seq<T>, x: T)
    requires |b| > 0
    ensures (a + b)[|a| := x] == (a + [x]) + b[1..]
  {
    assert forall k :: 0 <= k < |a| + |b| ==> (a + b)[|a| := x][k] == ((a + [x]) + b[1..])[k];
  }

  /** Reads `valuesLen` values of `w` bits each out of the buffer, starting at
      cache line `cacheLine`: value `i` is the field at its slot, and the
      values past `valuesLen` are left alone. */
  method Get(buf: array<byte>, cacheLine: nat, values: array<u64>, valuesLen: nat, w: nat)
    requires valuesLen <= values.Length && w <= 64
    requires forall i :: 0 <= i < valuesLen ==> SlotBit(cacheLine, w, i) + w <= 8 * buf.Length
    modifies values
    ensures values[..] == Fields(buf[..], cacheLine, w, valuesLen) + old(values[..])[valuesLen..]
  {
    ghost var image := buf[..];
    ghost var initial := values[..];
    var line := cacheLine;
    var bitPosInCL := 0;
    var valueIdx := 0;
    while valueIdx < valuesLen
      invariant 0 <= valueIdx <= valuesLen
      invariant line == cacheLine + Slot(w, valueIdx).line && bitPosInCL == Slot(w, valueIdx).bit
      invariant values[..] == Fields(image, cacheLine, w, valueIdx) + initial[valueIdx..]
    {
      ghost var p := SlotBit(cacheLine, w, valueIdx);
      assert 512 * line + bitPosInCL == p;
      GetValue(buf, line, bitPosInCL, values, valueIdx, w);
      AppendUpdate(Fields(image, cacheLine, w, valueIdx), initial[valueIdx..], Field(image, p, w));
      assert initial[valueIdx..][1..] == initial[valueIdx + 1..];
      bitPosInCL := bitPosInCL + w;
      if bitPosInCL + w > 512 {
        line := line + 1;
        bitPosInCL := 0;
      }
      valueIdx := valueIdx + 1;
    }
  }

  /** The inner loop of `array_get`: assembles `values[valueIdx]` from the
      `w`-bit field at bit `bitPosInCL` of line `line`, one byte chunk at a
      time, and changes no other value. */
  method GetValue(buf: array<byte>, line: nat, bitPosInCL: nat, values: array<u64>, valueIdx: nat, w: nat)
    requires valueIdx < values.Length && w <= 64
    requires 512 * line + bitPosInCL + w <= 8 * buf.Length
    modifies values
    ensures var before: seq<int> := old(values[..]); values[..] == before[valueIdx := Field(buf[..], 512 * line + bitPosInCL, w)]
  {
    ghost var image := buf[..];
    ghost var initial: seq<int> := values[..];
    ghost var p := 512 * line + bitPosInCL;
    values[valueIdx] := 0;
    var consumedBits := 0;
    while consumedBits < w
      invariant 0 <= consumedBits <= w && buf[..] == image
      invariant values[..] == initial[valueIdx := Field(image, p, consumedBits)]
    {
      var useBits, shifted := TakeChunk(buf, line, bitPosInCL, w, consumedBits);
      ghost var next := Field(image, p, consumedBits + useBits);
      values[valueIdx] := Or(values[valueIdx], shifted);
      assert values[..] == initial[valueIdx := next];
      consumedBits := consumedBits + useBits;
    }
  }

  /** One round of the inner loop of `array_get`: the bits of the byte
      holding bit `consumedBits` of the field, at most as many as the field
      still lacks, shifted to their place in the value. ORing them into the
      bits already assembled gives `useBits` more bits of the field. */
  /** The chunk `array_get` takes when `consumed` of the `w` bits at bit `p`
      are read: the rest of the byte holding bit `p + consumed`, or only the
      missing bits when fewer are missing, shifted down to bit 0, masked, and
      shifted up by `consumed`. */
  predicate ChunkRule(s: seq<byte>, p: nat, w: nat, consumed: nat, useBits: nat, shifted: nat)
  {
    var d := (p + consumed) % 8;
    var q := (p + consumed) / 8;
    && q < |s|
    && useBits == (if 8 - d > w - consumed then w - consumed else 8 - d)
    && shifted == (s[q] / Pow2(d)) % Pow2(useBits) * Pow2(consumed)
  }

  method TakeChunk(buf: array<byte>, line: nat, bitPosInCL: nat, w: nat, consumedBits: nat)
    returns (useBits: nat, shifted: nat)
    requires w <= 64 && consumedBits < w
    requires 512 * line + bitPosInCL + w <= 8 * buf.Length
    ensures 0 < useBits <= w - consumedBits
    ensures ChunkRule(buf[..], 512 * line + bitPosInCL, w, consumedBits, useBits, shifted)
    ensures var p := 512 * line + bitPosInCL; var next := Field(buf[..], p, consumedBits + useBits);
            Or(Field(buf[..], p, consumedBits), shifted) == next && next < 0x1_0000_0000_0000_0000
  {
    ghost var p := 512 * line + bitPosInCL;
    var discardBits := (bitPosInCL + consumedBits) % 8;
    useBits := 8 - discardBits;
    var q := 64 * line + (bitPosInCL + consumedBits) / 8;
    ByteOfLineBit(line, bitPosInCL + consumedBits);
    assert (p + consumedBits) / 8 == q && (p + consumedBits) % 8 == discardBits;
    assert p + consumedBits == 8 * q + discardBits;
    var byte := buf[q];
    ghost var image := buf[..];
    assert image[q] == byte;
    ShrNonnegative(byte, discardBits);
    var chunk: nat := byte / Pow2(discardBits);
    if useBits > w - consumedBits {
      useBits := w - consumedBits;
      chunk := chunk % Pow2(useBits);
    } else {
      Pow2Byte();
      ShrBound(byte, useBits, discardBits);
      ModSmall(chunk, Pow2(useBits));
    }
    ShlNonnegative(chunk, consumedBits);
    shifted := chunk * Pow2(consumedBits);
    GetChunk(image, p, w, consumedBits, q, discardBits, useBits, chunk, shifted);
    assert ChunkRule(image, p, w, consumedBits, useBits, shifted);
  }

  // ---------------------------------------------------------------------------
  // array_put

  /** The low `8 - d` bits of `v`, moved up by `d`, form a byte:
      `(value & ((1 << useBits) - 1)) << discardBits`. */
  function Chunk(v: nat, d: nat): byte
    requires d < 8
  {
    var u := 8 - d;
    ModBound(v, u);
    MulBelow(v % Pow2(u), Pow2(u), Pow2(d));
    Pow2Add(u, d);
    Pow2Byte();
    (v % Pow2(u)) * Pow2(d)
  }

  lemma MulBelow(a: nat, b: nat, c: nat)
    requires a < b && c > 0
    ensures a * c < b * c
  {
    assert b * c - a * c == (b - a) * c;
  }

  /** Bits of `v` set in the chunk are the bits of `v` from `0` up to `8 - d`,
      moved up by `d`. */
  lemma ChunkBit(v: nat, d: nat, e: nat)
    requires d < 8 && e < 8
    ensures Bit(Chunk(v, d), e) == (d <= e && Bit(v, e - d))
  {
    BitShl(v % Pow2(8 - d), d, e);
    if d <= e {
      BitMod(v, 8 - d, e - d);
    }
  }

  /** ORs the bits of `v` into the buffer from bit `P` upwards, a byte at a
      time, until no set bit of `v` is left: the inner loop of `array_put`.
      It writes every bit of `v`, whatever the field width; bytes past the
      end of the buffer are not part of it and are dropped. */
  function WriteBits(s: seq<byte>, P: nat, v: nat): (r: seq<byte>)
    ensures |r| == |s|
    decreases v
  {
    if v == 0 then s
    else
      var u := 8 - P % 8;
      ShrNonnegative(v, u);
      ShrDecreases(v, u);
      WriteBits(Deposit(s, P, v), P + u, v / Pow2(u))
  }

  /** One step of the loop: ORs the chunk of `v` into the byte holding bit
      `P`, if there is one. */
  function Deposit(s: seq<byte>, P: nat, v: nat): (r: seq<byte>)
    ensures |r| == |s|
  {
    if P / 8 < |s| then s[P / 8 := OrByte(s[P / 8], Chunk(v, P % 8))] else s
  }

  /** The bits `Deposit` sets: those of `v` that fall in the byte of `P`. */
  lemma DepositBit(s: seq<byte>, P: nat, v: nat, k: nat)
    ensures BitAt(Deposit(s, P, v), k) ==
      (BitAt(s, k) || (P <= k < 8 * |s| && k / 8 == P / 8 && Bit(v, k - P)))
  {
    if k < 8 * |s| && k / 8 == P / 8 {
      var e := k % 8;
      var d := P % 8;
      assert k - P == e - d;
      ChunkBit(v, d, e);
      OrByteBit(s[P / 8], Chunk(v, d), e);
    }
  }

  /** The writes of `WriteBits` stay inside the buffer: `v` has no set bit
      at or past the end of the buffer, counted from `P`. */
  predicate Fits(n: nat, P: nat, v: nat)
  {
    v == 0 || (P < 8 * n && v < Pow2(8 * n - P))
  }

  /** One step of the loop keeps the writes inside the buffer. */
  lemma FitsStep(n: nat, P: nat, v: nat, Q: nat, v': nat)
    requires Fits(n, P, v) && v > 0
    requires Q == P + (8 - P % 8) && v' == v / Pow2(8 - P % 8)
    ensures P / 8 < n
    ensures Fits(n, Q, v')
  {
    var u := 8 - P % 8;
    SameByte(P, P);
    assert Q <= 8 * n;
    ShrBound(v, 8 * n - Q, u);
    if Q == 8 * n {
      assert v' < Pow2(0);
    }
  }

  /** A value below `2^w` whose field lies inside the buffer fits. */
  lemma FitsWidth(n: nat, P: nat, v: nat, w: nat)
    requires v < Pow2(w) && P + w <= 8 * n
    ensures Fits(n, P, v)
  {
    if v > 0 {
      Pow2Monotonic(w, 8 * n - P);
    }
  }

  /** `WriteBits` sets exactly the bits of `v`, from position `P` on, and
      keeps every bit already set. */
  lemma {:induction false} WriteBitsBit(s: seq<byte>, P: nat, v: nat, k: nat)
    ensures BitAt(WriteBits(s, P, v), k) == (BitAt(s, k) || (P <= k < 8 * |s| && Bit(v, k - P)))
    decreases v
  {
    if v == 0 {
      if P <= k {
        NoBitsOfZero(k - P);
      }
    } else {
      var s', Q, v' := DepositStep(s, P, v, k);
      WriteBitsBit(s', Q, v', k);
    }
  }

  /** One round of the loop of `WriteBits`, and how it splits the bits of
      `v` between the first byte and the rest. */
  lemma DepositStep(s: seq<byte>, P: nat, v: nat, k: nat) returns (s': seq<byte>, Q: nat, v': nat)
    requires v > 0
    ensures v' < v && |s'| == |s| && P < Q == 8 * (P / 8 + 1)
    ensures WriteBits(s, P, v) == WriteBits(s', Q, v')
    ensures BitAt(s', k) == (BitAt(s, k) || (P <= k < Q && k < 8 * |s| && Bit(v, k - P)))
    ensures Q <= k ==> Bit(v', k - Q) == Bit(v, k - P)
  {
    var u := 8 - P % 8;
    ShrNonnegative(v, u);
    ShrDecreases(v, u);
    v' := v / Pow2(u);
    s' := Deposit(s, P, v);
    Q := P + u;
    WriteBitsStep(s, P, v, Q, v');
    DepositBit(s, P, v, k);
    SameByte(P, k);
    if Q <= k {
      BitShr(v, u, k - Q);
      assert k - Q + u == k - P;
    }
  }

  /** One step of the loop of `WriteBits`. */
  lemma WriteBitsStep(s: seq<byte>, P: nat, v: nat, Q: nat, v': nat)
    requires v > 0 && Q == P + (8 - P % 8) && v' == v / Pow2(8 - P % 8)
    ensures WriteBits(s, P, v) == WriteBits(Deposit(s, P, v), Q, v')
  {
  }

  /** The loop of `WriteBits` after one round writes what it would have
      written before it. */
  lemma DepositAdvance(before: seq<byte>, after: seq<byte>, P: nat, v: nat, Q: nat, v': nat)
    requires v > 0 && after == Deposit(before, P, v)
    requires Q == P + (8 - P % 8) && v' == v / Pow2(8 - P % 8)
    ensures WriteBits(after, Q, v') == WriteBits(before, P, v)
  {
    WriteBitsStep(before, P, v, Q, v');
  }

  /** Bit `k` lies in the byte of bit `P` when it comes before the next
      byte boundary. */
  lemma SameByte(P: nat, k: nat)
    ensures P + (8 - P % 8) == 8 * (P / 8 + 1)
    ensures P <= k ==> ((k / 8 == P / 8) == (k < 8 * (P / 8 + 1)))
  {
    if P <= k && k < 8 * (P / 8 + 1) {
      DivModUnique(k, 8, P / 8, k - 8 * (P / 8));
    }
  }

  /** The buffer after the first `n` values were put at their slots. */
  function PutValues(s: seq<byte>, cacheLine: nat, w: nat, vals: seq<u64>, n: nat): (r: seq<byte>)
    requires n <= |vals|
    ensures |r| == |s|
    decreases n
  {
    if n == 0 then s
    else WriteBits(PutValues(s, cacheLine, w, vals, n - 1), SlotBit(cacheLine, w, n - 1), vals[n - 1])
  }

  /** Puts `valuesLen` values at their slots, starting at cache line
      `cacheLine`, by ORing their bits into the buffer. Every value must fit
      in the buffer from its slot on. */
  method Put(buf: array<byte>, cacheLine: nat, values: array<u64>, valuesLen: nat, w: nat)
    requires valuesLen <= values.Length
    requires forall i :: 0 <= i < valuesLen ==> Fits(buf.Length, SlotBit(cacheLine, w, i), values[i])
    modifies buf
    ensures buf[..] == PutValues(old(buf[..]), cacheLine, w, values[..], valuesLen)
  {
    ghost var initial := buf[..];
    var line := cacheLine;
    var bitPosInCL := 0;
    var valueIdx := 0;
    while valueIdx < valuesLen
      invariant 0 <= valueIdx <= valuesLen
      invariant line == cacheLine + Slot(w, valueIdx).line && bitPosInCL == Slot(w, valueIdx).bit
      invariant buf[..] == PutValues(initial, cacheLine, w, values[..], valueIdx)
    {
      assert 512 * line + bitPosInCL == SlotBit(cacheLine, w, valueIdx);
      PutValue(buf, line, bitPosInCL, values[valueIdx]);
      bitPosInCL := bitPosInCL + w;
      if bitPosInCL + w > 512 {
        line := line + 1;
        bitPosInCL := 0;
      }
      valueIdx := valueIdx + 1;
    }
  }

  /** The inner loop of `array_put`: ORs the bits of `value` into the buffer
      from bit `bitPosInCL` of line `line` on. */
  method PutValue(buf: array<byte>, line: nat, bitPosInCL: nat, value: u64)
    requires Fits(buf.Length, 512 * line + bitPosInCL, value)
    modifies buf
    ensures buf[..] == WriteBits(old(buf[..]), 512 * line + bitPosInCL, value)
  {
    ghost var target := WriteBits(buf[..], 512 * line + bitPosInCL, value);
    var currentPos: nat := bitPosInCL;
    var v: nat := value;
    while v > 0
      invariant Fits(buf.Length, 512 * line + currentPos, v)
      invariant WriteBits(buf[..], 512 * line + currentPos, v) == target
      decreases v
    {
      currentPos, v := PutChunk(buf, line, currentPos, v);
    }
  }

  /** One round of the inner loop of `array_put`: ORs the chunk of `v` that
      falls in the byte holding bit `currentPos` of line `line` into that byte,
      and moves on to the next byte boundary with the rest of `v`. */
  method PutChunk(buf: array<byte>, line: nat, currentPos: nat, v: nat) returns (currentPos': nat, v': nat)
    requires v > 0 && Fits(buf.Length, 512 * line + currentPos, v)
    modifies buf
    ensures buf[..] == Deposit(old(buf[..]), 512 * line + currentPos, v)
    ensures currentPos' == currentPos + 8 - currentPos % 8 && v' == v / Pow2(8 - currentPos % 8)
    ensures v' < v && Fits(buf.Length, 512 * line + currentPos', v')
    ensures WriteBits(buf[..], 512 * line + currentPos', v') == WriteBits(old(buf[..]), 512 * line + currentPos, v)
  {
    var discardBits: nat := currentPos % 8;
    var useBits: nat := 8 - discardBits;
    var byte := Chunk(v, discardBits);
    var q := 64 * line + currentPos / 8;
    ghost var P := 512 * line + currentPos;
    ByteOfLineBit(line, currentPos);
    ShrNonnegative(v, useBits);
    ShrDecreases(v, useBits);
    v' := v / Pow2(useBits);
    currentPos' := currentPos + useBits;
    ghost var Q := 512 * line + currentPos';
    FitsStep(buf.Length, P, v, Q, v');
    ghost var before := buf[..];
    buf[q] := OrByte(buf[q], byte);
    ghost var after := buf[..];
    assert after == Deposit(before, P, v);
    DepositAdvance(before, after, P, v, Q, v');
  }

  // ---------------------------------------------------------------------------
  // Reading back what was put

  /** Bits past the last slot written are left as they were. */
  lemma {:induction false} PutUntouched(s: seq<byte>, cacheLine: nat, w: nat, vals: seq<u64>, n: nat, k: nat)
    requires n <= |vals| && w <= 512
    requires forall i :: 0 <= i < n ==> vals[i] < Pow2(w)
    requires n > 0 ==> SlotBit(cacheLine, w, n - 1) + w <= k
    ensures BitAt(PutValues(s, cacheLine, w, vals, n), k) == BitAt(s, k)
    decreases n
  {
    if n > 0 {
      PutAboveLast(s, cacheLine, w, vals, n, k);
      if n > 1 {
        SlotStep(cacheLine, w, n - 2);
      }
      PutUntouched(s, cacheLine, w, vals, n - 1, k);
    }
  }

  /** A bit outside the fields of all values put is left as it was. */
  lemma {:induction false} PutOutsideFields(s: seq<byte>, cacheLine: nat, w: nat, vals: seq<u64>, n: nat, k: nat)
    requires n <= |vals|
    requires forall i :: 0 <= i < n ==> vals[i] < Pow2(w)
    requires forall i :: 0 <= i < n ==> !(SlotBit(cacheLine, w, i) <= k < SlotBit(cacheLine, w, i) + w)
    ensures BitAt(PutValues(s, cacheLine, w, vals, n), k) == BitAt(s, k)
    decreases n
  {
    if n > 0 {
      if k < SlotBit(cacheLine, w, n - 1) {
        PutBelowLast(s, cacheLine, w, vals, n, k);
      } else {
        PutAboveLast(s, cacheLine, w, vals, n, k);
      }
      PutOutsideFields(s, cacheLine, w, vals, n - 1, k);
    }
  }

  /** There is no mask: a set bit `j` of a value, even at or past the width,
      is set at bit `j` from its slot on when that bit lies in the buffer. */
  lemma PutSpills(s: seq<byte>, cacheLine: nat, w: nat, vals: seq<u64>, n: nat, j: nat)
    requires 0 < n <= |vals| && Bit(vals[n - 1], j)
    requires SlotBit(cacheLine, w, n - 1) + j < 8 * |s|
    ensures BitAt(PutValues(s, cacheLine, w, vals, n), SlotBit(cacheLine, w, n - 1) + j)
  {
    PutLast(s, cacheLine, w, vals, n, SlotBit(cacheLine, w, n - 1) + j);
  }

  /** Inside the field of value `i`, the bits after putting are the bits
      there before, together with those of `vals[i]`. */
  lemma {:induction false} PutSlotBit(s: seq<byte>, cacheLine: nat, w: nat, vals: seq<u64>, n: nat, i: nat, k: nat)
    requires i < n <= |vals| && w <= 512
    requires forall j :: 0 <= j < n ==> vals[j] < Pow2(w)
    requires SlotBit(cacheLine, w, i) <= k < SlotBit(cacheLine, w, i) + w
    ensures BitAt(PutValues(s, cacheLine, w, vals, n), k) ==
      (BitAt(s, k) || (k < 8 * |s| && Bit(vals[i], k - SlotBit(cacheLine, w, i))))
    decreases n
  {
    if i == n - 1 {
      PutSlotBitLast(s, cacheLine, w, vals, n, k);
    } else {
      SlotsSeparate(cacheLine, w, i, n - 1);
      PutBelowLast(s, cacheLine, w, vals, n, k);
      PutSlotBit(s, cacheLine, w, vals, n - 1, i, k);
    }
  }

  /** Inside the field of the last value put, only that value adds bits. */
  lemma PutSlotBitLast(s: seq<byte>, cacheLine: nat, w: nat, vals: seq<u64>, n: nat, k: nat)
    requires 0 < n <= |vals| && w <= 512
    requires forall j :: 0 <= j < n ==> vals[j] < Pow2(w)
    requires SlotBit(cacheLine, w, n - 1) <= k < SlotBit(cacheLine, w, n - 1) + w
    ensures BitAt(PutValues(s, cacheLine, w, vals, n), k) ==
      (BitAt(s, k) || (k < 8 * |s| && Bit(vals[n - 1], k - SlotBit(cacheLine, w, n - 1))))
  {
    PutLast(s, cacheLine, w, vals, n, k);
    if n > 1 {
      SlotStep(cacheLine, w, n - 2);
    }
    PutUntouched(s, cacheLine, w, vals, n - 1, k);
  }

  /** Putting value `n - 1` leaves the bits before its slot alone. */
  lemma PutBelowLast(s: seq<byte>, cacheLine: nat, w: nat, vals: seq<u64>, n: nat, k: nat)
    requires 0 < n <= |vals| && k < SlotBit(cacheLine, w, n - 1)
    ensures BitAt(PutValues(s, cacheLine, w, vals, n), k) == BitAt(PutValues(s, cacheLine, w, vals, n - 1), k)
  {
    PutLast(s, cacheLine, w, vals, n, k);
  }

  /** Putting value `n - 1` leaves the bits after its field alone. */
  lemma PutAboveLast(s: seq<byte>, cacheLine: nat, w: nat, vals: seq<u64>, n: nat, k: nat)
    requires 0 < n <= |vals| && vals[n - 1] < Pow2(w) && SlotBit(cacheLine, w, n - 1) + w <= k
    ensures BitAt(PutValues(s, cacheLine, w, vals, n), k) == BitAt(PutValues(s, cacheLine, w, vals, n - 1), k)
  {
    PutLast(s, cacheLine, w, vals, n, k);
    BitAbove(vals[n - 1], w, k - SlotBit(cacheLine, w, n - 1));
  }

  /** The bits that putting value `n - 1` adds. */
  lemma PutLast(s: seq<byte>, cacheLine: nat, w: nat, vals: seq<u64>, n: nat, k: nat)
    requires 0 < n <= |vals|
    ensures BitAt(PutValues(s, cacheLine, w, vals, n), k) ==
      (BitAt(PutValues(s, cacheLine, w, vals, n - 1), k) ||
       (SlotBit(cacheLine, w, n - 1) <= k < 8 * |s| && Bit(vals[n - 1], k - SlotBit(cacheLine, w, n - 1))))
  {
    WriteBitsBit(PutValues(s, cacheLine, w, vals, n - 1), SlotBit(cacheLine, w, n - 1), vals[n - 1], k);
  }

  /** No bit of the field of width `w` at bit `p` is set. */
  predicate FieldClear(s: seq<byte>, p: nat, w: nat)
  {
    forall k :: p <= k < p + w ==> !BitAt(s, k)
  }

  /** Reading value `i` back gives `vals[i]` when the bits of its field were
      clear before the values were put. */
  lemma PutGetOne(s: seq<byte>, cacheLine: nat, w: nat, vals: seq<u64>, n: nat, i: nat)
    requires i < n <= |vals| && w <= 512
    requires forall j :: 0 <= j < n ==> vals[j] < Pow2(w)
    requires SlotBit(cacheLine, w, i) + w <= 8 * |s|
    requires FieldClear(s, SlotBit(cacheLine, w, i), w)
    ensures Field(PutValues(s, cacheLine, w, vals, n), SlotBit(cacheLine, w, i), w) == vals[i]
  {
    var r := PutValues(s, cacheLine, w, vals, n);
    var P := SlotBit(cacheLine, w, i);
    forall j | 0 <= j < w
      ensures Bit(Field(r, P, w), j) == Bit(vals[i], j)
    {
      FieldBit(r, P, w, j);
      PutSlotBit(s, cacheLine, w, vals, n, i, P + j);
    }
    FieldBound(r, P, w);
    BitsDetermine(Field(r, P, w), vals[i], w);
  }

  /** The round trip of `array_put` and `array_get`: values that fit their
      width, put where every bit of their fields is still clear, are read back
      unchanged. */
  lemma PutGet(s: seq<byte>, cacheLine: nat, w: nat, vals: seq<u64>, n: nat)
    requires n <= |vals| && w <= 512
    requires forall i :: 0 <= i < n ==> vals[i] < Pow2(w) && SlotBit(cacheLine, w, i) + w <= 8 * |s|
    requires forall i :: 0 <= i < n ==> FieldClear(s, SlotBit(cacheLine, w, i), w)
    ensures Fields(PutValues(s, cacheLine, w, vals, n), cacheLine, w, n) == vals[..n]
  {
    var r := PutValues(s, cacheLine, w, vals, n);
    forall i | 0 <= i < n
      ensures Fields(r, cacheLine, w, n)[i] == vals[i]
    {
      FieldsAt(r, cacheLine, w, n, i);
      PutGetOne(s, cacheLine, w, vals, n, i);
    }
  }

  /** The round trip from a cleared buffer, as `array_reset` leaves it: every
      value that fits its width is read back unchanged. */
  lemma PutGetCleared(s: seq<byte>, cacheLine: nat, w: nat, vals: seq<u64>, n: nat)
    requires n <= |vals| && w <= 512
    requires forall q :: 0 <= q < |s| ==> s[q] == 0
    requires forall i :: 0 <= i < n ==> vals[i] < Pow2(w) && SlotBit(cacheLine, w, i) + w <= 8 * |s|
    ensures Fields(PutValues(s, cacheLine, w, vals, n), cacheLine, w, n) == vals[..n]
  {
    forall k | 0 <= k < 8 * |s|
      ensures !BitAt(s, k)
    {
      NoBitsOfZero(k % 8);
    }
    PutGet(s, cacheLine, w, vals, n);
  }

  // ---------------------------------------------------------------------------
  // array_get as written, with a signed `char`

  /** One chunk of `array_get` as written when `char` is signed (as on
      x86-64): `byte >>= discardBits` shifts the sign-extended byte, the mask
      is applied only when the chunk is clipped, and `0xff & byte` keeps the
      low eight bits of the shifted pattern. Dafny's `/` by a positive number
      rounds down, as an arithmetic right shift does. */
  function SignedChunk(b: byte, d: nat, use: nat, clipped: bool): (r: nat)
    ensures r < 256 && (clipped ==> r < Pow2(use))
  {
    var signed := if b >= 128 then b - 256 else b;
    var pattern := (signed / Pow2(d)) % 256;
    ModAtMost(pattern, Pow2(use));
    if clipped then pattern % Pow2(use) else pattern
  }

  /** The inner loop of `array_get` as written with a signed `char`, from
      `consumed` bits on with `acc` assembled so far; `value << consumedBits`
      wraps at 64 bits. */
  function SignedGet(s: seq<byte>, p: nat, w: nat, consumed: nat, acc: nat): (r: nat)
    ensures acc < 0x1_0000_0000_0000_0000 ==> r < 0x1_0000_0000_0000_0000
    decreases w - consumed
  {
    if consumed >= w then acc
    else
      var d := (p + consumed) % 8;
      var b: byte := if (p + consumed) / 8 < |s| then s[(p + consumed) / 8] else 0;
      var clipped := 8 - d > w - consumed;
      var use := if clipped then w - consumed else 8 - d;
      var shifted := (SignedChunk(b, d, use, clipped) * Pow2(consumed)) % 0x1_0000_0000_0000_0000;
      assert acc < 0x1_0000_0000_0000_0000 ==> Or(acc, shifted) < 0x1_0000_0000_0000_0000 by {
        Pow2Word();
        if acc < 0x1_0000_0000_0000_0000 {
          OrBelow(acc, shifted, 64);
        }
      }
      SignedGet(s, p, w, consumed + use, Or(acc, shifted))
  }

  /** The byte `0xF0` is what `array_put` leaves after putting the values
      0 and 15 at width 4. Read as written with a signed `char`, the 4-bit field
      at bit 4 comes out as 255; the field holds 15, which `Get` returns. */
  lemma SignedGetMisreads()
    ensures SignedGet([0xF0], 4, 4, 0, 0) == 255
    ensures Field([0xF0], 4, 4) == 15
  {
    assert Pow2(4) == 16 by {
      assert Pow2(1) == 2;
      assert Pow2(2) == 4;
      assert Pow2(3) == 8;
    }
    DivModUnique(-16, Pow2(4), -1, 0);
    assert SignedChunk(0xF0, 4, 4, false) == 255;
    ModSmall(255, 0x1_0000_0000_0000_0000);
    OrZero(255);
    assert SignedGet([0xF0], 4, 4, 0, 0) == SignedGet([0xF0], 4, 4, 4, Or(0, 255));
    var s: seq<byte> := [0xF0];
    FieldInByte(s, 0, 4, 4);
    DivModUnique(s[0], Pow2(4), 15, 0);
    ModSmall(15, Pow2(4));
  }
}
