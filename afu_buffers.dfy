/** The buffer routines of the accelerator host program: zero-filling a buffer,
    reversing the bytes of every cache-line word, and loading a memory image
    written as text of '0' and '1' characters. The shared buffer (`volatile
    char*` in the program) is an array of unsigned bytes. */
module AfuBuffers {
  import opened Bits

  /** `CL(1)`: the number of bytes in one cache line (64 in OPAE). */
  const CacheLineBytes: nat := 64

  // ---------------------------------------------------------------------------
  // array_reset

  /** Zero-fills `buf[0..len)` and leaves every other byte as it was. */
  method Reset(buf: array<byte>, len: nat)
    requires len <= buf.Length
    modifies buf
    ensures forall i :: 0 <= i < len ==> buf[i] == 0
    ensures forall i :: len <= i < buf.Length ==> buf[i] == old(buf[i])
  {
    var i := 0;
    while i < len
      invariant 0 <= i <= len
      invariant forall k :: 0 <= k < i ==> buf[k] == 0
      invariant forall k :: i <= k < buf.Length ==> buf[k] == old(buf[k])
    {
      buf[i] := 0;
      i := i + 1;
    }
  }

  // ---------------------------------------------------------------------------
  // array_change_endian

  /** The number of bytes the word loop touches for a length `len`: every word
      that starts below `len`, so `len` rounded up to whole cache lines. */
  function Touched(len: nat): (t: nat)
    ensures t % CacheLineBytes == 0 && len <= t < len + CacheLineBytes
  {
    ((len + CacheLineBytes - 1) / CacheLineBytes) * CacheLineBytes
  }

  /** The byte that lands at index `k` when the word holding `k` is reversed. */
  function Mirror(k: nat): nat
  {
    (k / CacheLineBytes) * CacheLineBytes + (CacheLineBytes - 1 - k % CacheLineBytes)
  }

  function Reverse<T>(s: seq<T>): (r: seq<T>)
    ensures |r| == |s|
  {
    if s == [] then [] else Reverse(s[1..]) + [s[0]]
  }

  lemma {:induction false} ReverseAt<T>(s: seq<T>, k: nat)
    requires k < |s|
    ensures Reverse(s)[k] == s[|s| - 1 - k]
  {
    if k < |s| - 1 {
      ReverseAt(s[1..], k);
    }
  }

  lemma ReverseTwice<T>(s: seq<T>)
    ensures Reverse(Reverse(s)) == s
  {
    var r := Reverse(s);
    forall k | 0 <= k < |s|
      ensures Reverse(r)[k] == s[k]
    {
      ReverseAt(r, k);
      ReverseAt(s, |s| - 1 - k);
    }
  }

  /** Reference definition: the words of `s` that start below `len` are each
      reversed, one after another; the bytes after them stay as they are. */
  function WordsReversed(s: seq<byte>, len: nat): (r: seq<byte>)
    requires Touched(len) <= |s|
    ensures |r| == |s|
    decreases len
  {
    if len == 0 then s
    else
      Reverse(s[..CacheLineBytes])
        + WordsReversed(s[CacheLineBytes..], if len <= CacheLineBytes then 0 else len - CacheLineBytes)
  }

  /** Byte `k` of the result is the mirror of `k` in its word, for every byte of
      a touched word, and unchanged after them. */
  lemma {:induction false} WordsReversedAt(s: seq<byte>, len: nat, k: nat)
    requires Touched(len) <= |s| && k < |s|
    ensures k < Touched(len) ==> Mirror(k) < |s| && WordsReversed(s, len)[k] == s[Mirror(k)]
    ensures k >= Touched(len) ==> WordsReversed(s, len)[k] == s[k]
    decreases len
  {
    if len > 0 {
      var w := CacheLineBytes;
      var rest := if len <= w then 0 else len - w;
      TouchedStep(len);
      if k < w {
        ReverseAt(s[..w], k);
      } else {
        WordsReversedAt(s[w..], rest, k - w);
        MirrorStep(k);
      }
    }
  }

  lemma TouchedStep(len: nat)
    requires len > 0
    ensures Touched(len) == CacheLineBytes + Touched(if len <= CacheLineBytes then 0 else len - CacheLineBytes)
  {
  }

  lemma MirrorStep(k: nat)
    requires k >= CacheLineBytes
    ensures Mirror(k) == CacheLineBytes + Mirror(k - CacheLineBytes)
  {
  }

  /** Reversing the words twice restores the buffer. */
  lemma {:induction false} WordsReversedTwice(s: seq<byte>, len: nat)
    requires Touched(len) <= |s|
    ensures WordsReversed(WordsReversed(s, len), len) == s
    decreases len
  {
    if len > 0 {
      var w := CacheLineBytes;
      var rest := if len <= w then 0 else len - w;
      var r := WordsReversed(s, len);
      assert r[..w] == Reverse(s[..w]);
      assert r[w..] == WordsReversed(s[w..], rest);
      ReverseTwice(s[..w]);
      WordsReversedTwice(s[w..], rest);
      assert s == s[..w] + s[w..];
    }
  }

  /** A word that starts below `len` ends within `Touched(len)`. */
  lemma WordFits(i: nat, len: nat)
    requires i % CacheLineBytes == 0 && i < len
    ensures i + CacheLineBytes <= Touched(len)
  {
    var t := Touched(len);
    assert i / CacheLineBytes < t / CacheLineBytes;
  }

  lemma MirrorInWord(i: nat, k: nat)
    requires i % CacheLineBytes == 0 && i <= k < i + CacheLineBytes
    ensures Mirror(k) == 2 * i + CacheLineBytes - 1 - k
  {
    assert k / CacheLineBytes == i / CacheLineBytes;
  }

  /** The inner loop: reverses the word `buf[i..i + CacheLineBytes)` in
      place by swapping its ends towards the middle. */
  method ReverseWord(buf: array<byte>, i: nat)
    requires i + CacheLineBytes <= buf.Length
    modifies buf
    ensures forall k :: i <= k < i + CacheLineBytes ==> buf[k] == old(buf[2 * i + CacheLineBytes - 1 - k])
    ensures forall k :: 0 <= k < buf.Length && !(i <= k < i + CacheLineBytes) ==> buf[k] == old(buf[k])
  {
    var wordLength := CacheLineBytes;
    var j := 0;
    while j < wordLength / 2
      invariant 0 <= j <= wordLength / 2
      invariant forall k :: i <= k < i + j ==> buf[k] == old(buf[2 * i + wordLength - 1 - k])
      invariant forall k :: i + wordLength - j <= k < i + wordLength ==> buf[k] == old(buf[2 * i + wordLength - 1 - k])
      invariant forall k :: 0 <= k < buf.Length && !(i <= k < i + j) && !(i + wordLength - j <= k < i + wordLength) ==>
                  buf[k] == old(buf[k])
    {
      var tmp := buf[i + j];
      buf[i + j] := buf[i + wordLength - 1 - j];
      buf[i + wordLength - 1 - j] := tmp;
      j := j + 1;
    }
  }

  /** Reverses, in place, the bytes of every cache-line word that starts below
      `len`. The last such word may reach past `len`; the buffer must hold it. */
  method ChangeEndian(buf: array<byte>, len: nat)
    requires Touched(len) <= buf.Length
    modifies buf
    ensures buf[..] == WordsReversed(old(buf[..]), len)
  {
    var wordLength := CacheLineBytes;
    var i := 0;
    while i < len
      invariant i % wordLength == 0 && i <= Touched(len)
      invariant forall k :: 0 <= k < i ==> Mirror(k) < buf.Length && buf[k] == old(buf[Mirror(k)])
      invariant forall k :: i <= k < buf.Length ==> buf[k] == old(buf[k])
    {
      WordFits(i, len);
      ghost var before := buf[..];
      ReverseWord(buf, i);
      forall k | 0 <= k < i + wordLength
        ensures Mirror(k) < buf.Length && buf[k] == old(buf[Mirror(k)])
      {
        if k >= i {
          MirrorInWord(i, k);
          assert buf[k] == before[Mirror(k)];
        } else {
          assert buf[k] == before[k];
        }
      }
      i := i + wordLength;
    }
    assert i == Touched(len);
    ghost var was := old(buf[..]);
    forall k | 0 <= k < buf.Length
      ensures buf[..][k] == WordsReversed(was, len)[k]
    {
      WordsReversedAt(was, len, k);
    }
  }

  // ---------------------------------------------------------------------------
  // array_load_file

  /** The bit a character of an image text contributes: '1' and '0' give one
      bit each, every other character none. */
  function CharBits(c: char): seq<bool>
  {
    if c == '1' then [true] else if c == '0' then [false] else []
  }

  /** The bits of an image text, in the order they appear. */
  function ImageBits(text: seq<char>): seq<bool>
  {
    if text == [] then [] else ImageBits(text[..|text| - 1]) + CharBits(text[|text| - 1])
  }

  /** The number that `bits` spell, most significant bit first. */
  function MsbFirst(bits: seq<bool>): nat
  {
    if bits == [] then 0
    else 2 * MsbFirst(bits[..|bits| - 1]) + (if bits[|bits| - 1] then 1 else 0)
  }

  /** The bytes an image holds: each group of eight bits, read most significant
      bit first; a trailing group of fewer than eight bits holds no byte. */
  function ImageBytes(bits: seq<bool>): (r: seq<byte>)
    ensures |r| == |bits| / 8
    ensures forall i :: 0 <= i < |r| ==> r[i] == MsbFirst(bits[8 * i..8 * i + 8])
    decreases |bits|
  {
    if |bits| < 8 then []
    else
      MsbFirstBound(bits[..8]);
      var rest := ImageBytes(bits[8..]);
      assert forall i :: 0 <= i < |rest| ==> bits[8..][8 * i..8 * i + 8] == bits[8 * (i + 1)..8 * (i + 1) + 8];
      [MsbFirst(bits[..8])] + rest
  }

  /** `n` bits spell a number below `2^n`. */
  lemma {:induction false} MsbFirstBound(bits: seq<bool>)
    ensures MsbFirst(bits) < Pow2(|bits|)
    decreases |bits|
  {
    if bits != [] {
      MsbFirstBound(bits[..|bits| - 1]);
    }
  }

  lemma {:induction false} ImageBitsAppend(a: seq<char>, b: seq<char>)
    ensures ImageBits(a + b) == ImageBits(a) + ImageBits(b)
    decreases |b|
  {
    if b != [] {
      var b' := b[..|b| - 1];
      assert (a + b)[..|a + b| - 1] == a + b';
      ImageBitsAppend(a, b');
    } else {
      assert a + b == a;
    }
  }

  /** A character other than '0' and '1' anywhere in the text changes nothing. */
  lemma OtherCharactersSkipped(a: seq<char>, c: char, b: seq<char>)
    requires c != '0' && c != '1'
    ensures ImageBits(a + [c] + b) == ImageBits(a + b)
  {
    assert ImageBits([c]) == [] by {
      assert [c][..0] == [];
    }
    assert ImageBits(a + [c]) == ImageBits(a) by {
      ImageBitsAppend(a, [c]);
    }
    ImageBitsAppend(a + [c], b);
    ImageBitsAppend(a, b);
  }

  lemma {:induction false} MsbFirstAppend(a: seq<bool>, b: seq<bool>)
    ensures MsbFirst(a + b) == MsbFirst(a) * Pow2(|b|) + MsbFirst(b)
    decreases |b|
  {
    if b == [] {
      assert a + b == a;
    } else {
      var b' := b[..|b| - 1];
      var last := if b[|b| - 1] then 1 else 0;
      assert MsbFirst(a + b) == 2 * MsbFirst(a + b') + last by {
        assert (a + b)[..|a + b| - 1] == a + b';
        assert (a + b)[|a + b| - 1] == b[|b| - 1];
      }
      MsbFirstAppend(a, b');
      LinearStep(MsbFirst(a), Pow2(|b'|), MsbFirst(b'), last);
    }
  }

  /** The bytes of a bit string that ends on a byte boundary, followed by more bits. */
  lemma {:induction false} ImageBytesAppend(a: seq<bool>, b: seq<bool>)
    requires |a| % 8 == 0
    ensures ImageBytes(a + b) == ImageBytes(a) + ImageBytes(b)
    decreases |a|
  {
    if a == [] {
      assert a + b == b;
    } else {
      assert (a + b)[..8] == a[..8];
      assert (a + b)[8..] == a[8..] + b;
      ImageBytesAppend(a[8..], b);
    }
  }

  /** One more bit: it completes a byte exactly when it is the eighth of its
      group, and the complete byte is the accumulator `MsbFirst(bits) mod 256`,
      since every older bit has been shifted out of it. */
  lemma ImageBytesSnoc(bits: seq<bool>, x: bool, pos: nat, received: nat)
    requires received < 8 && |bits| == 8 * pos + received
    ensures MsbFirst(bits + [x]) == 2 * MsbFirst(bits) + (if x then 1 else 0)
    ensures received + 1 < 8 ==> ImageBytes(bits + [x]) == ImageBytes(bits)
    ensures received + 1 == 8 ==>
      MsbFirst(bits + [x]) % 256 < 256 &&
      ImageBytes(bits + [x]) == ImageBytes(bits) + [MsbFirst(bits + [x]) % 256]
  {
    assert (bits + [x])[..|bits|] == bits;
    var n := 8 * pos;
    var a, r := bits[..n], bits[n..];
    assert bits == a + r;
    assert bits + [x] == a + (r + [x]);
    ImageBytesAppend(a, r);
    ImageBytesAppend(a, r + [x]);
    if received + 1 == 8 {
      CompleteByte(a, r + [x]);
    }
  }

  lemma CompleteByte(a: seq<bool>, b: seq<bool>)
    requires |b| == 8
    ensures ImageBytes(b) == [MsbFirst(a + b) % 256]
  {
    assert b[..8] == b;
    assert b[8..] == [];
    MsbFirstAppend(a, b);
    assert Pow2(|b|) == 256;
    MsbFirstBound(b);
    ModOfMultiple(MsbFirst(a), 256, MsbFirst(b));
  }

  /** Reading character `i` extends the bits read so far by that character's bits. */
  lemma ReadOneCharacter(text: seq<char>, i: nat)
    requires i < |text|
    ensures ImageBits(text[..i + 1]) == ImageBits(text[..i]) + CharBits(text[i])
    ensures |ImageBits(text[..i + 1])| <= |ImageBits(text)|
  {
    assert text[..i + 1][..i] == text[..i];
    assert text[..i + 1] + text[i + 1..] == text;
    ImageBitsAppend(text[..i + 1], text[i + 1..]);
  }

  /** The state of the parsing loop after reading `text[..i]`: `pos`
      complete bytes, `received` bits of the next one, and the
      accumulator. */
  ghost predicate ReadState(text: seq<char>, i: nat, pos: nat, received: nat, acc: byte)
  {
    i <= |text| &&
    var bits := ImageBits(text[..i]);
    received < 8 && |bits| == 8 * pos + received && |bits| <= |ImageBits(text)| &&
    acc == Accumulator(bits)
  }

  /** The bytes complete after reading `text[..i]`. */
  ghost function ImageSoFar(text: seq<char>, i: nat): seq<byte>
    requires i <= |text|
  {
    ImageBytes(ImageBits(text[..i]))
  }

  /** Reading a character other than `0` and `1` changes nothing. */
  lemma SkipCharacter(text: seq<char>, i: nat, pos: nat, received: nat, acc: byte)
    requires i < |text| && text[i] != '0' && text[i] != '1'
    requires ReadState(text, i, pos, received, acc)
    ensures ReadState(text, i + 1, pos, received, acc)
    ensures ImageSoFar(text, i + 1) == ImageSoFar(text, i)
  {
    ReadOneCharacter(text, i);
    assert CharBits(text[i]) == [];
    assert ImageBits(text[..i + 1]) == ImageBits(text[..i]);
  }

  /** Reading one bit character: the accumulator shifts that bit in, and the
      image gains a byte, the accumulator, exactly when eight bits are
      complete; that byte still fits below the final count. */
  lemma ReadBitCharacter(text: seq<char>, i: nat, pos: nat, received: nat, acc: byte)
    requires i < |text| && (text[i] == '0' || text[i] == '1')
    requires ReadState(text, i, pos, received, acc)
    ensures var acc' := ShiftIn(acc, text[i] == '1');
            if received + 1 < 8 then
              ReadState(text, i + 1, pos, received + 1, acc') &&
              ImageSoFar(text, i + 1) == ImageSoFar(text, i)
            else
              ReadState(text, i + 1, pos + 1, 0, acc') &&
              ImageSoFar(text, i + 1) == ImageSoFar(text, i) + [acc'] &&
              pos < |ImageBits(text)| / 8
  {
    var x := text[i] == '1';
    var bits := ImageBits(text[..i]);
    var next := bits + [x];
    ReadOneCharacter(text, i);
    assert CharBits(text[i]) == [x];
    assert ImageBits(text[..i + 1]) == next;
    assert next[..|next| - 1] == bits && next[|next| - 1] == x;
    assert Accumulator(next) == ShiftIn(acc, x);
    ImageBytesSnoc(bits, x, pos, received);
    if received + 1 == 8 {
      AccumulatorLowByte(next);
      assert 8 * (pos + 1) <= |ImageBits(text)|;
      DivModUnique(|ImageBits(text)|, 8, |ImageBits(text)| / 8, |ImageBits(text)| % 8);
    }
  }

  /** `(2 * m + b) mod 256` only depends on `m mod 256`. */
  lemma AccumulatorStep(m: nat)
    ensures (2 * (m % 256)) % 256 == (2 * m) % 256
    ensures ((2 * (m % 256)) % 256 + 1) % 256 == (2 * m + 1) % 256
  {
    var q, r := m / 256, m % 256;
    assert 2 * m == 256 * (2 * q) + 2 * r;
    assert 2 * m + 1 == 256 * (2 * q) + (2 * r + 1);
    if 2 * r + 1 < 256 {
      ModOfMultiple(2 * q, 256, 2 * r);
      ModOfMultiple(2 * q, 256, 2 * r + 1);
      ModOfMultiple(0, 256, 2 * r);
      ModOfMultiple(0, 256, 2 * r + 1);
    } else {
      ModOfMultiple(2 * q + 1, 256, 2 * r - 256);
      ModOfMultiple(2 * q + 1, 256, 2 * r + 1 - 256);
      ModOfMultiple(1, 256, 2 * r - 256);
      ModOfMultiple(0, 256, 2 * r + 1 - 256);
    }
  }

  /** The byte accumulator after reading `bits`: a `1` shifts it left and
      increments it, a `0` shifts it left, and both wrap around at 8 bits. */
  function Accumulator(bits: seq<bool>): byte
  {
    if bits == [] then 0 else ShiftIn(Accumulator(bits[..|bits| - 1]), bits[|bits| - 1])
  }

  function ShiftIn(b: byte, x: bool): byte
  {
    if x then Increment(ShiftLeft(b)) else ShiftLeft(b)
  }

  /** `byte <<= 1` on an 8-bit `char`: the top bit is lost. */
  function ShiftLeft(b: byte): byte
  {
    (2 * b) % 256
  }

  /** `byte++` on an 8-bit `char`, wrapping around. */
  function Increment(b: byte): byte
  {
    (b + 1) % 256
  }

  /** The accumulator holds the low eight bits of the number read so far. */
  lemma {:induction false} AccumulatorLowByte(bits: seq<bool>)
    ensures Accumulator(bits) == MsbFirst(bits) % 256
    decreases |bits|
  {
    if bits != [] {
      AccumulatorLowByte(bits[..|bits| - 1]);
      AccumulatorStep(MsbFirst(bits[..|bits| - 1]));
    }
  }

  /** Parses an image text into `buf` from index 0, one byte per eight bit
      characters, and returns the number of bytes written. The accumulator is
      never reset: after eight shifts the older bits have left it. */
  method LoadImage(buf: array<byte>, text: seq<char>) returns (pos: nat)
    requires |ImageBits(text)| / 8 <= buf.Length
    modifies buf
    ensures pos == |ImageBits(text)| / 8
    ensures buf[..pos] == ImageBytes(ImageBits(text))
    ensures forall k :: pos <= k < buf.Length ==> buf[k] == old(buf[k])
  {
    var byte: byte := 0;
    pos := 0;
    var receivedBits := 0;
    var i := 0;
    while i < |text|
      invariant ReadState(text, i, pos, receivedBits, byte)
      invariant pos <= buf.Length && buf[..pos] == ImageSoFar(text, i)
      invariant forall k :: pos <= k < buf.Length ==> buf[k] == old(buf[k])
    {
      pos, receivedBits, byte := ReadCharacter(buf, text, i, text[i], pos, receivedBits, byte);
      i := i + 1;
    }
    assert text[..i] == text;
    DivModUnique(|ImageBits(text)|, 8, pos, receivedBits);
  }

  /** The body of the parsing loop for the character `c` at index `i`: a bit
      is shifted into the accumulator and a complete byte is stored at `pos`;
      any other character is skipped (the `continue`). */
  method ReadCharacter(buf: array<byte>, ghost text: seq<char>, i: nat, c: char,
                       pos: nat, receivedBits: nat, byte: byte)
    returns (pos': nat, receivedBits': nat, byte': byte)
    requires i < |text| && c == text[i]
    requires ReadState(text, i, pos, receivedBits, byte)
    requires pos <= buf.Length && buf[..pos] == ImageSoFar(text, i)
    requires |ImageBits(text)| / 8 <= buf.Length
    modifies buf
    ensures ReadState(text, i + 1, pos', receivedBits', byte')
    ensures pos <= pos' <= buf.Length && buf[..pos'] == ImageSoFar(text, i + 1)
    ensures forall k :: pos' <= k < buf.Length ==> buf[k] == old(buf[k])
  {
    pos', receivedBits', byte' := pos, receivedBits, byte;
    if c == '1' {
      ReadBitCharacter(text, i, pos, receivedBits, byte);
      byte' := ShiftLeft(byte');
      byte' := Increment(byte');
    } else if c == '0' {
      ReadBitCharacter(text, i, pos, receivedBits, byte);
      byte' := ShiftLeft(byte');
    } else {
      SkipCharacter(text, i, pos, receivedBits, byte);
      return;
    }
    receivedBits' := receivedBits' + 1;
    if receivedBits' >= 8 {
      buf[pos'] := byte';
      assert buf[..pos' + 1] == old(buf[..pos]) + [byte'];
      pos' := pos' + 1;
      receivedBits' := 0;
    }
  }

  // ---------------------------------------------------------------------------
  // The image format, written the other way

  /** The `width` low bits of `n`, most significant first. */
  function MsbBits(n: nat, width: nat): (bits: seq<bool>)
    ensures |bits| == width
  {
    if width == 0 then [] else MsbBits(n / 2, width - 1) + [n % 2 == 1]
  }

  lemma {:induction false} MsbFirstOfMsbBits(n: nat, width: nat)
    requires n < Pow2(width)
    ensures MsbFirst(MsbBits(n, width)) == n
    decreases width
  {
    if width > 0 {
      var bits := MsbBits(n, width);
      assert bits[..|bits| - 1] == MsbBits(n / 2, width - 1);
      MsbFirstOfMsbBits(n / 2, width - 1);
    }
  }

  /** An image text for `bytes`: eight '0'/'1' characters per byte, most
      significant bit first. */
  function ImageText(bytes: seq<byte>): (text: seq<char>)
    ensures |text| == 8 * |bytes|
  {
    if bytes == [] then []
    else
      seq(8, k requires 0 <= k < 8 => if MsbBits(bytes[0], 8)[k] then '1' else '0')
        + ImageText(bytes[1..])
  }

  lemma {:induction false} ImageBitsOfDigits(bits: seq<bool>)
    ensures ImageBits(seq(|bits|, k requires 0 <= k < |bits| => if bits[k] then '1' else '0')) == bits
    decreases |bits|
  {
    var text := seq(|bits|, k requires 0 <= k < |bits| => if bits[k] then '1' else '0');
    if bits != [] {
      var bits' := bits[..|bits| - 1];
      assert text[..|text| - 1] == seq(|bits'|, k requires 0 <= k < |bits'| => if bits'[k] then '1' else '0');
      ImageBitsOfDigits(bits');
      assert bits == bits' + [bits[|bits| - 1]];
    }
  }

  /** The bits of the text of a non-empty image: those of its first byte,
      then the rest. */
  lemma ImageTextBits(bytes: seq<byte>)
    requires bytes != []
    ensures ImageBits(ImageText(bytes)) == MsbBits(bytes[0], 8) + ImageBits(ImageText(bytes[1..]))
  {
    var bits := MsbBits(bytes[0], 8);
    var digits := seq(8, k requires 0 <= k < 8 => if bits[k] then '1' else '0');
    assert ImageText(bytes) == digits + ImageText(bytes[1..]);
    ImageBitsAppend(digits, ImageText(bytes[1..]));
    ImageBitsOfDigits(bits);
  }

  /** Loading the text written for `bytes` gives back exactly those bytes. */
  lemma {:induction false} LoadImageText(bytes: seq<byte>)
    ensures ImageBytes(ImageBits(ImageText(bytes))) == bytes
    decreases |bytes|
  {
    if bytes != [] {
      var bits := MsbBits(bytes[0], 8);
      var rest := ImageBits(ImageText(bytes[1..]));
      ImageTextBits(bytes);
      ImageBytesAppend(bits, rest);
      MsbFirstOfMsbBits(bytes[0], 8);
      assert bits[..8] == bits;
      LoadImageText(bytes[1..]);
    }
  }
}
