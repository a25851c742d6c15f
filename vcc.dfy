/** The byte <-> bit-string conversion of the command-line tool
    (`__bytes_to_binary_str`, `__binary_str_to_bytes`) and the argument check
    it applies before calling the codec. */
module Vcc {
  import opened Common
  import opened BitExpansion
  import opened Padding
  import opened Grouping

  /** An element of a Python `bytes` object. */
  type Byte = b: int | 0 <= b < 256

  /** `2 ** q`. */
  function Pow2(q: nat): (r: nat)
    ensures r >= 1
  {
    if q == 0 then 1 else 2 * Pow2(q - 1)
  }

  /** The character of a binary digit. */
  function Digit(d: int): char
  {
    if d == 0 then '0' else '1'
  }

  /** Bit `q` of `n`, counting from the least significant bit. */
  function Bit(n: nat, q: nat): nat
  {
    if q == 0 then n % 2 else Bit(n / 2, q - 1)
  }

  /** `bin(n)[2:]`: the binary digits of `n`, most significant first, without
      leading zeros ("0" for zero). */
  function Bin(n: nat): (r: string)
    ensures |r| >= 1
    ensures n > 0 ==> r[0] == '1'
  {
    if n < 2 then [Digit(n)] else Bin(n / 2) + [Digit(n % 2)]
  }

  /** `s.zfill(w)` for a string without a sign: pad with '0' on the left up to width `w`. */
  function ZFill(s: string, w: nat): (r: string)
    ensures |r| == Max(|s|, w)
  {
    if |s| >= w then s else Repeat('0', w - |s|) + s
  }

  /** `zfill` only adds '0' on the left: below the padding width every
      character is '0', and the rest is `s`. */
  lemma ZFillAt(s: string, w: nat, t: nat)
    requires t < Max(|s|, w)
    ensures ZFill(s, w)[t] == if t < w - |s| then '0' else s[t - Max(w - |s|, 0)]
  {
    if |s| < w {
      var z := Repeat('0', w - |s|);
      if t < |z| {
        RepeatAt('0', w - |s|, t);
        assert (z + s)[t] == z[t];
      } else {
        assert (z + s)[t] == s[t - |z|];
      }
    }
  }

  /** `bin(b)[2:].zfill(8)`. */
  function ByteBits(b: Byte): (r: string)
    ensures |r| == 8
  {
    Pow2Byte();
    BinLength(b, 8);
    ZFill(Bin(b), 8)
  }

  /** `__bytes_to_binary_str`: `"".join([bin(b)[2:].zfill(8) for b in buf])`. */
  function BytesToBinaryStr(buf: seq<Byte>): (r: string)
    ensures |r| == 8 * |buf|
  {
    if buf == [] then "" else ByteBits(buf[0]) + BytesToBinaryStr(buf[1..])
  }

  predicate IsBinary(s: string)
  {
    forall k :: 0 <= k < |s| ==> s[k] == '0' || s[k] == '1'
  }

  /** The value of a string of binary digits, most significant first. */
  function BigEndian(s: string): (r: nat)
    requires IsBinary(s)
    ensures r < Pow2(|s|)
  {
    if s == [] then 0 else 2 * BigEndian(s[..|s| - 1]) + (if s[|s| - 1] == '1' then 1 else 0)
  }

  /** `int(chunk, 2)` for the strings the model admits: ValueError unless the
      chunk is a non-empty string of binary digits. */
  function ParseBinary(chunk: string): (r: Result<nat>)
    ensures r.Ok? <==> chunk != [] && IsBinary(chunk)
    ensures r.Ok? ==> r.value < Pow2(|chunk|)
  {
    if chunk != [] && IsBinary(chunk) then Ok(BigEndian(chunk)) else Err(ValueError)
  }

  /** `2 ** 8 == 256`. */
  lemma Pow2Byte()
    ensures Pow2(8) == 256
  {
    assert Pow2(2) == 4;
    assert Pow2(5) == 32;
  }

  lemma {:induction false} Pow2Mono(a: nat, b: nat)
    requires a <= b
    ensures Pow2(a) <= Pow2(b)
  {
    if a < b {
      Pow2Mono(a, b - 1);
    }
  }

  /** What `__binary_str_to_bytes` computes: one byte per chunk
      `s[i : i + 8]`, read front to back; ValueError from the first chunk
      `int(_, 2)` refuses. */
  function BytesOf(s: string): Result<seq<Byte>>
    decreases |s|
  {
    if s == [] then Ok([])
    else
      var w := Min(8, |s|);
      match ParseBinary(s[..w])
      case Err(e) => Err(e)
      case Ok(v) =>
        Pow2Mono(w, 8);
        match BytesOf(s[w..])
        case Err(e) => Err(e)
        case Ok(rest) => Ok([v as Byte] + rest)
  }

  /** `xs` in front of a successful result. */
  function Prepend(xs: seq<Byte>, r: Result<seq<Byte>>): Result<seq<Byte>>
  {
    match r
    case Err(e) => Err(e)
    case Ok(ys) => Ok(xs + ys)
  }

  /** `__binary_str_to_bytes`: a loop over `range(0, len(binary_str), 8)`
      appending to `byte_list`. */
  method BinaryStrToBytes(binaryStr: string) returns (r: Result<seq<Byte>>)
    ensures r == BytesOf(binaryStr)
  {
    var byteList: seq<Byte> := [];
    var i := 0;
    assert binaryStr[0..] == binaryStr;
    PrependNothing(BytesOf(binaryStr));
    while i < |binaryStr|
      invariant 0 <= i
      invariant BytesOf(binaryStr) == Prepend(byteList, BytesOf(binaryStr[Min(i, |binaryStr|)..]))
    {
      BytesOfStep(binaryStr, i);
      var chunk := binaryStr[i .. Min(i + 8, |binaryStr|)];
      var parsed := ParseBinary(chunk);
      if parsed.Err? {
        return Err(parsed.error);
      }
      Pow2Mono(|chunk|, 8);
      PrependPrepend(byteList, [parsed.value as Byte], BytesOf(binaryStr[Min(i + 8, |binaryStr|)..]));
      byteList := byteList + [parsed.value as Byte];
      i := i + 8;
    }
    assert binaryStr[Min(i, |binaryStr|)..] == [];
    assert byteList + [] == byteList;
    return Ok(byteList);
  }

  lemma PrependNothing(r: Result<seq<Byte>>)
    ensures Prepend([], r) == r
  {
    if r.Ok? {
      assert [] + r.value == r.value;
    }
  }

  lemma PrependPrepend(a: seq<Byte>, b: seq<Byte>, r: Result<seq<Byte>>)
    ensures Prepend(a, Prepend(b, r)) == Prepend(a + b, r)
  {
    if r.Ok? {
      assert a + (b + r.value) == (a + b) + r.value;
    }
  }

  /** One iteration of the loop in `__binary_str_to_bytes`: the chunk at `i`. */
  lemma BytesOfStep(s: string, i: nat)
    requires i < |s|
    ensures var chunk := s[i .. Min(i + 8, |s|)];
      && (ParseBinary(chunk).Err? ==> BytesOf(s[i..]) == Err(ValueError))
      && (ParseBinary(chunk).Ok? ==> ParseBinary(chunk).value < 256)
      && (ParseBinary(chunk).Ok? ==>
            BytesOf(s[i..]) == Prepend([ParseBinary(chunk).value as Byte], BytesOf(s[Min(i + 8, |s|)..])))
  {
    var rest := s[i..];
    var w := Min(8, |rest|);
    assert rest[..w] == s[i .. Min(i + 8, |s|)];
    assert rest[w..] == s[Min(i + 8, |s|)..];
    Pow2Mono(w, 8);
  }

  lemma {:induction false} BitOfZero(q: nat)
    ensures Bit(0, q) == 0
  {
    if q > 0 {
      BitOfZero(q - 1);
    }
  }

  /** `bin(n)[2:]` has at least one digit and at most `k` when `n < 2 ** k`. */
  lemma {:induction false} BinLength(n: nat, k: nat)
    requires 1 <= k && n < Pow2(k)
    ensures 1 <= |Bin(n)| <= k
  {
    if n >= 2 {
      BinLength(n / 2, k - 1);
    }
  }

  /** Digit `q` from the right of `bin(n)[2:]` is bit `q` of `n`, and every
      higher bit of `n` is 0. */
  lemma {:induction false} BinBits(n: nat, q: nat)
    ensures q < |Bin(n)| ==> Bin(n)[|Bin(n)| - 1 - q] == Digit(Bit(n, q))
    ensures q >= |Bin(n)| ==> Bit(n, q) == 0
  {
    if n < 2 {
      if q > 0 {
        BitOfZero(q - 1);
      }
    } else if q > 0 {
      BinBits(n / 2, q - 1);
    }
  }

  /** `bin(b)[2:].zfill(8)` has 8 characters; character `t` is bit `7 - t` of `b`. */
  lemma ByteBitsAt(b: Byte, t: nat)
    requires t < 8
    ensures |ByteBits(b)| == 8
    ensures ByteBits(b)[t] == Digit(Bit(b, 7 - t))
  {
    var d, q := Bin(b), 7 - t;
    Pow2Byte();
    BinLength(b, 8);
    BinBits(b, q);
    assert ByteBits(b) == ZFill(d, 8);
    ZFillAt(d, 8, t);
    if t < 8 - |d| {
      assert q >= |d|;
      assert Digit(0) == '0';
    } else {
      assert t - (8 - |d|) == |d| - 1 - q;
    }
  }

  /** `__bytes_to_binary_str` emits 8 binary digits per byte: character
      `8 * k + t` is bit `7 - t` of byte `k`, most significant bit first. */
  lemma {:induction false} BinaryStrAt(buf: seq<Byte>, k: nat, t: nat)
    requires k < |buf| && t < 8
    ensures |BytesToBinaryStr(buf)| == 8 * |buf|
    ensures BytesToBinaryStr(buf)[8 * k + t] == Digit(Bit(buf[k], 7 - t))
  {
    ByteBitsAt(buf[0], t);
    if k == 0 {
      if |buf| > 1 {
        BinaryStrAt(buf[1..], 0, t);
      }
    } else {
      BinaryStrAt(buf[1..], k - 1, t);
      assert buf[1..][k - 1] == buf[k];
    }
  }

  /** Every character `__bytes_to_binary_str` emits is a binary digit. */
  lemma {:induction false} BinaryStrIsBinary(buf: seq<Byte>)
    ensures IsBinary(BytesToBinaryStr(buf))
  {
    if buf != [] {
      BinaryStrIsBinary(buf[1..]);
      var bits := ByteBits(buf[0]);
      ByteBitsAt(buf[0], 0);
      forall t | 0 <= t < |bits| ensures bits[t] == '0' || bits[t] == '1' {
        ByteBitsAt(buf[0], t);
      }
    }
  }

  lemma {:induction false} BigEndianBin(n: nat)
    ensures IsBinary(Bin(n)) && BigEndian(Bin(n)) == n
  {
    if n >= 2 {
      BigEndianBin(n / 2);
      assert Bin(n)[..|Bin(n)| - 1] == Bin(n / 2);
    }
  }

  /** Leading zeros do not change the value `int(_, 2)` reads. */
  lemma {:induction false} BigEndianLeadingZeros(m: nat, s: string)
    requires IsBinary(s)
    ensures IsBinary(Repeat('0', m) + s) && BigEndian(Repeat('0', m) + s) == BigEndian(s)
    decreases |s|
  {
    var z := Repeat('0', m);
    if s == [] {
      assert z + s == z;
      BigEndianZeros(m);
    } else {
      BigEndianLeadingZeros(m, s[..|s| - 1]);
      assert (z + s)[..|z + s| - 1] == z + s[..|s| - 1];
    }
  }

  lemma {:induction false} BigEndianZeros(m: nat)
    ensures IsBinary(Repeat('0', m)) && BigEndian(Repeat('0', m)) == 0
  {
    if m > 0 {
      BigEndianZeros(m - 1);
      RepeatSnoc('0', m - 1);
      assert Repeat('0', m)[..m - 1] == Repeat('0', m - 1);
    }
  }

  /** Reading back the 8 digits of a byte gives the byte. */
  lemma ByteBitsValue(b: Byte)
    ensures IsBinary(ByteBits(b)) && BigEndian(ByteBits(b)) == b
  {
    var d := Bin(b);
    BigEndianBin(b);
    BinLength(b, 8);
    BigEndianLeadingZeros(8 - |d|, d);
    if |d| == 8 {
      assert Repeat('0', 0) + d == d;
    }
    assert ByteBits(b) == Repeat('0', 8 - |d|) + d;
  }

  /** The byte decoder inverts the byte encoder:
      `__binary_str_to_bytes(__bytes_to_binary_str(b)) == b`. */
  lemma {:induction false} BytesOfBinaryStr(buf: seq<Byte>)
    ensures BytesOf(BytesToBinaryStr(buf)) == Ok(buf)
  {
    if buf != [] {
      var s := BytesToBinaryStr(buf);
      var bits := ByteBits(buf[0]);
      ByteBitsValue(buf[0]);
      assert s == bits + BytesToBinaryStr(buf[1..]);
      assert s[..8] == bits;
      assert s[8..] == BytesToBinaryStr(buf[1..]);
      BytesOfBinaryStr(buf[1..]);
      assert buf == [buf[0]] + buf[1..];
    }
  }

  /** `__binary_str_to_bytes` succeeds exactly on strings of binary digits. */
  lemma {:induction false} BytesOfOk(s: string)
    ensures BytesOf(s).Ok? <==> IsBinary(s)
    decreases |s|
  {
    if s != [] {
      var w := Min(8, |s|);
      BytesOfOk(s[w..]);
      if IsBinary(s) {
        assert IsBinary(s[..w]);
        assert IsBinary(s[w..]);
      } else if IsBinary(s[..w]) && IsBinary(s[w..]) {
        forall k | 0 <= k < |s| ensures s[k] == '0' || s[k] == '1' {
          if k < w {
            assert s[k] == s[..w][k];
          } else {
            assert s[k] == s[w..][k - w];
          }
        }
      }
    }
  }

  /** On success the result has `ceil(|s| / 8)` bytes, stated without division. */
  lemma {:induction false} BytesOfCount(s: string)
    requires BytesOf(s).Ok?
    ensures var n := |BytesOf(s).value|; 8 * (n - 1) < |s| <= 8 * n
    decreases |s|
  {
    if s != [] {
      var w := Min(8, |s|);
      BytesOfCount(s[w..]);
      assert |BytesOf(s).value| == |BytesOf(s[w..]).value| + 1;
    }
  }

  /** Byte `k` of the result is the value of the chunk `s[8 * k : 8 * k + 8]`
      (the last chunk may be shorter). */
  lemma {:induction false} BytesOfAt(s: string, k: nat)
    requires BytesOf(s).Ok? && k < |BytesOf(s).value|
    ensures 8 * k < |s|
    ensures IsBinary(s[8 * k .. Min(8 * k + 8, |s|)])
    ensures BytesOf(s).value[k] == BigEndian(s[8 * k .. Min(8 * k + 8, |s|)])
    decreases |s|
  {
    assert s != [];
    var w := Min(8, |s|);
    var tail := s[w..];
    assert BytesOf(s).value[1..] == BytesOf(tail).value;
    assert BytesOf(s).value[0] == BigEndian(s[..w]);
    if k > 0 {
      BytesOfAt(tail, k - 1);
      ChunkShift(s, k);
    }
  }

  /** Chunk `k - 1` of `s[8:]` is chunk `k` of `s`. */
  lemma ChunkShift(s: string, k: nat)
    requires 0 < k && 8 <= |s| && 8 * k < |s|
    ensures s[8..][8 * (k - 1) .. Min(8 * (k - 1) + 8, |s| - 8)] == s[8 * k .. Min(8 * k + 8, |s|)]
  {
    var lo := 8 * (k - 1);
    var hi := Min(lo + 8, |s| - 8);
    assert 8 * k == lo + 8 && Min(8 * k + 8, |s|) == hi + 8;
  }

  /** A final chunk shorter than 8 characters is read as a number of that
      many bits: it is not shifted to the top of its byte. */
  lemma ShortFinalChunk(s: string)
    requires BytesOf(s).Ok? && |s| % 8 != 0
    ensures var r := BytesOf(s).value; r != [] && r[|r| - 1] < Pow2(|s| % 8)
  {
    var r := BytesOf(s).value;
    BytesOfCount(s);
    var m := |r| - 1;
    BytesOfAt(s, m);
    var a := 8 * m;
    var chunk := s[a .. Min(a + 8, |s|)];
    assert a < |s| <= a + 8;
    assert |s| != a + 8;
    ModEight(|s|, m, |s| - a);
    assert |chunk| == |s| % 8;
  }

  lemma ModEight(x: int, q: int, r: int)
    requires x == 8 * q + r && 0 <= r < 8
    ensures x % 8 == r
  {
  }

  /** For example a lone "1" becomes the byte 1, not 128. */
  lemma ShortFinalChunkExample()
    ensures BytesOf("1") == Ok([1])
    ensures BytesOf("10000000") == Ok([128])
  {
    var one, top := "1", "10000000";
    assert one[..1] == one && one[1..] == [];
    assert BigEndian(one) == 1;
    assert top[..8] == top && top[8..] == [];
    assert BigEndian(top[..1]) == 1;
    assert BigEndian(top[..2]) == 2;
    assert top[..3][..2] == top[..2];
    assert BigEndian(top[..3]) == 4;
    assert top[..4][..3] == top[..3];
    assert BigEndian(top[..4]) == 8;
    assert top[..5][..4] == top[..4];
    assert BigEndian(top[..5]) == 16;
    assert top[..6][..5] == top[..5];
    assert BigEndian(top[..6]) == 32;
    assert top[..7][..6] == top[..6];
    assert BigEndian(top[..7]) == 64;
    assert top[..7] == top[..8][..7];
    assert BigEndian(top) == 128;
    assert ParseBinary(one) == Ok(1) && ParseBinary(top) == Ok(128);
    assert BytesOf([]) == Ok([]);
    var r1: seq<Byte>, r128: seq<Byte> := [1], [128];
    assert r1 + [] == r1 && r128 + [] == r128;
    assert BytesOf(one) == Ok(r1);
    assert BytesOf(top) == Ok(r128);
  }

  /** Bit `q` of the value of a digit string is its digit `q` from the right. */
  lemma {:induction false} BitOfBigEndian(c: string, q: nat)
    requires IsBinary(c) && q < |c|
    ensures Digit(Bit(BigEndian(c), q)) == c[|c| - 1 - q]
  {
    var init := c[..|c| - 1];
    assert IsBinary(init);
    if q > 0 {
      BitOfBigEndian(init, q - 1);
      assert init[|init| - 1 - (q - 1)] == c[|c| - 1 - q];
    }
  }

  /** An 8-digit chunk written back out reproduces the chunk. */
  lemma ByteBitsOfChunk(c: string)
    requires IsBinary(c) && |c| == 8
    ensures BigEndian(c) < 256 && ByteBits(BigEndian(c) as Byte) == c
  {
    var b := BigEndian(c) as Byte;
    forall t | 0 <= t < 8 ensures ByteBits(b)[t] == c[t] {
      ChunkDigit(c, t);
    }
    ByteBitsAt(b, 0);
  }

  /** Digit `t` of an 8-digit chunk is digit `t` of its value written back out. */
  lemma ChunkDigit(c: string, t: nat)
    requires IsBinary(c) && |c| == 8 && t < 8
    ensures BigEndian(c) < 256 && ByteBits(BigEndian(c) as Byte)[t] == c[t]
  {
    ByteBitsAt(BigEndian(c) as Byte, t);
    BitOfBigEndian(c, 7 - t);
  }

  /** The other direction: a string of binary digits whose length is a multiple
      of 8 survives decoding and re-encoding. */
  lemma {:induction false} BinaryStrOfBytes(s: string)
    requires IsBinary(s) && |s| % 8 == 0
    ensures BytesOf(s).Ok? && BytesToBinaryStr(BytesOf(s).value) == s
    decreases |s|
  {
    BytesOfOk(s);
    if s != [] {
      ModEight(|s|, |s| / 8, 0);
      ModEight(|s| - 8, |s| / 8 - 1, 0);
      var c, tail := s[..8], s[8..];
      assert IsBinary(c) && IsBinary(tail);
      BinaryStrOfBytes(tail);
      ByteBitsOfChunk(c);
      var x, v, tv := BigEndian(c) as Byte, BytesOf(s).value, BytesOf(tail).value;
      assert v == [x] + tv;
      assert BytesToBinaryStr(v) == ByteBits(x) + BytesToBinaryStr(tv) by {
        assert v[0] == x && v[1..] == tv;
      }
      assert s == c + tail;
    }
  }

  /** The check in `main`: `exp_factor >= 1`, and `color_bitsize` is 1 or
      `color_bitsize % 8 == 0`. */
  predicate ArgumentsAccepted(expFactor: int, colorBitsize: int)
    ensures ArgumentsAccepted(expFactor, colorBitsize)
        <==> expFactor >= 1 && (colorBitsize == 1 || colorBitsize % 8 == 0)
  {
    !(expFactor < 1) && !(colorBitsize != 1 && PyMod(colorBitsize, 8) != 0)
  }

  /** The check admits a chunk size of 0, because `0 % 8 == 0`, and then
      `group_binstring` raises ZeroDivisionError on every input. */
  lemma ArgumentsAcceptZero(s: string)
    ensures ArgumentsAccepted(1, 0)
    ensures Grouped(s, 0) == Err(ZeroDivisionError)
  {
  }

  /** The arguments the check evidently means: a positive expansion factor and
      a chunk size of 1 or a positive multiple of 8. */
  predicate ArgumentsIntended(expFactor: int, colorBitsize: int)
  {
    expFactor >= 1 && (colorBitsize == 1 || (colorBitsize > 0 && colorBitsize % 8 == 0))
  }

  /** Under the intended arguments the check passes, grouping never raises,
      the pad counts lie in `[0, c)`, and expansion is undone by shrinking. */
  lemma ArgumentsIntendedWork(expFactor: int, colorBitsize: int, s: string)
    requires ArgumentsIntended(expFactor, colorBitsize)
    ensures ArgumentsAccepted(expFactor, colorBitsize)
    ensures Grouped(s, colorBitsize).Ok?
    ensures var g := Grouped(s, colorBitsize).value;
      0 <= g.zeroPad < colorBitsize && 0 <= g.onePad < colorBitsize
    ensures Shrunk(Expanded(s, expFactor), expFactor) == s
  {
    PaddedBounds(Pass(s, colorBitsize).bits, colorBitsize);
    ShrinkExpand(s, expFactor);
  }

  /** The bit string `serialize` hands to `group_binstring`: expansion only
      when the factor exceeds 1, which makes it `exp_factor` times as long. */
  function SerializedBits(buf: seq<Byte>, expFactor: int): (r: string)
    ensures |r| == |BytesToBinaryStr(buf)| * Max(expFactor, 1)
  {
    var bits := BytesToBinaryStr(buf);
    if expFactor > 1 then ExpandedLength(bits, expFactor); Expanded(bits, expFactor) else bits
  }

  lemma SerializedLength(buf: seq<Byte>, expFactor: int)
    requires expFactor >= 1
    ensures |SerializedBits(buf, expFactor)| % 8 == 0
    ensures buf != [] ==> |SerializedBits(buf, expFactor)| >= 8
  {
    var bits := BytesToBinaryStr(buf);
    if buf != [] {
      BinaryStrAt(buf, 0, 0);
    } else {
      assert bits == [];
    }
    var q := if expFactor > 1 then |buf| * expFactor else |buf|;
    if expFactor > 1 {
      ExpandedLength(bits, expFactor);
      MulAssoc(8, |buf|, expFactor);
      if buf != [] {
        MulAtLeast(|buf|, expFactor);
      }
    }
    assert |SerializedBits(buf, expFactor)| == 8 * q;
    ModEight(8 * q, q, 0);
  }

  lemma MulAssoc(a: int, b: int, c: int)
    ensures (a * b) * c == a * (b * c)
  {
  }

  lemma MulAtLeast(a: int, b: int)
    requires a >= 1 && b >= 1
    ensures a * b >= 1
  {
  }

  /** The codec path of `serialize` followed by `deserialize`, leaving out the
      video: bytes to bits, expansion, grouping, bytes of the grouped bits;
      then bits of those bytes, ungrouping, shrinking, bytes. When grouping
      applies no padding, the original bytes come back. */
  lemma SerializeDeserialize(buf: seq<Byte>, expFactor: int, colorBitsize: int)
    requires ArgumentsIntended(expFactor, colorBitsize) && buf != []
    requires var g := Grouped(SerializedBits(buf, expFactor), colorBitsize).value;
      g.zeroPad == 0 && g.onePad == 0
    ensures var e := SerializedBits(buf, expFactor);
      var g := Grouped(e, colorBitsize).value;
      && BytesOf(g.bits).Ok?
      && BytesToBinaryStr(BytesOf(g.bits).value) == g.bits
      && Ungrouped(g.bits, g.zeroPad, g.onePad, g.key) == Ok(e)
      && BytesOf(if expFactor > 1 then Shrunk(e, expFactor) else e) == Ok(buf)
  {
    var bits := BytesToBinaryStr(buf);
    var e := SerializedBits(buf, expFactor);
    var g := Grouped(e, colorBitsize).value;
    SerializedLength(buf, expFactor);
    UngroupGroup(e, colorBitsize);
    PassPermutation(e, colorBitsize);
    PaddedNoPad(Pass(e, colorBitsize).bits, colorBitsize);
    BinaryStrIsBinary(buf);
    if expFactor > 1 {
      ShrinkExpand(bits, expFactor);
      ExpandedBinary(bits, expFactor);
    }
    PermutationBinary(e, g.bits);
    BinaryStrOfBytes(g.bits);
    BytesOfBinaryStr(buf);
  }

  /** Expansion repeats characters, so binary digits stay binary digits. */
  lemma {:induction false} ExpandedBinary(v: string, exp: int)
    requires IsBinary(v)
    ensures IsBinary(Expanded(v, exp))
  {
    if v != [] {
      assert IsBinary(v[1..]);
      ExpandedBinary(v[1..], exp);
      var block := Repeat(v[0], Copies(exp));
      forall t | 0 <= t < |block| ensures block[t] == '0' || block[t] == '1' {
        RepeatAt(v[0], Copies(exp), t);
      }
      assert Expanded(v, exp) == block + Expanded(v[1..], exp);
    }
  }

  /** A permutation of binary digits is binary. */
  lemma PermutationBinary(a: string, b: string)
    requires IsBinary(a) && multiset(a) == multiset(b)
    ensures IsBinary(b)
  {
    forall k | 0 <= k < |b| ensures b[k] == '0' || b[k] == '1' {
      assert b[k] in multiset(b);
      assert b[k] in a;
    }
  }

  /** With `color_bitsize == 1` grouping never pads, so the codec path
      restores every non-empty byte string. */
  lemma SerializeDeserializeUnit(buf: seq<Byte>, expFactor: int)
    requires expFactor >= 1 && buf != []
    ensures var e := SerializedBits(buf, expFactor);
      var g := Grouped(e, 1).value;
      && BytesOf(g.bits).Ok?
      && Ungrouped(BytesToBinaryStr(BytesOf(g.bits).value), g.zeroPad, g.onePad, g.key) == Ok(e)
      && BytesOf(if expFactor > 1 then Shrunk(e, expFactor) else e) == Ok(buf)
  {
    GroupedUnit(SerializedBits(buf, expFactor));
    SerializeDeserialize(buf, expFactor, 1);
  }
}
