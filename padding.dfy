/** Padding of the grouped bit string (`__pad_vector`) and its removal
    (`__depad_vector`), modelled as the code is written: the pad counts
    returned are remainders, not the number of bits inserted, and depadding
    moves its cursor on after every deletion. */
module Padding {
  import opened Common

  /** The variables of the backward scan in `__pad_vector`: how many '0' and
      '1' were seen, and the offsets from the end (`binstr[-i]`) where the
      scan left a run of '0' and a run of '1'; -1 while not found. */
  datatype Scan = Scan(zeros: nat, ones: nat, zerosIx: int, onesIx: int)

  /** An offset is either unset or names a position `b[-i]` with `1 <= i < |b|`. */
  predicate OffsetOk(ix: int, n: nat)
  {
    ix == -1 || 1 <= ix < n
  }

  /** The loop `for i in range(1, len(binstr))` from index `i` on, with its
      `break` once both offsets are set. Position 0 is compared but never counted. */
  function ScanFrom(b: string, i: nat, st: Scan): (r: Scan)
    requires 1 <= i
    requires OffsetOk(st.zerosIx, |b|) && OffsetOk(st.onesIx, |b|)
    ensures OffsetOk(r.zerosIx, |b|) && OffsetOk(r.onesIx, |b|)
    decreases |b| - i
  {
    if i >= |b| then st
    else
      var ch := b[|b| - i];
      var zeros := if ch == '0' then st.zeros + 1 else st.zeros;
      var ones := if ch == '1' then st.ones + 1 else st.ones;
      if b[|b| - i - 1] != ch then
        var zerosIx := if ch == '0' then i else st.zerosIx;
        var onesIx := if ch == '0' then st.onesIx else i;
        if zerosIx != -1 && onesIx != -1 then Scan(zeros, ones, zerosIx, onesIx)
        else ScanFrom(b, i + 1, Scan(zeros, ones, zerosIx, onesIx))
      else ScanFrom(b, i + 1, Scan(zeros, ones, st.zerosIx, st.onesIx))
  }

  /** The whole backward scan, from `zeros, ones, zeros_ix, ones_ix = 0, 0, -1, -1`. */
  function TailScan(b: string): Scan
  {
    ScanFrom(b, 1, Scan(0, 0, -1, -1))
  }

  /** `for _ in range(n): xs.insert(i, x)`. */
  function InsertRepeated(s: string, i: int, x: char, n: nat): string
    decreases n
  {
    if n == 0 then s else InsertRepeated(PyInsert(s, i, x), i, x, n - 1)
  }

  /** Non-negative part of a count: how often `for _ in range(n)` runs. */
  function Pos(n: int): nat
  {
    if n > 0 then n else 0
  }

  /** How many bits `if r != 0: for _ in range(c - r)` inserts. */
  function Inserted(r: int, c: int): nat
  {
    if r != 0 then Pos(c - r) else 0
  }

  /** One insertion loop of `__pad_vector`: `for _ in range(n): binstr.insert(i, x)`. */
  method InsertCopies(s: string, i: int, x: char, n: int) returns (r: string)
    ensures r == InsertRepeated(s, i, x, Pos(n))
  {
    r := s;
    var t := 0;
    while t < n
      invariant 0 <= t <= Pos(n)
      invariant InsertRepeated(s, i, x, Pos(n)) == InsertRepeated(r, i, x, Pos(n) - t)
    {
      r := PyInsert(r, i, x);
      t := t + 1;
    }
  }

  /** What `__pad_vector` returns: the padded string, `zeros % c`, `ones % c`. */
  datatype PadResult = PadResult(bits: string, zeroPad: int, onePad: int)

  /** `__pad_vector(b, c)` for `c != 0` (with `c == 0` the `%` raises). */
  function Padded(b: string, c: int): PadResult
    requires c != 0
  {
    var sc := TailScan(b);
    var zr := PyMod(sc.zeros, c);
    var or := PyMod(sc.ones, c);
    var b1 := InsertRepeated(b, -sc.zerosIx, '0', Inserted(zr, c));
    var b2 := InsertRepeated(b1, -sc.onesIx, '1', Inserted(or, c));
    PadResult(b2, zr, or)
  }

  /** The backward scan at the start of `__pad_vector`, with its `break`. */
  method ScanTail(binstr: string) returns (sc: Scan)
    ensures sc == TailScan(binstr)
  {
    var zeros, ones, zerosIx, onesIx := 0, 0, -1, -1;
    var i := 1;
    while i < |binstr|
      invariant 1 <= i
      invariant OffsetOk(zerosIx, |binstr|) && OffsetOk(onesIx, |binstr|)
      invariant TailScan(binstr) == ScanFrom(binstr, i, Scan(zeros, ones, zerosIx, onesIx))
    {
      var ch := binstr[|binstr| - i];
      if ch == '0' {
        zeros := zeros + 1;
      } else if ch == '1' {
        ones := ones + 1;
      }
      if binstr[|binstr| - i - 1] != ch {
        if ch == '0' {
          zerosIx := i;
        } else {
          onesIx := i;
        }
        if zerosIx != -1 && onesIx != -1 {
          break;
        }
      }
      i := i + 1;
    }
    return Scan(zeros, ones, zerosIx, onesIx);
  }

  /** `__pad_vector`: the backward scan, then two insertion loops. */
  method Pad(binstr: string, colorBitsize: int) returns (r: Result<PadResult>)
    ensures colorBitsize == 0 ==> r == Err(ZeroDivisionError)
    ensures colorBitsize != 0 ==> r == Ok(Padded(binstr, colorBitsize))
  {
    var c := colorBitsize;
    var sc := ScanTail(binstr);
    if c == 0 {
      return Err(ZeroDivisionError);
    }
    var bits := binstr;
    var zr := PyMod(sc.zeros, c);
    if zr != 0 {
      bits := InsertCopies(bits, -sc.zerosIx, '0', c - zr);
    }
    var or := PyMod(sc.ones, c);
    if or != 0 {
      bits := InsertCopies(bits, -sc.onesIx, '1', c - or);
    }
    return Ok(PadResult(bits, zr, or));
  }

  /** Repeated insertion at one index puts a single block of `x` at the
      position the first insertion uses. */
  lemma {:induction false} InsertRepeatedBlock(s: string, i: int, x: char, n: nat)
    ensures var p := InsertPos(i, |s|);
      InsertRepeated(s, i, x, n) == s[..p] + Repeat(x, n) + s[p..]
    decreases n
  {
    var p := InsertPos(i, |s|);
    if n == 0 {
      assert s[..p] + [] + s[p..] == s;
    } else {
      var s' := PyInsert(s, i, x);
      InsertRepeatedBlock(s', i, x, n - 1);
      var p' := InsertPos(i, |s'|);
      assert s' == s[..p] + [x] + s[p..];
      assert p' == p || p' == p + 1;
      BlockGrows(s, p, x, n - 1, p');
    }
  }

  /** After one insertion of `x` at `p`, a block of `m` more copies inserted
      on either side of it makes a block of `m + 1` at `p`. */
  lemma BlockGrows(s: string, p: nat, x: char, m: nat, q: nat)
    requires p <= |s| && (q == p || q == p + 1)
    ensures var s' := s[..p] + [x] + s[p..];
      s'[..q] + Repeat(x, m) + s'[q..] == s[..p] + Repeat(x, m + 1) + s[p..]
  {
    var s' := s[..p] + [x] + s[p..];
    if q == p {
      assert s'[..q] == s[..p];
      assert s'[q..] == [x] + s[p..];
      RepeatSnoc(x, m);
      assert s[..p] + Repeat(x, m) + ([x] + s[p..]) == s[..p] + (Repeat(x, m) + [x]) + s[p..];
    } else {
      assert s'[..q] == s[..p] + [x];
      assert s'[q..] == s[p..];
      assert (s[..p] + [x]) + Repeat(x, m) + s[p..] == s[..p] + ([x] + Repeat(x, m)) + s[p..];
    }
  }

  /** Where `__pad_vector` inserts for an offset found by the scan: just
      before the last `ix` characters, or at index 1 when no offset was found. */
  lemma InsertAtOffset(s: string, ix: int, n: nat, x: char)
    requires ix == -1 || 1 <= ix <= |s|
    ensures var p := if ix == -1 then Min(1, |s|) else |s| - ix;
      InsertRepeated(s, -ix, x, n) == s[..p] + Repeat(x, n) + s[p..]
  {
    InsertRepeatedBlock(s, -ix, x, n);
  }

  /** One insertion loop adds `n` copies of `x` and keeps the rest in order. */
  lemma InsertRepeatedContents(s: string, i: int, x: char, n: nat)
    ensures var r := InsertRepeated(s, i, x, n);
      && |r| == |s| + n
      && multiset(r) == multiset(s) + multiset(Repeat(x, n))
      && IsSubsequence(s, r)
  {
    InsertRepeatedBlock(s, i, x, n);
    var p := InsertPos(i, |s|);
    assert s == s[..p] + s[p..];
    SubsequenceOfInsert(s, p, Repeat(x, n));
  }

  /** Padding inserts `Inserted(zeroPad, c)` zeros and `Inserted(onePad, c)`
      ones and nothing else: the input is a subsequence of the output, and the
      output's contents are the input's plus those bits. */
  lemma PaddedContents(b: string, c: int)
    requires c != 0
    ensures var p := Padded(b, c);
      var nz := Inserted(p.zeroPad, c);
      var no := Inserted(p.onePad, c);
      && |p.bits| == |b| + nz + no
      && multiset(p.bits) == multiset(b) + multiset(Repeat('0', nz)) + multiset(Repeat('1', no))
      && IsSubsequence(b, p.bits)
  {
    var sc := TailScan(b);
    var zr, or := PyMod(sc.zeros, c), PyMod(sc.ones, c);
    TwoInsertsContents(b, -sc.zerosIx, -sc.onesIx, Inserted(zr, c), Inserted(or, c));
  }

  /** The two insertion loops of `__pad_vector` together. */
  lemma TwoInsertsContents(b: string, i: int, j: int, nz: nat, no: nat)
    ensures var r := InsertRepeated(InsertRepeated(b, i, '0', nz), j, '1', no);
      && |r| == |b| + nz + no
      && multiset(r) == multiset(b) + multiset(Repeat('0', nz)) + multiset(Repeat('1', no))
      && IsSubsequence(b, r)
  {
    var b1 := InsertRepeated(b, i, '0', nz);
    InsertRepeatedContents(b, i, '0', nz);
    InsertRepeatedContents(b1, j, '1', no);
    SubsequenceTrans(b, b1, InsertRepeated(b1, j, '1', no));
  }

  /** For a positive chunk size: both returned counts lie in `[0, c)`; they
      are remainders, so the bits inserted are `c - count` (or none); the
      output grows by at most `2 * (c - 1)`; and it equals the input exactly
      when both counts are 0. */
  lemma PaddedBounds(b: string, c: int)
    requires c > 0
    ensures var p := Padded(b, c);
      && 0 <= p.zeroPad < c && 0 <= p.onePad < c
      && Inserted(p.zeroPad, c) == (if p.zeroPad == 0 then 0 else c - p.zeroPad)
      && Inserted(p.onePad, c) == (if p.onePad == 0 then 0 else c - p.onePad)
      && Inserted(p.zeroPad, c) <= c - 1 && Inserted(p.onePad, c) <= c - 1
      && |b| <= |p.bits| <= |b| + 2 * (c - 1)
      && (p.bits == b <==> p.zeroPad == 0 && p.onePad == 0)
  {
    PaddedContents(b, c);
    var p := Padded(b, c);
    if p.zeroPad == 0 && p.onePad == 0 {
      assert Padded(b, c).bits == b;
    }
  }

  /** Counts that are not positive mean nothing was inserted (for a negative
      chunk size the remainders are non-positive and `range(c - r)` is empty). */
  lemma PaddedNoPad(b: string, c: int)
    requires c != 0 && Padded(b, c).zeroPad <= 0 && Padded(b, c).onePad <= 0
    ensures Padded(b, c).bits == b
  {
    var p := Padded(b, c);
    assert Inserted(p.zeroPad, c) == 0 && Inserted(p.onePad, c) == 0;
  }

  /** With `color_bitsize == 1` every remainder is 0, so nothing is inserted. */
  lemma PaddedUnit(b: string)
    ensures Padded(b, 1) == PadResult(b, 0, 0)
  {
  }

  /** The cursor loop of `__depad_vector` from `i` on: `vector[-i]` is
      deleted when it is '1' and ones remain to remove, or when it is not '1'
      and zeros remain; `i` advances in every case. IndexError when the
      cursor passes the front while counts remain. */
  function DepadFrom(v: string, i: nat, zpad: int, opad: int): Result<string>
    requires 1 <= i
    decreases |v| + 1 - i
  {
    if !(opad > 0 || zpad > 0) then Ok(v)
    else if i > |v| then Err(IndexError)
    else
      var p := |v| - i;
      if v[p] == '1' then
        if opad > 0 then DepadFrom(v[..p] + v[p + 1..], i + 1, zpad, opad - 1)
        else DepadFrom(v, i + 1, zpad, opad)
      else if zpad > 0 then DepadFrom(v[..p] + v[p + 1..], i + 1, zpad - 1, opad)
      else DepadFrom(v, i + 1, zpad, opad)
  }

  /** `__depad_vector(vector, zpad, opad)`. */
  function Depadded(v: string, zpad: int, opad: int): Result<string>
  {
    DepadFrom(v, 1, zpad, opad)
  }

  /** `__depad_vector`: a `while` loop deleting `vector[-i]`. */
  method Depad(vector: string, zpad: int, opad: int) returns (r: Result<string>)
    ensures r == Depadded(vector, zpad, opad)
  {
    var v := vector;
    var z, o := zpad, opad;
    var i := 1;
    while o > 0 || z > 0
      invariant 1 <= i
      invariant Depadded(vector, zpad, opad) == DepadFrom(v, i, z, o)
      decreases |v| + 1 - i
    {
      if i > |v| {
        return Err(IndexError);
      }
      var p := |v| - i;
      if v[p] == '1' {
        if o > 0 {
          assert DepadFrom(v, i, z, o) == DepadFrom(v[..p] + v[p + 1..], i + 1, z, o - 1);
          v := v[..p] + v[p + 1..];
          o := o - 1;
        }
      } else if z > 0 {
        assert DepadFrom(v, i, z, o) == DepadFrom(v[..p] + v[p + 1..], i + 1, z - 1, o);
        v := v[..p] + v[p + 1..];
        z := z - 1;
      }
      i := i + 1;
    }
    return Ok(v);
  }

  /** `out` is `v` with `nz` characters other than '1' and `no` ones
      deleted, the rest kept in order. */
  predicate Removes(out: string, v: string, nz: nat, no: nat)
  {
    && |out| == |v| - nz - no
    && multiset(out)['1'] == multiset(v)['1'] - no
    && IsSubsequence(out, v)
  }

  /** `del vector[p]` removes one character, which is '1' or not: whatever
      removes `nz` other bits and `no` ones from the shorter string removes
      one more of the right kind from `v`. */
  lemma DeleteStep(v: string, p: nat, out: string, nz: nat, no: nat)
    requires p < |v|
    requires Removes(out, v[..p] + v[p + 1..], nz, no)
    ensures v[p] == '1' ==> Removes(out, v, nz, no + 1)
    ensures v[p] != '1' ==> Removes(out, v, nz + 1, no)
  {
    var d := v[..p] + v[p + 1..];
    assert v == v[..p] + [v[p]] + v[p + 1..];
    assert multiset(v) == multiset(d) + multiset{v[p]};
    SubsequenceOfDelete(v, p);
    SubsequenceTrans(out, d, v);
  }

  /** Depadding only deletes: on success it removes exactly `opad` ones and
      `zpad` other bits (counting non-positive counts as 0), and what is left
      is a subsequence of its input. */
  lemma {:induction false} DepadFromRemoves(v: string, i: nat, zpad: int, opad: int)
    requires 1 <= i
    requires DepadFrom(v, i, zpad, opad).Ok?
    ensures Removes(DepadFrom(v, i, zpad, opad).value, v, Pos(zpad), Pos(opad))
    decreases |v| + 1 - i, 1
  {
    if !(opad > 0 || zpad > 0) {
      assert DepadFrom(v, i, zpad, opad) == Ok(v);
      SubsequenceRefl(v);
    } else {
      assert i <= |v|;
      var p := |v| - i;
      if (v[p] == '1' && opad > 0) || (v[p] != '1' && zpad > 0) {
        DeleteRemoves(v, i, zpad, opad);
      } else {
        assert DepadFrom(v, i, zpad, opad) == DepadFrom(v, i + 1, zpad, opad);
        DepadFromRemoves(v, i + 1, zpad, opad);
      }
    }
  }

  /** The iteration of `__depad_vector` that deletes `vector[-i]`, and the
      rest of the loop after it. */
  lemma {:induction false} DeleteRemoves(v: string, i: nat, zpad: int, opad: int)
    requires 1 <= i <= |v|
    requires var ch := v[|v| - i]; (ch == '1' && opad > 0) || (ch != '1' && zpad > 0)
    requires DepadFrom(v, i, zpad, opad).Ok?
    ensures Removes(DepadFrom(v, i, zpad, opad).value, v, Pos(zpad), Pos(opad))
    decreases |v| + 1 - i, 0
  {
    var p := |v| - i;
    var d := v[..p] + v[p + 1..];
    var z, o := if v[p] == '1' then zpad else zpad - 1, if v[p] == '1' then opad - 1 else opad;
    var r := DepadFrom(d, i + 1, z, o);
    assert DepadFrom(v, i, zpad, opad) == r;
    DepadFromRemoves(d, i + 1, z, o);
    DeleteStep(v, p, r.value, Pos(z), Pos(o));
  }

  lemma DepaddedRemoves(v: string, zpad: int, opad: int)
    requires Depadded(v, zpad, opad).Ok?
    ensures var out := Depadded(v, zpad, opad).value;
      && |out| == |v| - Pos(zpad) - Pos(opad)
      && multiset(out)['1'] == multiset(v)['1'] - Pos(opad)
      && IsSubsequence(out, v)
  {
    DepadFromRemoves(v, 1, zpad, opad);
  }

  /** With no counts left the loop never runs: depadding is the identity. */
  lemma DepaddedNothing(v: string, zpad: int, opad: int)
    requires zpad <= 0 && opad <= 0
    ensures Depadded(v, zpad, opad) == Ok(v)
  {
  }
}
