/** Grouping of a bit string (`group_binstring`) by swaps driven by the
    transitions between '0' and '1', the key that records the swaps, and the
    replay of that key backwards (`ungroup_binstring`). */
module Grouping {
  import opened Common
  import opened Padding

  /** The conversion key: one pair of deltas `(i - prev_i, j - prev_j)` per swap,
      and a final pair `(l - prev_i, l - prev_j)`. */
  type Key = seq<(int, int)>

  /** The state of the loop in `group_binstring`: the list `new`, the cursor
      `j`, the indices of the previous swap and the key built so far. */
  datatype Cursor = Cursor(bits: string, j: int, prevI: int, prevJ: int, key: Key)

  /** `new[x], new[y] = new[y], new[x]`: the right-hand side is read first,
      then `new[x]` and `new[y]` are assigned in that order. */
  function Swap(s: string, x: nat, y: nat): (r: string)
    requires x < |s| && y < |s|
    ensures |r| == |s|
  {
    s[x := s[y]][y := s[x]]
  }

  /** A swap exchanges the two positions and leaves every other one alone. */
  lemma SwapAt(s: string, x: nat, y: nat, k: nat)
    requires x < |s| && y < |s| && k < |s|
    ensures Swap(s, x, y)[k] == if k == y then s[x] else if k == x then s[y] else s[k]
  {
  }

  /** One iteration `i` of the loop in `group_binstring`. The precondition
      `j < i` is what keeps the swap indices `j + 1 <= i < i + 1` inside the list. */
  function Step(cur: Cursor, c: int, i: nat): (r: Cursor)
    requires c != 0 && i + 1 < |cur.bits| && -1 <= cur.j < i
    ensures |r.bits| == |cur.bits| && -1 <= r.j <= i
  {
    if cur.bits[i] == cur.bits[i + 1] then cur
    else if cur.j == -1 || PyMod(cur.j + 1, c) == 0 then cur.(j := i)
    else
      Cursor(Swap(cur.bits, i + 1, cur.j + 1), cur.j + 1, i, cur.j,
             cur.key + [(i - cur.prevI, cur.j - cur.prevJ)])
  }

  /** The loop `for i in range(0, l - 1)` from iteration `i` on. */
  function PassFrom(cur: Cursor, c: int, i: nat): (r: Cursor)
    requires c != 0 && -1 <= cur.j < i
    ensures |r.bits| == |cur.bits|
    decreases |cur.bits| - i
  {
    if i + 1 >= |cur.bits| then cur else PassFrom(Step(cur, c, i), c, i + 1)
  }

  /** The whole loop, from `prev_i, prev_j = 0, 0`, `j = -1` and an empty key. */
  function Pass(s: string, c: int): Cursor
    requires c != 0
  {
    PassFrom(Cursor(s, -1, 0, 0, []), c, 0)
  }

  /** What `group_binstring` returns: padded bits, the two pad counts and the key. */
  datatype GroupResult = GroupResult(bits: string, zeroPad: int, onePad: int, key: Key)

  /** `group_binstring(s, c)`. With `c == 0` the `%` in the loop or in
      `__pad_vector` raises. */
  function Grouped(s: string, c: int): Result<GroupResult>
  {
    if c == 0 then Err(ZeroDivisionError)
    else
      var cur := Pass(s, c);
      var p := Padded(cur.bits, c);
      Ok(GroupResult(p.bits, p.zeroPad, p.onePad, cur.key + [(|s| - cur.prevI, |s| - cur.prevJ)]))
  }

  /** `group_binstring`: in-place swaps on the list `new`, then padding. */
  method Group(binstr: string, colorBitsize: int) returns (r: Result<GroupResult>)
    ensures r == Grouped(binstr, colorBitsize)
  {
    var c := colorBitsize;
    var bits := new char[|binstr|](k requires 0 <= k < |binstr| => binstr[k]);
    assert bits[..] == binstr;
    var pass := SwapPass(bits, c);
    if pass.Err? {
      return Err(pass.error);
    }
    var l := bits.Length;
    var key := pass.value.key + [(l - pass.value.prevI, l - pass.value.prevJ)];
    var p := Pad(bits[..], c);
    if p.Err? {
      return Err(p.error);
    }
    return Ok(GroupResult(p.value.bits, p.value.zeroPad, p.value.onePad, key));
  }

  /** The loop `for i in range(0, l - 1)` of `group_binstring`, swapping in
      the list `new`. With `c == 0` the `%` raises at the first transition
      after the cursor is set. */
  method SwapPass(bits: array<char>, c: int) returns (r: Result<Cursor>)
    modifies bits
    ensures c != 0 ==> r == Ok(Pass(old(bits[..]), c))
    ensures r.Ok? ==> r.value.bits == bits[..]
    ensures r.Err? ==> r == Err(ZeroDivisionError)
  {
    ghost var start := bits[..];
    var key: Key := [];
    var l := bits.Length;
    var prevI, prevJ := 0, 0;
    var j := -1;
    var i := 0;
    while i < l - 1
      invariant 0 <= i && -1 <= j < i
      invariant c != 0 ==> Pass(start, c) == PassFrom(Cursor(bits[..], j, prevI, prevJ, key), c, i)
    {
      ghost var cur := Cursor(bits[..], j, prevI, prevJ, key);
      if bits[i] != bits[i + 1] {
        if j == -1 {
          j := i;
        } else {
          if c == 0 {
            return Err(ZeroDivisionError);
          }
          if PyMod(j + 1, c) == 0 {
            j := i;
          } else {
            ghost var swapped := Swap(bits[..], i + 1, j + 1);
            key := key + [(i - prevI, j - prevJ)];
            prevI, prevJ := i, j;
            bits[i + 1], bits[j + 1] := bits[j + 1], bits[i + 1];
            assert bits[..] == swapped;
            j := j + 1;
          }
        }
      }
      assert c != 0 ==> Cursor(bits[..], j, prevI, prevJ, key) == Step(cur, c, i);
      i := i + 1;
    }
    return Ok(Cursor(bits[..], j, prevI, prevJ, key));
  }

  /** The loop of `ungroup_binstring` over the key entries not yet consumed,
      last entry first: subtract the deltas, then swap `new[j + 1]` and
      `new[i + 1]`, either of which may be a negative or out-of-range index. */
  function Replay(bits: string, key: Key, i: int, j: int): (r: Result<string>)
    ensures r.Ok? ==> |r.value| == |bits|
    decreases |key|
  {
    if key == [] then Ok(bits)
    else
      var d := key[|key| - 1];
      var i', j' := i - d.0, j - d.1;
      var x, y := PyIndex(j' + 1, |bits|), PyIndex(i' + 1, |bits|);
      if x.None? || y.None? then Err(IndexError)
      else Replay(Swap(bits, x.value, y.value), key[..|key| - 1], i', j')
  }

  /** `ungroup_binstring(v, zpad, opad, key)`: depad, then replay from `i, j = l, l`. */
  function Ungrouped(v: string, zpad: int, opad: int, key: Key): Result<string>
  {
    match Depadded(v, zpad, opad)
    case Err(e) => Err(e)
    case Ok(d) => Replay(d, key, |d|, |d|)
  }

  /** `ungroup_binstring`: in-place swaps on the list `new`, key read backwards. */
  method Ungroup(binstr: string, zpad: int, opad: int, keyList: Key) returns (r: Result<string>)
    ensures r == Ungrouped(binstr, zpad, opad, keyList)
  {
    var d := Depad(binstr, zpad, opad);
    if d.Err? {
      return Err(d.error);
    }
    var v := d.value;
    var bits := new char[|v|](k requires 0 <= k < |v| => v[k]);
    assert bits[..] == v;
    r := ReplayInPlace(bits, keyList);
  }

  /** The loop `for ki, kj in key_list[::-1]` of `ungroup_binstring`: the
      swaps on the list `new`, from `i, j = l, l`. */
  method ReplayInPlace(bits: array<char>, keyList: Key) returns (r: Result<string>)
    modifies bits
    ensures r == Replay(old(bits[..]), keyList, bits.Length, bits.Length)
    ensures r.Ok? ==> r.value == bits[..]
  {
    var l := bits.Length;
    var i, j := l, l;
    var k := |keyList|;
    assert keyList[..k] == keyList;
    ghost var target := Replay(bits[..], keyList, l, l);
    while k > 0
      invariant 0 <= k <= |keyList| && l == bits.Length
      invariant target == Replay(bits[..], keyList[..k], i, j)
    {
      ghost var before, i0, j0 := bits[..], i, j;
      var ki, kj := keyList[k - 1].0, keyList[k - 1].1;
      i := i - ki;
      j := j - kj;
      var x, y := PyIndex(j + 1, l), PyIndex(i + 1, l);
      if x.None? || y.None? {
        ReplayPrefixFails(before, keyList, k, i0, j0);
        return Err(IndexError);
      }
      ReplayPrefix(before, keyList, k, i0, j0, i, j, x.value, y.value);
      ghost var swapped := Swap(before, x.value, y.value);
      assert target == Replay(swapped, keyList[..k - 1], i, j);
      bits[x.value], bits[y.value] := bits[y.value], bits[x.value];
      assert bits[..] == swapped;
      k := k - 1;
    }
    assert keyList[..k] == [];
    r := Ok(bits[..]);
  }

  /** Replaying the first `k` key entries consumes entry `k - 1` first:
      it subtracts the deltas and swaps the two positions they give ... */
  lemma ReplayPrefix(bits: string, key: Key, k: nat, i: int, j: int, i': int, j': int, x: nat, y: nat)
    requires 0 < k <= |key|
    requires i' == i - key[k - 1].0 && j' == j - key[k - 1].1
    requires PyIndex(j' + 1, |bits|) == Some(x) && PyIndex(i' + 1, |bits|) == Some(y)
    ensures Replay(bits, key[..k], i, j) == Replay(Swap(bits, x, y), key[..k - 1], i', j')
  {
    assert key[..k][..k - 1] == key[..k - 1];
  }

  /** ... or raises IndexError when either index is out of range. */
  lemma ReplayPrefixFails(bits: string, key: Key, k: nat, i: int, j: int)
    requires 0 < k <= |key|
    requires PyIndex(j - key[k - 1].1 + 1, |bits|).None? || PyIndex(i - key[k - 1].0 + 1, |bits|).None?
    ensures Replay(bits, key[..k], i, j) == Err(IndexError)
  {
  }

  /** A swap moves characters and keeps the multiset of them. */
  lemma SwapMultiset(s: string, x: nat, y: nat)
    requires x < |s| && y < |s|
    ensures multiset(Swap(s, x, y)) == multiset(s)
  {
    var t := s[x := s[y]];
    assert multiset(t) == multiset(s) - multiset{s[x]} + multiset{s[y]};
    assert multiset(t[y := s[x]]) == multiset(t) - multiset{t[y]} + multiset{s[x]};
  }

  /** Swapping the same two positions again restores the string. */
  lemma SwapBack(s: string, x: nat, y: nat)
    requires x < |s| && y < |s|
    ensures Swap(Swap(s, x, y), y, x) == s
  {
  }

  /** The grouping pass only swaps: its result is a permutation of its input,
      with as many '0' and as many '1' as before. */
  lemma {:induction false} PassFromPermutation(cur: Cursor, c: int, i: nat)
    requires c != 0 && -1 <= cur.j < i
    ensures multiset(PassFrom(cur, c, i).bits) == multiset(cur.bits)
    decreases |cur.bits| - i
  {
    if i + 1 < |cur.bits| {
      var next := Step(cur, c, i);
      if next.bits != cur.bits {
        SwapMultiset(cur.bits, i + 1, cur.j + 1);
      }
      PassFromPermutation(next, c, i + 1);
    }
  }

  lemma PassPermutation(s: string, c: int)
    requires c != 0
    ensures |Pass(s, c).bits| == |s|
    ensures multiset(Pass(s, c).bits) == multiset(s)
  {
    PassFromPermutation(Cursor(s, -1, 0, 0, []), c, 0);
  }

  /** Sum of the first components of the key (the `i` deltas). */
  function SumI(key: Key): int
  {
    if key == [] then 0 else SumI(key[..|key| - 1]) + key[|key| - 1].0
  }

  /** Sum of the second components of the key (the `j` deltas). */
  function SumJ(key: Key): int
  {
    if key == [] then 0 else SumJ(key[..|key| - 1]) + key[|key| - 1].1
  }

  /** Every delta of `i` is at least 1 and every delta of `j` at least 0. */
  predicate ForwardDeltas(key: Key)
  {
    forall k :: 0 <= k < |key| ==> key[k].0 >= 1 && key[k].1 >= 0
  }

  /** Appending one entry adds its deltas to the sums and keeps them forward. */
  lemma KeyAppend(key: Key, e: (int, int))
    ensures SumI(key + [e]) == SumI(key) + e.0 && SumJ(key + [e]) == SumJ(key) + e.1
    ensures ForwardDeltas(key) && e.0 >= 1 && e.1 >= 0 ==> ForwardDeltas(key + [e])
  {
    var k2 := key + [e];
    assert k2[..|k2| - 1] == key;
    assert k2[|k2| - 1] == e;
    if ForwardDeltas(key) && e.0 >= 1 && e.1 >= 0 {
      forall k | 0 <= k < |k2| ensures k2[k].0 >= 1 && k2[k].1 >= 0 {
        if k < |key| {
          assert k2[k] == key[k];
        }
      }
    }
  }

  /** What holds of the key before iteration `i`: its deltas are forward, they
      add up to the previous swap's indices, `prev_j <= prev_i`, and at most
      one entry was added per earlier iteration (none at iteration 0). */
  ghost predicate KeyShape(cur: Cursor, i: nat)
  {
    && ForwardDeltas(cur.key)
    && SumI(cur.key) == cur.prevI && SumJ(cur.key) == cur.prevJ
    && 0 <= cur.prevJ <= cur.prevI
    && (if cur.key == [] then cur.prevI == 0 && cur.prevJ == 0
        else cur.prevJ < cur.j && cur.prevI < i && |cur.key| < i)
  }

  lemma StepKeyShape(cur: Cursor, c: int, i: nat)
    requires c != 0 && i + 1 < |cur.bits| && -1 <= cur.j < i
    requires KeyShape(cur, i)
    ensures KeyShape(Step(cur, c, i), i + 1)
  {
    if Swaps(cur, c, i) {
      SwapKeyShape(cur, c, i);
    } else {
      var next := Step(cur, c, i);
      assert next.key == cur.key && next.prevI == cur.prevI && next.prevJ == cur.prevJ;
      assert next.j == cur.j || next.j == i;
    }
  }

  /** An iteration that swaps appends `(i - prev_i, j - prev_j)`, which is forward. */
  lemma SwapKeyShape(cur: Cursor, c: int, i: nat)
    requires c != 0 && i + 1 < |cur.bits| && -1 <= cur.j < i
    requires KeyShape(cur, i) && Swaps(cur, c, i)
    ensures KeyShape(Step(cur, c, i), i + 1)
  {
    var e := (i - cur.prevI, cur.j - cur.prevJ);
    var next := Step(cur, c, i);
    assert next == Cursor(Swap(cur.bits, i + 1, cur.j + 1), cur.j + 1, i, cur.j, cur.key + [e]);
    KeyAppend(cur.key, e);
  }

  lemma {:induction false} PassFromKeyShape(cur: Cursor, c: int, i: nat)
    requires c != 0 && -1 <= cur.j < i
    requires KeyShape(cur, i)
    ensures KeyShape(PassFrom(cur, c, i), if i + 1 >= |cur.bits| then i else |cur.bits| - 1)
    decreases |cur.bits| - i
  {
    if i + 1 < |cur.bits| {
      StepKeyShape(cur, c, i);
      PassFromKeyShape(Step(cur, c, i), c, i + 1);
    }
  }

  /** The key `group_binstring` returns has non-negative deltas (every `i`
      delta but the last one is positive), its `i` deltas and its `j` deltas
      each add up to the length of the input, and it has at most one entry
      per position besides the first (at least one entry in all). */
  lemma GroupedKey(s: string, c: int)
    requires c != 0
    ensures var key := Grouped(s, c).value.key;
      && 1 <= |key| <= Max(|s| - 1, 1)
      && (forall k :: 0 <= k < |key| ==> key[k].0 >= 0 && key[k].1 >= 0)
      && (forall k :: 0 <= k < |key| - 1 ==> key[k].0 >= 1)
      && SumI(key) == |s| && SumJ(key) == |s|
  {
    var cur := Pass(s, c);
    PassFromKeyShape(Cursor(s, -1, 0, 0, []), c, 0);
    var key := Grouped(s, c).value.key;
    assert key == cur.key + [(|s| - cur.prevI, |s| - cur.prevJ)];
    assert key[..|key| - 1] == cur.key;
    forall k | 0 <= k < |key| ensures key[k].0 >= 0 && key[k].1 >= 0 {
      if k < |cur.key| {
        assert key[k] == cur.key[k];
      }
    }
    forall k | 0 <= k < |key| - 1 ensures key[k].0 >= 1 {
      assert key[k] == cur.key[k];
    }
  }

  /** Whether iteration `i` swaps: a transition, a cursor that is set, and
      `(j + 1) % c != 0`. */
  predicate Swaps(cur: Cursor, c: int, i: nat)
    requires c != 0 && i + 1 < |cur.bits|
  {
    cur.bits[i] != cur.bits[i + 1] && cur.j != -1 && PyMod(cur.j + 1, c) != 0
  }

  /** How many iterations from `i` on perform a swap. */
  function SwapCount(cur: Cursor, c: int, i: nat): nat
    requires c != 0 && -1 <= cur.j < i
    decreases |cur.bits| - i
  {
    if i + 1 >= |cur.bits| then 0
    else (if Swaps(cur, c, i) then 1 else 0) + SwapCount(Step(cur, c, i), c, i + 1)
  }

  lemma {:induction false} PassFromKeyCount(cur: Cursor, c: int, i: nat)
    requires c != 0 && -1 <= cur.j < i
    ensures |PassFrom(cur, c, i).key| == |cur.key| + SwapCount(cur, c, i)
    decreases |cur.bits| - i
  {
    if i + 1 < |cur.bits| {
      PassFromKeyCount(Step(cur, c, i), c, i + 1);
    }
  }

  /** The key has exactly one entry per swap and one final entry
      `(l - prev_i, l - prev_j)`. */
  lemma GroupedKeyCount(s: string, c: int)
    requires c != 0
    ensures var key := Grouped(s, c).value.key;
      var cur := Pass(s, c);
      && |key| == SwapCount(Cursor(s, -1, 0, 0, []), c, 0) + 1
      && key[|key| - 1] == (|s| - cur.prevI, |s| - cur.prevJ)
  {
    PassFromKeyCount(Cursor(s, -1, 0, 0, []), c, 0);
  }

  /** With `color_bitsize == 1` every `(j + 1) % 1` is 0, so the pass never swaps. */
  lemma {:induction false} PassFromUnit(cur: Cursor, i: nat)
    requires -1 <= cur.j < i
    ensures var r := PassFrom(cur, 1, i);
      r.bits == cur.bits && r.key == cur.key && r.prevI == cur.prevI && r.prevJ == cur.prevJ
    decreases |cur.bits| - i
  {
    if i + 1 < |cur.bits| {
      PassFromUnit(Step(cur, 1, i), i + 1);
    }
  }

  /** `group_binstring(s, 1)` returns `s` unchanged, no padding and the key `[(l, l)]`. */
  lemma GroupedUnit(s: string)
    ensures Grouped(s, 1) == Ok(GroupResult(s, 0, 0, [(|s|, |s|)]))
  {
    PassFromUnit(Cursor(s, -1, 0, 0, []), 0);
    var cur := Pass(s, 1);
    assert cur.bits == s && cur.key == [] && cur.prevI == 0 && cur.prevJ == 0;
    PaddedUnit(s);
    var g := Grouped(s, 1).value;
    assert g.bits == s && g.zeroPad == 0 && g.onePad == 0 && g.key == [(|s|, |s|)];
  }

  /** The state of the grouping pass from which the key can undo every swap
      so far: swapping back the previous swap and replaying the key from the
      previous swap's indices gives the input `s` again. */
  ghost predicate Undoable(s: string, cur: Cursor)
  {
    && |cur.bits| == |s|
    && 0 <= cur.prevJ <= cur.prevI
    && cur.prevI + 1 < |s|
    && Replay(Swap(cur.bits, cur.prevJ + 1, cur.prevI + 1), cur.key, cur.prevI, cur.prevJ) == Ok(s)
  }

  lemma StepUndoable(s: string, cur: Cursor, c: int, i: nat)
    requires c != 0 && i + 1 < |cur.bits| && -1 <= cur.j < i
    requires Undoable(s, cur)
    ensures Undoable(s, Step(cur, c, i))
  {
    if Swaps(cur, c, i) {
      SwapUndoable(s, cur, c, i);
    } else {
      var next := Step(cur, c, i);
      assert next.bits == cur.bits && next.key == cur.key;
      assert next.prevI == cur.prevI && next.prevJ == cur.prevJ;
    }
  }

  /** After a swap the new last key entry leads the replay back to the
      previous swap's indices, where the previous swap is undone. */
  lemma SwapUndoable(s: string, cur: Cursor, c: int, i: nat)
    requires c != 0 && i + 1 < |cur.bits| && -1 <= cur.j < i
    requires Undoable(s, cur) && Swaps(cur, c, i)
    ensures Undoable(s, Step(cur, c, i))
  {
    var e := (i - cur.prevI, cur.j - cur.prevJ);
    var next := Step(cur, c, i);
    assert next == Cursor(Swap(cur.bits, i + 1, cur.j + 1), cur.j + 1, i, cur.j, cur.key + [e]);
    SwapBack(cur.bits, i + 1, cur.j + 1);
    assert Swap(next.bits, cur.j + 1, i + 1) == cur.bits;
    ReplayLast(cur.bits, cur.key, e, i, cur.j);
  }

  /** Replay consumes the last key entry first; when both indices it
      computes are in range, it swaps them and goes on with the rest. */
  lemma ReplayLast(bits: string, key: Key, e: (int, int), i: int, j: int)
    requires 0 <= j - e.1 + 1 < |bits| && 0 <= i - e.0 + 1 < |bits|
    ensures Replay(bits, key + [e], i, j)
         == Replay(Swap(bits, j - e.1 + 1, i - e.0 + 1), key, i - e.0, j - e.1)
  {
    var k2 := key + [e];
    assert k2[..|k2| - 1] == key;
    assert k2[|k2| - 1] == e;
  }

  lemma {:induction false} PassFromUndoable(s: string, cur: Cursor, c: int, i: nat)
    requires c != 0 && -1 <= cur.j < i
    requires Undoable(s, cur)
    ensures Undoable(s, PassFrom(cur, c, i))
    decreases |cur.bits| - i
  {
    if i + 1 < |cur.bits| {
      StepUndoable(s, cur, c, i);
      PassFromUndoable(s, Step(cur, c, i), c, i + 1);
    }
  }

  /** The key undoes the grouping pass for every input: replaying it on
      the list as it stands before padding gives the input back for strings
      of length at least 2; shorter strings make the final swap `new[1]`
      raise IndexError. */
  lemma ReplayUndoesPass(s: string, c: int)
    requires c != 0
    ensures Ungrouped(Pass(s, c).bits, 0, 0, Grouped(s, c).value.key)
         == if |s| >= 2 then Ok(s) else Err(IndexError)
  {
    var cur := Pass(s, c);
    var g := Grouped(s, c).value;
    PassPermutation(s, c);
    DepaddedNothing(cur.bits, 0, 0);
    assert g.key[..|g.key| - 1] == cur.key;
    if |s| >= 2 {
      var init := Cursor(s, -1, 0, 0, []);
      assert Swap(s, 1, 1) == s;
      assert Undoable(s, init);
      PassFromUndoable(s, init, c, 0);
    }
  }

  /** The key undoes the grouping exactly when no padding was applied: for
      strings of length at least 2, `ungroup_binstring` restores the input;
      shorter strings make the final swap `new[1]` raise IndexError. */
  lemma UngroupGroup(s: string, c: int)
    requires c != 0
    requires Grouped(s, c).value.zeroPad <= 0 && Grouped(s, c).value.onePad <= 0
    ensures var g := Grouped(s, c).value;
      Ungrouped(g.bits, g.zeroPad, g.onePad, g.key) == if |s| >= 2 then Ok(s) else Err(IndexError)
  {
    var cur := Pass(s, c);
    var g := Grouped(s, c).value;
    PaddedNoPad(cur.bits, c);
    assert g.bits == cur.bits;
    DepaddedNothing(g.bits, g.zeroPad, g.onePad);
    DepaddedNothing(g.bits, 0, 0);
    ReplayUndoesPass(s, c);
  }

  /** Ungrouping only swaps: a successful replay is a permutation of the
      depadded string. */
  lemma {:induction false} ReplayPermutation(bits: string, key: Key, i: int, j: int)
    requires Replay(bits, key, i, j).Ok?
    ensures multiset(Replay(bits, key, i, j).value) == multiset(bits)
    decreases |key|
  {
    if key != [] {
      var d := key[|key| - 1];
      var x, y := PyIndex(j - d.1 + 1, |bits|), PyIndex(i - d.0 + 1, |bits|);
      SwapMultiset(bits, x.value, y.value);
      ReplayPermutation(Swap(bits, x.value, y.value), key[..|key| - 1], i - d.0, j - d.1);
    }
  }

  /** The grouping pass over "110010" with chunk size 2 never swaps: the
      cursor moves to each transition, at 1, 3 and 4, because it starts at
      -1 and then sits at 1 and at 3, where `(j + 1) % 2 == 0`. */
  lemma PassExample()
    ensures Pass("110010", 2) == Cursor("110010", 4, 0, 0, [])
  {
    var s := "110010";
    var c0 := Cursor(s, -1, 0, 0, []);
    assert Step(c0, 2, 0) == c0;
    assert Step(c0, 2, 1) == c0.(j := 1);
    assert Step(c0.(j := 1), 2, 2) == c0.(j := 1);
    assert Step(c0.(j := 1), 2, 3) == c0.(j := 3);
    assert Step(c0.(j := 3), 2, 4) == c0.(j := 4);
  }

  /** Padding "110010" to chunk size 2: one zero and one one, inserted
      before the last run of zeros and of ones. */
  lemma PadExample()
    ensures Padded("110010", 2) == PadResult("11001100", 1, 1)
  {
    var s := "110010";
    assert TailScan(s) == Scan(1, 1, 1, 2);
    assert PyInsert(s, -1, '0') == "1100100";
    assert PyInsert("1100100", -2, '1') == "11001100";
  }

  /** The example pair: "110010" with chunk size 2 needs no swap and gets
      one zero and one one of padding. */
  lemma GroupExample()
    ensures Grouped("110010", 2) == Ok(GroupResult("11001100", 1, 1, [(6, 6)]))
  {
    var s, c := "110010", 2;
    var cur := Pass(s, c);
    assert cur == Cursor(s, 4, 0, 0, []) by {
      PassExample();
    }
    var p := Padded(cur.bits, c);
    assert p == PadResult("11001100", 1, 1) by {
      PadExample();
    }
    var key: Key := [];
    assert key + [(6, 6)] == [(6, 6)];
  }

  /** ... and comes back intact. */
  lemma UngroupExample()
    ensures Ungrouped("11001100", 1, 1, [(6, 6)]) == Ok("110010")
  {
    var s := "110010";
    var v1, v2 := "11001100", "1100110";
    assert v1[..7] + v1[8..] == v2;
    assert v2[..5] + v2[6..] == s;
    assert DepadFrom("1100110", 2, 0, 1) == DepadFrom(s, 3, 0, 0);
    assert DepadFrom("11001100", 1, 1, 1) == DepadFrom("1100110", 2, 0, 1);
    assert Depadded("11001100", 1, 1) == Ok(s);
    assert Swap(s, 1, 1) == s;
  }

  /** Padding "0000" to chunk size 8: the scan counts three zeros (position
      0 is never counted) and finds no offsets, so five zeros go in at index 1. */
  lemma UniformPadExample()
    ensures Padded("0000", 8) == PadResult("000000000", 3, 0)
  {
    var s := "0000";
    assert TailScan(s) == Scan(3, 0, -1, -1);
    assert PyInsert(s, 1, '0') == "00000";
    assert PyInsert("00000", 1, '0') == "000000";
    assert PyInsert("000000", 1, '0') == "0000000";
    assert PyInsert("0000000", 1, '0') == "00000000";
    assert PyInsert("00000000", 1, '0') == "000000000";
  }

  /** Padding does not make each trailing run a multiple of the chunk size:
      for "1100" with chunk size 8 the scan stops before position 0 and finds
      no offset for ones, so six zeros go into the last run of zeros but seven
      ones go in at index 1, which leaves nine ones in front of eight zeros. */
  lemma TwoRunsPadExample()
    ensures Padded("1100", 8) == PadResult("11111111100000000", 2, 1)
  {
    assert TailScan("1100") == Scan(2, 1, 2, -1);
    assert Inserted(PyMod(2, 8), 8) == 6 && Inserted(PyMod(1, 8), 8) == 7;
    TwoRunsZeros();
    TwoRunsOnes();
  }

  /** The zeros loop of that example: six zeros before the last two characters. */
  lemma TwoRunsZeros()
    ensures InsertRepeated("1100", -2, '0', 6) == "1100000000"
  {
    InsertAtOffset("1100", 2, 6, '0');
    assert Repeat('0', 6) == "000000" by {
      RepeatSnoc('0', 5);
      assert Repeat('0', 5) == "00000" by {
        RepeatSnoc('0', 4);
        assert Repeat('0', 4) == "0000";
      }
    }
    assert "1100"[..2] + "000000" + "1100"[2..] == "1100000000";
  }

  /** The ones loop of that example: seven ones at index 1. */
  lemma TwoRunsOnes()
    ensures InsertRepeated("1100000000", 1, '1', 7) == "11111111100000000"
  {
    var s := "1100000000";
    InsertAtOffset(s, -1, 7, '1');
    assert InsertRepeated(s, 1, '1', 7) == s[..1] + Repeat('1', 7) + s[1..];
    assert Repeat('1', 7) == "1111111" by {
      RepeatSnoc('1', 6);
      assert Repeat('1', 6) == "111111" by {
        RepeatSnoc('1', 5);
        assert Repeat('1', 5) == "11111" by {
          RepeatSnoc('1', 4);
          assert Repeat('1', 4) == "1111";
        }
      }
    }
    assert s[..1] == "1" && s[1..] == "100000000";
  }

  /** The key is never empty: the empty string gets the single entry `(0, 0)`. */
  lemma EmptyExample(c: int)
    requires c != 0
    ensures Grouped("", c) == Ok(GroupResult("", 0, 0, [(0, 0)]))
  {
    var cur := Pass("", c);
    assert cur == Cursor("", -1, 0, 0, []);
    assert TailScan("") == Scan(0, 0, -1, -1);
    assert PyMod(0, c) == 0;
    assert Padded("", c) == PadResult("", 0, 0);
    assert cur.key + [(0, 0)] == [(0, 0)];
  }

  /** A uniform input does not come back: "0000" with chunk size 8 is padded
      with five zeros but reports a remainder of 3 ... */
  lemma UniformExample()
    ensures Grouped("0000", 8) == Ok(GroupResult("000000000", 3, 0, [(4, 4)]))
  {
    var s := "0000";
    var c0 := Cursor(s, -1, 0, 0, []);
    assert Step(c0, 8, 0) == c0;
    assert Step(c0, 8, 1) == c0;
    assert Step(c0, 8, 2) == c0;
    assert PassFrom(c0, 8, 3) == c0;
    assert PassFrom(c0, 8, 2) == c0;
    assert PassFrom(c0, 8, 1) == c0;
    var cur := Pass(s, 8);
    assert cur == c0;
    UniformPadExample();
    assert Padded(cur.bits, 8) == PadResult("000000000", 3, 0);
    assert cur.key + [(|s| - cur.prevI, |s| - cur.prevJ)] == [(4, 4)];
  }

  /** ... so ungrouping removes three zeros and returns six. */
  lemma UniformUngroupExample()
    ensures Ungrouped("000000000", 3, 0, [(4, 4)]) == Ok("000000")
  {
    var w9, w8, w7, w6 := "000000000", "00000000", "0000000", "000000";
    assert w9[..8] + w9[9..] == w8;
    assert w8[..6] + w8[7..] == w7;
    assert w7[..4] + w7[5..] == w6;
    assert DepadFrom("0000000", 3, 1, 0) == DepadFrom("000000", 4, 0, 0);
    assert DepadFrom("00000000", 2, 2, 0) == DepadFrom("0000000", 3, 1, 0);
    assert DepadFrom("000000000", 1, 3, 0) == DepadFrom("00000000", 2, 2, 0);
    assert Depadded("000000000", 3, 0) == Ok(w6);
    assert Swap(w6, 3, 3) == w6;
  }
}
