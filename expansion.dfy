/** Bit expansion (`bit_vector_expand`) and its majority-vote inverse
    (`bit_vector_shrink` with `find_most_bit`): a repetition code over
    strings of '0' and '1'. */
module BitExpansion {
  import opened Common

  /** How often `for _ in range(exp)` runs: a non-positive factor runs zero times. */
  function Copies(exp: int): nat
  {
    if exp > 0 then exp else 0
  }

  /** The string `bit_vector_expand(v, exp)` builds: every character of `v`
      repeated `Copies(exp)` times, in order. */
  function Expanded(v: string, exp: int): (r: string)
  {
    if v == [] then [] else Repeat(v[0], Copies(exp)) + Expanded(v[1..], exp)
  }

  /** `bit_vector_expand`: two nested loops appending to an accumulator. */
  method Expand(vector: string, exp: int) returns (e: string)
    ensures e == Expanded(vector, exp)
  {
    e := "";
    var k := 0;
    while k < |vector|
      invariant 0 <= k <= |vector|
      invariant Expanded(vector, exp) == e + Expanded(vector[k..], exp)
    {
      ghost var start := e;
      var t := 0;
      while t < exp
        invariant 0 <= t <= Copies(exp)
        invariant e == start + Repeat(vector[k], t)
      {
        RepeatSnoc(vector[k], t);
        e := e + [vector[k]];
        t := t + 1;
      }
      ExpandStep(vector, exp, k, start);
      k := k + 1;
    }
    assert vector[k..] == [];
  }

  /** One iteration of the outer loop of `bit_vector_expand`: block `k` joins
      the accumulator. */
  lemma ExpandStep(v: string, exp: int, k: nat, acc: string)
    requires k < |v|
    requires Expanded(v, exp) == acc + Expanded(v[k..], exp)
    ensures Expanded(v, exp) == (acc + Repeat(v[k], Copies(exp))) + Expanded(v[k + 1..], exp)
  {
    assert v[k..][1..] == v[k + 1..];
  }

  /** The expansion is `Copies(exp)` times as long as its input. */
  lemma {:induction false} ExpandedLength(v: string, exp: int)
    ensures |Expanded(v, exp)| == |v| * Copies(exp)
  {
    if v != [] {
      ExpandedLength(v[1..], exp);
      assert (|v| - 1) * Copies(exp) + Copies(exp) == |v| * Copies(exp);
    }
  }

  /** Block `k` of the expansion is `Copies(exp)` copies of `v[k]`. */
  lemma ExpandedBlock(v: string, exp: int, k: nat)
    requires k < |v|
    ensures var n := Copies(exp);
      k * n + n <= |Expanded(v, exp)| && Expanded(v, exp)[k * n .. k * n + n] == Repeat(v[k], n)
  {
    ExpandedBlockFrom(v, exp, k);
    WindowStartIsProduct(k, Copies(exp));
  }

  /** Block `k` starts after `k` blocks, counted by repeated addition. */
  lemma {:induction false} ExpandedBlockFrom(v: string, exp: int, k: nat)
    requires k < |v|
    ensures var n := Copies(exp); var a := WindowStart(k, n);
      a + n <= |Expanded(v, exp)| && Expanded(v, exp)[a .. a + n] == Repeat(v[k], n)
  {
    var n := Copies(exp);
    var e, head, tail := Expanded(v, exp), Repeat(v[0], n), Expanded(v[1..], exp);
    var r := Repeat(v[k], n);
    assert e == head + tail;
    if k == 0 {
      assert e[..n] == head;
    } else {
      var a := WindowStart(k - 1, n);
      assert a + n <= |tail| && tail[a .. a + n] == r by {
        ExpandedBlockFrom(v[1..], exp, k - 1);
        assert v[1..][k - 1] == v[k];
      }
      assert WindowStart(k, n) == |head| + a;
      assert e[|head| + a .. |head| + a + n] == r by {
        SliceOfConcat(head, tail, a, a + n);
      }
    }
  }

  /** `(a + 1) * b == a * b + b`, kept apart so that the solver sees it alone. */
  lemma MulSucc(a: int, b: int)
    ensures (a + 1) * b == a * b + b
  {
  }

  /** An expansion factor of 1 leaves the string unchanged. */
  lemma {:induction false} ExpandedUnit(v: string)
    ensures Expanded(v, 1) == v
  {
    if v != [] {
      ExpandedUnit(v[1..]);
      assert Repeat(v[0], 1) == [v[0]];
    }
  }

  /** How many times `w` holds `x` (`l.count(x)`). */
  function Count(w: string, x: char): nat
  {
    if w == [] then 0 else (if w[0] == x then 1 else 0) + Count(w[1..], x)
  }

  lemma {:induction false} CountAbsent(w: string, x: char)
    requires x !in w
    ensures Count(w, x) == 0
  {
    if w != [] {
      CountAbsent(w[1..], x);
    }
  }

  /** The scan `max(l, key=l.count)` performs from index `k`, holding the
      index `best` of the best element so far: a later element replaces it
      only with a strictly larger count. */
  function MaxByCount(w: string, k: nat, best: nat): (r: nat)
    requires best < k <= |w|
    ensures r < |w|
    decreases |w| - k
  {
    if k == |w| then best
    else if Count(w, w[k]) > Count(w, w[best]) then MaxByCount(w, k + 1, k)
    else MaxByCount(w, k + 1, best)
  }

  /** The scan keeps "best is the first index of maximal count so far" and
      so ends on the first index of maximal count in the whole window. */
  lemma {:induction false} MaxByCountIsFirstMax(w: string, k: nat, best: nat)
    requires best < k <= |w|
    requires forall m :: 0 <= m < k ==> Count(w, w[m]) <= Count(w, w[best])
    requires forall m :: 0 <= m < best ==> Count(w, w[m]) < Count(w, w[best])
    ensures var r := MaxByCount(w, k, best);
      && (forall m :: 0 <= m < |w| ==> Count(w, w[m]) <= Count(w, w[r]))
      && (forall m :: 0 <= m < r ==> Count(w, w[m]) < Count(w, w[r]))
    decreases |w| - k
  {
    if k < |w| {
      if Count(w, w[k]) > Count(w, w[best]) {
        MaxByCountIsFirstMax(w, k + 1, k);
      } else {
        MaxByCountIsFirstMax(w, k + 1, best);
      }
    }
  }

  /** `find_most_bit`: `str(max(l, key=l.count))`. */
  function MostFrequent(w: string): char
    requires w != []
  {
    w[MaxByCount(w, 1, 0)]
  }

  /** `find_most_bit` returns a character of the window that no other
      character outnumbers; on a tie, the one that occurs first. */
  lemma MostFrequentSpec(w: string)
    requires w != []
    ensures MostFrequent(w) in w
    ensures forall x :: Count(w, x) <= Count(w, MostFrequent(w))
    ensures forall m :: 0 <= m < |w| && Count(w, w[m]) == Count(w, MostFrequent(w)) ==> MostFrequent(w) in w[..m + 1]
  {
    var i := MaxByCount(w, 1, 0);
    MaxByCountIsFirstMax(w, 1, 0);
    forall x ensures Count(w, x) <= Count(w, w[i]) {
      if x in w {
        var m :| 0 <= m < |w| && w[m] == x;
      } else {
        CountAbsent(w, x);
      }
    }
    forall m | 0 <= m < |w| && Count(w, w[m]) == Count(w, w[i]) ensures w[i] in w[..m + 1] {
      assert w[..m + 1][i] == w[i];
    }
  }

  /** A window of identical characters shrinks to that character. */
  lemma MostFrequentUniform(x: char, n: nat)
    requires n > 0
    ensures MostFrequent(Repeat(x, n)) == x
  {
    var w := Repeat(x, n);
    MostFrequentSpec(w);
    var m :| 0 <= m < |w| && w[m] == MostFrequent(w);
    RepeatAt(x, n, m);
  }

  /** Every window is non-empty. */
  predicate NonEmpty(ws: seq<string>)
  {
    forall k :: 0 <= k < |ws| ==> ws[k] != []
  }

  /** The windows `vector[i : i + exp]` for `i in range(0, len(vector), exp)`,
      in order; the last one may be shorter. */
  function Windows(v: string, exp: int): (ws: seq<string>)
    requires exp > 0
    ensures NonEmpty(ws)
    decreases |v|
  {
    if v == [] then [] else [v[..Min(exp, |v|)]] + Windows(v[Min(exp, |v|)..], exp)
  }

  /** `find_most_bit` of each window, in order. */
  function Votes(ws: seq<string>): (r: string)
    requires NonEmpty(ws)
    ensures |r| == |ws|
  {
    if ws == [] then [] else [MostFrequent(ws[0])] + Votes(ws[1..])
  }

  /** The string `bit_vector_shrink(v, exp)` builds for a positive factor:
      one character per window, the window's most frequent one. */
  function Shrunk(v: string, exp: int): string
    requires exp > 0
  {
    Votes(Windows(v, exp))
  }

  /** `bit_vector_shrink`. `range(0, len, exp)` raises ValueError for a zero
      step and is empty for a negative one. */
  method Shrink(vector: string, exp: int) returns (r: Result<string>)
    ensures exp == 0 ==> r == Err(ValueError)
    ensures exp < 0 ==> r == Ok("")
    ensures exp > 0 ==> r == Ok(Shrunk(vector, exp))
  {
    if exp == 0 {
      return Err(ValueError);
    }
    if exp < 0 {
      return Ok("");
    }
    var s := "";
    var i := 0;
    WindowsFromIsWindows(vector, exp, 0);
    assert vector[0..] == vector;
    while i < |vector|
      invariant 0 <= i
      invariant Shrunk(vector, exp) == s + Votes(WindowsFrom(vector, exp, i))
    {
      ShrinkStep(vector, exp, i, s);
      s := s + [MostFrequent(Window(vector, exp, i))];
      i := i + exp;
    }
    assert s + Votes(WindowsFrom(vector, exp, i)) == s;
    return Ok(s);
  }

  /** The window `vector[a : a + exp]`; the last one may be shorter. */
  function Window(v: string, exp: int, a: nat): string
    requires exp > 0 && a <= |v|
  {
    v[a .. Min(a + exp, |v|)]
  }

  /** The windows the loop in `bit_vector_shrink` visits from index `i` on. */
  function WindowsFrom(v: string, exp: int, i: nat): (ws: seq<string>)
    requires exp > 0
    ensures NonEmpty(ws)
    decreases |v| - i
  {
    if i >= |v| then [] else [Window(v, exp, i)] + WindowsFrom(v, exp, i + exp)
  }

  /** Voting on a window in front of others puts its vote in front. */
  lemma VotesCons(w: string, ws: seq<string>)
    requires w != [] && NonEmpty(ws)
    ensures Votes([w] + ws) == [MostFrequent(w)] + Votes(ws)
  {
    assert ([w] + ws)[1..] == ws;
  }

  /** Vote `k` is the most frequent character of window `k`. */
  lemma {:induction false} VotesAt(ws: seq<string>, k: nat)
    requires NonEmpty(ws) && k < |ws|
    ensures Votes(ws)[k] == MostFrequent(ws[k])
  {
    if k > 0 {
      VotesAt(ws[1..], k - 1);
    }
  }

  /** One iteration of the loop in `bit_vector_shrink`, on the accumulator:
      the window at `i` yields the next character, the rest starts at `i + exp`. */
  lemma ShrinkStep(v: string, exp: int, i: nat, acc: string)
    requires exp > 0 && i < |v|
    ensures acc + Votes(WindowsFrom(v, exp, i))
         == (acc + [MostFrequent(Window(v, exp, i))]) + Votes(WindowsFrom(v, exp, i + exp))
  {
    VotesCons(Window(v, exp, i), WindowsFrom(v, exp, i + exp));
  }

  /** The loop visits the windows of the rest of the string `v[i:]`. */
  lemma {:induction false} WindowsFromIsWindows(v: string, exp: int, i: nat)
    requires exp > 0
    ensures WindowsFrom(v, exp, i) == Windows(v[Min(i, |v|)..], exp)
    decreases |v| - i
  {
    if i < |v| {
      WindowsFromIsWindows(v, exp, i + exp);
      WindowsStep(v, exp, i);
    } else {
      assert v[Min(i, |v|)..] == [];
    }
  }

  /** The first window of `v[i:]` is the window at `i`, and the rest follow `i + exp`. */
  lemma WindowsStep(v: string, exp: int, i: nat)
    requires exp > 0 && i < |v|
    ensures Windows(v[i..], exp) == [Window(v, exp, i)] + Windows(v[Min(i + exp, |v|)..], exp)
  {
    var rest := v[i..];
    var w := Min(exp, |rest|);
    assert rest[..w] == Window(v, exp, i);
    assert rest[w..] == v[Min(i + exp, |v|)..];
  }

  /** The shrunk string has one character per window: its length is
      `ceil(|v| / exp)`, stated without division. */
  lemma {:induction false} ShrunkLength(v: string, exp: int)
    requires exp > 0
    ensures var n := |Shrunk(v, exp)|; (n - 1) * exp < |v| <= n * exp
    decreases |v|
  {
    if v != [] {
      var w := Min(exp, |v|);
      ShrunkLength(v[w..], exp);
      var n := |Shrunk(v[w..], exp)|;
      assert |Windows(v, exp)| == |Windows(v[w..], exp)| + 1;
      MulSucc(n, exp);
      if |v| <= exp {
        assert n == 0;
      } else {
        assert w == exp;
        assert (n - 1) * exp < |v| - exp <= n * exp;
      }
    }
  }

  /** Where the `k`-th window of `range(0, len, exp)` starts, by repeated addition. */
  function WindowStart(k: nat, exp: nat): nat
  {
    if k == 0 then 0 else WindowStart(k - 1, exp) + exp
  }

  lemma {:induction false} WindowStartIsProduct(k: nat, exp: nat)
    ensures WindowStart(k, exp) == k * exp
  {
    if k > 0 {
      WindowStartIsProduct(k - 1, exp);
      MulSucc(k - 1, exp);
    }
  }

  /** Window `k` the loop visits from index `i` on starts `k` steps after `i`. */
  lemma {:induction false} WindowsFromAt(v: string, exp: int, i: nat, k: nat)
    requires exp > 0 && k < |WindowsFrom(v, exp, i)|
    ensures i + WindowStart(k, exp) < |v|
    ensures WindowsFrom(v, exp, i)[k] == Window(v, exp, i + WindowStart(k, exp))
    decreases k
  {
    assert i < |v|;
    if k > 0 {
      WindowsFromAt(v, exp, i + exp, k - 1);
      assert i + WindowStart(k, exp) == i + exp + WindowStart(k - 1, exp);
    }
  }

  /** Character `k` of the shrunk string is the most frequent character of
      the `k`-th window of `exp` characters (the last window may be shorter). */
  lemma ShrunkAt(v: string, exp: int, k: nat)
    requires exp > 0 && k < |Shrunk(v, exp)|
    ensures k * exp < |v|
    ensures Shrunk(v, exp)[k] == MostFrequent(v[k * exp .. Min(k * exp + exp, |v|)])
  {
    WindowsFromIsWindows(v, exp, 0);
    assert v[0..] == v;
    WindowsFromAt(v, exp, 0, k);
    WindowStartIsProduct(k, exp);
    VotesAt(Windows(v, exp), k);
  }

  /** The repetition code decodes what it encodes: for every factor >= 1,
      `bit_vector_shrink(bit_vector_expand(v, exp), exp) == v`. */
  lemma {:induction false} ShrinkExpand(v: string, exp: int)
    requires exp >= 1
    ensures Shrunk(Expanded(v, exp), exp) == v
  {
    var e := Expanded(v, exp);
    if v == [] {
      assert e == [];
    } else {
      var block, rest := Repeat(v[0], exp), Expanded(v[1..], exp);
      assert e == block + rest;
      assert e[..exp] == block;
      assert e[exp..] == rest;
      assert Windows(e, exp) == [block] + Windows(rest, exp);
      VotesCons(block, Windows(rest, exp));
      MostFrequentUniform(v[0], exp);
      ShrinkExpand(v[1..], exp);
      assert v == [v[0]] + v[1..];
    }
  }

  /** A factor of 1 makes shrink the identity too. */
  lemma {:induction false} ShrunkUnit(v: string)
    ensures Shrunk(v, 1) == v
  {
    if v != [] {
      assert v[..1] == [v[0]];
      assert Windows(v, 1) == [[v[0]]] + Windows(v[1..], 1);
      VotesCons([v[0]], Windows(v[1..], 1));
      assert MostFrequent([v[0]]) == v[0];
      ShrunkUnit(v[1..]);
      assert v == [v[0]] + v[1..];
    }
  }
}
