/** Python's runtime behaviour that the codec relies on: the exceptions it can
    raise, floored `%`, negative list indices, `list.insert`, and the
    subsequence relation used to say that padding only inserts and depadding
    only deletes. */
module Common {

  /** The Python exceptions the modelled code can raise. */
  datatype Error = ValueError | IndexError | ZeroDivisionError

  /** A computation that either returns a value or raises. */
  datatype Result<T> = Ok(value: T) | Err(error: Error)

  datatype Option<T> = None | Some(value: T)

  function Min(a: int, b: int): int { if a <= b then a else b }

  function Max(a: int, b: int): int { if a >= b then a else b }

  /** `n` copies of `x`. */
  function Repeat<T>(x: T, n: nat): (r: seq<T>)
    ensures |r| == n
  {
    if n == 0 then [] else [x] + Repeat(x, n - 1)
  }

  /** Every element of `Repeat(x, n)` is `x`. */
  lemma {:induction false} RepeatAt<T>(x: T, n: nat, k: nat)
    requires k < n
    ensures Repeat(x, n)[k] == x
  {
    if k > 0 {
      RepeatAt(x, n - 1, k - 1);
    }
  }

  lemma {:induction false} RepeatSnoc<T>(x: T, n: nat)
    ensures Repeat(x, n + 1) == Repeat(x, n) + [x]
  {
    if n > 0 {
      RepeatSnoc(x, n - 1);
    }
  }

  /** A slice past the head of a concatenation is a slice of its tail. */
  lemma SliceOfConcat<T>(h: seq<T>, t: seq<T>, a: nat, b: nat)
    requires a <= b <= |t|
    ensures (h + t)[|h| + a .. |h| + b] == t[a..b]
  {
    assert forall m :: 0 <= m < b - a ==> (h + t)[|h| + a .. |h| + b][m] == t[a..b][m];
  }

  /** Python's `a % b`: the result has the sign of `b`. Dafny's `%` is
      Euclidean, so the two differ when `b < 0`. */
  function PyMod(a: int, b: int): (r: int)
    requires b != 0
    ensures b > 0 ==> 0 <= r < b
    ensures b < 0 ==> b < r <= 0
    ensures r == 0 <==> a % b == 0
    ensures r % b == a % b
  {
    if b > 0 || a % b == 0 then a % b
    else
      ModShift(a % b, b);
      a % b + b
  }

  /** Below `|b|`, a number is its own remainder, and so is it once `b` is
      added to it when `b` is negative: both sides of a floored `%`'s
      adjustment are congruent modulo `b`. */
  lemma ModShift(x: int, b: int)
    requires 0 <= x < if b < 0 then -b else b
    ensures x % b == x
    ensures b < 0 ==> (x + b) % b == x
  {
    if b < 0 {
      var y := x + b;
      var q, m := y / b, y % b;
      assert y == q * b + m && 0 <= m < -b;
      assert q == 1;
    }
  }

  /** The position that Python's `xs[i]` reads in a list of length `n`,
      or None where Python raises IndexError. */
  function PyIndex(i: int, n: nat): (r: Option<nat>)
    ensures r.Some? <==> 0 <= i + n && i < n
    ensures r.Some? ==> r.value < n && (r.value - i) % n == 0
    ensures 0 <= i < n ==> r == Some(i)
  {
    if 0 <= i < n then Some(i) else if 0 <= i + n && i < 0 then Some(i + n) else None
  }

  /** The position where Python's `xs.insert(i, x)` puts `x` in a list of
      length `n`: negative `i` counts from the end, and both ends clamp. */
  function InsertPos(i: int, n: nat): (p: nat)
    ensures p <= n
    ensures i < 0 && 0 <= i + n ==> p == n + i
    ensures 0 <= i <= n ==> p == i
    ensures i + n < 0 ==> p == 0
    ensures i > n ==> p == n
  {
    if i < 0 then (if i + n < 0 then 0 else i + n) else if i > n then n else i
  }

  /** `xs.insert(i, x)`. */
  function PyInsert<T>(s: seq<T>, i: int, x: T): (r: seq<T>)
    ensures |r| == |s| + 1
    ensures var p := InsertPos(i, |s|); r[p] == x && r[..p] == s[..p] && r[p + 1..] == s[p..]
  {
    var p := InsertPos(i, |s|);
    s[..p] + [x] + s[p..]
  }

  /** `a` is obtained from `b` by deleting elements. */
  predicate IsSubsequence<T(==)>(a: seq<T>, b: seq<T>)
    decreases |b|
  {
    a == [] || (b != [] && ((a[0] == b[0] && IsSubsequence(a[1..], b[1..])) || IsSubsequence(a, b[1..])))
  }

  lemma {:induction false} SubsequenceRefl<T>(a: seq<T>)
    ensures IsSubsequence(a, a)
  {
    if a != [] {
      SubsequenceRefl(a[1..]);
    }
  }

  lemma {:induction false} SubsequenceTrans<T>(a: seq<T>, b: seq<T>, c: seq<T>)
    requires IsSubsequence(a, b) && IsSubsequence(b, c)
    ensures IsSubsequence(a, c)
    decreases |c|
  {
    if a == [] {
    } else if IsSubsequence(b, c[1..]) {
      SubsequenceTrans(a, b, c[1..]);
    } else if a[0] == b[0] && IsSubsequence(a[1..], b[1..]) {
      SubsequenceTrans(a[1..], b[1..], c[1..]);
    } else {
      SubsequenceTrans(a, b[1..], c[1..]);
    }
  }

  /** Inserting a block anywhere keeps the original as a subsequence. */
  lemma {:induction false} SubsequenceOfInsert<T>(s: seq<T>, p: nat, t: seq<T>)
    requires p <= |s|
    ensures IsSubsequence(s, s[..p] + t + s[p..])
    decreases p, |t|
  {
    var r := s[..p] + t + s[p..];
    if p == 0 {
      if t == [] {
        assert r == s;
        SubsequenceRefl(s);
      } else {
        SubsequenceOfInsert(s, 0, t[1..]);
        assert r[1..] == s[..0] + t[1..] + s[0..];
      }
    } else {
      SubsequenceOfInsert(s[1..], p - 1, t);
      assert r[0] == s[0];
      assert r[1..] == s[1..][..p - 1] + t + s[1..][p - 1..];
    }
  }

  /** Deleting one element leaves a subsequence. */
  lemma SubsequenceOfDelete<T>(s: seq<T>, p: nat)
    requires p < |s|
    ensures IsSubsequence(s[..p] + s[p + 1..], s)
  {
    var d := s[..p] + s[p + 1..];
    assert d[..p] == s[..p];
    assert d[p..] == s[p + 1..];
    assert s == s[..p] + [s[p]] + s[p + 1..];
    SubsequenceOfInsert(d, p, [s[p]]);
  }
}
