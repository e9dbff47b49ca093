/** Small shared vocabulary: optional values, results carrying an error,
    and counting over sequences. */
module Common {

  datatype Option<+T> = None | Some(value: T)

  datatype Result<+T, +E> = Success(value: T) | Failure(error: E)

  function Min(a: int, b: int): int { if a <= b then a else b }

  /** Number of `true` entries; Python's `sum(list_of_bools)`. */
  function CountTrue(s: seq<bool>): nat
  {
    if s == [] then 0 else CountTrue(s[..|s| - 1]) + (if s[|s| - 1] then 1 else 0)
  }

  /** Number of entries that are not `None`. */
  function CountSome<T>(s: seq<Option<T>>): nat
  {
    if s == [] then 0 else CountSome(s[..|s| - 1]) + (if s[|s| - 1].Some? then 1 else 0)
  }

  /** Number of entries that are `None`. */
  function CountNone<T>(s: seq<Option<T>>): nat
  {
    if s == [] then 0 else CountNone(s[..|s| - 1]) + (if s[|s| - 1].None? then 1 else 0)
  }

  /** Number of entries equal to `x`; `(t == x).sum()` on a tensor. */
  function CountEq(s: seq<int>, x: int): nat
  {
    if s == [] then 0 else CountEq(s[..|s| - 1], x) + (if s[|s| - 1] == x then 1 else 0)
  }

  function Sum(s: seq<nat>): nat
  {
    if s == [] then 0 else Sum(s[..|s| - 1]) + s[|s| - 1]
  }

  lemma {:induction false} CountTrueBound(s: seq<bool>)
    ensures CountTrue(s) <= |s|
  {
    if s != [] { CountTrueBound(s[..|s| - 1]); }
  }

  lemma {:induction false} CountTrueAppend(s: seq<bool>, b: bool)
    ensures CountTrue(s + [b]) == CountTrue(s) + (if b then 1 else 0)
  {
    assert (s + [b])[..|s|] == s;
  }

  lemma {:induction false} CountNoneAppend<T>(s: seq<Option<T>>, x: Option<T>)
    ensures CountNone(s + [x]) == CountNone(s) + (if x.None? then 1 else 0)
  {
    assert (s + [x])[..|s|] == s;
  }

  lemma {:induction false} CountSomeAppend<T>(s: seq<Option<T>>, x: Option<T>)
    ensures CountSome(s + [x]) == CountSome(s) + (if x.Some? then 1 else 0)
  {
    assert (s + [x])[..|s|] == s;
  }

  lemma {:induction false} CountTrueAllTrue(n: nat)
    ensures CountTrue(seq(n, _ => true)) == n
  {
    if n > 0 {
      assert seq(n, _ => true)[..n - 1] == seq(n - 1, _ => true);
      CountTrueAllTrue(n - 1);
    }
  }

  lemma {:induction false} MulMonotone(a: int, b: int, w: nat)
    requires a <= b
    ensures a * w <= b * w
  {
  }

  /** Euclidean division is unique: `q*w + m` with `0 <= m < w` has
      quotient `q` and remainder `m`. */
  lemma {:induction false} DivModUnique(i: int, w: nat, q: int, m: int)
    requires w > 0 && 0 <= m < w && i == q * w + m
    ensures q == i / w && m == i % w
  {
    var q', m' := i / w, i % w;
    assert i == q' * w + m';
    assert (q + 1) * w == q * w + w && (q' + 1) * w == q' * w + w;
    if q < q' {
      MulMonotone(q + 1, q', w);
    } else if q' < q {
      MulMonotone(q' + 1, q, w);
    }
  }
}
