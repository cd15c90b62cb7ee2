/**
 * `shuffle_and_split`: permute the dataset in place, then cut it at
 * `int(ratio * len(dataset))`. The float ratio is the rational `num / den`.
 */
module Splitter {

  /** Quotient and remainder of a non-negative `x` by a positive `d`. */
  lemma DivBounds(x: int, d: int)
    requires 0 <= x && 0 < d
    ensures (x / d) * d <= x < (x / d) * d + d
  {
    assert x == d * (x / d) + x % d;
  }

  /** Dividing by `d` keeps `x` on the same side of a multiple `d * n`. */
  lemma DivCompare(x: int, d: int, n: nat)
    requires 0 <= x && 0 < d
    ensures x <= d * n ==> x / d <= n
    ensures d * n <= x ==> n <= x / d
  {
    var q := x / d;
    DivBounds(x, d);
    if n < q {
      MulMonotone(n + 1, q, d);
    }
    if q < n {
      MulMonotone(q + 1, n, d);
    }
  }

  /** Multiplying by a natural number keeps the order. */
  lemma {:induction false} MulMonotone(a: int, b: int, n: nat)
    requires a <= b
    ensures a * n <= b * n
  {
    if n > 0 {
      MulMonotone(a, b, n - 1);
      assert a * n == a * (n - 1) + a && b * n == b * (n - 1) + b;
    }
  }

  /** Python's `int(x)` on a quotient: truncation toward zero. */
  function TruncDiv(a: int, b: int): (q: int)
    requires b > 0
    ensures 0 <= a ==> q == a / b
    ensures a < 0 ==> q <= 0 && (q - 1) * b < a <= q * b
  {
    if a >= 0 then a / b else DivBounds(-a, b); -((-a) / b)
  }

  /**
   * The position that a slice bound `k` stands for in a list of length `n`:
   * a negative bound counts from the end, and both are clamped to the list.
   */
  function SliceBound(k: int, n: nat): (b: nat)
    ensures b <= n
    ensures 0 <= k <= n ==> b == k
    ensures n < k ==> b == n
    ensures k < 0 <= k + n ==> b == k + n
    ensures k + n < 0 ==> b == 0
  {
    if k < 0 then (if k + n < 0 then 0 else k + n)
    else if k > n then n
    else k
  }

  /** Where `int(num / den * n)` falls against `n`, for a non-negative ratio. */
  lemma ScaledCompare(num: int, den: int, n: nat)
    requires 0 <= num && 0 < den
    ensures 0 <= TruncDiv(num * n, den) == num * n / den
    ensures num <= den ==> TruncDiv(num * n, den) <= n
    ensures den <= num ==> n <= TruncDiv(num * n, den)
  {
    var x := num * n;
    assert 0 <= x;
    if num <= den { MulMonotone(num, den, n); } else { MulMonotone(den, num, n); }
    assert den * n == n * den;
    DivCompare(x, den, n);
  }

  /** For a negative ratio, `int()` is minus the floor of the magnitude, and it reaches `-n` from a ratio of -1 on. */
  lemma NegativeScaled(num: int, den: int, n: nat)
    requires num < 0 < den
    ensures TruncDiv(num * n, den) == -((-num) * n / den)
    ensures -den <= num ==> 0 <= TruncDiv(num * n, den) + n
    ensures num <= -den ==> TruncDiv(num * n, den) + n <= 0
  {
    var m := (-num) * n;
    assert num * n == -m;
    ScaledCompare(-num, den, n);
  }

  /** `split_index` as a position in a list of length `n`. */
  function SplitIndex(num: int, den: int, n: nat): (k: nat)
    requires den > 0
    ensures k <= n
    ensures 0 <= num <= den ==> k == num * n / den
    ensures den <= num ==> k == n
    ensures -den <= num < 0 ==> k == if (-num) * n / den == 0 then 0 else n - (-num) * n / den
    ensures num <= -den ==> k == 0
  {
    var k := TruncDiv(num * n, den);
    if 0 <= num then
      ScaledCompare(num, den, n);
      SliceBound(k, n)
    else
      NegativeScaled(num, den, n);
      SliceBound(k, n)
  }

  /**
   * `(dataset[:split_index], dataset[split_index:])`: the two slices
   * partition the list, whatever the ratio.
   */
  function Split<T>(s: seq<T>, num: int, den: int): (r: (seq<T>, seq<T>))
    requires den > 0
    ensures r.0 + r.1 == s
    ensures multiset(r.0) + multiset(r.1) == multiset(s)
    ensures 0 <= num <= den ==> |r.0| == num * |s| / den
    ensures -den <= num < 0 ==>
      |r.0| == if (-num) * |s| / den == 0 then 0 else |s| - (-num) * |s| / den
  {
    var k := SplitIndex(num, den, |s|);
    assert s[..k] + s[k..] == s;
    (s[..k], s[k..])
  }

  /** A ratio of 0 sends everything to the test set, a ratio of 1 or more everything to the training set. */
  lemma SplitExtremes<T>(s: seq<T>, num: int, den: int)
    requires den > 0
    ensures Split(s, 0, den) == ([], s)
    ensures den <= num ==> Split(s, num, den) == (s, [])
  {
    assert s[..0] == [] && s[..|s|] == s && s[|s|..] == [];
  }

  /** The training set is the leading fraction `num / den` of the list, rounded down. */
  lemma SplitSizes<T>(s: seq<T>, num: int, den: int)
    requires 0 <= num <= den
    requires den > 0
    ensures |Split(s, num, den).0| * den <= num * |s| < (|Split(s, num, den).0| + 1) * den
    ensures |Split(s, num, den).1| == |s| - |Split(s, num, den).0|
  {
    DivBounds(num * |s|, den);
  }

  /**
   * `random.shuffle`: for each position from the last down to the second,
   * swap it with a position chosen at or below it. The choice is left open,
   * so the model covers every run of the generator.
   */
  method Shuffle<T>(a: array<T>)
    modifies a
    ensures multiset(a[..]) == old(multiset(a[..]))
  {
    var i := a.Length;
    while i > 1
      invariant 0 <= i <= a.Length
      invariant multiset(a[..]) == old(multiset(a[..]))
    {
      var j :| 0 <= j < i;
      a[i - 1], a[j] := a[j], a[i - 1];
      i := i - 1;
    }
  }

  /** `shuffle_and_split`: the caller's list is permuted in place, then split. */
  method ShuffleAndSplit<T>(dataset: array<T>, num: int, den: int) returns (train: seq<T>, test: seq<T>)
    requires den > 0
    modifies dataset
    ensures multiset(dataset[..]) == old(multiset(dataset[..]))
    ensures train + test == dataset[..]
    ensures multiset(train) + multiset(test) == old(multiset(dataset[..]))
    ensures 0 <= num <= den ==> |train| == num * dataset.Length / den
  {
    Shuffle(dataset);
    var splitIndex := SplitIndex(num, den, dataset.Length);
    train := dataset[..splitIndex];
    test := dataset[splitIndex..];
    assert (train, test) == Split(dataset[..], num, den);
  }
}
