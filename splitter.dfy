/** The train/dev split of the converter's main block: the ratio is checked
    first, the corpus is parsed and shuffled, and the shuffled sentences are cut
    into a training prefix and a development suffix. */
module Splitter {
  import opened Conllu
  import Parser

  type Positive = n: int | n > 0 witness 1

  /** The dev ratio, written as the exact fraction `num / den`. */
  datatype Ratio = Ratio(num: int, den: Positive)

  predicate InUnitInterval(r: Ratio) {
    0 <= r.num <= r.den
  }

  /** `int((1 - r) * n)`: since the product is never negative, truncation is the
      floor (see `TrainCountIsFloor`). */
  function TrainCount(n: nat, r: Ratio): (k: nat)
    requires InUnitInterval(r)
    ensures k <= n
  {
    ShareAtMost(r.den - r.num, r.den, n);
    ((r.den - r.num) * n) / r.den
  }

  /** The training count is the largest `k` with `k <= (1 - r) * n`. */
  lemma TrainCountIsFloor(n: nat, r: Ratio)
    requires InUnitInterval(r)
    ensures TrainCount(n, r) * r.den <= (r.den - r.num) * n < (TrainCount(n, r) + 1) * r.den
  {
    FloorShare(r.den - r.num, r.den, n);
  }

  lemma ShareAtMost(a: nat, d: Positive, n: nat)
    requires a <= d
    ensures 0 <= (a * n) / d <= n
  {
    var x: nat := a * n;
    FloorShare(a, d, n);
    DivNonnegative(x, d);
  }

  lemma DivNonnegative(x: nat, d: Positive)
    ensures x / d >= 0
  {
  }

  /** The floor of `a * n / d` for a share `a / d` of at most one. */
  lemma FloorShare(a: nat, d: Positive, n: nat)
    requires a <= d
    ensures (a * n) / d <= n
    ensures (a * n) / d * d <= a * n < ((a * n) / d + 1) * d
  {
    MulMono(a, d, n);
    DivBounds(a * n, d);
    DivAtMost(a * n, d, n);
  }

  lemma DivBounds(x: nat, d: Positive)
    ensures (x / d) * d <= x < (x / d + 1) * d
  {
    assert x == (x / d) * d + x % d;
  }

  lemma DivAtMost(x: nat, d: Positive, n: nat)
    requires x <= d * n
    ensures x / d <= n
  {
    DivBounds(x, d);
    assert (n + 1) * d == n * d + d;
    CancelPositive(x / d, n + 1, d);
  }

  /** The split: a ratio outside [0, 1] is rejected; otherwise the first
      `TrainCount` sentences are for training and the rest for development. */
  function Split<T>(s: seq<T>, r: Ratio): (res: Result<(seq<T>, seq<T>)>)
    ensures res.Err? <==> !InUnitInterval(r)
    ensures res.Err? ==> res.error == InvalidRatio
    ensures res.Ok? ==> res.value.0 + res.value.1 == s
    ensures res.Ok? ==> |res.value.0| == TrainCount(|s|, r)
    ensures res.Ok? ==> multiset(res.value.0) + multiset(res.value.1) == multiset(s)
  {
    if !InUnitInterval(r) then Err(InvalidRatio)
    else
      var k := TrainCount(|s|, r);
      assert s[..k] + s[k..] == s;
      Ok((s[..k], s[k..]))
  }

  /** The development part holds `ceil(r * n)` sentences: the smallest count whose
      share of the corpus is at least the ratio. */
  lemma DevCountIsCeiling(n: nat, r: Ratio)
    requires InUnitInterval(r)
    ensures r.num * n <= (n - TrainCount(n, r)) * r.den < r.num * n + r.den
  {
    var k := TrainCount(n, r);
    TrainCountIsFloor(n, r);
    assert (n - k) * r.den == n * r.den - k * r.den;
    assert (r.den - r.num) * n == r.den * n - r.num * n;
  }

  /** A ratio of 0 sends every sentence to training, a ratio of 1 every sentence
      to development. */
  lemma SplitExtremes<T>(s: seq<T>, r: Ratio)
    requires InUnitInterval(r)
    ensures r.num == 0 ==> Split(s, r) == Ok((s, []))
    ensures r.num == r.den ==> Split(s, r) == Ok(([], s))
  {
    if r.num == 0 {
      assert (r.den - r.num) * |s| == r.den * |s|;
      MulDivCancel(|s|, r.den);
      assert s[..|s|] == s;
    }
    if r.num == r.den {
      assert (r.den - r.num) * |s| == 0;
    }
  }

  lemma MulDivCancel(n: nat, d: Positive)
    ensures (d * n) / d == n
  {
    var q := (d * n) / d;
    DivBounds(d * n, d);
    CancelAtMost(q, n, d);
    CancelPositive(n, q + 1, d);
  }

  /** A larger dev ratio never leaves more sentences for training. */
  lemma TrainCountMonotone(n: nat, r1: Ratio, r2: Ratio)
    requires InUnitInterval(r1) && InUnitInterval(r2)
    requires r1.num * r2.den <= r2.num * r1.den
    ensures TrainCount(n, r2) <= TrainCount(n, r1)
  {
    var d1, d2 := r1.den, r2.den;
    var a1, a2 := d1 - r1.num, d2 - r2.num;
    var k1, k2 := TrainCount(n, r1), TrainCount(n, r2);
    // 1 - r2 <= 1 - r1, so k2 * d1 <= (1 - r2) * n * d1 <= (1 - r1) * n * d1 < (k1 + 1) * d1.
    assert a2 * d1 <= a1 * d2 by {
      assert a2 * d1 == d2 * d1 - r2.num * d1;
      assert a1 * d2 == d1 * d2 - r1.num * d2;
    }
    assert k2 * d2 * d1 <= a1 * n * d2 by {
      TrainCountIsFloor(n, r2);
      MulMono(k2 * d2, a2 * n, d1);
      MulMono(a2 * d1, a1 * d2, n);
      Swap(a2, n, d1);
      Swap(a1, d2, n);
    }
    assert k2 * d1 <= a1 * n by {
      Swap(k2, d2, d1);
      CancelAtMost(k2 * d1, a1 * n, d2);
    }
    TrainCountIsFloor(n, r1);
    CancelPositive(k2, k1 + 1, d1);
  }

  lemma MulMono(a: int, b: int, n: nat)
    requires a <= b
    ensures a * n <= b * n
  {
  }

  lemma Swap(a: int, b: int, c: int)
    ensures a * b * c == a * c * b
  {
  }

  lemma CancelAtMost(a: int, b: int, c: Positive)
    requires a * c <= b * c
    ensures a <= b
  {
  }

  lemma CancelPositive(a: int, b: int, c: int)
    requires c > 0 && a * c < b * c
    ensures a < b
  {
  }

  /** The converter's main block, without its I/O: check the ratio before
      anything else, parse the corpus, shuffle it (the shuffle is a parameter)
      and split it. */
  function Convert(lines: seq<string>, r: Ratio, shuffle: seq<Sentence> -> seq<Sentence>)
    : (res: Result<(seq<Sentence>, seq<Sentence>)>)
    ensures !InUnitInterval(r) ==> res == Err(InvalidRatio)
    ensures InUnitInterval(r) && Parser.Parse(lines).Err? ==> res == Err(Parser.Parse(lines).error)
    ensures InUnitInterval(r) && Parser.Parse(lines).Ok? ==>
      res.Ok? && res.value.0 + res.value.1 == shuffle(Parser.Parse(lines).value)
  {
    if !InUnitInterval(r) then Err(InvalidRatio)
    else
      match Parser.Parse(lines)
      case Err(e) => Err(e)
      case Ok(sentences) => Split(shuffle(sentences), r)
  }

  /** When the shuffle only reorders, training and development together hold
      every parsed sentence exactly once, and training holds `int((1 - r) * n)`
      of the `n` sentences. */
  lemma ConvertPartitions(lines: seq<string>, r: Ratio, shuffle: seq<Sentence> -> seq<Sentence>)
    requires forall s :: multiset(shuffle(s)) == multiset(s)
    requires Convert(lines, r, shuffle).Ok?
    ensures Parser.Parse(lines).Ok?
    ensures var (train, dev) := Convert(lines, r, shuffle).value;
      var sentences := Parser.Parse(lines).value;
      && multiset(train) + multiset(dev) == multiset(sentences)
      && |train| + |dev| == |sentences|
      && |train| == TrainCount(|sentences|, r)
  {
    var sentences := Parser.Parse(lines).value;
    assert |multiset(shuffle(sentences))| == |multiset(sentences)|;
  }
}
