/** `updateProgress(current, total)` in FTPClientGUI.java: the bar value
    `(int) ((current * 100) / total)` computed in Java `long` arithmetic,
    and the percentage it is meant to be. */
module ProgressBar {
  import opened Wire

  const INT_MIN: int := -0x8000_0000
  const INT_MAX: int := 0x7FFF_FFFF
  const TWO_32: int := 0x1_0000_0000

  /** One call of `updateProgress`: `current` of `total` bytes moved. */
  datatype Tick = Tick(current: int, total: int)

  /** The `long` that Java's 64-bit two's complement arithmetic keeps of x. */
  function WrapLong(x: int): (r: int)
    ensures IsLong(r)
    ensures (x - r) % TWO_64 == 0
    ensures IsLong(x) ==> r == x
  {
    var m := x % TWO_64;
    if m > LONG_MAX then m - TWO_64 else m
  }

  /** The `int` that a `(int)` cast keeps of x: its low 32 bits. */
  function WrapInt(x: int): (r: int)
    ensures INT_MIN <= r <= INT_MAX
    ensures (x - r) % TWO_32 == 0
    ensures INT_MIN <= x <= INT_MAX ==> r == x
  {
    var m := x % TWO_32;
    if m > INT_MAX then m - TWO_32 else m
  }

  /** Java's integer division, which rounds toward zero (Dafny's `/` is
      Euclidean). */
  function JavaDiv(a: int, b: int): (q: int)
    requires b != 0
    ensures a >= 0 && b > 0 ==> q == a / b
    ensures b > 0 && a >= 0 ==> 0 <= q * b <= a < q * b + b
    ensures b > 0 && a < 0 ==> q * b - b < a <= q * b <= 0
  {
    var mag := (if a < 0 then -a else a) / (if b < 0 then -b else b);
    if b > 0 then DivBounds(if a < 0 then -a else a, b); (if a < 0 then -mag else mag)
    else if (a < 0) == (b < 0) then mag else -mag
  }

  lemma DivBounds(a: nat, b: int)
    requires b > 0
    ensures 0 <= a / b * b <= a < a / b * b + b
  {
  }

  /** The bar value as FTPClientGUI.java computes it: the product wraps in
      64 bits before the division, and the quotient is cut to an `int`. */
  function BarValue(t: Tick): (v: int)
    requires IsLong(t.current) && IsLong(t.total) && t.total != 0
    ensures INT_MIN <= v <= INT_MAX
  {
    WrapInt(WrapLong(JavaDiv(WrapLong(t.current * 100), t.total)))
  }

  /** The percentage the bar is meant to show. */
  function Percent(t: Tick): (p: int)
    requires 0 <= t.current <= t.total && t.total > 0
    ensures 0 <= p <= 100
    ensures p == 100 <==> t.current == t.total
    ensures p * t.total <= t.current * 100 < (p + 1) * t.total
  {
    PercentBounds(t.current, t.total);
    t.current * 100 / t.total
  }

  lemma PercentBounds(c: int, t: int)
    requires 0 <= c <= t && t > 0
    ensures 0 <= c * 100 / t <= 100
    ensures c * 100 / t == 100 <==> c == t
  {
    var q := c * 100 / t;
    DivBounds(c * 100, t);
    Scaled(q, 100, t);
    Scaled(q, -1, t);
    Scaled(q, 99, t);
  }

  /** The sign of (q - e) * t, for positive t, is the sign of q - e. */
  lemma Scaled(q: int, e: int, t: int)
    requires t > 0
    ensures (q - e) * t == q * t - e * t
    ensures (q - e) * t < 0 <==> q < e
    ensures (q - e) * t <= 0 <==> q <= e
  {
  }

  /** While the product fits in a `long`, the bar shows exactly the
      intended percentage. */
  lemma BarValueWithoutOverflow(t: Tick)
    requires 0 <= t.current <= t.total <= LONG_MAX && t.total > 0
    requires t.current * 100 <= LONG_MAX
    ensures BarValue(t) == Percent(t)
  {
  }

  /** A file of 2^62 bytes, complete: `current * 100` wraps to 0 and the bar
      shows 0 instead of 100. */
  lemma BarValueOverflows()
    ensures var t := Tick(0x4000_0000_0000_0000, 0x4000_0000_0000_0000);
      IsLong(t.current) && BarValue(t) == 0 && Percent(t) == 100
  {
    var t := Tick(0x4000_0000_0000_0000, 0x4000_0000_0000_0000);
    assert t.current * 100 == 25 * TWO_64;
    assert WrapLong(t.current * 100) == 0;
  }

  /** The ticks of one chunk loop over `total` bytes that moved `last`
      bytes in all: every tick reports `total`, the counts rise strictly
      (each read moved at least one byte), the last tick reports `last`,
      and there is no tick at all iff nothing moved. */
  predicate Climb(ticks: seq<Tick>, total: int, last: int) {
    (forall i :: 0 <= i < |ticks| ==> ticks[i].total == total && ticks[i].current > 0) &&
    (forall i, j :: 0 <= i < j < |ticks| ==> ticks[i].current < ticks[j].current) &&
    (ticks == [] <==> last == 0) &&
    (ticks != [] ==> ticks[|ticks| - 1].current == last)
  }

  /** One more chunk of n > 0 bytes keeps a climb a climb. */
  lemma ClimbStep(ticks: seq<Tick>, ticks': seq<Tick>, total: int, last: int, next: int)
    requires Climb(ticks, total, last) && 0 <= last < next
    requires ticks' == ticks + [Tick(next, total)]
    ensures Climb(ticks', total, next)
  {
    forall i, j | 0 <= i < j < |ticks'|
      ensures ticks'[i].current < ticks'[j].current
    {
      if j == |ticks| && i < |ticks| {
        assert ticks[i].current <= ticks[|ticks| - 1].current;
      }
    }
  }

  /** Every tick of a climb that ends at its total shows a percentage in
      0..100, and the last one shows 100. */
  lemma ClimbPercents(ticks: seq<Tick>, total: int)
    requires Climb(ticks, total, total) && total > 0
    ensures forall i :: 0 <= i < |ticks| ==> 0 < ticks[i].current <= total
    ensures forall i :: 0 <= i < |ticks| ==> 0 <= Percent(ticks[i]) <= 100
    ensures Percent(ticks[|ticks| - 1]) == 100
  {
    forall i | 0 <= i < |ticks|
      ensures 0 < ticks[i].current <= total
    {
      if i < |ticks| - 1 {
        assert ticks[i].current < ticks[|ticks| - 1].current;
      }
    }
  }
}
