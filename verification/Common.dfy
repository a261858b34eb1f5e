/** Bytes, options, and the little arithmetic that several modules lean on. */
module Common {
  newtype byte = x: int | 0 <= x < 256

  const TWO_TO_THE_32: nat := 0x1_0000_0000
  const TWO_TO_THE_64: nat := 0x1_0000_0000_0000_0000

  /** A 64-bit number: a size, or an offset by its bits, a negative one being 2^64 more. */
  type uint64 = x: int | 0 <= x < TWO_TO_THE_64

  /** An object's bytes; how many there are is a 64-bit number. */
  type Buffer = b: seq<byte> | |b| < TWO_TO_THE_64

  datatype Option<+T> = None | Some(value: T)

  function Pow2(k: nat): (r: nat)
    ensures r >= 1
  {
    if k == 0 then 1 else 2 * Pow2(k - 1)
  }

  ghost predicate PowerOfTwo(n: nat) {
    exists k: nat :: n == Pow2(k)
  }

  // ----- Products -------------------------------------------------------------------------------

  lemma Distribute(a: int, b: int, c: int)
    ensures a * (b + c) == a * b + a * c
  {}

  lemma MulAssoc(a: int, b: int, c: int)
    ensures a * (b * c) == b * (a * c)
  {}

  lemma MulMono(w: nat, a: int, b: int)
    requires a <= b
    ensures w * a <= w * b
  {}

  lemma MulAssoc3(a: int, b: int, c: int)
    ensures a * (b * c) == (a * b) * c
  {}

  // ----- Quotients and remainders ---------------------------------------------------------------

  lemma ModUnique(x: int, n: int, q: int, r: int)
    requires n > 0 && x == n * q + r && 0 <= r < n
    ensures x % n == r && x / n == q
  {
    var q', r' := x / n, x % n;
    assert x == n * q' + r';
    if q > q' {
      MulMono(n, q' + 1, q);
      Distribute(n, q', 1);
    } else if q < q' {
      MulMono(n, q + 1, q');
      Distribute(n, q, 1);
    }
  }

  lemma ModShift(x: int, k: int, n: int)
    requires n > 0
    ensures (x + n * k) % n == x % n
  {
    Distribute(n, x / n, k);
    ModUnique(x + n * k, n, x / n + k, x % n);
  }

  lemma ModAdd(a: int, b: int, n: int)
    requires n > 0
    ensures (a % n + b) % n == (a + b) % n
  {
    ModShift(a % n + b, a / n, n);
  }

  lemma ModSub(a: int, b: int, n: int)
    requires n > 0
    ensures (a - b % n) % n == (a - b) % n
  {
    ModShift(a - b, b / n, n);
  }

  // ----- Whole units --------------------------------------------------------------------------------

  /** round_up, for direct I/O in whole units. */
  function RoundUp(value: nat, factor: nat): (r: nat)
    requires factor > 0
    ensures r >= value
  {
    MulAssoc((value + (factor - 1)) / factor, factor, 1);
    (value + (factor - 1)) / factor * factor
  }

  lemma Multiple(a: nat, b: nat, unit: nat)
    requires unit > 0 && b > 0 && b % unit == 0 && a % b == 0
    ensures a % unit == 0
  {
    var q, r := a / b, b / unit;
    assert a == q * b && b == unit * r;
    MulAssoc(q, unit, r);
    ModUnique(a, unit, q * r, 0);
  }

  lemma RoundUpExact(value: nat, unit: nat)
    requires unit > 0 && value % unit == 0
    ensures RoundUp(value, unit) == value
  {
    var q := value / unit;
    ModUnique(value + (unit - 1), unit, q, unit - 1);
  }

  lemma DifferenceOfMultiples(a: nat, b: nat, unit: nat)
    requires unit > 0 && a % unit == 0 && b % unit == 0 && a >= b
    ensures (a - b) % unit == 0
  {
    Distribute(unit, a / unit, -(b / unit));
    ModUnique(a - b, unit, a / unit - b / unit, 0);
  }

  lemma RoundUpBelow(value: nat, bound: nat, unit: nat)
    requires unit > 0 && value <= bound && bound % unit == 0
    ensures RoundUp(value, unit) <= bound
  {
    var q, b := (value + (unit - 1)) / unit, bound / unit;
    assert unit * q <= value + (unit - 1) < unit * b + unit;
    Distribute(unit, b, 1);
    if q > b { MulMono(unit, b + 1, q); } else { MulMono(unit, q, b); }
  }

  // ----- Sequences ----------------------------------------------------------------------------------

  lemma SlicesJoin<T>(s: seq<T>, i: nat, j: nat, k: nat)
    requires i <= j <= k <= |s|
    ensures s[i..j] + s[j..k] == s[i..k]
  {}

  lemma SliceOfSlice<T>(s: seq<T>, a: nat, b: nat, c: nat, d: nat)
    requires a <= b <= |s| && c <= d <= b - a
    ensures s[a..b][c..d] == s[a + c..a + d]
  {
    var inner, part, direct := s[a..b], s[a..b][c..d], s[a + c..a + d];
    forall i | 0 <= i < d - c
      ensures part[i] == direct[i]
    {
      assert part[i] == inner[c + i] == s[a + (c + i)];
    }
  }

  // ----- Finite sets ------------------------------------------------------------------------------

  ghost function Range(n: nat): (s: set<nat>)
    ensures |s| == n
    ensures forall i :: i in s <==> 0 <= i < n
  {
    if n == 0 then {} else Range(n - 1) + {n - 1}
  }

  lemma SubsetOfEqualSize<T>(a: set<T>, b: set<T>)
    requires a <= b && |a| >= |b|
    ensures a == b
  {
    assert |b - a| == |b| - |a|;
  }
}
