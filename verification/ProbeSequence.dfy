/** The quadratic probe sequence of the open-addressing table (phmap's probe_seq).

    A table of capacity 2^m - 1 has a ring of 2^m control bytes, the last of them the sentinel.
    Groups of `w` bytes are probed at offsets start, start + w, start + 3w, start + 6w, ... taken
    around the ring.  The main result is that the ring's groups are each visited exactly once
    in as many probes as there are groups, so that a probe loop reaches every byte. */
module ProbeSequence {
  import opened Common


  /** The i-th triangular number: 0, 1, 3, 6, 10, ... */
  function Tri(i: nat): nat {
    if i == 0 then 0 else Tri(i - 1) + i
  }

  lemma {:induction false} TriTwice(i: nat)
    ensures 2 * Tri(i) == i * (i + 1)
  {
    if i > 0 { TriTwice(i - 1); }
  }

  /** An odd factor of a multiple of 2^k leaves the 2^k in the other factor. */
  lemma {:induction false} OddFactor(k: nat, a: int, b: int, q: int) returns (d: int)
    requires a % 2 == 1
    requires a * b == q * Pow2(k)
    ensures b == d * Pow2(k)
  {
    if k == 0 {
      d := b;
    } else {
      var h := Pow2(k - 1);
      assert q * (2 * h) == 2 * (q * h) by { MulAssoc(q, 2, h); }
      var x, c, y := a / 2, b / 2, b % 2;
      assert a * b == 2 * (a * c) + a * y by { assert b == 2 * c + y; Distribute(a, 2 * c, y); MulAssoc(a, 2, c); }
      assert a * y == if y == 0 then 0 else a;
      assert y == 0;
      d := OddFactor(k - 1, a, c, q);
      MulAssoc(d, 2, h);
    }
  }

  /** Triangular numbers below index 2^k are pairwise different modulo 2^k. */
  lemma TriInjective(k: nat, i: nat, j: nat)
    requires i < j < Pow2(k)
    ensures Tri(i) % Pow2(k) != Tri(j) % Pow2(k)
  {
    if Tri(i) % Pow2(k) == Tri(j) % Pow2(k) {
      var q := EqualResidues(Tri(j), Tri(i), Pow2(k));
      TriDifference(i, j);
      NoCollision(k, j - i, j + i + 1, q);
    }
  }

  lemma TriDifference(i: nat, j: nat)
    ensures (j - i) * (j + i + 1) == 2 * (Tri(j) - Tri(i))
  {
    TriTwice(i);
    TriTwice(j);
  }

  lemma NoCollision(k: nat, a: int, b: int, q: int)
    requires 0 < a < Pow2(k + 1) && 0 < b < Pow2(k + 1) && (a + b) % 2 == 1
    ensures a * b != 2 * (q * Pow2(k))
  {
    MulAssoc(q, 2, Pow2(k));
    if a % 2 == 1 {
      OddTimesSmall(k + 1, a, b, q);
    } else {
      OddTimesSmall(k + 1, b, a, q);
      MulAssoc(a, b, 1);
    }
  }

  lemma OddTimesSmall(k: nat, a: int, b: int, q: int)
    requires a % 2 == 1 && 0 < b < Pow2(k)
    ensures a * b != q * Pow2(k)
  {
    if a * b == q * Pow2(k) {
      var d := OddFactor(k, a, b, q);
      NoSmallMultiple(d, Pow2(k), b);
    }
  }

  lemma EqualResidues(x: int, y: int, n: int) returns (q: int)
    requires n > 0 && x % n == y % n
    ensures x - y == q * n
  {
    q := x / n - y / n;
    Distribute(n, x / n, -(y / n));
  }

  lemma NoSmallMultiple(d: int, n: nat, b: int)
    requires 0 < b < n
    ensures b != d * n
  {
    if d >= 1 { MulMono(n, 1, d); } else { MulMono(n, d, 0); }
  }

  /** Residues hit by the first n triangular numbers. */
  ghost function Residues(k: nat, n: nat): set<nat> {
    set i: nat | i < n :: Tri(i) % Pow2(k)
  }

  lemma {:induction false} ResidueCount(k: nat, n: nat)
    requires n <= Pow2(k)
    ensures |Residues(k, n)| == n
  {
    if n > 0 {
      ResidueCount(k, n - 1);
      var last := Tri(n - 1) % Pow2(k);
      assert last !in Residues(k, n - 1) by {
        if last in Residues(k, n - 1) {
          var i: nat :| i < n - 1 && Tri(i) % Pow2(k) == last;
          TriInjective(k, i, n - 1);
        }
      }
      assert Residues(k, n) == Residues(k, n - 1) + {last};
    }
  }

  /** Every residue modulo 2^k is a triangular number of index below 2^k. */
  lemma TriSurjective(k: nat, q: nat) returns (i: nat)
    requires q < Pow2(k)
    ensures i < Pow2(k) && Tri(i) % Pow2(k) == q
  {
    var n := Pow2(k);
    ResidueCount(k, n);
    SubsetOfEqualSize(Residues(k, n), Range(n));
    assert q in Residues(k, n);
    i :| i < n && Tri(i) % n == q;
  }

  // ----- Geometry of the ring ---------------------------------------------------------------

  /** Width of a group, number of groups (a power of two), and the length of the ring they tile. */
  datatype Geometry = Geometry(w: nat, g: nat, n: nat) {
    ghost predicate Valid() {
      && (w == 8 || w == 16)
      && n == w * g
      && n >= w
      && exists k :: g == Pow2(k)
    }

    /** The next larger ring: capacity * 2 + 1. */
    function Double(): Geometry {
      Geometry(w, 2 * g, 2 * n)
    }

    lemma DoubleValid()
      requires Valid()
      ensures Double().Valid()
    {
      var k: nat :| g == Pow2(k);
      assert 2 * g == Pow2(k + 1);
      MulAssoc(2, w, g);
    }

    /** The offset of the i-th group probed from `start`. */
    function Probe(start: nat, i: nat): (off: nat)
      requires Valid()
      ensures off < n
    {
      (start + w * Tri(i)) % n
    }

    /** Ring position p lies in the group that begins at off. */
    predicate InWindow(p: nat, off: nat)
      requires Valid()
    {
      (p - off) % n < w
    }

    /** Which of the ring's groups, counted from start, holds p: phmap's probe_index lambda. */
    function GroupOf(start: nat, p: nat): nat
      requires Valid()
    {
      (p - start) % n / w
    }

    /** The i-th probe window holds p exactly when the i-th triangular number names p's group. */
    lemma WindowIsGroup(start: nat, p: nat, i: nat)
      requires Valid()
      ensures InWindow(p, Probe(start, i)) <==> Tri(i) % g == GroupOf(start, p)
    {
      WindowArithmetic(w, g, n, start, p, Tri(i));
    }

    /** Distinct probes below the number of groups see disjoint windows. */
    lemma WindowUnique(start: nat, p: nat, i: nat, j: nat)
      requires Valid()
      requires i < g && j < g
      requires InWindow(p, Probe(start, i)) && InWindow(p, Probe(start, j))
      ensures i == j
    {
      WindowIsGroup(start, p, i);
      WindowIsGroup(start, p, j);
      var k :| g == Pow2(k);
      if i < j { TriInjective(k, i, j); }
      if j < i { TriInjective(k, j, i); }
    }

    /** The probe, below the number of groups, whose window holds p. */
    lemma WindowExists(start: nat, p: nat) returns (i: nat)
      requires Valid()
      ensures i < g && InWindow(p, Probe(start, i))
    {
      QuotientBelow((p - start) % n, w, g);
      var k :| g == Pow2(k);
      i := TriSurjective(k, GroupOf(start, p));
      WindowIsGroup(start, p, i);
    }

    /** Bytes of one group are met at one probe. */
    lemma SameProbe(start: nat, p: nat, q: nat)
      requires Valid() && GroupOf(start, p) == GroupOf(start, q)
      ensures ProbeOf(start, p) == ProbeOf(start, q)
    {
      WindowIsGroup(start, p, ProbeOf(start, p));
      WindowIsGroup(start, q, ProbeOf(start, p));
      WindowUnique(start, q, ProbeOf(start, p), ProbeOf(start, q));
    }

    /** Every byte of the ring is seen by exactly one of the first g probes. */
    lemma EachGroupOnce(start: nat, p: nat)
      requires Valid()
      ensures exists i: nat :: i < g && InWindow(p, Probe(start, i))
                && forall j: nat :: j < g && InWindow(p, Probe(start, j)) ==> j == i
    {
      var i := WindowExists(start, p);
      forall j: nat | j < g && InWindow(p, Probe(start, j))
        ensures j == i
      {
        WindowUnique(start, p, i, j);
      }
    }

    /** The probe at which p is met: what EachGroupOnce picks. */
    ghost function ProbeOf(start: nat, p: nat): (i: nat)
      requires Valid()
      ensures i < g && InWindow(p, Probe(start, i))
    {
      EachGroupOnce(start, p);
      var i: nat :| i < g && InWindow(p, Probe(start, i));
      i
    }
  }

  /** How far a byte at distance x = n a + w q + v from the start is from the group at distance
      w t = w (g c + r), with e groups in between going round the ring. */
  lemma WindowDistance(w: nat, g: nat, n: nat, x: int, a: int, q: int, v: nat, t: nat, c: int, r: int,
                       e: nat) returns (m: int)
    requires n == w * g && x == n * a + (w * q + v) && t == g * c + r
    requires e == q - r || e == q - r + g
    ensures x - w * t == n * m + (w * e + v)
  {
    assert w * t == n * c + w * r by { Distribute(w, g * c, r); MulAssoc3(w, g, c); }
    Distribute(w, q, -r);
    Distribute(n, a, -c);
    if e == q - r {
      m := a - c;
    } else {
      m := a - c - 1;
      Distribute(w, q - r, g);
      Distribute(n, a - c, -1);
    }
  }

  lemma Residue(w: nat, g: nat, n: nat, y: int, m: int, e: nat, r: nat)
    requires n == w * g && e < g && r < w
    requires y == n * m + (w * e + r)
    ensures n > 0 && y % n == w * e + r
    ensures y % n < w <==> e == 0
  {
    InRange(w, g, e, r);
    ModUnique(y, n, m, w * e + r);
  }

  lemma InRange(w: nat, g: nat, e: nat, r: nat)
    requires e < g && r < w
    ensures 0 <= w * e + r < w * g
    ensures w * e + r < w <==> e == 0
  {
    MulMono(w, e, g - 1);
    Distribute(w, g - 1, 1);
    if e > 0 { MulMono(w, 1, e); }
  }

  lemma WindowArithmetic(w: nat, g: nat, n: nat, start: int, p: int, t: nat)
    requires w > 0 && g > 0 && n == w * g && n > 0
    ensures (p - (start + w * t) % n) % n < w <==> t % g == (p - start) % n / w
  {
    ModSub(p, start + w * t, n);
    GroupDistance(w, g, n, p - start, t);
    assert p - (start + w * t) == (p - start) - w * t;
  }

  lemma GroupDistance(w: nat, g: nat, n: nat, x: int, t: nat)
    requires w > 0 && g > 0 && n == w * g && n > 0
    ensures (x - w * t) % n < w <==> t % g == x % n / w
  {
    var a, d := Divide(x, n);
    var q, v := Divide(d, w);
    var c, r := Divide(t, g);
    QuotientBelow(d, w, g);
    GroupMet(w, g, n, x, a, q, v, t, c, r);
  }

  lemma Divide(x: int, n: nat) returns (q: int, r: nat)
    requires n > 0
    ensures q == x / n && r == x % n && x == n * q + r && r < n && (x >= 0 ==> q >= 0)
  {
    q, r := x / n, x % n;
  }

  lemma GroupMet(w: nat, g: nat, n: nat, x: int, a: int, q: int, v: nat, t: nat, c: int, r: int)
    requires n == w * g && n > 0 && 0 <= q < g && 0 <= r < g && v < w
    requires x == n * a + (w * q + v) && t == g * c + r
    ensures (x - w * t) % n < w <==> r == q
  {
    var e := if q >= r then q - r else q - r + g;
    var m := WindowDistance(w, g, n, x, a, q, v, t, c, r, e);
    Residue(w, g, n, x - w * t, m, e, v);
  }

  lemma QuotientBelow(d: nat, w: nat, g: nat)
    requires w > 0 && d < w * g
    ensures d / w < g
  {
    if d / w >= g { MulMono(w, g, d / w); }
  }

  // ----- The cursor itself --------------------------------------------------------------------

  /** phmap's probe_seq: an offset moved by one more group width at each step. */
  datatype Cursor = Cursor(geo: Geometry, offset: nat, index: nat) {
    ghost predicate At(start: nat, i: nat) {
      && geo.Valid()
      && index == geo.w * i
      && offset == geo.Probe(start, i)
    }

    function OffsetOf(i: nat): nat
      requires geo.Valid()
    {
      (offset + i) % geo.n
    }

    function Next(): Cursor
      requires geo.Valid()
    {
      var index' := index + geo.w;
      Cursor(geo, (offset + index') % geo.n, index')
    }

    /** The i-th step lands on the i-th group of the probe sequence. */
    lemma NextAt(start: nat, i: nat)
      requires At(start, i)
      ensures Next().At(start, i + 1)
    {
      Distribute(geo.w, i, 1);
      Distribute(geo.w, Tri(i), i + 1);
      ModAdd(start + geo.w * Tri(i), geo.w * (i + 1), geo.n);
    }
  }

  function Begin(geo: Geometry, hashval: nat): Cursor
    requires geo.Valid()
  {
    Cursor(geo, hashval % geo.n, 0)
  }

  lemma BeginAt(geo: Geometry, start: nat)
    requires geo.Valid()
    ensures Begin(geo, start).At(start, 0)
  {}
}
