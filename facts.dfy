/** Stock facts about integer arithmetic and sequences that the proofs of
    the other modules lean on. Nothing here is about protobuf-cpp itself. */
module Facts {

  // ------------------------------------------------------ integer arithmetic

  /** x % m and x % m - m differ from x by multiples of m, and x % m is x
      itself when x already lies in [0, m). */
  lemma {:induction false} ReduceModulo(x: int, m: nat)
    requires m > 0
    ensures (x % m - x) % m == 0 && (x % m - m - x) % m == 0
    ensures 0 <= x < m ==> x % m == x
  {
    var k := x / m;
    assert x == m * k + x % m;
    MultipleMod(m, -k);
    MultipleMod(m, -k - 1);
    assert x % m - x == m * -k;
    assert x % m - m - x == m * (-k - 1);
  }

  /** Every multiple of m leaves remainder 0. */
  lemma {:induction false} MultipleMod(m: nat, k: int)
    requires m > 0
    ensures (m * k) % m == 0
  {
    var q := (m * k) / m;
    var r := (m * k) % m;
    assert m * k == m * q + r;
    assert m * (k - q) == r;
    ProductBounds(m, k - q);
  }

  /** A nonzero multiple of m is at least m away from 0. */
  lemma {:induction false} ProductBounds(m: nat, d: int)
    ensures d >= 1 ==> m * d >= m
    ensures d <= -1 ==> m * d + m <= 0
  {
    if d >= 1 {
      AtLeastFactor(m, d);
    } else if d <= -1 {
      AtLeastFactor(m, -d);
      assert m * d == -(m * -d);
    }
  }

  lemma {:induction false} AtLeastFactor(m: nat, d: int)
    requires d >= 1
    ensures m * d >= m
  {
  }

  lemma {:induction false} MulLess(d: nat, x: int, y: int)
    requires d > 0 && d * x < d * y
    ensures x < y
  {
  }

  lemma {:induction false} MulLessEq(a: nat, x: nat, y: nat)
    requires x <= y
    ensures a * x <= a * y
  {
  }

  lemma {:induction false} Distribute(a: nat, b: nat, q: nat, r: nat)
    ensures a * (b * q + r) == (a * b) * q + a * r
  {
  }

  lemma {:induction false} ScaleProduct(g: int, q: int)
    ensures g * (0x80 * q) == 0x80 * (g * q)
  {
  }

  /** The quotient is the unique q with v == d * q + r and 0 <= r < d. */
  lemma {:induction false} DivUnique(v: nat, d: nat, q: nat, r: nat)
    requires d > 0 && v == d * q + r && r < d
    ensures v / d == q
  {
    var q' := v / d;
    var r' := v % d;
    assert v == d * q' + r';
    assert d * q < d * (q' + 1) by {
      assert d * (q' + 1) == d * q' + d;
    }
    assert d * q' < d * (q + 1) by {
      assert d * (q + 1) == d * q + d;
    }
    MulLess(d, q, q' + 1);
    MulLess(d, q', q + 1);
  }

  /** Dividing by a and then by b is dividing by a * b. */
  lemma {:induction false} DivDiv(v: nat, a: nat, b: nat)
    requires a > 0 && b > 0
    ensures v / a / b == v / (a * b)
  {
    var q := v / a;
    var r := v % a;
    var q2 := q / b;
    var r2 := q % b;
    assert v == a * q + r;
    assert q == b * q2 + r2;
    Distribute(a, b, q2, r2);
    assert v == (a * b) * q2 + (a * r2 + r);
    MulAddLess(a, b, r, r2);
    DivUnique(v, a * b, q2, a * r2 + r);
  }

  lemma {:induction false} MulAddLess(a: nat, b: nat, r: nat, r2: nat)
    requires r < a && r2 < b
    ensures a * r2 + r < a * b
  {
    MulLessEq(a, r2, b - 1);
    assert a * (b - 1) == a * b - a;
  }

  // --------------------------------------------------------------- sequences

  lemma {:induction false} Associative<T>(a: seq<T>, b: seq<T>, c: seq<T>)
    ensures (a + b) + c == a + (b + c)
  {
  }

  lemma {:induction false} SuffixOfConcat<T>(p: seq<T>, e: seq<T>)
    ensures (p + e)[|p + e| - |e|..] == e
  {
  }

  /** Equal sequences that end in the same t are equal without it. */
  lemma {:induction false} CancelSuffix<T>(a: seq<T>, b: seq<T>, t: seq<T>)
    requires a + t == b + t
    ensures a == b
  {
    assert a == (a + t)[..|a|];
    assert b == (b + t)[..|b|];
  }
}
