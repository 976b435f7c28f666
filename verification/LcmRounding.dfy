/** Rounding the vocabulary and the shared expert so that they split over the ranks: padding to a common
    multiple of the alignment and the tensor-parallel size. */
module LcmRounding {
  import opened HeadPadding

  // ----- Greatest common divisor and least common multiple

  function Gcd(a: nat, b: nat): nat
    decreases b
  {
    if b == 0 then a else Gcd(b, a % b)
  }

  ghost predicate Divides(d: int, n: int) {
    exists k :: n == d * k
  }

  lemma DividesSum(d: int, a: int, b: int, k: int)
    requires Divides(d, a) && Divides(d, b)
    ensures Divides(d, a * k + b)
  {
    var p, q :| a == d * p && b == d * q;
    assert a * k + b == d * (p * k + q);
  }

  lemma {:induction false} GcdDivides(a: nat, b: nat)
    requires a > 0 || b > 0
    ensures Gcd(a, b) > 0 && Divides(Gcd(a, b), a) && Divides(Gcd(a, b), b)
    decreases b
  {
    var g := Gcd(a, b);
    if b == 0 {
      assert a == g * 1 && b == g * 0;
    } else {
      GcdDivides(b, a % b);
      DividesSum(g, b, a % b, a / b);
      assert b * (a / b) + a % b == a;
    }
  }

  /** The divisor is a combination of the two. */
  lemma {:induction false} Bezout(a: nat, b: nat) returns (x: int, y: int)
    ensures a * x + b * y == Gcd(a, b)
    decreases b
  {
    if b == 0 {
      x, y := 1, 0;
    } else {
      var u, v := Bezout(b, a % b);
      x, y := v, u - (a / b) * v;
      assert a % b == a - b * (a / b);
      assert b * u + (a - b * (a / b)) * v == a * v + b * (u - (a / b) * v);
    }
  }

  function Lcm(a: nat, b: nat): nat
    requires a > 0 && b > 0
  {
    GcdDivides(a, b);
    a * b / Gcd(a, b)
  }

  lemma LcmFactors(a: nat, b: nat) returns (p: nat, q: nat)
    requires a > 0 && b > 0
    ensures var g := Gcd(a, b);
            g > 0 && p > 0 && q > 0 && a == g * p && b == g * q && Lcm(a, b) == g * p * q == a * q == b * p
  {
    GcdDivides(a, b);
    var g := Gcd(a, b);
    var i, j :| a == g * i && b == g * j;
    PositiveFactor(g, i);
    PositiveFactor(g, j);
    p, q := i, j;
    assert a * b == (g * p * q) * g;
    MultipleMod(g * p * q, g);
  }

  /** The common multiples are the multiples of the least one. */
  lemma LcmMeaning(a: nat, b: nat, m: int)
    requires a > 0 && b > 0
    ensures Lcm(a, b) > 0
    ensures Divides(Lcm(a, b), m) <==> Divides(a, m) && Divides(b, m)
  {
    hide Lcm, Gcd, Divides;
    var p, q := LcmFactors(a, b);
    if Divides(Lcm(a, b), m) {
      Through(Lcm(a, b), a, q, m);
      Through(Lcm(a, b), b, p, m);
    }
    if Divides(a, m) && Divides(b, m) {
      var x, y := Bezout(a, b);
      Common(Gcd(a, b), p, q, x, y, m);
    }
  }

  lemma Through(l: int, a: int, q: int, m: int)
    requires l == a * q && Divides(l, m)
    ensures Divides(a, m)
  {
    var k :| m == l * k;
    assert m == a * (q * k);
  }

  lemma Common(g: int, p: int, q: int, x: int, y: int, m: int)
    requires g > 0 && (g * p) * x + (g * q) * y == g && Divides(g * p, m) && Divides(g * q, m)
    ensures Divides(g * p * q, m)
  {
    var i, j :| m == (g * p) * i && m == (g * q) * j;
    CommonMultiple(g, p, q, x, y, m, i, j);
  }

  lemma CommonMultiple(g: int, p: int, q: int, x: int, y: int, m: int, i: int, j: int)
    requires g > 0 && (g * p) * x + (g * q) * y == g && m == (g * p) * i && m == (g * q) * j
    ensures Divides(g * p * q, m)
  {
    assert g * (p * x + q * y) == g * 1;
    CancelFactor(g, p * x + q * y, 1);
    assert m * (p * x) == (g * p * q) * (j * x);
    assert m * (q * y) == (g * p * q) * (i * y);
    assert m == m * (p * x + q * y) == (g * p * q) * (j * x + i * y);
  }

  lemma DividesMod(d: nat, n: nat)
    requires d > 0
    ensures Divides(d, n) <==> n % d == 0
  {
    if Divides(d, n) {
      var k :| n == d * k;
      MultipleMod(k, d);
    }
    if n % d == 0 {
      assert n == d * (n / d);
    }
  }

  // ----- The vocabulary

  function PaddingSize(padding: nat, tp: nat): nat
    requires padding > 0 && tp > 0
  {
    if tp > 1 && padding % tp != 0 then Lcm(padding, tp) else padding
  }

  /** The least positive multiple of the old padding that splits over the ranks. */
  lemma PaddingSizeLeast(padding: nat, tp: nat, m: nat)
    requires padding > 0 && tp > 0
    ensures var r := PaddingSize(padding, tp);
            && r > 0 && r % padding == 0 && r % tp == 0
            && (m > 0 && m % padding == 0 && m % tp == 0 ==> r <= m)
  {
    var l := Lcm(padding, tp);
    LcmMeaning(padding, tp, l);
    assert Divides(l, l) by { assert l == l * 1; }
    DividesMod(padding, l);
    DividesMod(tp, l);
    if m > 0 && m % padding == 0 && m % tp == 0 {
      DividesMod(padding, m);
      DividesMod(tp, m);
      LcmMeaning(padding, tp, m);
      AtLeast(l, m);
      AtLeast(padding, m);
    }
    assert padding == padding * 1;
    MultipleMod(1, padding);
    if tp == 1 {
      MultipleMod(padding, 1);
    }
  }

  lemma AtLeast(d: nat, m: nat)
    requires d > 0 && m > 0
    ensures Divides(d, m) ==> d <= m
  {
    if Divides(d, m) {
      var k :| m == d * k;
      PositiveFactor(d, k);
      MulMono(1, k, d);
    }
  }

  /** A vocabulary rounded up to it splits over the ranks, and grows by less than the padding. */
  lemma VocabularySplits(rows: nat, padding: nat, tp: nat)
    requires padding > 0 && tp > 0
    ensures var r := PaddingSize(padding, tp);
            r > 0 && CeilTo(rows, r) % tp == 0 && CeilTo(rows, r) % padding == 0 && rows <= CeilTo(rows, r) < rows + r
  {
    var r := PaddingSize(padding, tp);
    PaddingSizeLeast(padding, tp, r);
    CeilToLeast(rows, r, 0);
    ModOfMultiple(CeilTo(rows, r), r, tp);
    ModOfMultiple(CeilTo(rows, r), r, padding);
  }

  lemma ModOfMultiple(n: nat, r: nat, d: nat)
    requires r > 0 && d > 0 && n % r == 0 && r % d == 0
    ensures n % d == 0
  {
    DividesMod(r, n);
    DividesMod(d, r);
    var i, j :| n == r * i && r == d * j;
    assert n == d * (j * i);
    DividesMod(d, n);
  }

  // ----- The shared expert

  const ALIGN: nat := 64

  /** One expert's width: the least multiple of the alignment and the ranks at or above the given one. */
  function OneExpert(width: nat, tp: nat): nat
    requires tp > 0
  {
    LcmMeaning(ALIGN, tp, 0);
    CeilToLeast(width, Lcm(ALIGN, tp), 0);
    CeilTo(width, Lcm(ALIGN, tp))
  }

  /** The width of all shared experts together; the closing check of the source cannot fail. */
  method SharedExpert(width: nat, experts: nat, tp: nat) returns (size: nat)
    requires tp > 0
    ensures size % tp == 0 && size >= width * experts
    ensures (width * experts) % tp == 0 ==> size == width * experts
    ensures (width * experts) % tp != 0 ==> size == OneExpert(width, tp) * experts
  {
    size := width * experts;
    if tp > 1 && size % tp != 0 {
      var one := OneExpert(width, tp);
      OneExpertMeaning(width, tp, one);
      size := one * experts;
      MulMono(width, one, experts);
      SplitsTogether(one, experts, tp);
      assert size % tp == 0;
    }
  }

  lemma SplitsTogether(one: nat, experts: nat, tp: nat)
    requires tp > 0 && one % tp == 0
    ensures (one * experts) % tp == 0
  {
    DividesMod(tp, one);
    var k :| one == tp * k;
    assert one * experts == tp * (k * experts);
    DividesMod(tp, one * experts);
  }

  lemma OneExpertMeaning(width: nat, tp: nat, m: nat)
    requires tp > 0
    ensures var one := OneExpert(width, tp);
            && width <= one && one % tp == 0 && one % ALIGN == 0
            && (width <= m && m % tp == 0 && m % ALIGN == 0 ==> one <= m)
  {
    var l, one := Lcm(ALIGN, tp), OneExpert(width, tp);
    LcmMeaning(ALIGN, tp, one);
    CeilToLeast(width, l, 0);
    DividesMod(l, one);
    DividesMod(ALIGN, one);
    DividesMod(tp, one);
    if width <= m && m % tp == 0 && m % ALIGN == 0 {
      DividesMod(tp, m);
      DividesMod(ALIGN, m);
      LcmMeaning(ALIGN, tp, m);
      DividesMod(l, m);
      CeilToLeast(width, l, m);
    }
  }

  /** A rank's share of every padded expert is aligned exactly when the alignment and the number of ranks
      have no common divisor. */
  lemma RankAlignedExactly(tp: nat)
    requires tp > 0
    ensures (forall width: nat :: (OneExpert(width, tp) / tp) % ALIGN == 0) <==> Gcd(ALIGN, tp) == 1
  {
    var p, q := LcmFactors(ALIGN, tp);
    var g, l := Gcd(ALIGN, tp), Lcm(ALIGN, tp);
    if g == 1 {
      forall width: nat
        ensures (OneExpert(width, tp) / tp) % ALIGN == 0
      {
        ShareOf(width, tp, p);
        MultipleMod((width + l - 1) / l, ALIGN);
        assert p == ALIGN;
      }
    } else {
      ShareOf(1, tp, p);
      OneUnit(l);
      assert OneExpert(1, tp) / tp == p;
      MulMono(2, g, p);
      assert p % ALIGN == p;
    }
  }

  lemma OneUnit(l: nat)
    requires l > 0
    ensures (1 + l - 1) / l == 1
  {
    MultipleMod(1, l);
    assert 1 + l - 1 == 1 * l;
  }

  lemma ShareOf(width: nat, tp: nat, p: nat)
    requires tp > 0 && Lcm(ALIGN, tp) == tp * p && Lcm(ALIGN, tp) > 0
    ensures OneExpert(width, tp) / tp == ((width + Lcm(ALIGN, tp) - 1) / Lcm(ALIGN, tp)) * p
  {
    var c := (width + Lcm(ALIGN, tp) - 1) / Lcm(ALIGN, tp);
    assert c * (tp * p) == (c * p) * tp;
    MultipleMod(c * p, tp);
  }
}
