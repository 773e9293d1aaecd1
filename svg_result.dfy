/** The decisions of the graph view that do not depend on rendering: which
    hue position each quantifier gets (`QuantIdxToColourMap`), whether a
    graph is small enough to render without asking (`Msg::RenderGraph`), and
    the user's permission flag.  The hue itself is a floating-point fraction
    of the permuted position and is not modelled; the permutation is. */
module SvgResult {

  // ---------------------------------------------------------------------
  // Render limits and the user's permission
  // ---------------------------------------------------------------------

  /** More edges than this make a graph large. */
  const EDGE_LIMIT: nat := 500
  /** More nodes than this make a graph large. */
  const DEFAULT_NODE_COUNT: nat := 125

  datatype UserPermission = UserPermission(permission: bool)

  /** `UserPermission::default()`: no permission until the user gives it. */
  function DefaultPermission(): (u: UserPermission)
    ensures !u.permission
  {
    UserPermission(false)
  }

  /** `UserPermission::from(bool)`. */
  function PermissionFrom(value: bool): (u: UserPermission)
    ensures u.permission == value
  {
    UserPermission(value)
  }

  /** What `Msg::RenderGraph` does after the visible graph is recomputed:
      render it, or send `Msg::GetUserPermission` to ask first. */
  datatype RenderStep = Render | GetUserPermission

  /** The render-safety test of `Msg::RenderGraph`. */
  predicate SafeToRender(nodeCount: nat, edgeCount: nat, nodeCountDecreased: bool, edgeCountDecreased: bool) {
    edgeCount <= EDGE_LIMIT || nodeCount <= DEFAULT_NODE_COUNT || edgeCountDecreased || nodeCountDecreased
  }

  /** `Msg::RenderGraph(permission)` on a visible graph of the given size. */
  function RenderGraph(p: UserPermission, nodeCount: nat, edgeCount: nat, nodeCountDecreased: bool, edgeCountDecreased: bool): (r: RenderStep)
    ensures r == Render <==> SafeToRender(nodeCount, edgeCount, nodeCountDecreased, edgeCountDecreased) || p.permission
  {
    if SafeToRender(nodeCount, edgeCount, nodeCountDecreased, edgeCountDecreased) || p.permission then Render
    else GetUserPermission
  }

  /** A graph is asked about only when it has more than 500 edges and more
      than 125 nodes, neither count went down, and no permission was given;
      once given, permission renders any graph. */
  lemma AskOnlyWhenLarge(p: UserPermission, nodeCount: nat, edgeCount: nat, nodeCountDecreased: bool, edgeCountDecreased: bool)
    ensures RenderGraph(p, nodeCount, edgeCount, nodeCountDecreased, edgeCountDecreased) == GetUserPermission
      <==> edgeCount > 500 && nodeCount > 125 && !nodeCountDecreased && !edgeCountDecreased && !p.permission
    ensures RenderGraph(PermissionFrom(true), nodeCount, edgeCount, nodeCountDecreased, edgeCountDecreased) == Render
    ensures RenderGraph(DefaultPermission(), nodeCount, edgeCount, nodeCountDecreased, edgeCountDecreased) == Render
      <==> SafeToRender(nodeCount, edgeCount, nodeCountDecreased, edgeCountDecreased)
  {
  }

  // ---------------------------------------------------------------------
  // Divisibility
  // ---------------------------------------------------------------------

  predicate IsPrime(p: nat) {
    p >= 2 && forall d | 2 <= d < p :: p % d != 0
  }

  /** The primes below 13 are the first five, 2, 3, 5, 7 and 11, which the
      coprime search skips. */
  lemma FirstFivePrimes(q: nat)
    requires q < 13
    ensures IsPrime(q) <==> q in {2, 3, 5, 7, 11}
  {
    if q in {4, 6, 8, 10, 12} {
      assert q % 2 == 0;
    } else if q == 9 {
      assert q % 3 == 0;
    }
  }

  /** A multiple of `a` leaves no remainder. */
  lemma MultipleMod(a: int, k: int)
    requires a > 0
    ensures (a * k) % a == 0
  {
    var q, m := (a * k) / a, (a * k) % a;
    assert a * k == a * q + m && 0 <= m < a;
    assert a * (k - q) == m;
    if k - q >= 1 {
      assert false;
    } else if k - q <= -1 {
      assert false;
    }
  }

  /** A multiple of `a` plus a small remainder leaves that remainder. */
  lemma MultiplePlusMod(a: int, k: int, r: int)
    requires a > 0 && 0 <= r < a
    ensures (a * k + r) % a == r
  {
    var q, m := (a * k + r) / a, (a * k + r) % a;
    assert a * k + r == a * q + m && 0 <= m < a;
    assert a * (k - q) == m - r;
    if k - q >= 1 {
      assert false;
    } else if k - q <= -1 {
      assert false;
    }
  }

  /** No remainder means a multiple. */
  lemma ModZero(m: int, a: int)
    requires a > 0 && m % a == 0
    ensures m == a * (m / a)
  {
  }

  lemma DividesTrans(a: int, b: int, c: int)
    requires a > 0 && b > 0 && b % a == 0 && c % b == 0
    ensures c % a == 0
  {
    ModZero(b, a);
    ModZero(c, b);
    assert c == a * ((b / a) * (c / b));
    MultipleMod(a, (b / a) * (c / b));
  }

  /** A positive multiple of `g` is at least `g`. */
  lemma DivisorBound(g: int, a: int)
    requires g > 0 && a > 0 && a % g == 0
    ensures g <= a
  {
    ModZero(a, g);
    assert g * (a / g) >= g * 1;
  }

  function Factorial(k: nat): (f: nat)
    ensures f >= 1
  {
    if k == 0 then 1 else k * Factorial(k - 1)
  }

  lemma {:induction false} FactorialMultiple(k: nat, j: nat)
    requires 1 <= j <= k
    ensures Factorial(k) % j == 0
    decreases k
  {
    if j == k {
      MultipleMod(k, Factorial(k - 1));
    } else {
      FactorialMultiple(k - 1, j);
      ModZero(Factorial(k - 1), j);
      assert Factorial(k) == j * ((Factorial(k - 1) / j) * k);
      MultipleMod(j, (Factorial(k - 1) / j) * k);
    }
  }

  /** The least divisor of `m` that is at least `d`. */
  function MinDivisor(m: nat, d: nat): (r: nat)
    requires 2 <= d <= m
    ensures d <= r <= m && m % r == 0
    ensures forall e | d <= e < r :: m % e != 0
    decreases m - d
  {
    if m % d == 0 then d else MinDivisor(m, d + 1)
  }

  /** The least divisor above 1 is a prime. */
  lemma MinDivisorPrime(m: nat)
    requires m >= 2
    ensures IsPrime(MinDivisor(m, 2))
  {
    var r := MinDivisor(m, 2);
    forall e | 2 <= e < r ensures r % e != 0 {
      if r % e == 0 {
        DividesTrans(e, r, m);
      }
    }
  }

  /** A prime above `k`: the least divisor of `k! + 1`, which no number in
      `2..k` divides. */
  ghost function PrimeAbove(k: nat): (q: nat)
    ensures IsPrime(q) && q > k
  {
    var m := Factorial(k) + 1;
    MinDivisorPrime(m);
    var q := MinDivisor(m, 2);
    if q <= k then
      FactorialMultiple(k, q);
      ModZero(Factorial(k), q);
      MultiplePlusMod(q, Factorial(k) / q, 1);
      assert false;
      q
    else q
  }

  // ---------------------------------------------------------------------
  // find_coprime
  // ---------------------------------------------------------------------

  /** The first prime from `p` on that does not divide `n`; the search is
      bounded by a prime above both `n` and 12, which does not divide `n`. */
  function SearchCoprime(n: nat, p: nat): (r: nat)
    requires n > 0 && 13 <= p <= PrimeAbove(n + 12)
    ensures p <= r && IsPrime(r) && n % r != 0
    ensures forall q | p <= q < r :: !IsPrime(q) || n % q == 0
    decreases PrimeAbove(n + 12) - p
  {
    if IsPrime(p) && n % p != 0 then p
    else
      assert p != PrimeAbove(n + 12) by {
        if p == PrimeAbove(n + 12) {
          MultiplePlusMod(p, 0, n);
        }
      }
      SearchCoprime(n, p + 1)
  }

  /** `find_coprime`: 1 for 0; otherwise the first prime after the first
      five (2, 3, 5, 7, 11) that does not divide `n`. */
  function FindCoprime(n: nat): (r: nat)
    ensures n == 0 ==> r == 1
    ensures n > 0 ==> r >= 13 && IsPrime(r) && n % r != 0
    ensures n > 0 ==> forall q | 13 <= q < r :: !IsPrime(q) || n % q == 0
  {
    if n == 0 then 1 else SearchCoprime(n, 13)
  }

  // ---------------------------------------------------------------------
  // QuantIdxToColourMap
  // ---------------------------------------------------------------------

  datatype ColourMap = ColourMap(total: nat, coprime: nat, shift: nat)

  /** `QuantIdxToColourMap::from`: the coprime of the number of
      quantifiers and a shift of 0. */
  function ColourMapFrom(total: nat): (m: ColourMap)
    ensures m.total == total && m.shift == 0 && m.coprime >= 1
    ensures total > 0 ==> IsPrime(m.coprime) && total % m.coprime != 0
  {
    ColourMap(total, FindCoprime(total), 0)
  }

  /** The permuted position `get` turns into a hue (the hue is this position
      divided by the number of quantifiers). */
  function HuePosition(m: ColourMap, idx: nat): (r: nat)
    requires idx < m.total
    ensures r < m.total
  {
    (idx * m.coprime + m.shift) % m.total
  }

  /** Quantifier 0 keeps hue 0 under a map built by `from`. */
  lemma FirstQuantHueZero(total: nat)
    requires total > 0
    ensures HuePosition(ColourMapFrom(total), 0) == 0
  {
  }

  /** Equal remainders mean the difference is a multiple. */
  lemma SameModDiff(x: int, y: int, t: int)
    requires t > 0 && x % t == y % t
    ensures (x - y) % t == 0
  {
    assert x - y == t * (x / t - y / t);
    MultipleMod(t, x / t - y / t);
  }

  function Gcd(a: nat, b: nat): (r: nat)
    decreases b
  {
    if b == 0 then a else Gcd(b, a % b)
  }

  /** The gcd divides both arguments. */
  lemma {:induction false} GcdDivides(a: nat, b: nat)
    requires a > 0 || b > 0
    ensures Gcd(a, b) > 0 && a % Gcd(a, b) == 0 && b % Gcd(a, b) == 0
    decreases b
  {
    if b == 0 {
      MultipleMod(a, 1);
    } else {
      GcdDivides(b, a % b);
      var g := Gcd(a, b);
      ModZero(b, g);
      ModZero(a % b, g);
      assert a == b * (a / b) + a % b;
      assert a == g * ((b / g) * (a / b) + (a % b) / g);
      MultipleMod(g, (b / g) * (a / b) + (a % b) / g);
    }
  }

  /** Bézout's identity for the gcd. */
  lemma {:induction false} Bezout(a: nat, b: nat) returns (x: int, y: int)
    ensures a * x + b * y == Gcd(a, b)
    decreases b
  {
    if b == 0 {
      x, y := 1, 0;
    } else {
      var x', y' := Bezout(b, a % b);
      assert a % b == a - b * (a / b);
      x, y := y', x' - (a / b) * y';
      assert b * x' + (a - b * (a / b)) * y' == Gcd(a, b);
      assert a * y' + b * (x' - (a / b) * y') == b * x' + (a - b * (a / b)) * y';
    }
  }

  /** A prime that does not divide `t` shares no factor with it. */
  lemma CoprimeGcd(p: nat, t: nat)
    requires IsPrime(p) && t > 0 && t % p != 0
    ensures Gcd(p, t) == 1
  {
    GcdDivides(p, t);
    var g := Gcd(p, t);
    DivisorBound(g, p);
  }

  /** Euclid's lemma: `t` divides `d * p` only through `d` when the prime `p`
      does not divide `t`. */
  lemma Euclid(t: nat, p: nat, d: int)
    requires IsPrime(p) && t > 0 && t % p != 0 && (d * p) % t == 0
    ensures d % t == 0
  {
    CoprimeGcd(p, t);
    var x, y := Bezout(p, t);
    ModZero(d * p, t);
    var c := (d * p) / t;
    assert d == d * (p * x + t * y);
    assert d == t * (c * x + d * y);
    MultipleMod(t, c * x + d * y);
  }

  /** Distinct quantifiers get distinct hue positions: `get` permutes
      `0..total` for any shift, once the coprime is a prime that does not
      divide the total. */
  lemma HuePositionInjective(m: ColourMap, a: nat, b: nat)
    requires a < m.total && b < m.total
    requires IsPrime(m.coprime) && m.total % m.coprime != 0
    requires HuePosition(m, a) == HuePosition(m, b)
    ensures a == b
  {
    var t, p := m.total, m.coprime;
    SameModDiff(a * p + m.shift, b * p + m.shift, t);
    assert (a * p + m.shift) - (b * p + m.shift) == (a - b) * p;
    Euclid(t, p, a - b);
    if a > b {
      MultiplePlusMod(t, 0, a - b);
    } else if a < b {
      MultiplePlusMod(t, -1, t + (a - b));
    }
  }

  /** The map `from` builds gives each quantifier its own hue position. */
  lemma ColourMapPermutes(total: nat, a: nat, b: nat)
    requires a < total && b < total
    requires HuePosition(ColourMapFrom(total), a) == HuePosition(ColourMapFrom(total), b)
    ensures a == b
  {
    HuePositionInjective(ColourMapFrom(total), a, b);
  }
}
