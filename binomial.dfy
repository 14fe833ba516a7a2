/** The Cox-Ross-Rubinstein binomial lattice of `binomial_option_price`:
    the step parameters, the terminal payoffs, and the backward induction
    that overwrites one array level by level. */
module Binomial {
  import opened PricingCommon

  /** x^n for a natural exponent (Python's `x ** n` with an int n, on exact
      reals). */
  function Pow(x: real, n: nat): (xn: real)
  {
    if n == 0 then 1.0 else x * Pow(x, n - 1)
  }

  /** A power of a non-negative base is non-negative, and of a positive
      base positive. */
  lemma {:induction false} PowNonNegative(x: real, n: nat)
    requires 0.0 <= x
    ensures 0.0 <= Pow(x, n)
    ensures 0.0 < x ==> 0.0 < Pow(x, n)
  {
    if n > 0 {
      var n1 := n - 1;
      PowNonNegative(x, n1);
      PowStep(x, n, n1);
    }
  }

  /** One more factor: x^n = x·x^(n-1).

      Convention of this module: lemmas take the neighbouring index (here
      n1 = n - 1) as a parameter tied by a `requires` rather than writing
      `n - 1` inside a call, and one-unfolding lemmas such as this one are
      stated separately. Both keep the solver from relating products of
      compound terms. */
  lemma {:induction false} PowStep(x: real, n: nat, n1: nat)
    requires n == n1 + 1
    ensures Pow(x, n) == x * Pow(x, n1)
  {
  }

  /** x^n = x^a·x^b when n = a + b. */
  lemma {:induction false} PowAdd(x: real, n: nat, a: nat, b: nat)
    requires n == a + b
    ensures Pow(x, n) == Pow(x, a) * Pow(x, b)
  {
    if a > 0 {
      var n1, a1 := n - 1, a - 1;
      PowAdd(x, n1, a1, b);
      calc {
        Pow(x, n);
        { PowStep(x, n, n1); }
        x * Pow(x, n1);
        x * (Pow(x, a1) * Pow(x, b));
        (x * Pow(x, a1)) * Pow(x, b);
        { PowStep(x, a, a1); }
        Pow(x, a) * Pow(x, b);
      }
    }
  }

  /** Pu = u·A, Pd = d·B, u·d = 1 and A·B = 1 give Pu·Pd = 1. */
  lemma ProductOfReciprocals(u: real, d: real, A: real, B: real, Pu: real, Pd: real)
    requires Pu == u * A && Pd == d * B && u * d == 1.0 && A * B == 1.0
    ensures Pu * Pd == 1.0
  {
    assert (u * A) * (d * B) == (u * d) * (A * B);
  }

  /** u^k·d^k = 1 when u·d = 1. */
  lemma {:induction false} PowReciprocal(u: real, d: real, k: nat)
    requires u * d == 1.0
    ensures Pow(u, k) * Pow(d, k) == 1.0
  {
    if k > 0 {
      var k1 := k - 1;
      PowReciprocal(u, d, k1);
      PowStep(u, k, k1);
      PowStep(d, k, k1);
      ProductOfReciprocals(u, d, Pow(u, k1), Pow(d, k1), Pow(u, k), Pow(d, k));
    }
  }


  /** x^e for an integer exponent: a negative power is a power of 1/x. */
  function IntPow(x: real, e: int): real
    requires x != 0.0
  {
    if e >= 0 then Pow(x, e) else Pow(1.0 / x, -e)
  }

  /** Line 55: Δt = T/N, where N = 0 raises ZeroDivisionError. */
  function StepSize(T: real, N: int): (res: Result<real>)
    ensures res.Err? <==> N == 0
    ensures res.Err? ==> res.error == ZeroDivisionError
    ensures res.Ok? ==> res.value * (N as real) == T
  {
    if N == 0 then Err(ZeroDivisionError) else Ok(T / (N as real))
  }

  /** The step parameters of lines 56-59, with the two discount factors
      exp(r·Δt) (line 58) and exp(-r·Δt) (line 70). */
  datatype Lattice = Lattice(u: real, d: real, p: real, q: real, growth: real, disc: real)

  /** The relations `binomial_option_price` establishes between its step
      parameters: q = 1 - p, p·u + q·d = exp(r·Δt), and exp(-r·Δt)·exp(r·Δt) = 1
      under a sound exponential. */
  predicate RiskNeutral(l: Lattice)
  {
    l.p + l.q == 1.0 && l.p * l.u + l.q * l.d == l.growth && l.disc * l.growth == 1.0
  }

  /** Lines 56-59 for a step Δt: u = exp(σ·√Δt), d = 1/u,
      p = (exp(r·Δt) - d)/(u - d), q = 1 - p, each exception raised where
      Python raises it. */
  function LatticeParameters(r: real, sigma: real, dt: real, m: MathLib): (res: Result<Lattice>)
    ensures dt < 0.0 ==> res == Err(MathDomainError)
    ensures 0.0 <= dt && res.Err? ==> res.error == ZeroDivisionError
    ensures res.Ok? <==>
      && 0.0 <= dt
      && m.exp(sigma * m.sqrt(dt)) != 0.0
      && m.exp(sigma * m.sqrt(dt)) - 1.0 / m.exp(sigma * m.sqrt(dt)) != 0.0
    ensures res.Ok? ==>
      var l := res.value;
      && 0.0 <= dt
      && l.u == m.exp(sigma * m.sqrt(dt))
      && l.growth == m.exp(r * dt) && l.disc == m.exp(-r * dt)
      && l.u * l.d == 1.0
      && l.u != l.d
      && l.p + l.q == 1.0
      && l.p * l.u + l.q * l.d == l.growth
  {
    if dt < 0.0 then Err(MathDomainError)
    else
      var u := m.exp(sigma * m.sqrt(dt));
      if u == 0.0 then Err(ZeroDivisionError)
      else
        var d := 1.0 / u;
        var growth := m.exp(r * dt);
        if u - d == 0.0 then Err(ZeroDivisionError)
        else
          var p := (growth - d) / (u - d);
          assert p * (u - d) == growth - d;
          Ok(Lattice(u, d, p, 1.0 - p, growth, m.exp(-r * dt)))
  }

  /** Under a sound exponential the parameters of lines 56-59 are
      risk-neutral and the discount factor is positive. */
  lemma LatticeIsRiskNeutral(r: real, sigma: real, dt: real, m: MathLib)
    requires Sound(m)
    requires LatticeParameters(r, sigma, dt, m).Ok?
    ensures RiskNeutral(LatticeParameters(r, sigma, dt, m).value)
    ensures 0.0 < LatticeParameters(r, sigma, dt, m).value.disc
  {
    assert -r * dt + r * dt == 0.0;
  }

  /** The risk-neutral probability lies in [0, 1] exactly when the one-step
      growth exp(r·Δt) lies between the down and the up factor. */
  lemma RiskNeutralProbabilityInRange(l: Lattice)
    requires l.d < l.u
    requires l.p + l.q == 1.0 && l.p * l.u + l.q * l.d == l.growth
    ensures 0.0 <= l.p <= 1.0 <==> l.d <= l.growth <= l.u
  {
    var w := l.u - l.d;
    assert l.p * w == l.growth - l.d;
    if 0.0 <= l.p {
      assert 0.0 <= l.p * w;
    } else {
      assert l.p * w < 0.0;
    }
    if l.p <= 1.0 {
      assert l.p * w <= w;
    } else {
      assert l.p * w > w;
    }
  }

  /** The underlying's price at node j of level N: S·u^j·d^(N-j) (line 63). */
  function NodePrice(S: real, l: Lattice, N: nat, j: nat): (price: real)
    requires j <= N
    ensures N == 0 ==> price == S
    ensures j == N ==> price == S * Pow(l.u, N)
    ensures j == 0 ==> price == S * Pow(l.d, N)
  {
    S * Pow(l.u, j) * Pow(l.d, N - j)
  }

  /** Since d = 1/u the lattice recombines: the node price depends only on the
      net number of up moves, S·u^(2j-N), so an up move followed by a down
      move returns to the same price. */
  lemma {:induction false} NodePriceRecombines(S: real, l: Lattice, N: nat, j: nat)
    requires j <= N
    requires l.u != 0.0 && l.u * l.d == 1.0
    ensures NodePrice(S, l, N, j) == S * IntPow(l.u, 2 * j - N)
    ensures NodePrice(S, l, N + 2, j + 1) == NodePrice(S, l, N, j)
  {
    NodePriceIsIntPow(S, l, N, j);
    NodePriceIsIntPow(S, l, N + 2, j + 1);
    assert 2 * (j + 1) - (N + 2) == 2 * j - N;
  }

  /** The node price of line 63 as a single integer power of u. */
  lemma {:induction false} NodePriceIsIntPow(S: real, l: Lattice, N: nat, j: nat)
    requires j <= N
    requires l.u != 0.0 && l.u * l.d == 1.0
    ensures NodePrice(S, l, N, j) == S * IntPow(l.u, 2 * j - N)
  {
    calc {
      NodePrice(S, l, N, j);
      S * Pow(l.u, j) * Pow(l.d, N - j);
      S * (Pow(l.u, j) * Pow(l.d, N - j));
      { RecombinedPower(l.u, l.d, N, j); }
      S * IntPow(l.u, 2 * j - N);
    }
  }

  /** u^j·d^(N-j) = u^(2j-N) when u·d = 1, by cancelling the smaller number
      of moves against the larger. */
  lemma {:induction false} RecombinedPower(u: real, d: real, N: nat, j: nat)
    requires j <= N
    requires u != 0.0 && u * d == 1.0
    ensures Pow(u, j) * Pow(d, N - j) == IntPow(u, 2 * j - N)
  {
    if j >= N - j {
      MoreUpMoves(u, d, j, 2 * j - N, N - j);
    } else {
      MoreDownMoves(u, d, j, N - j, N - 2 * j);
    }
  }

  /** u^n·d^k = u^e when n = e + k and u·d = 1. */
  lemma {:induction false} MoreUpMoves(u: real, d: real, n: nat, e: nat, k: nat)
    requires n == e + k && u * d == 1.0
    ensures Pow(u, n) * Pow(d, k) == Pow(u, e)
  {
    calc {
      Pow(u, n) * Pow(d, k);
      { PowAdd(u, n, e, k); }
      (Pow(u, e) * Pow(u, k)) * Pow(d, k);
      Pow(u, e) * (Pow(u, k) * Pow(d, k));
      { PowReciprocal(u, d, k); }
      Pow(u, e);
    }
  }

  /** u^j·d^n = (1/u)^e when n = j + e and u·d = 1. */
  lemma {:induction false} MoreDownMoves(u: real, d: real, j: nat, n: nat, e: nat)
    requires n == j + e && u != 0.0 && u * d == 1.0
    ensures Pow(u, j) * Pow(d, n) == Pow(1.0 / u, e)
  {
    calc {
      Pow(u, j) * Pow(d, n);
      { PowAdd(d, n, j, e); }
      Pow(u, j) * (Pow(d, j) * Pow(d, e));
      (Pow(u, j) * Pow(d, j)) * Pow(d, e);
      { PowReciprocal(u, d, j); }
      Pow(d, e);
      { assert d == 1.0 / u; }
      Pow(1.0 / u, e);
    }
  }

  /** The option's payoff at terminal node j (line 63): the call payoff for
      exactly the string "call", the put payoff for every other string, and
      never negative because `max(0, …)` wraps both branches. */
  function TerminalPayoff(S: real, K: real, l: Lattice, N: nat, j: nat, optionType: string): (v: real)
    requires j <= N
    ensures 0.0 <= v
    ensures optionType == "call" ==> v == Max(0.0, NodePrice(S, l, N, j) - K)
    ensures optionType != "call" ==> v == Max(0.0, K - NodePrice(S, l, N, j))
  {
    Max(0.0, if optionType == "call" then NodePrice(S, l, N, j) - K else K - NodePrice(S, l, N, j))
  }

  /** The list built by the comprehension of lines 62-65. */
  function TerminalValues(S: real, K: real, l: Lattice, N: nat, optionType: string): (vs: seq<real>)
    ensures |vs| == N + 1
    ensures forall j :: 0 <= j < |vs| ==> 0.0 <= vs[j]
  {
    seq(N + 1, j requires 0 <= j <= N => TerminalPayoff(S, K, l, N, j, optionType))
  }

  /** The terminal list has N+1 entries; entry j is the call payoff
      max(0, S·u^j·d^(N-j) - K) for exactly "call" and the put payoff
      max(0, K - S·u^j·d^(N-j)) for any other string. */
  lemma {:induction false} TerminalEntries(S: real, K: real, l: Lattice, N: nat, optionType: string, j: nat)
    requires j <= N
    ensures |TerminalValues(S, K, l, N, optionType)| == N + 1
    ensures optionType == "call" ==>
      TerminalValues(S, K, l, N, optionType)[j] == Max(0.0, NodePrice(S, l, N, j) - K)
    ensures optionType != "call" ==>
      TerminalValues(S, K, l, N, optionType)[j] == Max(0.0, K - NodePrice(S, l, N, j))
  {
  }

  /** Any string other than exactly "call" ("put", "Call", "straddle", …)
      yields the same terminal list as "put", without an error. */
  lemma {:induction false} TerminalNotCallIsPut(S: real, K: real, l: Lattice, N: nat, optionType: string)
    requires optionType != "call"
    ensures TerminalValues(S, K, l, N, optionType) == TerminalValues(S, K, l, N, "put")
  {
    assert "put" != "call";
    forall j | 0 <= j <= N
      ensures TerminalValues(S, K, l, N, optionType)[j] == TerminalValues(S, K, l, N, "put")[j]
    {
      TerminalEntries(S, K, l, N, optionType, j);
      TerminalEntries(S, K, l, N, "put", j);
    }
  }

  /** The assignment of line 70: the discounted risk-neutral average of the
      up successor and the down successor. */
  function Discounted(l: Lattice, up: real, down: real): (v: real)
    ensures l.p + l.q == 1.0 && up == down ==> v == l.disc * up
  {
    l.disc * (l.p * up + l.q * down)
  }

  /** V(i, j): the value at node j of level i of the lattice whose level
      N = |leaves| - 1 holds `leaves`. */
  function TreeValue(leaves: seq<real>, l: Lattice, i: nat, j: nat): real
    requires j <= i < |leaves|
    decreases |leaves| - i
  {
    if i == |leaves| - 1 then leaves[j]
    else Discounted(l, TreeValue(leaves, l, i + 1, j + 1), TreeValue(leaves, l, i + 1, j))
  }

  /** The price the lattice assigns to the option: the root value V(0, 0). */
  function LatticePrice(S: real, K: real, l: Lattice, N: nat, optionType: string): real
  {
    TreeValue(TerminalValues(S, K, l, N, optionType), l, 0, 0)
  }

  /** The product of two non-negative reals is non-negative. */
  lemma ProductNonNegative(a: real, b: real)
    requires 0.0 <= a && 0.0 <= b
    ensures 0.0 <= a * b
  {
  }

  /** A backward step with probabilities in [0, 1] and a non-negative
      discount factor keeps non-negative values non-negative. */
  lemma DiscountedNonNegative(l: Lattice, up: real, down: real)
    requires 0.0 <= l.p <= 1.0 && l.q == 1.0 - l.p && 0.0 <= l.disc
    requires 0.0 <= up && 0.0 <= down
    ensures 0.0 <= Discounted(l, up, down)
  {
    ProductNonNegative(l.p, up);
    ProductNonNegative(l.q, down);
    ProductNonNegative(l.disc, l.p * up + l.q * down);
  }

  /** With probabilities in [0, 1] and a non-negative discount factor,
      backward induction keeps every node value non-negative. */
  lemma {:induction false} TreeValueNonNegative(leaves: seq<real>, l: Lattice, i: nat, j: nat)
    requires j <= i < |leaves|
    requires forall k :: 0 <= k < |leaves| ==> 0.0 <= leaves[k]
    requires 0.0 <= l.p <= 1.0 && l.q == 1.0 - l.p && 0.0 <= l.disc
    ensures 0.0 <= TreeValue(leaves, l, i, j)
    decreases |leaves| - i
  {
    if i < |leaves| - 1 {
      TreeValueNonNegative(leaves, l, i + 1, j + 1);
      TreeValueNonNegative(leaves, l, i + 1, j);
      DiscountedNonNegative(l, TreeValue(leaves, l, i + 1, j + 1), TreeValue(leaves, l, i + 1, j));
    }
  }

  /** The lattice price is never negative when p is a probability: the
      payoffs are non-negative and a sound exponential makes the discount
      factor positive. */
  lemma {:induction false} LatticePriceNonNegative(S: real, K: real, r: real, sigma: real, dt: real, N: nat, optionType: string, m: MathLib)
    requires Sound(m)
    requires LatticeParameters(r, sigma, dt, m).Ok?
    requires 0.0 <= LatticeParameters(r, sigma, dt, m).value.p <= 1.0
    ensures 0.0 <= LatticePrice(S, K, LatticeParameters(r, sigma, dt, m).value, N, optionType)
  {
    var l := LatticeParameters(r, sigma, dt, m).value;
    LatticeIsRiskNeutral(r, sigma, dt, m);
    TreeValueNonNegative(TerminalValues(S, K, l, N, optionType), l, 0, 0);
  }

  /** A backward step is linear in the two successor values. */
  lemma DiscountedLinear(l: Lattice, a1: real, a2: real, b1: real, b2: real, c1: real, c2: real)
    requires c1 == a1 - b1 && c2 == a2 - b2
    ensures Discounted(l, a1, a2) - Discounted(l, b1, b2) == Discounted(l, c1, c2)
  {
    assert l.disc * (l.p * a1 + l.q * a2) - l.disc * (l.p * b1 + l.q * b2)
        == l.disc * (l.p * (a1 - b1) + l.q * (a2 - b2));
  }

  /** Backward induction is linear: the tree over the difference of two leaf
      lists is the difference of the two trees. */
  lemma {:induction false} TreeValueLinear(a: seq<real>, b: seq<real>, c: seq<real>, l: Lattice, i: nat, j: nat)
    requires |a| == |b| == |c|
    requires forall k :: 0 <= k < |c| ==> c[k] == a[k] - b[k]
    requires j <= i < |a|
    ensures TreeValue(a, l, i, j) - TreeValue(b, l, i, j) == TreeValue(c, l, i, j)
    decreases |a| - i
  {
    if i < |a| - 1 {
      TreeValueLinear(a, b, c, l, i + 1, j + 1);
      TreeValueLinear(a, b, c, l, i + 1, j);
      DiscountedLinear(l,
        TreeValue(a, l, i + 1, j + 1), TreeValue(a, l, i + 1, j),
        TreeValue(b, l, i + 1, j + 1), TreeValue(b, l, i + 1, j),
        TreeValue(c, l, i + 1, j + 1), TreeValue(c, l, i + 1, j));
    }
  }

  /** Backward induction is monotone in the leaves when p is a probability
      and the discount factor is non-negative: the difference of the two
      trees is the tree of the (non-negative) leaf differences. */
  lemma {:induction false} TreeValueMonotone(a: seq<real>, b: seq<real>, l: Lattice, i: nat, j: nat)
    requires |a| == |b|
    requires forall k :: 0 <= k < |a| ==> a[k] <= b[k]
    requires j <= i < |a|
    requires 0.0 <= l.p <= 1.0 && l.q == 1.0 - l.p && 0.0 <= l.disc
    ensures TreeValue(a, l, i, j) <= TreeValue(b, l, i, j)
  {
    var c := seq(|a|, k requires 0 <= k < |a| => b[k] - a[k]);
    TreeValueLinear(b, a, c, l, i, j);
    TreeValueNonNegative(c, l, i, j);
  }

  /** Scaling by a non-negative factor keeps the order. */
  lemma ScaleMonotone(a: real, b: real, c: real)
    requires a <= b && 0.0 <= c
    ensures a * c <= b * c
  {
    ProductNonNegative(b - a, c);
  }

  /** With non-negative u and d, the node price grows with the spot price. */
  lemma {:induction false} NodePriceMonotone(S1: real, S2: real, l: Lattice, N: nat, j: nat)
    requires S1 <= S2 && 0.0 <= l.u && 0.0 <= l.d && j <= N
    ensures NodePrice(S1, l, N, j) <= NodePrice(S2, l, N, j)
  {
    var A, B := Pow(l.u, j), Pow(l.d, N - j);
    PowNonNegative(l.u, j);
    PowNonNegative(l.d, N - j);
    ScaleMonotone(S1, S2, A);
    ScaleMonotone(S1 * A, S2 * A, B);
  }

  /** With p a probability, a non-negative discount factor and non-negative
      u and d, the lattice's call price rises and its put price falls as the
      spot price rises. */
  lemma {:induction false} LatticePriceMonotoneInSpot(S1: real, S2: real, K: real, l: Lattice, N: nat)
    requires S1 <= S2
    requires 0.0 <= l.p <= 1.0 && l.q == 1.0 - l.p && 0.0 <= l.disc
    requires 0.0 <= l.u && 0.0 <= l.d
    ensures LatticePrice(S1, K, l, N, "call") <= LatticePrice(S2, K, l, N, "call")
    ensures LatticePrice(S2, K, l, N, "put") <= LatticePrice(S1, K, l, N, "put")
  {
    var c1, c2 := TerminalValues(S1, K, l, N, "call"), TerminalValues(S2, K, l, N, "call");
    var p1, p2 := TerminalValues(S1, K, l, N, "put"), TerminalValues(S2, K, l, N, "put");
    assert "put" != "call";
    forall k | 0 <= k < N + 1
      ensures c1[k] <= c2[k] && p2[k] <= p1[k]
    {
      NodePriceMonotone(S1, S2, l, N, k);
      TerminalEntries(S1, K, l, N, "call", k);
      TerminalEntries(S2, K, l, N, "call", k);
      TerminalEntries(S1, K, l, N, "put", k);
      TerminalEntries(S2, K, l, N, "put", k);
    }
    TreeValueMonotone(c1, c2, l, 0, 0);
    TreeValueMonotone(p2, p1, l, 0, 0);
  }

  /** For the parameters of lines 56-59 with a sound exponential and p in
      [0, 1], the call price rises and the put price falls with the spot. */
  lemma {:induction false} BinomialPriceMonotoneInSpot(S1: real, S2: real, K: real, r: real, sigma: real, dt: real, N: nat, m: MathLib)
    requires Sound(m)
    requires S1 <= S2
    requires LatticeParameters(r, sigma, dt, m).Ok?
    requires 0.0 <= LatticeParameters(r, sigma, dt, m).value.p <= 1.0
    ensures
      var l := LatticeParameters(r, sigma, dt, m).value;
      && LatticePrice(S1, K, l, N, "call") <= LatticePrice(S2, K, l, N, "call")
      && LatticePrice(S2, K, l, N, "put") <= LatticePrice(S1, K, l, N, "put")
  {
    var l := LatticeParameters(r, sigma, dt, m).value;
    LatticeIsRiskNeutral(r, sigma, dt, m);
    assert 0.0 < l.u && 0.0 < l.u * l.d;
    LatticePriceMonotoneInSpot(S1, S2, K, l, N);
  }

  /** On a one-step lattice with 0 < d < 1 and a negative q, the
      at-the-money put has a negative price: only its down leaf
      S - S·d is positive, and it is weighted by q. */
  lemma OneStepPutNegative(S: real, l: Lattice)
    requires 0.0 < S && 0.0 < l.d < 1.0 <= l.u && l.q < 0.0 && 0.0 < l.disc
    ensures LatticePrice(S, S, l, 1, "put") < 0.0
  {
    var leaves := TerminalValues(S, S, l, 1, "put");
    assert "put" != "call";
    TerminalEntries(S, S, l, 1, "put", 0);
    TerminalEntries(S, S, l, 1, "put", 1);
    var down, up := NodePrice(S, l, 1, 0), NodePrice(S, l, 1, 1);
    assert down == S * l.d && up == S * l.u;
    ScaleMonotone(l.d, 1.0, S);
    ScaleMonotone(1.0, l.u, S);
    assert leaves[0] == S - down && leaves[1] == 0.0;
    NegativeWeight(l, S - down);
    assert TreeValue(leaves, l, 1, 1) == 0.0 && TreeValue(leaves, l, 1, 0) == S - down;
    assert LatticePrice(S, S, l, 1, "put") == Discounted(l, 0.0, S - down);
  }

  /** A backward step whose up successor is 0 and whose down successor is
      positive, with q < 0 and disc > 0, is negative. */
  lemma NegativeWeight(l: Lattice, low: real)
    requires 0.0 < low && l.q < 0.0 && 0.0 < l.disc
    ensures Discounted(l, 0.0, low) < 0.0
  {
    assert l.q * low < 0.0;
    assert l.p * 0.0 + l.q * low == l.q * low;
  }

  /** With p = 2 and q = -1 (risk-neutral for u = 2, d = 1/2 and growth 3.5),
      the one-step at-the-money put is worth more at spot 1.2 than at spot 1:
      outside 0 ≤ p ≤ 1 the put price can rise with the spot. */
  lemma PutRisesWithSpotWithoutNoArbitrage()
    ensures
      var l := Lattice(2.0, 0.5, 2.0, -1.0, 3.5, 1.0 / 3.5);
      && RiskNeutral(l) && l.u * l.d == 1.0
      && LatticePrice(1.0, 1.0, l, 1, "put") < LatticePrice(1.2, 1.0, l, 1, "put")
  {
    var l := Lattice(2.0, 0.5, 2.0, -1.0, 3.5, 1.0 / 3.5);
    assert "put" != "call";
    var low, high := TerminalValues(1.0, 1.0, l, 1, "put"), TerminalValues(1.2, 1.0, l, 1, "put");
    TerminalEntries(1.0, 1.0, l, 1, "put", 0);
    TerminalEntries(1.0, 1.0, l, 1, "put", 1);
    TerminalEntries(1.2, 1.0, l, 1, "put", 0);
    TerminalEntries(1.2, 1.0, l, 1, "put", 1);
    assert low[0] == 0.5 && low[1] == 0.0;
    assert high[0] == 0.4 && high[1] == 0.0;
    assert TreeValue(low, l, 1, 1) == 0.0 && TreeValue(low, l, 1, 0) == 0.5;
    assert TreeValue(high, l, 1, 1) == 0.0 && TreeValue(high, l, 1, 0) == 0.4;
  }

  /** The code never checks d ≤ exp(r·Δt) ≤ u. When exp(r·Δt) > u > 1
      (σ·√Δt < r·Δt for an increasing exp), p exceeds 1, q is negative, and
      an at-the-money put over one step gets a negative price. */
  lemma NegativePutWithoutNoArbitrage(S: real, r: real, sigma: real, dt: real, m: MathLib)
    requires Sound(m)
    requires 0.0 < S
    requires LatticeParameters(r, sigma, dt, m).Ok?
    requires 1.0 < m.exp(sigma * m.sqrt(dt)) < m.exp(r * dt)
    ensures 1.0 < LatticeParameters(r, sigma, dt, m).value.p
    ensures LatticePrice(S, S, LatticeParameters(r, sigma, dt, m).value, 1, "put") < 0.0
  {
    var l := LatticeParameters(r, sigma, dt, m).value;
    LatticeIsRiskNeutral(r, sigma, dt, m);
    ReciprocalBelowOne(l.u, l.d);
    ProbabilityAboveOne(l.u, l.d, l.p, l.growth);
    OneStepPutNegative(S, l);
  }

  /** d = 1/u lies strictly between 0 and 1 when u > 1. */
  lemma ReciprocalBelowOne(u: real, d: real)
    requires u * d == 1.0 && 1.0 < u
    ensures 0.0 < d < 1.0
  {
    if 1.0 <= d {
      ScaleMonotone(1.0, d, u);
    }
  }

  /** With p·u + (1 - p)·d = growth and d < u < growth, p exceeds 1. */
  lemma ProbabilityAboveOne(u: real, d: real, p: real, growth: real)
    requires p * u + (1.0 - p) * d == growth && d < u < growth
    ensures 1.0 < p
  {
    assert p * (u - d) == growth - d;
    if p <= 1.0 {
      ScaleMonotone(p, 1.0, u - d);
    }
  }

  /** One step forward in time multiplies the underlying's price by u along
      an up move and by d along a down move. */
  lemma {:induction false} NodePriceSteps(S: real, l: Lattice, i: nat, j: nat, i1: nat, j1: nat)
    requires j <= i && i1 == i + 1 && j1 == j + 1
    ensures NodePrice(S, l, i1, j1) == l.u * NodePrice(S, l, i, j)
    ensures NodePrice(S, l, i1, j) == l.d * NodePrice(S, l, i, j)
  {
    var k, k1 := i - j, i1 - j;
    assert i1 - j1 == k;
    calc {
      NodePrice(S, l, i1, j1);
      S * Pow(l.u, j1) * Pow(l.d, k);
      { PowStep(l.u, j1, j); }
      S * (l.u * Pow(l.u, j)) * Pow(l.d, k);
      l.u * (S * Pow(l.u, j) * Pow(l.d, k));
    }
    calc {
      NodePrice(S, l, i1, j);
      S * Pow(l.u, j) * Pow(l.d, k1);
      { PowStep(l.d, k1, k); }
      S * Pow(l.u, j) * (l.d * Pow(l.d, k));
      l.d * (S * Pow(l.u, j) * Pow(l.d, k));
    }
  }

  /** The payoff of a forward contract, S·u^j·d^(N-j) - K, at each leaf. */
  function ForwardPayoffs(S: real, K: real, l: Lattice, N: nat): (vs: seq<real>)
    ensures |vs| == N + 1
  {
    seq(N + 1, j requires 0 <= j <= N => NodePrice(S, l, N, j) - K)
  }

  /** Under the risk-neutral relations a backward step over the forward values
      up = X·u - C and down = X·d - C gives X - disc·C: the value v of the
      node is X - D when D = disc·C. */
  lemma DiscountedForward(l: Lattice, v: real, up: real, down: real, X: real, upX: real, downX: real, C: real, D: real)
    requires RiskNeutral(l)
    requires v == Discounted(l, up, down)
    requires upX == l.u * X && downX == l.d * X
    requires up == upX - C && down == downX - C
    requires D == l.disc * C
    ensures v == X - D
  {
    assert l.p * (l.u * X - C) + l.q * (l.d * X - C) == (l.p * l.u + l.q * l.d) * X - (l.p + l.q) * C;
    assert l.disc * (l.growth * X - C) == (l.disc * l.growth) * X - l.disc * C;
  }

  /** One unfolding of V at an inner node. */
  lemma {:induction false} TreeValueStep(leaves: seq<real>, l: Lattice, i: nat, j: nat, i1: nat, j1: nat)
    requires j <= i && i1 == i + 1 && j1 == j + 1 && i1 < |leaves|
    ensures TreeValue(leaves, l, i, j) == Discounted(l, TreeValue(leaves, l, i1, j1), TreeValue(leaves, l, i1, j))
  {
  }

  /** Discounting a strike already discounted over n1 steps by one more step
      discounts it over n1 + 1 steps. */
  lemma {:induction false} DiscountOneStep(disc: real, K: real, n: nat, n1: nat)
    requires n == n1 + 1
    ensures K * Pow(disc, n) == disc * (K * Pow(disc, n1))
  {
    PowStep(disc, n, n1);
    assert K * (disc * Pow(disc, n1)) == disc * (K * Pow(disc, n1));
  }

  /** X is a price grid of the lattice between levels a and a+1 at node b:
      X(a, b) grows by u along the up move and by d along the down move. */
  predicate GridStep(l: Lattice, X: (nat, nat) -> real, a: nat, b: nat)
  {
    X(a + 1, b + 1) == l.u * X(a, b) && X(a + 1, b) == l.d * X(a, b)
  }

  /** Z is a discount curve at c: an amount due c + 1 steps ahead is worth
      one discount factor less than one due c steps ahead. */
  predicate CurveStep(l: Lattice, Z: nat -> real, c: nat)
  {
    Z(c + 1) == l.disc * Z(c)
  }

  /** One backward step over forward values: children worth their grid
      price minus Z(k - 1) give the parent's grid price minus Z(k). */
  lemma {:induction false} DiscountedGridForward(l: Lattice, X: (nat, nat) -> real, Z: nat -> real,
                                                 i: nat, j: nat, k: nat, i1: nat, j1: nat, k1: nat)
    requires RiskNeutral(l) && GridStep(l, X, i, j) && CurveStep(l, Z, k1)
    requires i1 == i + 1 && j1 == j + 1 && k == k1 + 1
    ensures Discounted(l, X(i1, j1) - Z(k1), X(i1, j) - Z(k1)) == X(i, j) - Z(k)
  {
    DiscountedForward(l, Discounted(l, X(i1, j1) - Z(k1), X(i1, j) - Z(k1)),
      X(i1, j1) - Z(k1), X(i1, j) - Z(k1), X(i, j), X(i1, j1), X(i1, j), Z(k1), Z(k));
  }

  /** One level of the forward valuation: if the children at level i+1 hold
      their grid price minus Z(k - 1), node j of level i holds its grid
      price minus Z(k). */
  lemma {:induction false} ForwardStep(leaves: seq<real>, l: Lattice, X: (nat, nat) -> real, Z: nat -> real,
                                       i: nat, j: nat, k: nat, i1: nat, j1: nat, k1: nat)
    requires RiskNeutral(l) && GridStep(l, X, i, j) && CurveStep(l, Z, k1)
    requires j <= i && i1 == i + 1 && j1 == j + 1 && i1 < |leaves| && k == k1 + 1
    requires TreeValue(leaves, l, i1, j1) == X(i1, j1) - Z(k1)
    requires TreeValue(leaves, l, i1, j) == X(i1, j) - Z(k1)
    ensures TreeValue(leaves, l, i, j) == X(i, j) - Z(k)
  {
    TreeValueStep(leaves, l, i, j, i1, j1);
    DiscountedGridForward(l, X, Z, i, j, k, i1, j1, k1);
  }

  /** The node prices S·u^b·d^(a-b) as a price grid (0 off the lattice). */
  function SpotGrid(S: real, l: Lattice): (nat, nat) -> real
  {
    (a: nat, b: nat) => if b <= a then NodePrice(S, l, a, b) else 0.0
  }

  /** The node prices grow by u along every up move and by d along every
      down move. */
  lemma SpotGridGrows(S: real, l: Lattice)
    ensures forall a: nat, b: nat :: b <= a ==> GridStep(l, SpotGrid(S, l), a, b)
  {
    var X := SpotGrid(S, l);
    forall a: nat, b: nat | b <= a
      ensures GridStep(l, X, a, b)
    {
      var a1, b1 := a + 1, b + 1;
      NodePriceSteps(S, l, a, b, a1, b1);
      assert X(a, b) == NodePrice(S, l, a, b);
      assert X(a1, b1) == NodePrice(S, l, a1, b1) && X(a1, b) == NodePrice(S, l, a1, b);
    }
  }

  /** The strike K discounted over c steps, K·disc^c. */
  function StrikeCurve(K: real, l: Lattice): nat -> real
  {
    (c: nat) => K * Pow(l.disc, c)
  }

  /** Each further step multiplies the discounted strike by disc. */
  lemma StrikeCurveDiscounts(K: real, l: Lattice)
    ensures forall c: nat :: CurveStep(l, StrikeCurve(K, l), c)
  {
    var Z := StrikeCurve(K, l);
    forall c: nat
      ensures CurveStep(l, Z, c)
    {
      var c1 := c + 1;
      DiscountOneStep(l.disc, K, c1, c);
      assert Z(c1) == K * Pow(l.disc, c1);
    }
  }

  /** Under the risk-neutral relations the lattice values a forward contract
      whose leaves pay X(N, b) - Z(0) at X(i, j) - Z(k), k = N - i the number
      of remaining steps. */
  lemma {:induction false} GridForwardValue(leaves: seq<real>, l: Lattice, X: (nat, nat) -> real, Z: nat -> real,
                                            N: nat, i: nat, j: nat, k: nat)
    requires RiskNeutral(l)
    requires |leaves| == N + 1 && j <= i && i + k == N
    requires forall a: nat, b: nat :: b <= a < N ==> GridStep(l, X, a, b)
    requires forall c: nat :: CurveStep(l, Z, c)
    requires forall b :: 0 <= b <= N ==> leaves[b] == X(N, b) - Z(0)
    ensures TreeValue(leaves, l, i, j) == X(i, j) - Z(k)
    decreases k
  {
    if k > 0 {
      var i1, j1, k1 := i + 1, j + 1, k - 1;
      GridForwardValue(leaves, l, X, Z, N, i1, j1, k1);
      GridForwardValue(leaves, l, X, Z, N, i1, j, k1);
      ForwardStep(leaves, l, X, Z, i, j, k, i1, j1, k1);
    }
  }

  /** Put-call parity on the lattice: call minus put is exactly
      S - K·disc^N, the spot minus the strike discounted over N steps. */
  lemma {:induction false} LatticePutCallParity(S: real, K: real, l: Lattice, N: nat)
    requires RiskNeutral(l)
    ensures LatticePrice(S, K, l, N, "call") - LatticePrice(S, K, l, N, "put") == S - K * Pow(l.disc, N)
  {
    var calls, puts := TerminalValues(S, K, l, N, "call"), TerminalValues(S, K, l, N, "put");
    var forwards := ForwardPayoffs(S, K, l, N);
    forall k | 0 <= k < N + 1
      ensures forwards[k] == calls[k] - puts[k]
    {
      TerminalEntries(S, K, l, N, "call", k);
      TerminalEntries(S, K, l, N, "put", k);
    }
    TreeValueLinear(calls, puts, forwards, l, 0, 0);
    var X, Z := SpotGrid(S, l), StrikeCurve(K, l);
    SpotGridGrows(S, l);
    StrikeCurveDiscounts(K, l);
    GridForwardValue(forwards, l, X, Z, N, 0, 0, N);
    assert X(0, 0) == S && Z(N) == K * Pow(l.disc, N);
  }

  /** Put-call parity for the parameters `binomial_option_price` derives:
      with a sound exponential the discount factor is exp(-r·Δt). */
  lemma {:induction false} BinomialPutCallParity(S: real, K: real, r: real, sigma: real, dt: real, N: nat, m: MathLib)
    requires Sound(m)
    requires LatticeParameters(r, sigma, dt, m).Ok?
    ensures var l := LatticeParameters(r, sigma, dt, m).value;
      LatticePrice(S, K, l, N, "call") - LatticePrice(S, K, l, N, "put") == S - K * Pow(m.exp(-r * dt), N)
  {
    var l := LatticeParameters(r, sigma, dt, m).value;
    LatticeIsRiskNeutral(r, sigma, dt, m);
    LatticePutCallParity(S, K, l, N);
    assert l.disc == m.exp(-r * dt);
  }

  /** One pass of the inner loop (lines 69-70) at level i: ascending j reads
      entry j+1 before it is overwritten, so every entry up to i becomes the
      discounted average of the level-(i+1) values, and the rest stay. */
  method BackwardStep(values: array<real>, l: Lattice, i: nat)
    requires i + 1 < values.Length
    modifies values
    ensures forall j :: 0 <= j <= i ==> values[j] == Discounted(l, old(values[j + 1]), old(values[j]))
    ensures forall k :: i < k < values.Length ==> values[k] == old(values[k])
  {
    for j := 0 to i + 1
      invariant forall k :: 0 <= k < j ==> values[k] == Discounted(l, old(values[k + 1]), old(values[k]))
      invariant forall k :: j <= k < values.Length ==> values[k] == old(values[k])
    {
      values[j] := Discounted(l, values[j + 1], values[j]);
    }
  }

  /** Lines 62-71 on a lattice: fill the terminal list, overwrite it in place
      level by level from N-1 down to 0, and return entry 0, which is the
      recursive tree value V(0, 0). */
  method LatticeRootValue(S: real, K: real, l: Lattice, N: nat, optionType: string) returns (price: real)
    ensures price == LatticePrice(S, K, l, N, optionType)
  {
    var values := new real[N + 1](j requires 0 <= j <= N => TerminalPayoff(S, K, l, N, j, optionType));
    ghost var leaves := values[..];
    assert leaves == TerminalValues(S, K, l, N, optionType);
    for i := N downto 0
      invariant forall k :: 0 <= k <= i ==> values[k] == TreeValue(leaves, l, i, k)
    {
      ghost var level := values[..];
      BackwardStep(values, l, i);
      forall k | 0 <= k <= i
        ensures values[k] == TreeValue(leaves, l, i, k)
      {
        assert level[k + 1] == TreeValue(leaves, l, i + 1, k + 1);
        assert level[k] == TreeValue(leaves, l, i + 1, k);
      }
    }
    price := values[0];
  }

  /** `binomial_option_price` (lines 41-71): the exceptions of lines 55-58,
      the IndexError of line 71 when N < 0 leaves the list empty, and
      otherwise the root value of the lattice. An unknown option type is
      never an error here. */
  method BinomialOptionPrice(S: real, K: real, r: real, sigma: real, T: real, N: int, optionType: string, m: MathLib)
    returns (res: Result<real>)
    ensures StepSize(T, N).Err? ==> res == Err(ZeroDivisionError)
    ensures StepSize(T, N).Ok? ==>
      var params := LatticeParameters(r, sigma, StepSize(T, N).value, m);
      && (params.Err? ==> res == Err(params.error))
      && (params.Ok? && N < 0 ==> res == Err(IndexError))
      && (params.Ok? && 0 <= N ==> res == Ok(LatticePrice(S, K, params.value, N, optionType)))
    ensures res != Err(InvalidOptionType)
  {
    var dt := StepSize(T, N);
    if dt.Err? {
      return Err(dt.error);
    }
    var params := LatticeParameters(r, sigma, dt.value, m);
    if params.Err? {
      return Err(params.error);
    }
    if N < 0 {
      // the comprehension is empty and `option_values[0]` fails (line 71)
      return Err(IndexError);
    }
    var price := LatticeRootValue(S, K, params.value, N, optionType);
    res := Ok(price);
  }
}
