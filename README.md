# Option pricing: binomial lattice and Black-Scholes

This project models the pricing core of `options_pricing.py`: the
Cox-Ross-Rubinstein binomial lattice `binomial_option_price` and the
closed-form `black_scholes_option_price` with its helper `norm_cdf`. Prices
are Dafny `real`s. `math.exp`, `math.sqrt`, `math.log` and `math.erf` are
abstract functions bundled in `PricingCommon.MathLib`. The proofs use only
the facts collected in `PricingCommon.Sound`:
- the exponential is positive, and exp(x)·exp(-x) = 1;
- the error function is odd;
- √2 is positive.

Files:
- `pricing_common.dfy` (module `PricingCommon`): the exceptions the pricing
  code raises, a `Result` type that carries them, the abstract math routines,
  and Python's `max`.
- `binomial.dfy` (module `Binomial`) models the lattice:
  - the step size and the step parameters u, d, p, q with their exceptions;
  - the node prices S·u^j·d^(N-j) and the terminal payoffs;
  - the recursive tree value V(i, j);
  - the in-place backward induction, as methods over an `array<real>` that
    are proved to compute V(0, 0).

  Lemmas cover recombination, non-negativity, linearity and put-call parity
  of the lattice.
- `black_scholes.dfy` (module `BlackScholes`) models d1, d2, the dispatch on
  the option type with its `ValueError`, and Φ(x) + Φ(-x) = 1. It proves
  put-call parity of the two formulas.

Where the code and its description differ, the model follows the code:
- The lattice prices every string other than exactly `"call"` as a put and
  never rejects an option type. Only the closed form raises `ValueError` for
  an option type.
- Neither function validates its parameters. Bad inputs surface as Python's
  own exceptions: `ZeroDivisionError`, `ValueError("math domain error")`
  and `IndexError`. Each is modelled where the code raises it. The lattice
  raises `IndexError` only when N < 0 and the step parameters still
  evaluate, which needs Δt > 0 and so T < 0. With T > 0 and N < 0, Δt is
  negative and `math.sqrt` on line 56 raises the math domain error first.
  With T = 0, u = d = 1 and line 58 divides by zero.
- Non-negativity and monotonicity in S are guaranteed only when p is a
  probability, that is when d ≤ exp(r·Δt) ≤ u
  (`Binomial.LatticePriceNonNegative`, `Binomial.LatticePriceMonotoneInSpot`,
  `Binomial.RiskNeutralProbabilityInRange`). The code never checks this
  no-arbitrage condition. When exp(r·Δt) > u > 1, p exceeds 1 and an
  at-the-money one-step put gets a negative price
  (`Binomial.NegativePutWithoutNoArbitrage`). With p > 1 the put price can
  also rise with S (`Binomial.PutRisesWithSpotWithoutNoArbitrage`). For example, S = K = 100,
  r = 0.05, σ = 0.01, T = 1, N = 1 gives p ≈ 3.06 and a put price of about
  -1.95 (worked out by hand).

## Model

| member | source | states |
|---|---|---|
| PricingCommon.Max | options_pricing.py:63 | `max(a, b)` is at least both arguments and equals one of them |
| Binomial.StepSize | options_pricing.py:55 | Δt = T/N fails with ZeroDivisionError exactly when N = 0; otherwise Δt·N = T |
| Binomial.LatticeParameters | options_pricing.py:56-59 | Errors: a negative Δt gives a math domain error from `sqrt`; for Δt ≥ 0 every error is ZeroDivisionError, and the result is Ok exactly when Δt ≥ 0, u ≠ 0 and u - 1/u ≠ 0. Otherwise u = exp(σ√Δt), u·d = 1, u ≠ d, p + q = 1, and p·u + q·d = exp(r·Δt) |
| Binomial.LatticeIsRiskNeutral | options_pricing.py:56-59 | with a sound exponential, and disc = exp(-r·Δt) as on line 70, the parameters are risk-neutral (p + q = 1, p·u + q·d = growth, disc·growth = 1) and disc > 0 |
| Binomial.RiskNeutralProbabilityInRange | options_pricing.py:58-59 | when d < u: 0 ≤ p ≤ 1 if and only if d ≤ exp(r·Δt) ≤ u |
| Binomial.Pow | options_pricing.py:63 | defines x^n for a natural n (x^0 = 1, x^(n+1) = x·x^n), the `**` of line 63; it has no contract of its own, and its laws are stated by PowAdd, PowReciprocal and PowNonNegative |
| Binomial.PowNonNegative | options_pricing.py:63 | a power of a non-negative base is ≥ 0, and of a positive base > 0 |
| Binomial.PowAdd | options_pricing.py:63 | x^(a+b) = x^a·x^b for the powers `u**j`, `d**(N-j)` |
| Binomial.PowReciprocal | options_pricing.py:63 | u^k·d^k = 1 when u·d = 1 (d = 1/u, line 57) |
| Binomial.MoreUpMoves | options_pricing.py:63 | u^(e+k)·d^k = u^e when u·d = 1 |
| Binomial.MoreDownMoves | options_pricing.py:63 | u^j·d^(j+e) = (1/u)^e when u·d = 1 |
| Binomial.RecombinedPower | options_pricing.py:63 | u^j·d^(N-j) = u^(2j-N) for every j ≤ N when u·d = 1 |
| Binomial.NodePrice | options_pricing.py:63 | defines the node price S·u^j·d^(N-j): the root (N = 0) is S, the top node is S·u^N and the bottom node S·d^N; its recombination is stated by NodePriceIsIntPow |
| Binomial.NodePriceIsIntPow | options_pricing.py:63 | the node price S·u^j·d^(N-j) equals S·u^(2j-N) |
| Binomial.NodePriceRecombines | options_pricing.py:63 | with d = 1/u (line 57) the node price is S·u^(2j-N), so node (N+2, j+1) has the same price as node (N, j): the lattice recombines |
| Binomial.TreeValueMonotone | options_pricing.py:68-70 | with 0 ≤ p ≤ 1, q = 1 - p and disc ≥ 0, larger leaves give larger values at every node |
| Binomial.NodePriceMonotone | options_pricing.py:63 | with u, d ≥ 0 the node price S·u^j·d^(N-j) does not decrease as S grows |
| Binomial.LatticePriceMonotoneInSpot | options_pricing.py:62-71 | with p a probability, disc ≥ 0 and u, d ≥ 0, the call price does not decrease and the put price does not increase as S grows |
| Binomial.BinomialPriceMonotoneInSpot | options_pricing.py:55-71 | for the parameters of lines 56-59 with a sound exponential and 0 ≤ p ≤ 1, the call price does not decrease and the put price does not increase as S grows |
| Binomial.NodePriceSteps | options_pricing.py:63 | one step forward multiplies the node price by u on an up move and by d on a down move |
| Binomial.TerminalPayoff | options_pricing.py:63 | the payoff at a leaf is ≥ 0. It is the call payoff for exactly "call" and the put payoff for any other string |
| Binomial.TerminalValues | options_pricing.py:62-65 | the comprehension yields N+1 entries, all ≥ 0 |
| Binomial.TerminalEntries | options_pricing.py:62-65 | the list has N+1 entries. Entry j is max(0, S·u^j·d^(N-j) - K) for "call" and max(0, K - S·u^j·d^(N-j)) otherwise |
| Binomial.TerminalNotCallIsPut | options_pricing.py:63 | any string other than "call" ("Call", "straddle", …) gives exactly the terminal list of "put", without an error |
| Binomial.Discounted | options_pricing.py:70 | defines the assignment of line 70; when p + q = 1 and both successors are equal it is that value times disc; its sign and linearity are stated by DiscountedNonNegative and DiscountedLinear |
| Binomial.DiscountedNonNegative | options_pricing.py:70 | Assume 0 ≤ p ≤ 1, q = 1 - p, disc ≥ 0 and non-negative successors. Then the assignment of line 70 yields a value ≥ 0 |
| Binomial.TreeValueNonNegative | options_pricing.py:62-70 | with the same conditions and non-negative leaves, every tree value V(i, j) is ≥ 0 |
| Binomial.TreeValue | options_pricing.py:68-70 | defines V(N, j) = leaf j and V(i, j) = disc·(p·V(i+1, j+1) + q·V(i+1, j)); it has no contract of its own, and LatticeRootValue proves that the in-place loop computes V(0, 0) |
| Binomial.LatticePrice | options_pricing.py:62-71 | defines the price as V(0, 0) over the terminal list; it has no contract of its own, and its sign, monotonicity and parity are stated by LatticePriceNonNegative, LatticePriceMonotoneInSpot and LatticePutCallParity |
| Binomial.LatticePriceNonNegative | options_pricing.py:56-71 | with a sound exponential and 0 ≤ p ≤ 1, the lattice price is ≥ 0 |
| Binomial.ProbabilityAboveOne | options_pricing.py:58 | if p·u + (1 - p)·d = exp(r·Δt) and d < u < exp(r·Δt), then p > 1 |
| Binomial.OneStepPutNegative | options_pricing.py:62-71 | on a one-step lattice with 0 < d < 1 ≤ u, q < 0 and disc > 0, the at-the-money put price is < 0 |
| Binomial.PutRisesWithSpotWithoutNoArbitrage | options_pricing.py:62-71 | on the risk-neutral lattice u = 2, d = 1/2, p = 2, q = -1, the one-step at-the-money put is worth more at spot 1.2 than at spot 1 |
| Binomial.NegativePutWithoutNoArbitrage | options_pricing.py:55-71 | When the parameters of lines 56-59 evaluate, the exponential is sound and exp(r·Δt) > u = exp(σ·√Δt) > 1, then p > 1 and the at-the-money one-step put price is negative. The code has no guard against this |
| Binomial.DiscountedLinear | options_pricing.py:70 | one backward step is linear in its two successor values |
| Binomial.TreeValueLinear | options_pricing.py:68-70 | backward induction is linear in the leaves: the tree of a - b is the tree of a minus the tree of b |
| Binomial.DiscountedForward | options_pricing.py:70 | Assume risk-neutral parameters and successors X·u - C and X·d - C. Then one backward step gives X - disc·C |
| Binomial.DiscountOneStep | options_pricing.py:70 | K·disc^(n+1) = disc·(K·disc^n) |
| Binomial.DiscountedGridForward | options_pricing.py:70 | on a price grid and a discount curve, one backward step over forward values gives the parent's forward value |
| Binomial.ForwardStep | options_pricing.py:68-70 | if level i+1 holds forward values (grid price minus discounted strike), then so does node j of level i |
| Binomial.SpotGridGrows | options_pricing.py:63 | the node prices S·u^b·d^(a-b) grow by u on every up move and by d on every down move |
| Binomial.StrikeCurveDiscounts | options_pricing.py:70 | each further step multiplies the discounted strike K·disc^c by disc |
| Binomial.GridForwardValue | options_pricing.py:62-70 | Backward induction over forward leaves X(N, b) - Z(0) gives X(i, j) - Z(N - i) at every node (i, j), under the risk-neutral relations |
| Binomial.LatticePutCallParity | options_pricing.py:62-71 | with risk-neutral parameters, the call price minus the put price equals S - K·disc^N |
| Binomial.BinomialPutCallParity | options_pricing.py:55-71 | For the parameters the function derives, with a sound exponential: call - put = S - K·exp(-r·Δt)^N |
| Binomial.BackwardStep | options_pricing.py:69-70 | After one pass at level i, every j ≤ i holds disc·(p·old[j+1] + q·old[j]) and every entry above i is unchanged. This holds because ascending j reads entry j+1 before overwriting it |
| Binomial.LatticeRootValue | options_pricing.py:62-71 | the in-place level-by-level loop returns the recursive tree value V(0, 0) |
| Binomial.BinomialOptionPrice | options_pricing.py:41-71 | Errors: ZeroDivisionError for N = 0, then the step-parameter exceptions, then IndexError when N < 0 and the step parameters evaluate (Δt > 0, i.e. T < 0). Otherwise the result is the lattice price. An unknown option type is never an error |
| BlackScholes.NormCdf | options_pricing.py:101-102 | defines Φ(x) = (1 + erf(x/√2))/2, so that erf(x/√2) = 2Φ(x) - 1; its symmetry is stated by NormCdfSymmetric |
| BlackScholes.NormCdfSymmetric | options_pricing.py:101-102 | Φ(x) + Φ(-x) = 1 because erf is odd |
| BlackScholes.D1 | options_pricing.py:89 | d1 is evaluated in Python's order. K = 0 raises ZeroDivisionError; S/K ≤ 0 and T < 0 raise a math domain error; σ·√T = 0 raises ZeroDivisionError. Otherwise d1·σ√T = log(S/K) + (r + σ²/2)·T |
| BlackScholes.D2 | options_pricing.py:90 | d2 + σ·√T = d1 |
| BlackScholes.CallValue | options_pricing.py:92 | defines the call formula; when Φ(d1) = Φ(d2) = 1 it is the forward payoff S - K·exp(-rT), when both are 0 it is 0; parity is stated by FormulasParity |
| BlackScholes.PutValue | options_pricing.py:94 | defines the put formula; when Φ(-d1) = Φ(-d2) = 1 it is K·exp(-rT) - S, when both are 0 it is 0; parity is stated by FormulasParity |
| BlackScholes.BlackScholesOptionPrice | options_pricing.py:89-97 | Errors from d1 propagate. After that, exactly "call" gives the call formula and exactly "put" the put formula, both with d2 = d1 - σ√T. Any other string gives ValueError, and that happens if and only if d1 evaluates |
| BlackScholes.FormulasParity | options_pricing.py:92-94 | for every d1 and d2, with Φ odd-symmetric (line 102), call formula minus put formula = S - K·exp(-rT) |
| BlackScholes.PutCallParity | options_pricing.py:89-97 | whenever d1 evaluates, both option types succeed and call - put = S - K·exp(-rT) |

## Left out

- `main` (lines 6-37) is not modelled: it does console input and output, sweeps σ with `numpy.linspace`, rounds, and prints with `tabulate`.
- `strategy.py` is not part of this model. It downloads prices over the network, computes with pandas, and runs a backtest on import.
- Floating point is not modelled. All arithmetic is exact over `real`, and `exp`, `sqrt`, `log` and `erf` are abstract. Overflow (`OverflowError` from `math.exp` or `**`), underflow to 0, NaN and rounding are therefore out of scope. The u = 0 branch is kept only because `exp` is abstract: over the reals, and under `Sound`, u = exp(σ√Δt) is never 0; in Python only underflow could make it so. The branches u = d and σ·√T = 0 are reachable with σ = 0 or Δt = 0.
- Dynamic typing is not modelled. Arguments have fixed types (`N` is an `int`, the option type a string), so Python's `TypeError` paths do not arise.
- Line 70 recomputes `math.exp(-r * delta_t)` on every iteration. The model computes it once as `disc`, which is the same value for a pure function.
- Binomial.BinomialPutCallParity: the discount is stated as exp(-r·Δt)^N. Equality with exp(-r·T) would need exp(a)·exp(b) = exp(a + b), which the abstract exponential is not assumed to satisfy.
- Monotonicity in σ is not modelled for either engine. For the lattice it needs exp to be increasing, which `Sound` does not assume. Monotonicity in S is proved for the lattice only.
- The closed form's sign and its monotonicity in S and σ are not modelled. They depend on the shape of Φ (values in [0, 1], increasing), and erf is abstract here with only its oddness assumed.
- Convergence of the lattice price to the Black-Scholes price as N grows, and the behaviour of both prices as σ tends to 0 from above, are analytic limits and are not modelled.
