/** The closed-form engine `black_scholes_option_price` and `norm_cdf`,
    over the abstract `math` routines. */
module BlackScholes {
  import opened PricingCommon

  /** `norm_cdf` (lines 101-102): Φ(x) = (1 + erf(x/√2)) / 2. */
  function NormCdf(m: MathLib, x: real): (phi: real)
    requires m.sqrt(2.0) > 0.0
    ensures 2.0 * phi - 1.0 == m.erf(x / m.sqrt(2.0))
  {
    (1.0 + m.erf(x / m.sqrt(2.0))) / 2.0
  }

  /** Because erf is odd, Φ(x) + Φ(-x) = 1. */
  lemma NormCdfSymmetric(m: MathLib, x: real)
    requires Sound(m)
    ensures NormCdf(m, x) + NormCdf(m, -x) == 1.0
  {
    var s := m.sqrt(2.0);
    assert x / s + (-x) / s == 0.0;
  }

  /** d1 of line 89, with the exceptions Python raises while evaluating it,
      in evaluation order: S/K, log(S/K), sqrt(T), then the division by σ·√T. */
  function D1(S: real, K: real, r: real, sigma: real, T: real, m: MathLib): (res: Result<real>)
    ensures res.Ok? <==> K != 0.0 && 0.0 < S / K && 0.0 <= T && sigma * m.sqrt(T) != 0.0
    ensures K == 0.0 ==> res == Err(ZeroDivisionError)
    ensures K != 0.0 && (S / K <= 0.0 || T < 0.0) ==> res == Err(MathDomainError)
    ensures K != 0.0 && 0.0 < S / K && 0.0 <= T && sigma * m.sqrt(T) == 0.0 ==> res == Err(ZeroDivisionError)
    ensures res.Ok? ==> res.value * (sigma * m.sqrt(T)) == m.log(S / K) + (r + sigma * sigma / 2.0) * T
  {
    if K == 0.0 then Err(ZeroDivisionError)
    else if S / K <= 0.0 then Err(MathDomainError)
    else if T < 0.0 then Err(MathDomainError)
    else if sigma * m.sqrt(T) == 0.0 then Err(ZeroDivisionError)
    else Ok((m.log(S / K) + (r + sigma * sigma / 2.0) * T) / (sigma * m.sqrt(T)))
  }

  /** The call formula of line 92: S·Φ(d1) - K·e^(-rT)·Φ(d2). */
  function CallValue(S: real, K: real, r: real, T: real, d1: real, d2: real, m: MathLib): (c: real)
    requires m.sqrt(2.0) > 0.0
    ensures NormCdf(m, d1) == 1.0 && NormCdf(m, d2) == 1.0 ==> c == S - K * m.exp(-r * T)
    ensures NormCdf(m, d1) == 0.0 && NormCdf(m, d2) == 0.0 ==> c == 0.0
  {
    S * NormCdf(m, d1) - K * m.exp(-r * T) * NormCdf(m, d2)
  }

  /** The put formula of line 94: K·e^(-rT)·Φ(-d2) - S·Φ(-d1). */
  function PutValue(S: real, K: real, r: real, T: real, d1: real, d2: real, m: MathLib): (v: real)
    requires m.sqrt(2.0) > 0.0
    ensures NormCdf(m, -d1) == 1.0 && NormCdf(m, -d2) == 1.0 ==> v == K * m.exp(-r * T) - S
    ensures NormCdf(m, -d1) == 0.0 && NormCdf(m, -d2) == 0.0 ==> v == 0.0
  {
    K * m.exp(-r * T) * NormCdf(m, -d2) - S * NormCdf(m, -d1)
  }

  /** d2 of line 90: d1 - σ·√T. */
  function D2(sigma: real, T: real, d1: real, m: MathLib): (d2: real)
    ensures d2 + sigma * m.sqrt(T) == d1
  {
    d1 - sigma * m.sqrt(T)
  }

  /** `black_scholes_option_price` (lines 75-97): the call formula for exactly
      "call", the put formula for exactly "put", and ValueError for every
      other string, once d1 has been evaluated without an exception. */
  function BlackScholesOptionPrice(S: real, K: real, r: real, sigma: real, T: real, optionType: string, m: MathLib)
    : (res: Result<real>)
    requires m.sqrt(2.0) > 0.0
    ensures D1(S, K, r, sigma, T, m).Err? ==> res == Err(D1(S, K, r, sigma, T, m).error)
    ensures res.Ok? <==> D1(S, K, r, sigma, T, m).Ok? && (optionType == "call" || optionType == "put")
    ensures res == Err(InvalidOptionType) <==>
      D1(S, K, r, sigma, T, m).Ok? && optionType != "call" && optionType != "put"
    ensures res.Ok? && optionType == "call" ==>
      var d1 := D1(S, K, r, sigma, T, m).value;
      res.value == CallValue(S, K, r, T, d1, D2(sigma, T, d1, m), m)
    ensures res.Ok? && optionType == "put" ==>
      var d1 := D1(S, K, r, sigma, T, m).value;
      res.value == PutValue(S, K, r, T, d1, D2(sigma, T, d1, m), m)
  {
    match D1(S, K, r, sigma, T, m)
    case Err(e) => Err(e)
    case Ok(d1) =>
      var d2 := D2(sigma, T, d1, m);
      if optionType == "call" then Ok(CallValue(S, K, r, T, d1, d2, m))
      else if optionType == "put" then Ok(PutValue(S, K, r, T, d1, d2, m))
      else Err(InvalidOptionType)
  }

  /** Put-call parity of the two formulas: whenever d1 evaluates, the call
      price minus the put price is S - K·e^(-rT), whatever Φ's values. */
  lemma PutCallParity(S: real, K: real, r: real, sigma: real, T: real, m: MathLib)
    requires Sound(m)
    requires D1(S, K, r, sigma, T, m).Ok?
    ensures BlackScholesOptionPrice(S, K, r, sigma, T, "call", m).Ok?
    ensures BlackScholesOptionPrice(S, K, r, sigma, T, "put", m).Ok?
    ensures BlackScholesOptionPrice(S, K, r, sigma, T, "call", m).value
          - BlackScholesOptionPrice(S, K, r, sigma, T, "put", m).value
         == S - K * m.exp(-r * T)
  {
    var d1 := D1(S, K, r, sigma, T, m).value;
    var d2 := D2(sigma, T, d1, m);
    assert "put" != "call";
    FormulasParity(S, K, r, T, d1, d2, m);
  }

  /** Parity of the two formulas for any d1 and d2. */
  lemma FormulasParity(S: real, K: real, r: real, T: real, d1: real, d2: real, m: MathLib)
    requires Sound(m)
    ensures CallValue(S, K, r, T, d1, d2, m) - PutValue(S, K, r, T, d1, d2, m) == S - K * m.exp(-r * T)
  {
    NormCdfSymmetric(m, d1);
    NormCdfSymmetric(m, d2);
    Parity(S, K * m.exp(-r * T), NormCdf(m, d1), NormCdf(m, -d1), NormCdf(m, d2), NormCdf(m, -d2));
  }

  /** S·a - D·c - (D·e - S·b) = S - D when a + b = 1 and c + e = 1. */
  lemma Parity(S: real, D: real, a: real, b: real, c: real, e: real)
    requires a + b == 1.0 && c + e == 1.0
    ensures (S * a - D * c) - (D * e - S * b) == S - D
  {
    assert (S * a - D * c) - (D * e - S * b) == S * (a + b) - D * (c + e);
  }
}
