/**
 * The payoff arithmetic of credit_card.py: the minimum payment, the
 * interest of one 30-day cycle, the payoff simulation with its four
 * counters, and the argument checks. Money is exact `real` arithmetic.
 */
module CreditCard {
  import opened Wrappers

  /** `get_min_payment`: two percent of the balance plus fees, but never below 25. */
  function MinPayment(balance: real, fees: real): (r: real)
    ensures r >= 25.0 && r >= balance * 0.02 + fees
    ensures r == 25.0 || r == balance * 0.02 + fees
  {
    var minPayment := balance * 0.02 + fees;
    if minPayment >= 25.0 then minPayment else 25.0
  }

  /** The fraction of the balance one 30-day cycle charges at the given APR. */
  function CycleRate(apr: int): real {
    apr as real / 100.0 / 365.0 * 30.0
  }

  /** `interest_charged`: the APR spread over 365 days, charged for a 30-day cycle. */
  function Interest(balance: real, apr: int): (r: real)
    ensures apr == 0 || balance == 0.0 ==> r == 0.0
    ensures 0 <= apr && 0.0 <= balance ==> 0.0 <= r
  {
    var rate := apr as real / 100.0;
    (rate / 365.0) * balance * 30.0
  }

  /** One cycle's interest is the cycle rate times the balance. */
  lemma InterestIsRate(balance: real, apr: int)
    ensures Interest(balance, apr) == CycleRate(apr) * balance
  {
  }

  /** Interest is linear in the balance. */
  lemma InterestLinear(b1: real, b2: real, apr: int)
    ensures Interest(b1 + b2, apr) == Interest(b1, apr) + Interest(b2, apr)
  {
    InterestIsRate(b1, apr);
    InterestIsRate(b2, apr);
    InterestIsRate(b1 + b2, apr);
    assert CycleRate(apr) * (b1 + b2) == CycleRate(apr) * b1 + CycleRate(apr) * b2;
  }

  /** At a nonnegative APR a smaller balance never costs more interest. */
  lemma InterestMonotone(b1: real, b2: real, apr: int)
    requires 0 <= apr && b1 <= b2
    ensures Interest(b1, apr) <= Interest(b2, apr)
  {
    InterestIsRate(b1, apr);
    InterestIsRate(b2, apr);
    MulLe(CycleRate(apr), b1, b2);
  }

  /** At an APR of at most 100 one cycle charges at most 30/365 of the balance. */
  lemma InterestBound(balance: real, apr: int)
    requires 0.0 <= balance && apr <= 100
    ensures Interest(balance, apr) <= balance * 30.0 / 365.0
  {
    InterestIsRate(balance, apr);
    MulLe(balance, CycleRate(apr), 30.0 / 365.0);
  }

  /** A larger balance never lowers the minimum payment. */
  lemma MinPaymentMonotone(b1: real, b2: real, fees: real)
    requires b1 <= b2
    ensures MinPayment(b1, fees) <= MinPayment(b2, fees)
  {
  }

  lemma MulLe(x: real, y: real, z: real)
    requires 0.0 <= x && y <= z
    ensures x * y <= x * z
  {
    assert x * z - x * y == x * (z - y);
  }

  /** The payment of one iteration: the target when one is given, else the minimum payment. */
  function Payment(balance: real, target: Option<real>, fees: real): (r: real)
    ensures target.Some? ==> r == target.value
    ensures target.None? ==> r >= 25.0 && r >= balance * 0.02 + fees
  {
    if target.None? then MinPayment(balance, fees) else target.value
  }

  /** `balance_payment`: what one payment takes off the balance once interest is charged. */
  function Reduction(balance: real, apr: int, target: Option<real>, fees: real): real {
    Payment(balance, target, fees) - Interest(balance, apr)
  }

  /** The four counters `remaining_payments` returns. */
  datatype Tally = Tally(payments: nat, over25: nat, over50: nat, over75: nat)

  function Above(b: real, limit: real): nat {
    if b > limit then 1 else 0
  }

  /** The counters after one more payment that leaves balance b. */
  function Tallied(t: Tally, b: real, creditLine: int): Tally {
    var cl := creditLine as real;
    Tally(t.payments + 1, t.over25 + Above(b, 0.25 * cl), t.over50 + Above(b, 0.5 * cl),
          t.over75 + Above(b, 0.75 * cl))
  }

  /**
   * The counters for the balances left after each payment, in order: one
   * payment each, and one per threshold of the credit line the balance stays over.
   */
  function CountAbove(bs: seq<real>, creditLine: int): (t: Tally)
    ensures t.payments == |bs|
    decreases |bs|
  {
    if bs == [] then Tally(0, 0, 0, 0)
    else Tallied(CountAbove(bs[..|bs| - 1], creditLine), bs[|bs| - 1], creditLine)
  }

  /** Over 75% implies over 50% implies over 25%, so the counters are ordered. */
  lemma {:induction false} CountOrdered(bs: seq<real>, creditLine: int)
    requires 0 <= creditLine
    ensures var t := CountAbove(bs, creditLine);
      t.over75 <= t.over50 <= t.over25 <= t.payments
    decreases |bs|
  {
    if bs != [] {
      CountOrdered(bs[..|bs| - 1], creditLine);
    }
  }

  lemma CountAboveStep(trace: seq<real>, b: real, creditLine: int)
    requires |trace| >= 1
    ensures CountAbove((trace + [b])[1..], creditLine) == Tallied(CountAbove(trace[1..], creditLine), b, creditLine)
  {
    var bs := (trace + [b])[1..];
    assert bs[..|bs| - 1] == trace[1..];
  }

  /**
   * trace lists the balance before each loop iteration: every iteration but
   * the last started with a positive balance, took a positive reduction
   * and left the balance reduced by exactly that much.
   */
  ghost predicate Steps(trace: seq<real>, apr: int, target: Option<real>, fees: real) {
    forall i :: 0 <= i < |trace| - 1 ==>
      trace[i] > 0.0 && Reduction(trace[i], apr, target, fees) > 0.0 &&
      trace[i + 1] == trace[i] - Reduction(trace[i], apr, target, fees)
  }

  /** One more completed iteration extends the trace. */
  lemma StepsPush(trace: seq<real>, apr: int, target: Option<real>, fees: real, b: real)
    requires Steps(trace, apr, target, fees) && |trace| >= 1
    requires trace[|trace| - 1] > 0.0 && Reduction(trace[|trace| - 1], apr, target, fees) > 0.0
    requires b == trace[|trace| - 1] - Reduction(trace[|trace| - 1], apr, target, fees)
    ensures Steps(trace + [b], apr, target, fees)
  {
    var t := trace + [b];
    forall i | 0 <= i < |t| - 1
      ensures t[i] > 0.0 && Reduction(t[i], apr, target, fees) > 0.0 &&
              t[i + 1] == t[i] - Reduction(t[i], apr, target, fees)
    {
      assert t[i] == trace[i];
    }
  }

  /** A completed iteration strictly lowers the balance. */
  lemma StepsDecrease(trace: seq<real>, apr: int, target: Option<real>, fees: real, i: nat, j: nat)
    requires Steps(trace, apr, target, fees) && i < j < |trace|
    ensures trace[j] < trace[i]
    decreases j - i
  {
    if j > i + 1 {
      StepsDecrease(trace, apr, target, fees, i, j - 1);
    }
  }

  function Min(x: real, y: real): real {
    if x <= y then x else y
  }

  /**
   * A positive amount every iteration after a successful first one takes
   * off at least, from starting balance b0 down to zero.
   */
  ghost function Delta(b0: real, apr: int, target: Option<real>, fees: real): (d: real)
    ensures d > 0.0
  {
    var c := CycleRate(apr);
    var d := if target.None? && c < 0.02 then Min(12.5, (0.02 - c) * 625.0 + fees)
             else Reduction(b0, apr, target, fees);
    if d > 0.0 then d else 1.0
  }

  /**
   * Once the first payment from b0 is positive, every later payment from a
   * smaller positive balance takes off at least Delta: a fixed target is
   * charged less interest on a smaller balance, and the minimum payment
   * falls by at most two percent of what the balance falls.
   */
  lemma ReductionFloor(b0: real, b: real, apr: int, target: Option<real>, fees: real)
    requires 0 <= apr && (target.None? ==> 0.0 <= fees)
    requires 0.0 < b <= b0 && Reduction(b0, apr, target, fees) > 0.0
    ensures Reduction(b, apr, target, fees) >= Delta(b0, apr, target, fees)
  {
    var c := CycleRate(apr);
    var p, p0 := Payment(b, target, fees), Payment(b0, target, fees);
    InterestIsRate(b, apr);
    InterestIsRate(b0, apr);
    assert Reduction(b, apr, target, fees) == p - c * b;
    assert Reduction(b0, apr, target, fees) == p0 - c * b0;
    if target.None? && c < 0.02 {
      LowRateFloor(b, c, fees, p);
    } else {
      if target.None? {
        assert p0 - p <= 0.02 * (b0 - b);
      }
      SmallerBalanceFloor(b, b0, c, p, p0, if target.None? then 0.02 else 0.0);
    }
  }

  /**
   * Below a rate of two percent a payment of at least 25 and at least two
   * percent plus fees leaves at least 12.5, or the rate gap times 625 plus fees.
   */
  lemma LowRateFloor(b: real, c: real, fees: real, p: real)
    requires 0.0 <= c < 0.02 && 0.0 < b && 0.0 <= fees
    requires p >= 25.0 && p >= b * 0.02 + fees
    ensures p - c * b >= Min(12.5, (0.02 - c) * 625.0 + fees)
  {
    var k := 0.02 - c;
    assert k * b == 0.02 * b - c * b;
    if b > 625.0 {
      MulLe(k, 625.0, b);
    } else {
      MulLe(b, c, 0.02);
    }
  }

  /**
   * When the payment falls by at most slope times the fall in balance and the
   * rate is at least that slope, a smaller balance leaves no less.
   */
  lemma SmallerBalanceFloor(b: real, b0: real, c: real, p: real, p0: real, slope: real)
    requires 0.0 <= slope <= c && b <= b0 && p0 - p <= slope * (b0 - b)
    ensures p - c * b >= p0 - c * b0
  {
    MulLe(b0 - b, slope, c);
    assert c * (b0 - b) == c * b0 - c * b;
  }

  /** An upper bound on the iterations left from balance b when each takes off at least d. */
  ghost function StepsLeft(b: real, d: real): nat
    requires 0.0 < d
  {
    if b > 0.0 then
      DivLe(0.0, b, d);
      ((b / d).Floor + 1) as nat
    else 0
  }

  /** An iteration that takes off at least d lowers StepsLeft. */
  lemma FloorStep(b: real, b': real, d: real)
    requires 0.0 < d && 0.0 < b && b' <= b - d
    ensures StepsLeft(b', d) < StepsLeft(b, d)
  {
    DivLe(b', b - d, d);
    assert (b - d) / d == b / d - 1.0 by {
      assert (b / d - 1.0) * d == b - d;
      DivOf(b - d, b / d - 1.0, d);
    }
  }

  lemma MulLt(x: real, y: real, z: real)
    requires 0.0 < x && y < z
    ensures x * y < x * z
  {
    assert x * z - x * y == x * (z - y);
  }

  /** q is the quotient x / d exactly when q * d is x. */
  lemma DivOf(x: real, q: real, d: real)
    requires 0.0 < d && q * d == x
    ensures x / d == q
  {
  }

  lemma DivLe(x: real, y: real, d: real)
    requires 0.0 < d && x <= y
    ensures x / d <= y / d
  {
    var qx, qy := x / d, y / d;
    assert qx * d == x && qy * d == y;
    if qx > qy {
      MulLt(d, qy, qx);
    }
  }

  /**
   * The state of the payoff loop from starting balance b0: trace leads from b0
   * to the current balance b by completed iterations, t counts them, and
   * once one has been made the first reduction was positive.
   */
  ghost predicate Paying(b0: real, apr: int, target: Option<real>, fees: real, creditLine: int,
                         trace: seq<real>, b: real, t: Tally) {
    |trace| >= 1 && trace[0] == b0 && trace[|trace| - 1] == b && b <= b0 &&
    Steps(trace, apr, target, fees) && t == CountAbove(trace[1..], creditLine) &&
    (t.payments == 0 ==> b == b0) && (t.payments > 0 ==> Reduction(b0, apr, target, fees) > 0.0)
  }

  /** A completed iteration keeps the loop state and lowers StepsLeft. */
  lemma PayingStep(b0: real, apr: int, target: Option<real>, fees: real, creditLine: int,
                   trace: seq<real>, b: real, t: Tally, b': real, t': Tally)
    requires 0 <= apr && (target.None? ==> 0.0 <= fees)
    requires Paying(b0, apr, target, fees, creditLine, trace, b, t)
    requires b > 0.0 && Reduction(b, apr, target, fees) > 0.0
    requires b' == b - Reduction(b, apr, target, fees) && t' == Tallied(t, b', creditLine)
    ensures Paying(b0, apr, target, fees, creditLine, trace + [b'], b', t')
    ensures StepsLeft(b', Delta(b0, apr, target, fees)) < StepsLeft(b, Delta(b0, apr, target, fees))
  {
    ReductionFloor(b0, b, apr, target, fees);
    FloorStep(b, b', Delta(b0, apr, target, fees));
    StepsPush(trace, apr, target, fees, b');
    CountAboveStep(trace, b', creditLine);
  }

  /** What the loop state says once the loop stops, with either exit. */
  lemma PayingEnd(b0: real, apr: int, target: Option<real>, fees: real, creditLine: int,
                  trace: seq<real>, b: real, t: Tally)
    requires Paying(b0, apr, target, fees, creditLine, trace, b, t)
    ensures |trace| >= 1 && trace[0] == b0 && Steps(trace, apr, target, fees)
    ensures trace[|trace| - 1] == b && t == CountAbove(trace[1..], creditLine)
    ensures b0 <= 0.0 ==> t == Tally(0, 0, 0, 0)
    ensures 0 <= creditLine ==> t.over75 <= t.over50 <= t.over25 <= t.payments
  {
    if 0 <= creditLine {
      CountOrdered(trace[1..], creditLine);
    }
    assert |trace| > 1 ==> trace[0] > 0.0;
  }

  /**
   * `remaining_payments`: pays the card down until the balance is not
   * positive and counts the payments and the months over 25%, 50% and 75%
   * of the credit line; None when a payment does not cover the interest.
   * The ghost trace holds the balance before each iteration.
   */
  method RemainingPayments(balance: real, apr: int, target: Option<real>, creditLine: int, fees: real)
    returns (r: Option<Tally>, ghost trace: seq<real>)
    requires 0 <= apr
    requires target.None? ==> 0.0 <= fees
    ensures |trace| >= 1 && trace[0] == balance && Steps(trace, apr, target, fees)
    ensures r.Some? ==> trace[|trace| - 1] <= 0.0 && r.value == CountAbove(trace[1..], creditLine)
    ensures r.None? ==> trace[|trace| - 1] > 0.0 && Reduction(trace[|trace| - 1], apr, target, fees) <= 0.0
    ensures balance <= 0.0 ==> r == Some(Tally(0, 0, 0, 0))
    ensures r.Some? && 0 <= creditLine ==>
      r.value.over75 <= r.value.over50 <= r.value.over25 <= r.value.payments
  {
    var paymentCount: nat, over25Count: nat, over50Count: nat, over75Count: nat := 0, 0, 0, 0;
    var b := balance;
    trace := [balance];
    ghost var delta := Delta(balance, apr, target, fees);
    while b > 0.0
      invariant Paying(balance, apr, target, fees, creditLine, trace, b,
                       Tally(paymentCount, over25Count, over50Count, over75Count))
      decreases StepsLeft(b, delta)
    {
      var payment := Payment(b, target, fees);
      var interest := Interest(b, apr);
      var balancePayment := payment - interest;
      if balancePayment <= 0.0 {
        PayingEnd(balance, apr, target, fees, creditLine, trace, b,
                  Tally(paymentCount, over25Count, over50Count, over75Count));
        return None, trace;
      }
      ghost var before, b0, t := trace, b, Tally(paymentCount, over25Count, over50Count, over75Count);
      b := b - balancePayment;
      var cl := creditLine as real;
      if b > 0.75 * cl {
        over75Count := over75Count + 1;
      }
      if b > 0.5 * cl {
        over50Count := over50Count + 1;
      }
      if b > 0.25 * cl {
        over25Count := over25Count + 1;
      }
      paymentCount := paymentCount + 1;
      trace := trace + [b];
      PayingStep(balance, apr, target, fees, creditLine, before, b0, t,
                 b, Tally(paymentCount, over25Count, over50Count, over75Count));
    }
    r := Some(Tally(paymentCount, over25Count, over50Count, over75Count));
    PayingEnd(balance, apr, target, fees, creditLine, trace, b, r.value);
  }

  /** The parsed command line: balance, APR, credit line, optional payment, fees. */
  datatype Args = Args(balance: real, apr: int, creditLine: int, payment: Option<int>, fees: real)

  datatype Checked = Accepted(args: Args) | Rejected(message: string)

  /** The checks of `parse_args`, in order; the first that fails names the error. */
  function CheckArgs(a: Args): (r: Checked)
    ensures r.Accepted? <==>
      0.0 <= a.balance && 0 <= a.apr <= 100 && 1 <= a.creditLine &&
      (a.payment.Some? ==> 0 <= a.payment.value) && 0.0 <= a.fees
    ensures r.Accepted? ==> r.args == a
    ensures a.balance < 0.0 ==> r == Rejected("balance amount must be positive")
    ensures 0.0 <= a.balance && !(0 <= a.apr <= 100) ==> r == Rejected("APR must be between 0 and 100")
  {
    if a.balance < 0.0 then Rejected("balance amount must be positive")
    else if !(0 <= a.apr <= 100) then Rejected("APR must be between 0 and 100")
    else if a.creditLine < 1 then Rejected("credit line must be positive")
    else if a.payment.Some? && a.payment.value < 0 then Rejected("number of payments per year must be positive")
    else if a.fees < 0.0 then Rejected("fees must be positive")
    else Accepted(a)
  }

  /**
   * Accepted arguments meet what the payoff simulation needs to finish and
   * give ordered counters: a nonnegative APR and fees, a positive credit line.
   */
  lemma AcceptedArgsPayOff(a: Args)
    requires CheckArgs(a).Accepted?
    ensures 0 <= a.apr && 0.0 <= a.fees && 0 <= a.creditLine
    ensures Interest(a.balance, a.apr) <= a.balance * 30.0 / 365.0
  {
    InterestBound(a.balance, a.apr);
  }
}
