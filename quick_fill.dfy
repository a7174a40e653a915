/** The balance quick-fill values of the token input: the largest amount the user may fill in
    (`balanceMaxString`, `maxString`, `maxDecimal`), the native-asset fee reserve held back from
    it (`getBalanceString`), and the displayed total price. */
module QuickFill {
  import opened Options
  import opened Numerals
  import opened Decimals
  import opened DecimalStrings
  import opened Tokens

  /** `DEFAULT_SOL_RESERVER = 0.01`, the reserve kept for fees when no other is given. */
  const DEFAULT_SOL_RESERVE: Dec := Dec(1, 2)

  /** `maxMultiplier || 1`: `None` stands for every falsy multiplier (absent, 0, ""). */
  function Multiplier(maxMultiplier: Option<Dec>): Dec {
    if maxMultiplier.None? then ONE else maxMultiplier.value
  }

  /** `token?.decimals ?? 6`. */
  function BalancePlaces(decimals: Option<nat>): nat {
    if decimals.None? then 6 else decimals.value
  }

  /** `balanceMaxString`: the balance times the multiplier, rounded down (`ROUND_FLOOR`) to the
      token's places and without trailing zeros; `None` (null) when the balance is hidden. */
  function BalanceMaxString(balance: Dec, maxMultiplier: Option<Dec>, decimals: Option<nat>, hideBalance: bool): (r: Option<string>)
    ensures r.None? <==> hideBalance
  {
    if hideBalance then None
    else Some(TrimTrailZero(ToFixed(FloorTo(Mul(balance, Multiplier(maxMultiplier)), BalancePlaces(decimals)))))
  }

  /** When shown, it is a non-empty decimal with at most the token's places, never above
      balance x multiplier and less than one unit of its last place below it. */
  lemma BalanceMaxStringFloors(balance: Dec, maxMultiplier: Option<Dec>, decimals: Option<nat>)
    ensures var r := BalanceMaxString(balance, maxMultiplier, decimals, false);
      && r.Some? && r.value != [] && Parse(r.value).Some?
      && Parse(r.value).value.places <= BalancePlaces(decimals)
      && var t := Parse(r.value).value;
         Value(t) <= Value(Mul(balance, Multiplier(maxMultiplier))) < Value(t) + Ulp(BalancePlaces(decimals))
  {
    var p := Mul(balance, Multiplier(maxMultiplier));
    FlooredText(p, BalancePlaces(decimals));
  }

  /** The floored, trimmed text of `p` at `k` places reads back as a value at most `k` places
      long within one unit of the last place below `p`. */
  lemma FlooredText(p: Dec, k: nat)
    ensures var s := TrimTrailZero(ToFixed(FloorTo(p, k)));
      && s != [] && Parse(s).Some? && Parse(s).value.places <= k
      && Value(Parse(s).value) <= Value(p) < Value(Parse(s).value) + Ulp(k)
  {
    var f := FloorTo(p, k);
    TrimTrailZeroToFixed(f);
    ParseRender(f);
    FloorToValue(p, k);
  }

  /** For example a balance of 12.345 on a 2-place token gives "12.34". */
  lemma BalanceMaxStringExample()
    ensures BalanceMaxString(Dec(12345, 3), None, Some(2), false) == Some("12.34")
  {
    assert Mul(Dec(12345, 3), ONE) == Dec(12345, 3);
    var f := FloorTo(Dec(12345, 3), 2);
    assert f == Dec(1234, 2) by { assert f.units * 10 <= 12345 < (f.units + 1) * 10; }
    TrimTrailZeroToFixed(f);
    assert Trimmed(Dec(1234, 2));
    BalanceFixedExample();
  }

  lemma BalanceFixedExample()
    ensures ToFixed(Dec(1234, 2)) == "12.34"
  {
    assert NatDigits(12) == "12" by { assert NatDigits(1) == "1"; }
    assert ToFixed(Dec(12, 0)) == "12";
    assert ToFixed(Dec(123, 1)) == "12.3";
  }

  /** `maxString`: the forced amount with trailing zeros trimmed when one is given (an empty
      text is the falsy case), otherwise `balanceMaxString`. */
  function MaxString(forceBalanceAmount: string, balanceMaxString: Option<string>): Option<string> {
    if forceBalanceAmount != [] then Some(TrimTrailZero(forceBalanceAmount)) else balanceMaxString
  }

  /** `maxDecimal`: the forced amount read as a decimal (`None` where decimal.js throws),
      otherwise the balance itself. */
  function MaxDecimal(forceBalanceAmount: string, balance: Dec): Option<Dec> {
    if forceBalanceAmount != [] then Parse(forceBalanceAmount) else Some(balance)
  }

  /** `maxString` and `maxDecimal` describe the same amount: for a forced amount written in fixed
      notation both read back as it, and without one `maxString` is the floored balance. */
  lemma MaxStringMatchesMaxDecimal(force: Dec, balance: Dec, maxMultiplier: Option<Dec>, decimals: Option<nat>)
    ensures var forced := ToFixed(force);
      && Parse(MaxString(forced, BalanceMaxString(balance, maxMultiplier, decimals, false)).value) == Some(Trim(force))
      && MaxDecimal(forced, balance) == Some(force)
      && Value(Trim(force)) == Value(force)
    ensures MaxDecimal([], balance) == Some(balance)
    ensures MaxString([], BalanceMaxString(balance, maxMultiplier, decimals, false)) == BalanceMaxString(balance, maxMultiplier, decimals, false)
  {
    TrimTrailZeroToFixed(force);
    ParseRender(force);
    ParseToFixed(force);
  }

  /** `getBalanceString(amount)`. For the native SOL mint (`solMint`) with a known
      `balanceMaxString`, when filling `amount` would leave less than `reserve` of headroom, the
      amount less the reserve (never below 0), fixed half-up to the token's places
      (`toFixed`) and trimmed, is returned instead. `None` where decimal.js throws. */
  function GetBalanceString(amount: string, token: Option<Token>, balanceMaxString: Option<string>,
                            reserve: Dec, solMint: string): Option<string>
  {
    if !IsMint(token, solMint) || balanceMaxString.None? || balanceMaxString.value == [] then Some(amount)
    else
      match (Parse(balanceMaxString.value), Parse(amount))
      case (None, _) => None
      case (_, None) => None
      case (Some(mx), Some(a)) =>
        if AtLeast(mx, Add(a, reserve)) then Some(amount)
        else Some(TrimTrailZero(ToFixed(RoundHalfUpTo(ClampedSub(a, reserve), token.value.decimals))))
  }

  /** `token?.address === mint`. */
  predicate IsMint(token: Option<Token>, mint: string) {
    token.Some? && token.value.address == mint
  }

  /** The amount passes through unchanged for any other token, without a maximum, or when the
      maximum less the amount is at least the reserve. */
  lemma GetBalanceStringReserveSkipped(amount: string, token: Option<Token>,
                                       balanceMaxString: Option<string>, reserve: Dec, solMint: string)
    requires
      || !IsMint(token, solMint) || balanceMaxString.None? || balanceMaxString.value == []
      || (&& Parse(balanceMaxString.value).Some? && Parse(amount).Some?
          && Value(Parse(balanceMaxString.value).value) - Value(Parse(amount).value) >= Value(reserve))
    ensures GetBalanceString(amount, token, balanceMaxString, reserve, solMint) == Some(amount)
  {
    if IsMint(token, solMint) && balanceMaxString.Some? && balanceMaxString.value != [] {
      assert AtLeast(Parse(balanceMaxString.value).value, Add(Parse(amount).value, reserve));
    }
  }

  /** Otherwise the result is the amount less the reserve, clamped at 0 and rounded half-up to
      the token's places: a non-negative decimal with at most that many places within half a
      unit of the last place of max(0, amount - reserve), and exactly it when that fits. */
  lemma GetBalanceStringReserveApplied(amount: string, sol: Token, balanceMaxString: string,
                                       reserve: Dec, mx: Dec, a: Dec)
    requires balanceMaxString != []
    requires Parse(balanceMaxString) == Some(mx) && Parse(amount) == Some(a)
    requires Value(mx) - Value(a) < Value(reserve)
    ensures var r := GetBalanceString(amount, Some(sol), Some(balanceMaxString), reserve, sol.address);
      && r.Some? && Parse(r.value).Some?
      && var t := Parse(r.value).value;
      && var kept := if Value(a) < Value(reserve) then 0.0 else Value(a) - Value(reserve);
      && t.places <= sol.decimals
      && Value(t) >= 0.0
      && kept - Value(t) < Ulp(sol.decimals) / 2.0
      && Value(t) - kept <= Ulp(sol.decimals) / 2.0
      && (ClampedSub(a, reserve).places <= sol.decimals ==> Value(t) == kept)
  {
    var c := RoundHalfUpTo(ClampedSub(a, reserve), sol.decimals);
    TrimTrailZeroToFixed(c);
    ParseRender(c);
    RoundHalfUpToValue(ClampedSub(a, reserve), sol.decimals);
    ValueNonNegative(Trim(c));
  }

  /** With a maximum of "5" and the default 0.01 reserve on the SOL token, "3" is kept. */
  lemma GetBalanceStringKeepsExample(sol: Token)
    ensures GetBalanceString("3", Some(sol), Some("5"), DEFAULT_SOL_RESERVE, sol.address) == Some("3")
  {
    ParseDigits("3");
    ParseDigits("5");
    assert DigitsValue("3") == 3 && DigitsValue("5") == 5;
    assert Value(Dec(5, 0)) == 5.0 && Value(Dec(3, 0)) == 3.0;
    assert Value(DEFAULT_SOL_RESERVE) == 0.01;
    GetBalanceStringReserveSkipped("3", Some(sol), Some("5"), DEFAULT_SOL_RESERVE, sol.address);
  }

  /** With the same maximum and reserve on the 9-place SOL token, "5" becomes "4.99". */
  lemma GetBalanceStringReservesExample(sol: Token)
    requires sol.decimals == 9
    ensures GetBalanceString("5", Some(sol), Some("5"), DEFAULT_SOL_RESERVE, sol.address) == Some("4.99")
  {
    ParseDigits("5");
    assert DigitsValue("5") == 5;
    assert Value(Dec(5, 0)) == 5.0;
    assert Value(DEFAULT_SOL_RESERVE) == 0.01;
    assert !AtLeast(Dec(5, 0), Add(Dec(5, 0), DEFAULT_SOL_RESERVE));
    var c := RoundHalfUpTo(ClampedSub(Dec(5, 0), DEFAULT_SOL_RESERVE), sol.decimals);
    assert GetBalanceString("5", Some(sol), Some("5"), DEFAULT_SOL_RESERVE, sol.address) == Some(TrimTrailZero(ToFixed(c)));
    ReserveExampleValue();
    TrimTrailZeroToFixed(c);
    RenderReserveExample();
  }

  lemma ReserveExampleValue()
    ensures RoundHalfUpTo(ClampedSub(Dec(5, 0), DEFAULT_SOL_RESERVE), 9) == Dec(4990000000, 9)
  {
    assert ClampedSub(Dec(5, 0), DEFAULT_SOL_RESERVE) == Dec(499, 2);
    assert Pow10(7) == 10000000;
  }

  lemma RenderReserveExample()
    ensures Render(Dec(4990000000, 9)) == "4.99"
  {
    TrimSteps(499, 2, 7);
    assert 499 * Pow10(7) == 4990000000;
    assert Trimmed(Dec(499, 2));
    ToFixedExample();
  }

  lemma ToFixedExample()
    ensures ToFixed(Dec(499, 2)) == "4.99"
  {
    assert ToFixed(Dec(4, 0)) == "4";
    assert ToFixed(Dec(49, 1)) == "4.9";
  }

  /** `totalPrice`: price x value as decimal.js writes it, or "" when there is no price (or a
      zero one) or no value. `None` where decimal.js throws on the value. */
  function TotalPrice(price: Option<Dec>, value: string): Option<string> {
    if price.None? || price.value.units == 0 || value == [] then Some("")
    else
      match Parse(value)
      case None => None
      case Some(v) => Some(Render(Mul(price.value, v)))
  }

  /** A shown total price reads back as exactly price x value. */
  lemma TotalPriceExact(price: Dec, value: string, v: Dec)
    requires price.units != 0 && Parse(value) == Some(v)
    ensures var r := TotalPrice(Some(price), value);
      && r.Some? && r.value != [] && Parse(r.value).Some?
      && Value(Parse(r.value).value) == Value(price) * Value(v)
  {
    ParseRender(Mul(price, v));
  }

  lemma {:induction false} TrimSteps(u: nat, p: nat, e: nat)
    ensures Trim(Dec(u * Pow10(e), p + e)) == Trim(Dec(u, p))
  {
    if e > 0 {
      var x := u * Pow10(e - 1);
      ShiftPow10(u, e);
      TrimTen(x, p + e);
      TrimSteps(u, p, e - 1);
    }
  }

  lemma ShiftPow10(u: nat, e: nat)
    requires e > 0
    ensures u * Pow10(e) == (u * Pow10(e - 1)) * 10
  {
  }

  lemma TrimTen(x: nat, places: nat)
    requires places > 0
    ensures Trim(Dec(x * 10, places)) == Trim(Dec(x, places - 1))
  {
    assert (x * 10) % 10 == 0 && (x * 10) / 10 == x;
  }
}
