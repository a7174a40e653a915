/** The token input component: the pending-token slots and dialog flags it updates, and the
    callbacks it fires, recorded in order in one effects log. */
module TokenInputComponent {
  import opened Options
  import opened Numerals
  import opened Decimals
  import opened DecimalStrings
  import opened AmountInput
  import opened QuickFill
  import opened Tokens

  /** Which handler fired an `onTokenChange`; the unknown-token confirmation fires twice, the
      second time from a deferred callback. */
  datatype Handler = SelectToken | UnknownConfirm | UnknownConfirmDeferred | FreezeConfirm

  /** A callback the component fires: `onTokenChange`, `setExtraTokenListAct` (registration),
      `onChange` and `onFocus`. */
  datatype Effect =
    | TokenChange(token: Token, via: Handler)
    | Register(token: Token)
    | AmountChange(value: string)
    | Focus

  /** The props the amount handlers read, with the store reads passed in: the raw value, the
      selected token, the wallet balance, the display switches, the forced maximum ("" when
      absent), the multiplier, the SOL reserve, the SOL mint address and the locale's decimal
      separator. */
  datatype AmountProps = AmountProps(
    value: string, token: Option<Token>, balance: Dec, hideBalance: bool, disableClickBalance: bool,
    forceBalanceAmount: string, maxMultiplier: Option<Dec>, solReserve: Dec, solMint: string,
    separator: char)

  function TokenDecimals(token: Option<Token>): Option<nat> {
    if token.Some? then Some(token.value.decimals) else None
  }

  /** `value`: the amount as shown, clamped to the token's precision. */
  function ShownValue(p: AmountProps): Option<string> {
    ShakeValueDecimal(p.value, TokenDecimals(p.token))
  }

  function PropsBalanceMaxString(p: AmountProps): Option<string> {
    BalanceMaxString(p.balance, p.maxMultiplier, TokenDecimals(p.token), p.hideBalance)
  }

  function PropsMaxString(p: AmountProps): Option<string> {
    MaxString(p.forceBalanceAmount, PropsBalanceMaxString(p))
  }

  /** The component renders (and so has handlers) only when decimal.js accepts the shown
      value and the forced maximum. */
  predicate Renders(p: AmountProps) {
    ShownValue(p).Some? && MaxDecimal(p.forceBalanceAmount, p.balance).Some?
  }

  /** What `handleFocus` fires: clear a shown "0", then `onFocus`. */
  function FocusEffects(p: AmountProps): seq<Effect> {
    (if ShownValue(p) == Some("0") then [AmountChange("")] else []) + [Focus]
  }

  /** An `onChange` with the quick-fill amount, or nothing where decimal.js throws. */
  function FillEffects(amount: Option<string>): seq<Effect> {
    if amount.Some? then [AmountChange(amount.value)] else []
  }

  /** The amount MAX fills in: `getBalanceString(maxString)`. */
  function MaxFill(p: AmountProps): Option<string>
    requires PropsMaxString(p).Some?
  {
    GetBalanceString(PropsMaxString(p).value, p.token, PropsBalanceMaxString(p), p.solReserve, p.solMint)
  }

  /** The amount 50% fills in: `getBalanceString(maxDecimal.div(2).toString())`, not floored. */
  function HalfFill(p: AmountProps): Option<string>
    requires Renders(p)
  {
    var half := Render(Half(MaxDecimal(p.forceBalanceAmount, p.balance).value));
    GetBalanceString(half, p.token, PropsBalanceMaxString(p), p.solReserve, p.solMint)
  }

  /** The emission rule: an unknown token reaches `onTokenChange` only after its user-added
      copy was registered, and in the 'swap' input a freeze token only from the freeze
      confirmation. */
  predicate EmissionAllowed(store: Store, name: string, prior: seq<Effect>, e: Effect) {
    e.TokenChange? ==>
      && (IsUnknownToken(store, e.token) ==> Register(AsUserAdded(e.token)) in prior)
      && (name == "swap" && IsFreezeToken(store, e.token) ==> e.via == FreezeConfirm)
  }

  /** Every entry of the log keeps the emission rule with respect to what came before it. */
  predicate GatedLog(store: Store, name: string, log: seq<Effect>) {
    forall i :: 0 <= i < |log| ==> EmissionAllowed(store, name, log[..i], log[i])
  }

  /** Appending an entry that keeps the rule keeps the whole log gated. */
  lemma GatedLogAppend(store: Store, name: string, log: seq<Effect>, e: Effect)
    ensures GatedLog(store, name, log) && EmissionAllowed(store, name, log, e) ==> GatedLog(store, name, log + [e])
  {
    if GatedLog(store, name, log) && EmissionAllowed(store, name, log, e) {
      forall i | 0 <= i < |log + [e]|
        ensures EmissionAllowed(store, name, (log + [e])[..i], (log + [e])[i])
      {
        if i < |log| {
          assert (log + [e])[..i] == log[..i];
        } else {
          assert (log + [e])[..i] == log;
        }
      }
    }
  }

  /** Away from the SOL mint, with the balance shown and nothing forced, MAX fills in the
      floored balance x multiplier: never above it, less than one unit of the token's last
      place below it. */
  lemma ClickMaxFillsFlooredBalance(p: AmountProps)
    requires !p.hideBalance && p.forceBalanceAmount == [] && !IsMint(p.token, p.solMint)
    ensures PropsMaxString(p).Some? && PropsMaxString(p).value != []
    ensures MaxFill(p) == PropsMaxString(p)
    ensures Parse(MaxFill(p).value).Some?
    ensures var t := Parse(MaxFill(p).value).value;
      Value(t) <= Value(Mul(p.balance, Multiplier(p.maxMultiplier))) < Value(t) + Ulp(BalancePlaces(TokenDecimals(p.token)))
  {
    BalanceMaxStringFloors(p.balance, p.maxMultiplier, TokenDecimals(p.token));
    GetBalanceStringReserveSkipped(PropsMaxString(p).value, p.token, PropsBalanceMaxString(p), p.solReserve, p.solMint);
  }

  /** Away from the SOL mint, 50% fills in exactly half the maximum, unfloored. */
  lemma ClickHalfFillsHalf(p: AmountProps)
    requires Renders(p) && !IsMint(p.token, p.solMint)
    ensures HalfFill(p).Some? && Parse(HalfFill(p).value).Some?
    ensures Value(Parse(HalfFill(p).value).value) * 2.0 == Value(MaxDecimal(p.forceBalanceAmount, p.balance).value)
  {
    var h := Half(MaxDecimal(p.forceBalanceAmount, p.balance).value);
    GetBalanceStringReserveSkipped(Render(h), p.token, PropsBalanceMaxString(p), p.solReserve, p.solMint);
    ParseRender(h);
  }

  /** A selection that reaches the input while the 'swap' freeze dialog is open (the
      `defaultUnknownToken` effect selects on its own) retargets the freeze slot: confirming
      the dialog then emits an unknown token that was never registered. */
  method RetargetedFreezeDialog() returns (store: Store, log: seq<Effect>)
    ensures |log| == 1 && log[0].TokenChange? && IsUnknownToken(store, log[0].token)
    ensures !GatedLog(store, "swap", log)
  {
    store := Store(map[], {}, true);
    var known := Token("F", 6, "spl", ["hasFreeze"], false);
    var unknown := Token("U", 6, "", ["hasFreeze"], false);
    var input := new TokenInput("swap", store);
    input.OpenSelector(false);
    input.HandleSelectToken(known);
    assert input.isOpenFreezeTokenConfirm && input.effects == [];
    input.HandleSelectToken(unknown);
    assert input.freezeToken == Some(unknown);
    input.HandleFreezeTokenConfirm(input.freezeToken.value);
    log := input.effects;
    assert log == [TokenChange(unknown, FreezeConfirm)];
    assert !EmissionAllowed(store, "swap", log[..0], log[0]);
  }

  class TokenInput {
    const name: string
    const store: Store
    var unknownToken: Option<Token>
    var freezeToken: Option<Token>
    var isOpen: bool
    var isOpenUnknownTokenConfirm: bool
    var isOpenFreezeTokenConfirm: bool
    var effects: seq<Effect>

    /** The selection safety invariant: the log keeps the emission rule, an open freeze
        dialog holds a token that is registered if unknown, and an open unknown-token dialog
        holds a token whose freeze warning (in 'swap') is queued in the freeze slot. */
    predicate Safe()
      reads this
    {
      && GatedLog(store, name, effects)
      && (isOpenFreezeTokenConfirm ==>
            && freezeToken.Some?
            && (IsUnknownToken(store, freezeToken.value) ==> Register(AsUserAdded(freezeToken.value)) in effects))
      && (isOpenUnknownTokenConfirm ==>
            && unknownToken.Some?
            && (name == "swap" && IsFreezeToken(store, unknownToken.value) ==> freezeToken == unknownToken))
    }

    /** A freshly mounted input: empty slots, every dialog closed, nothing fired. */
    constructor(name: string, store: Store)
      ensures this.name == name && this.store == store
      ensures unknownToken == None && freezeToken == None
      ensures !isOpen && !isOpenUnknownTokenConfirm && !isOpenFreezeTokenConfirm
      ensures effects == []
      ensures Safe()
    {
      this.name := name;
      this.store := store;
      unknownToken := None;
      freezeToken := None;
      isOpen := false;
      isOpenUnknownTokenConfirm := false;
      isOpenFreezeTokenConfirm := false;
      effects := [];
    }

    /** The token button opens the selector unless selection is disabled. */
    method OpenSelector(disableSelectToken: bool)
      modifies this
      ensures isOpen == (old(isOpen) || !disableSelectToken)
      ensures unknownToken == old(unknownToken) && freezeToken == old(freezeToken)
      ensures isOpenUnknownTokenConfirm == old(isOpenUnknownTokenConfirm)
      ensures isOpenFreezeTokenConfirm == old(isOpenFreezeTokenConfirm)
      ensures effects == old(effects)
      ensures old(Safe()) ==> Safe()
    {
      if !disableSelectToken {
        isOpen := true;
      }
    }

    /** The selector's own close. */
    method CloseSelector()
      modifies this
      ensures !isOpen
      ensures unknownToken == old(unknownToken) && freezeToken == old(freezeToken)
      ensures isOpenUnknownTokenConfirm == old(isOpenUnknownTokenConfirm)
      ensures isOpenFreezeTokenConfirm == old(isOpenFreezeTokenConfirm)
      ensures effects == old(effects)
      ensures old(Safe()) ==> Safe()
    {
      isOpen := false;
    }

    /** `handleSelectToken`: a freeze token is queued in the freeze slot; an unknown token is
        queued for the unknown-token dialog; in 'swap' a known freeze token opens the freeze
        dialog; any other token is emitted and the selector closes. With no confirmation
        dialog open (they sit above the selector), the safety invariant is kept. */
    method HandleSelectToken(t: Token)
      modifies this
      ensures freezeToken == if IsFreezeToken(store, t) then Some(t) else old(freezeToken)
      ensures unknownToken == if IsUnknownToken(store, t) then Some(t) else old(unknownToken)
      ensures isOpenUnknownTokenConfirm == (old(isOpenUnknownTokenConfirm) || IsUnknownToken(store, t))
      ensures isOpenFreezeTokenConfirm ==
        (old(isOpenFreezeTokenConfirm) || (!IsUnknownToken(store, t) && IsFreezeToken(store, t) && name == "swap"))
      ensures Emits(t) ==> effects == old(effects) + [TokenChange(t, SelectToken)] && !isOpen
      ensures !Emits(t) ==> effects == old(effects) && isOpen == old(isOpen)
      ensures old(Safe()) && !old(isOpenUnknownTokenConfirm) && !old(isOpenFreezeTokenConfirm) ==> Safe()
    {
      var isFreeze := IsFreezeToken(store, t);
      if isFreeze {
        freezeToken := Some(t);
      }
      if IsUnknownToken(store, t) {
        unknownToken := Some(t);
        isOpenUnknownTokenConfirm := true;
        return;
      }
      if isFreeze && name == "swap" {
        isOpenFreezeTokenConfirm := true;
        return;
      }
      GatedLogAppend(store, name, effects, TokenChange(t, SelectToken));
      effects := effects + [TokenChange(t, SelectToken)];
      isOpen := false;
    }

    /** Whether selecting `t` emits it straight away: neither unknown nor, in 'swap', a freeze
        token. */
    predicate Emits(t: Token) {
      !IsUnknownToken(store, t) && !(IsFreezeToken(store, t) && name == "swap")
    }

    /** `handleUnknownTokenConfirm`: the user-added copy is registered once and the dialog
        closes; in 'swap' a freeze token then goes on to the freeze dialog, any other token is
        emitted twice (the second time deferred) and the selector closes. Confirming the
        token the open dialog holds keeps the safety invariant. */
    method HandleUnknownTokenConfirm(t: Token)
      modifies this
      ensures !isOpenUnknownTokenConfirm
      ensures unknownToken == old(unknownToken) && freezeToken == old(freezeToken)
      ensures name == "swap" && IsFreezeToken(store, t) ==>
        && effects == old(effects) + [Register(AsUserAdded(t))]
        && isOpenFreezeTokenConfirm && isOpen == old(isOpen)
      ensures !(name == "swap" && IsFreezeToken(store, t)) ==>
        && effects == old(effects) + [Register(AsUserAdded(t)), TokenChange(t, UnknownConfirm), TokenChange(t, UnknownConfirmDeferred)]
        && isOpenFreezeTokenConfirm == old(isOpenFreezeTokenConfirm) && !isOpen
      ensures old(Safe()) && old(isOpenUnknownTokenConfirm) && old(unknownToken) == Some(t) ==> Safe()
    {
      var registered := Register(AsUserAdded(t));
      GatedLogAppend(store, name, effects, registered);
      effects := effects + [registered];
      isOpenUnknownTokenConfirm := false;
      if IsFreezeToken(store, t) && name == "swap" {
        isOpenFreezeTokenConfirm := true;
        return;
      }
      GatedLogAppend(store, name, effects, TokenChange(t, UnknownConfirm));
      effects := effects + [TokenChange(t, UnknownConfirm)];
      GatedLogAppend(store, name, effects, TokenChange(t, UnknownConfirmDeferred));
      effects := effects + [TokenChange(t, UnknownConfirmDeferred)];
      isOpen := false;
    }

    /** The unknown-token dialog's cancel only closes it. */
    method HandleUnknownTokenCancel()
      modifies this
      ensures !isOpenUnknownTokenConfirm
      ensures unknownToken == old(unknownToken) && freezeToken == old(freezeToken)
      ensures isOpen == old(isOpen) && isOpenFreezeTokenConfirm == old(isOpenFreezeTokenConfirm)
      ensures effects == old(effects)
      ensures old(Safe()) ==> Safe()
    {
      isOpenUnknownTokenConfirm := false;
    }

    /** `handleFreezeTokenConfirm`: the token is emitted and both the freeze dialog and the
        selector close. Confirming the token the open dialog holds keeps the safety
        invariant. */
    method HandleFreezeTokenConfirm(t: Token)
      modifies this
      ensures effects == old(effects) + [TokenChange(t, FreezeConfirm)]
      ensures !isOpenFreezeTokenConfirm && !isOpen
      ensures unknownToken == old(unknownToken) && freezeToken == old(freezeToken)
      ensures isOpenUnknownTokenConfirm == old(isOpenUnknownTokenConfirm)
      ensures old(Safe()) && old(isOpenFreezeTokenConfirm) && old(freezeToken) == Some(t) ==> Safe()
    {
      GatedLogAppend(store, name, effects, TokenChange(t, FreezeConfirm));
      effects := effects + [TokenChange(t, FreezeConfirm)];
      isOpenFreezeTokenConfirm := false;
      isOpen := false;
    }

    /** `handleFreezeTokenCancel`: closes the freeze dialog only; nothing is emitted or
        registered and the selector stays as it was. */
    method HandleFreezeTokenCancel()
      modifies this
      ensures !isOpenFreezeTokenConfirm
      ensures effects == old(effects)
      ensures isOpen == old(isOpen) && isOpenUnknownTokenConfirm == old(isOpenUnknownTokenConfirm)
      ensures unknownToken == old(unknownToken) && freezeToken == old(freezeToken)
      ensures old(Safe()) ==> Safe()
    {
      isOpenFreezeTokenConfirm := false;
    }

    /** The amount field's `onChange`: the typed text, normalised by `handleParseVal` as written
        (`ParseVal`), so text with a second separator is reported without the cut to the
        token's decimals. */
    method HandleAmountTyped(p: AmountProps, typed: string)
      modifies this
      ensures effects == old(effects) + [AmountChange(ParseVal(typed, p.separator, TokenDecimals(p.token)))]
      ensures unknownToken == old(unknownToken) && freezeToken == old(freezeToken)
      ensures isOpen == old(isOpen) && isOpenUnknownTokenConfirm == old(isOpenUnknownTokenConfirm)
      ensures isOpenFreezeTokenConfirm == old(isOpenFreezeTokenConfirm)
      ensures old(Safe()) ==> Safe()
    {
      var e := AmountChange(ParseVal(typed, p.separator, TokenDecimals(p.token)));
      GatedLogAppend(store, name, effects, e);
      effects := effects + [e];
    }

    /** `handleFocus`: a shown "0" is cleared, then `onFocus` fires. */
    method HandleFocus(p: AmountProps)
      requires Renders(p)
      modifies this
      ensures effects == old(effects) + FocusEffects(p)
      ensures unknownToken == old(unknownToken) && freezeToken == old(freezeToken)
      ensures isOpen == old(isOpen) && isOpenUnknownTokenConfirm == old(isOpenUnknownTokenConfirm)
      ensures isOpenFreezeTokenConfirm == old(isOpenFreezeTokenConfirm)
      ensures old(Safe()) ==> Safe()
    {
      if ShownValue(p) == Some("0") {
        GatedLogAppend(store, name, effects, AmountChange(""));
        effects := effects + [AmountChange("")];
      }
      GatedLogAppend(store, name, effects, Focus);
      effects := effects + [Focus];
    }

    /** `handleClickMax`: nothing when the balance click is disabled or there is no maximum;
        otherwise focus, then fill in the maximum less any SOL reserve. */
    method HandleClickMax(p: AmountProps)
      requires Renders(p)
      modifies this
      ensures p.disableClickBalance || PropsMaxString(p).None? || PropsMaxString(p).value == [] ==>
        effects == old(effects)
      ensures !(p.disableClickBalance || PropsMaxString(p).None? || PropsMaxString(p).value == []) ==>
        effects == old(effects) + FocusEffects(p) + FillEffects(MaxFill(p))
      ensures unknownToken == old(unknownToken) && freezeToken == old(freezeToken)
      ensures isOpen == old(isOpen) && isOpenUnknownTokenConfirm == old(isOpenUnknownTokenConfirm)
      ensures isOpenFreezeTokenConfirm == old(isOpenFreezeTokenConfirm)
      ensures old(Safe()) ==> Safe()
    {
      if p.disableClickBalance {
        return;
      }
      var maxString := PropsMaxString(p);
      if maxString.None? || maxString.value == [] {
        return;
      }
      HandleFocus(p);
      var amount := MaxFill(p);
      if amount.Some? {
        GatedLogAppend(store, name, effects, AmountChange(amount.value));
        effects := effects + [AmountChange(amount.value)];
      }
    }

    /** `handleClickHalf`: nothing when there is no maximum (the disabled switch is not
        consulted); otherwise focus, then fill in half the maximum less any SOL reserve. */
    method HandleClickHalf(p: AmountProps)
      requires Renders(p)
      modifies this
      ensures PropsMaxString(p).None? || PropsMaxString(p).value == [] ==> effects == old(effects)
      ensures !(PropsMaxString(p).None? || PropsMaxString(p).value == []) ==>
        effects == old(effects) + FocusEffects(p) + FillEffects(HalfFill(p))
      ensures unknownToken == old(unknownToken) && freezeToken == old(freezeToken)
      ensures isOpen == old(isOpen) && isOpenUnknownTokenConfirm == old(isOpenUnknownTokenConfirm)
      ensures isOpenFreezeTokenConfirm == old(isOpenFreezeTokenConfirm)
      ensures old(Safe()) ==> Safe()
    {
      var maxString := PropsMaxString(p);
      if maxString.None? || maxString.value == [] {
        return;
      }
      HandleFocus(p);
      var amount := HalfFill(p);
      if amount.Some? {
        GatedLogAppend(store, name, effects, AmountChange(amount.value));
        effects := effects + [AmountChange(amount.value)];
      }
    }
  }
}
