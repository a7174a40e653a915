# Token input: amount normalisation, quick-fill and token-selection confirmation

This project models the logic of the swap form's token input, `src/components/TokenInput.tsx`, and
proves what it promises. It covers four parts:

- **Amount normaliser.** `handleParseVal` keeps only digits and the locale's decimal separator,
  keeps at most two segments, cuts the fraction to the token's decimals and writes "0." for a
  bare separator. `shakeValueDecimal` clamps a stored amount to the token's precision, rounding
  toward zero.
- **Balance quick-fill.** `balanceMaxString`, `maxString`, `maxDecimal` and `getBalanceString`,
  which holds back a fee reserve on the native SOL token. They feed the MAX and 50% buttons.
- **Token classifiers.** `isUnknownToken` and `isFreezeToken`.
- **Selection state machine.** The selector, the unknown-token dialog and the freeze dialog,
  with the two pending-token slots, the three open flags and the callbacks the component
  fires.

The pure parts are functions. The decimal.js arithmetic they use is modelled exactly:
`Decimals.Dec` is `units / 10^places` over natural numbers, and `Decimals.Value` reads it as a
real. The text forms are modelled too: the constructor (`DecimalStrings.Parse`), `toFixed`
(`DecimalStrings.ToFixed`) and `toString` (`DecimalStrings.Render`). They are tied together by
the round trips `DecimalStrings.ParseToFixed`, `DecimalStrings.TrimTrailZeroToFixed` and
`DecimalStrings.ParseRender`.

The handlers are methods of the class `TokenInputComponent.TokenInput`. Its fields are:

- the slots `unknownToken` and `freezeToken`;
- the flags `isOpen`, `isOpenUnknownTokenConfirm` and `isOpenFreezeTokenConfirm`;
- one log, `effects`, of everything the component fires: `onTokenChange`,
  `setExtraTokenListAct`, `onChange` and `onFocus`.

`TokenInput.Safe()` is the selection safety invariant. An unknown token reaches `onTokenChange`
only after its user-added copy was registered. In the 'swap' input, a freeze token reaches it
only from the freeze confirmation. The handlers preserve `Safe()` when they are called as the UI
can call them:

- a selection arrives only while no confirmation dialog is open, since the dialogs sit above
  the selector;
- a dialog confirms the token its slot holds.

`TokenInputComponent.RetargetedFreezeDialog` shows what happens otherwise. The
`defaultUnknownToken` effect (lines 317-320) can select a token while the 'swap' freeze dialog
is open. That retargets the freeze slot, and confirming the dialog then emits an unregistered
unknown token.

`shakeValueDecimal` returns decimal.js `toString`, which drops trailing zeros. Its result
therefore has *at most* `decimals` places, not exactly that many, and that is what
`AmountInput.ShakeValueDecimalFloors` states.

`handleParseVal` is not idempotent, and the as-written version shows it twice:

- a second separator skips the cut (`AmountInput.ParseValNotIdempotent`);
- with a 0-decimal token, ".5" becomes ".", which then becomes "0." (`AmountInput.LoneDotExample`).

The corrected version is idempotent apart from that lone ".".

## Model

| member | source | states |
|---|---|---|
| AmountInput.KeepNumeric | src/components/TokenInput.tsx:298 | only digits and the separator survive, and the result is empty exactly when the typed text has neither |
| AmountInput.KeepNumericAppend | src/components/TokenInput.tsx:298 | filtering a concatenation is concatenating the filtered pieces, so the kept characters stay in typed order |
| AmountInput.KeepNumericChar | src/components/TokenInput.tsx:298 | a single character is kept exactly when it is a digit or the separator; with the previous row this determines the filter completely |
| AmountInput.KeepNumericCounts | src/components/TokenInput.tsx:298 | every digit and separator of the typed text survives as many times as it was typed |
| AmountInput.JoinSplit | src/components/TokenInput.tsx:300-301 | joining the segments of `split` with the separator gives the text back |
| AmountInput.SplitJoin | src/components/TokenInput.tsx:300-301 | splitting separator-free segments joined by the separator gives the segments back |
| AmountInput.ParseVal | src/components/TokenInput.tsx:297-305 | definition of `handleParseVal` as written; properties in `ParseValEmpty`, `ParseValBareSeparator`, `ParseValParts`, `ParseValKeepsExcessPlaces` and `ParseValNotIdempotent` |
| AmountInput.ParseValIntended | src/components/TokenInput.tsx:297-305 | definition of the corrected normaliser (extra separators dropped, then the cut); properties in `ParseValIntendedAgrees`, `ParseValIntendedFractionBound` and `ParseValIntendedIdempotent` |
| AmountInput.ParseValEmpty | src/components/TokenInput.tsx:298-299 | the normalised amount is "" exactly when the input has no digit and no separator |
| AmountInput.ParseValBareSeparator | src/components/TokenInput.tsx:305 | a lone separator becomes "0." |
| AmountInput.ParseValParts | src/components/TokenInput.tsx:297-305 | the output is digits with at most one '.'; its integer part is the digits before the first separator; it has a '.' iff a separator was typed; with exactly one separator its fraction is the typed fraction cut (never rounded) to `min(len, decimals)`, and with two or more it is the whole second segment |
| AmountInput.ParseValKeepsExcessPlaces | src/components/TokenInput.tsx:301-304 | as written, text with a second separator keeps the whole second segment, so the fraction has more digits than the token's decimals |
| AmountInput.ParseValKeepsExcessPlacesExample | src/components/TokenInput.tsx:301 | "1.2.3" with a 0-decimal token gives "1.2" |
| AmountInput.ParseValNotIdempotent | src/components/TokenInput.tsx:297-305 | as written, normalising that output again cuts it to `decimals`, so the result changes |
| AmountInput.ParseValIntendedAgrees | src/components/TokenInput.tsx:297-305 | the corrected normaliser agrees with the written one on every input with at most one separator |
| AmountInput.ParseValIntendedFractionBound | src/components/TokenInput.tsx:301-304 | the corrected normaliser's output is an amount string whose fraction never exceeds the token's decimals and whose integer part is the digits before the first separator |
| AmountInput.ParseValIntendedIdempotent | src/components/TokenInput.tsx:297-305 | normalising the corrected output again (separator '.') changes nothing, except for a lone "." |
| AmountInput.LoneDotExample | src/components/TokenInput.tsx:302-305 | with a 0-decimal token, '.' followed by digits becomes "." in both versions, and "." becomes "0." |
| AmountInput.ShakeValueDecimal | src/components/TokenInput.tsx:159-162 | definition of `shakeValueDecimal` (`None` where the decimal.js constructor throws); properties in `ShakeValueDecimalKeeps`, `ShakeValueDecimalThrows`, `ShakeValueDecimalFloors` and `ShakeValueDecimalIdempotent` |
| AmountInput.ShakeValueDecimalKeeps | src/components/TokenInput.tsx:159-162 | the value comes back unchanged iff it is empty, ends in '.', has no known precision, or has at most `decimals` significant places |
| AmountInput.ShakeValueDecimalThrows | src/components/TokenInput.tsx:159-161 | the only failure is the decimal.js constructor rejecting a value it has to read |
| AmountInput.ShakeValueDecimalFloors | src/components/TokenInput.tsx:159-162 | for a readable value the result has at most `decimals` places, is not above the value, and is less than 10^-decimals below it |
| AmountInput.ShakeValueDecimalIdempotent | src/components/TokenInput.tsx:159-162 | clamping the result again changes nothing |
| Tokens.AsUserAdded | src/components/TokenInput.tsx:261 | the registered copy is the token with `userAdded` set and every other field kept |
| Tokens.IsUnknownToken | src/components/TokenInput.tsx:221-226 | unknown iff (no type, type 'unknown' or tag 'unknown') and not (user-added in the token map and user-added tokens shown) |
| Tokens.IsFreezeToken | src/components/TokenInput.tsx:228-230 | definition of `isFreezeToken`: tagged 'hasFreeze' and not white-listed; properties in `ClassifierBounds` and `RegisteredIsKnown` |
| Tokens.ClassifierBounds | src/components/TokenInput.tsx:221-230 | a token that does not look unknown is never unknown; a white-listed or untagged token never needs the freeze warning |
| Tokens.RegisteredIsKnown | src/components/TokenInput.tsx:221-226 | once the user-added copy is in the map and user-added tokens are shown the token is known; with the setting off it stays unknown; registration never changes the freeze verdict |
| QuickFill.BalanceMaxString | src/components/TokenInput.tsx:178-180 | the maximum is null exactly when the balance is hidden |
| QuickFill.BalanceMaxStringFloors | src/components/TokenInput.tsx:178-180 | a shown maximum is non-empty, has at most the token's places (6 without a token) and is balance x multiplier (1 when absent) rounded down: not above it, less than one unit of the last place below |
| QuickFill.BalanceMaxStringExample | src/components/TokenInput.tsx:178-180 | a balance of 12.345 on a 2-place token gives "12.34" |
| QuickFill.MaxString | src/components/TokenInput.tsx:181 | definition of `maxString`; properties in `MaxStringMatchesMaxDecimal` |
| QuickFill.MaxDecimal | src/components/TokenInput.tsx:182 | definition of `maxDecimal`; properties in `MaxStringMatchesMaxDecimal` |
| QuickFill.MaxStringMatchesMaxDecimal | src/components/TokenInput.tsx:181-182 | a forced maximum written in fixed notation gives a `maxString` and `maxDecimal` of the same value; without one, `maxString` is `balanceMaxString` and `maxDecimal` the balance |
| QuickFill.GetBalanceString | src/components/TokenInput.tsx:200-206 | definition of `getBalanceString`; properties in `GetBalanceStringReserveSkipped`, `GetBalanceStringReserveApplied` and the two examples |
| QuickFill.GetBalanceStringReserveSkipped | src/components/TokenInput.tsx:200-202 | the amount passes unchanged for a non-SOL token, without a maximum, or when the maximum less the amount is at least the reserve |
| QuickFill.GetBalanceStringReserveApplied | src/components/TokenInput.tsx:203-205 | otherwise the result is max(0, amount - reserve) rounded half-up to the token's places: non-negative, within half a unit of the last place, and exact when it fits |
| QuickFill.GetBalanceStringKeepsExample | src/components/TokenInput.tsx:200-202 | amount "3", maximum "5", reserve 0.01 gives "3" |
| QuickFill.GetBalanceStringReservesExample | src/components/TokenInput.tsx:203-205 | amount "5", maximum "5", reserve 0.01 on a 9-place token gives "4.99" |
| QuickFill.TotalPrice | src/components/TokenInput.tsx:172 | definition of `totalPrice`: "" without a price or a value; properties in `TotalPriceExact` |
| QuickFill.TotalPriceExact | src/components/TokenInput.tsx:172 | a shown total price reads back as exactly price x value |
| TokenInputComponent.ClickMaxFillsFlooredBalance | src/components/TokenInput.tsx:208-213 | away from SOL, with nothing forced, MAX fills in the floored balance x multiplier |
| TokenInputComponent.ClickHalfFillsHalf | src/components/TokenInput.tsx:215-219 | away from SOL, 50% fills in exactly half of `maxDecimal`, not floored |
| TokenInputComponent.GatedLogAppend | src/components/TokenInput.tsx:232-288 | appending an entry that keeps the emission rule keeps the whole log within the rule |
| TokenInputComponent.RetargetedFreezeDialog | src/components/TokenInput.tsx:232-236 | a selection arriving while the 'swap' freeze dialog is open retargets the freeze slot, and confirming the dialog emits an unregistered unknown token |
| TokenInputComponent.TokenInput.constructor | src/components/TokenInput.tsx:143-145 | a mounted input has empty slots, closed dialogs, an empty log, and is safe |
| TokenInputComponent.TokenInput.OpenSelector | src/components/TokenInput.tsx:356 | the token button opens the selector unless selection is disabled; nothing else changes |
| TokenInputComponent.TokenInput.CloseSelector | src/components/TokenInput.tsx:580 | the selector's close only closes it |
| TokenInputComponent.TokenInput.HandleSelectToken | src/components/TokenInput.tsx:232-258 | a freeze token goes to the freeze slot; an unknown one goes to the unknown slot and opens its dialog; a known freeze token in 'swap' opens the freeze dialog; only any other token is emitted, and then the selector closes; safety is kept when no confirmation dialog was open |
| TokenInputComponent.TokenInput.HandleUnknownTokenConfirm | src/components/TokenInput.tsx:260-282 | registers the user-added copy exactly once, first, and closes the dialog; in 'swap' a freeze token goes on to the freeze dialog with nothing emitted; otherwise the token is emitted twice and the selector closes; confirming the held token keeps safety |
| TokenInputComponent.TokenInput.HandleUnknownTokenCancel | src/components/TokenInput.tsx:584 | cancelling the unknown-token dialog only closes it |
| TokenInputComponent.TokenInput.HandleFreezeTokenConfirm | src/components/TokenInput.tsx:284-288 | emits the token, then closes the freeze dialog and the selector; confirming the held token keeps safety |
| TokenInputComponent.TokenInput.HandleFreezeTokenCancel | src/components/TokenInput.tsx:290-295 | closes the freeze dialog only: nothing emitted or registered, the selector untouched |
| TokenInputComponent.TokenInput.HandleAmountTyped | src/components/TokenInput.tsx:509 | typing reports the text normalised by `handleParseVal` as written (so "1.2.3" at 0 decimals reports "1.2", see Findings) and changes nothing else |
| TokenInputComponent.TokenInput.HandleFocus | src/components/TokenInput.tsx:193-198 | a shown "0" is cleared, then `onFocus` fires |
| TokenInputComponent.TokenInput.HandleClickMax | src/components/TokenInput.tsx:208-213 | nothing when the balance click is disabled or there is no maximum; otherwise focus, then `onChange` with `getBalanceString(maxString)` |
| TokenInputComponent.TokenInput.HandleClickHalf | src/components/TokenInput.tsx:215-219 | nothing without a maximum, whatever the disabled switch says; otherwise focus, then `onChange` with `getBalanceString` of half of `maxDecimal` |
| DecimalStrings.Parse | src/components/TokenInput.tsx:160-161 | definition of the decimal.js constructor on plain literals; properties in `ParseToFixed` and `ParseRender` |
| DecimalStrings.ToFixed | src/components/TokenInput.tsx:180 | `toFixed` text of a rounded decimal: ends in a digit; properties in `ParseToFixed` and `TrimTrailZeroToFixed` |
| DecimalStrings.Render | src/components/TokenInput.tsx:161 | definition of `toString` in plain notation; properties in `ParseRender` and `TrimTrailZeroToFixed` |
| DecimalStrings.TrimTrailZero | src/components/TokenInput.tsx:180 | definition of `trimTrailZero`; properties in `TrimTrailZeroToFixed` |
| DecimalStrings.ParseToFixed | src/components/TokenInput.tsx:180 | decimal.js reads a `toFixed` string back as the same decimal |
| DecimalStrings.TrimTrailZeroToFixed | src/components/TokenInput.tsx:180 | trimming a `toFixed` string's trailing zeros gives the decimal's `toString` |
| DecimalStrings.ParseRender | src/components/TokenInput.tsx:161 | decimal.js reads `toString` back as the decimal without trailing zeros |
| Decimals.FloorTo | src/components/TokenInput.tsx:180 | `toDecimalPlaces`/`toFixed` with ROUND_FLOOR or ROUND_DOWN: exactly k places, the cut units bracket the input's units; value bounds in `FloorToValue` |
| Decimals.RoundHalfUpTo | src/components/TokenInput.tsx:205 | `toFixed` with decimal.js's default ROUND_HALF_UP: exactly k places, value unchanged when nothing is cut; bounds in `RoundHalfUpToValue` |
| Decimals.FloorToValue | src/components/TokenInput.tsx:161 | rounding down to k places loses less than 10^-k and never rounds up |
| Decimals.RoundHalfUpToValue | src/components/TokenInput.tsx:205 | `toFixed`'s half-up rounding moves a value by at most half a unit of the last place |
| Decimals.Mul | src/components/TokenInput.tsx:180 | decimal multiplication is exact |
| Decimals.Half | src/components/TokenInput.tsx:218 | `div(2)` is exact |
| Decimals.ClampedSub | src/components/TokenInput.tsx:203-204 | the reserve subtraction is exact and clamped at 0 |
| Decimals.AtLeast | src/components/TokenInput.tsx:202 | the headroom test compares the values |
| Decimals.Trim | src/components/TokenInput.tsx:160 | dropping trailing zeros keeps the value; what remains is the count `decimalPlaces()` reports |

## Findings

| source | as written | input that shows it | evidently intended | confidence | as-written member | corrected member |
|---|---|---|---|---|---|---|
| src/components/TokenInput.tsx:301 | with two or more separators the first two segments are joined and returned before the fraction is cut to the token's decimals | "1.2.3" with a 0-decimal token gives "1.2"; "1,234,56" with ',' and a 2-decimal token gives "1.234" | drop everything from the second separator, then cut the fraction as for one separator, so the amount never has more fraction digits than the token | not executed | AmountInput.ParseValKeepsExcessPlaces | AmountInput.ParseValIntendedFractionBound |

`TokenInputComponent.TokenInput.HandleAmountTyped` reports what the code as written computes,
`AmountInput.ParseVal`. The corrected normaliser `AmountInput.ParseValIntended` stands beside it.
`AmountInput.ParseValIntendedAgrees` shows that the two differ only on text with two or more
separators.

## Left out

- JSX, layout and styling are left out. This includes `formatToRawLocaleStr`,
  `formatCurrency`, the `toFixed(6)` balance line and the size table.
- `trimTrailZero` comes from `src/utils/numberish/formatter`, which is not part of this model.
  `DecimalStrings.TrimTrailZero` drops the trailing zeros after a '.' and then a dangling '.'.
  It is proved only on the fixed-notation strings the component gives it.
- `detectedSeparator` is a parameter. It is assumed never to be a digit.
- The store and hook reads are parameters or class constants: `tokenMap`, `whiteListMap`,
  `displayTokenSettings.userAdded`, the token balance, the price and `SOL_INFO.address`.
- `setExtraTokenListAct` is logged but does not update the store snapshot. What the map would
  say afterwards is stated by `Tokens.RegisteredIsKnown`.
- The `resetSearch` call on freeze cancel is left out. The token list is not part of this model.
- The `setTimeout(…, 0)` deferral is not scheduled. The second `onTokenChange` is logged right
  after the first.
- The `defaultUnknownToken` effect is left out as a separate handler. It only calls
  `handleSelectToken`.
- Optional callbacks are always logged, as if `onChange`, `onFocus` and `onTokenChange` were
  always given.
- decimal.js is modelled only on plain unsigned literals. Exponent notation, signs, NaN and
  Infinity, the hexadecimal, binary and octal prefixes ("0x10", "0b1", "0o7") and the
  20-significant-digit precision are left out. A string outside that form
  reads as a throw (`None`).
- Amounts, balances, multipliers and reserves are non-negative. A negative reserve or
  multiplier is not modelled.
- The falsy prop cases are collapsed: `None` stands for every falsy `maxMultiplier`, and "" for
  a falsy `forceBalanceAmount`. A numeric 0 passed where a string "0" would be truthy is not
  distinguished.
- `totalPrice` takes the feed's price as an exact decimal. Floating point is not modelled.
- A component whose render throws has no handlers. `TokenInputComponent.TokenInput.HandleFocus`,
  `HandleClickMax` and `HandleClickHalf` therefore require `Renders(p)`, meaning decimal.js
  accepted the shown value and the forced maximum.
- TokenInputComponent.TokenInput.HandleSelectToken: keeps `Safe()` only when no confirmation
  dialog is open, because a selection over an open freeze dialog breaks it
  (`TokenInputComponent.RetargetedFreezeDialog`).
- AmountInput.ParseValIntendedIdempotent: excludes the lone "." result, because both versions
  turn it into "0." on a second pass.
- AmountInput.ShakeValueDecimalFloors: states at most `decimals` places, not exactly
  `decimals`, because `toString` drops trailing zeros.
- `src/pages/swap.tsx` is Next.js page glue with no logic, and is left out.
