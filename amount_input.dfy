/** The amount text field: `handleParseVal`, which turns typed text into an amount string, and
    `shakeValueDecimal`, which clamps a stored amount to the token's precision. */
module AmountInput {
  import opened Options
  import opened Numerals
  import opened Decimals
  import opened DecimalStrings

  /** The characters matched by `[0-9<sep>]`, in order (the `match(...)?.join('')` of the input). */
  function KeepNumeric(raw: string, sep: char): (r: string)
    ensures forall i :: 0 <= i < |r| ==> IsDigit(r[i]) || r[i] == sep
    ensures r == [] <==> forall i :: 0 <= i < |raw| ==> !IsDigit(raw[i]) && raw[i] != sep
  {
    if raw == [] then []
    else
      var rest := KeepNumeric(raw[1..], sep);
      assert forall i :: 1 <= i < |raw| ==> raw[i] == raw[1..][i - 1];
      (if IsDigit(raw[0]) || raw[0] == sep then [raw[0]] else []) + rest
  }

  /** Filtering text piece by piece is filtering it whole: nothing is reordered or merged. */
  lemma {:induction false} KeepNumericAppend(a: string, b: string, sep: char)
    ensures KeepNumeric(a + b, sep) == KeepNumeric(a, sep) + KeepNumeric(b, sep)
  {
    if a == [] {
      assert a + b == b;
    } else {
      assert (a + b)[0] == a[0];
      assert (a + b)[1..] == a[1..] + b;
      KeepNumericAppend(a[1..], b, sep);
    }
  }

  /** Every digit and separator of the typed text survives, as often as it was typed. */
  lemma {:induction false} KeepNumericCounts(raw: string, sep: char, c: char)
    requires IsDigit(c) || c == sep
    ensures multiset(KeepNumeric(raw, sep))[c] == multiset(raw)[c]
  {
    if raw != [] {
      KeepNumericCounts(raw[1..], sep, c);
      assert raw == [raw[0]] + raw[1..];
    }
  }

  /** One character is kept exactly when it is a digit or the separator. */
  lemma KeepNumericChar(c: char, sep: char)
    ensures KeepNumeric([c], sep) == if IsDigit(c) || c == sep then [c] else []
  {
    assert [c][1..] == [];
  }

  /** JavaScript `s.split(sep)`: the pieces between the separators, one more than separators. */
  function Split(s: string, sep: char): (parts: seq<string>)
    ensures |parts| >= 1
    ensures forall k :: 0 <= k < |parts| ==> sep !in parts[k]
    decreases |s|
  {
    var i := Find(s, sep);
    if i == |s| then [s] else [s[..i]] + Split(s[i + 1..], sep)
  }

  /** JavaScript `parts.join(sep)`. */
  function Join(parts: seq<string>, sep: char): string
    requires |parts| >= 1
  {
    if |parts| == 1 then parts[0] else parts[0] + [sep] + Join(parts[1..], sep)
  }

  lemma {:induction false} JoinSplit(s: string, sep: char)
    ensures Join(Split(s, sep), sep) == s
    decreases |s|
  {
    var i := Find(s, sep);
    if i < |s| {
      JoinSplit(s[i + 1..], sep);
      assert s == s[..i] + [sep] + s[i + 1..];
    }
  }

  lemma {:induction false} SplitJoin(parts: seq<string>, sep: char)
    requires |parts| >= 1
    requires forall k :: 0 <= k < |parts| ==> sep !in parts[k]
    ensures Split(Join(parts, sep), sep) == parts
  {
    if |parts| == 1 {
      FindAbsent(parts[0], sep);
    } else {
      var s := Join(parts, sep);
      var rest := Join(parts[1..], sep);
      assert s == parts[0] + ([sep] + rest);
      FindAfter(parts[0], [sep] + rest, sep);
      assert s[..|parts[0]|] == parts[0];
      assert s[|parts[0]| + 1..] == rest;
      SplitJoin(parts[1..], sep);
      assert [parts[0]] + parts[1..] == parts;
    }
  }

  lemma FindAbsent(s: string, c: char)
    requires c !in s
    ensures Find(s, c) == |s|
  {
  }

  /** JavaScript `s.replace(sep, c)`: only the first occurrence is replaced. */
  function ReplaceFirst(s: string, sep: char, c: char): string {
    var i := Find(s, sep);
    if i == |s| then s else s[..i] + [c] + s[i + 1..]
  }

  /** `handleParseVal` once the text is known to have at most one separator
      (TokenInput.tsx lines 302-305): cut the fraction to `decimals`, then write a bare
      separator as "0." and the separator as '.'. */
  function NormalizeTwoSegments(val: string, sep: char, decimals: Option<nat>): string {
    var parts := Split(val, sep);
    if decimals.Some? && |parts| == 2 && parts[1] != [] && |parts[1]| > decimals.value then
      parts[0] + "." + parts[1][..decimals.value]
    else if val == [sep] then "0."
    else ReplaceFirst(val, sep, '.')
  }

  /** `handleParseVal(propVal)` as written: `sep` is the locale's decimal separator, `decimals`
      the selected token's (`None` with no token). With two or more separators the first two
      pieces are joined and returned at once, before the fraction is cut. */
  function ParseVal(raw: string, sep: char, decimals: Option<nat>): string {
    var val := KeepNumeric(raw, sep);
    if val == [] then ""
    else
      var parts := Split(val, sep);
      if |parts| > 2 then parts[0] + "." + parts[1]
      else NormalizeTwoSegments(val, sep, decimals)
  }

  /** Everything before the first '.' of an amount string. */
  function IntegerPart(r: string): string {
    r[..Find(r, '.')]
  }

  /** Everything after the first '.' of an amount string (empty without one). */
  function FractionPart(r: string): string {
    var i := Find(r, '.');
    if i == |r| then [] else r[i + 1..]
  }

  /** An amount string: digits and at most one '.'. */
  predicate AmountText(r: string) {
    && (forall i :: 0 <= i < |r| ==> IsDigit(r[i]) || r[i] == '.')
    && (forall i, j :: 0 <= i < j < |r| ==> r[i] != '.' || r[j] != '.')
  }

  function Min(a: nat, b: nat): nat {
    if a < b then a else b
  }

  /** Text made only of digits and the separator. */
  predicate NumericText(s: string, sep: char) {
    forall i :: 0 <= i < |s| ==> IsDigit(s[i]) || s[i] == sep
  }

  lemma {:induction false} SplitDigits(s: string, sep: char)
    requires NumericText(s, sep)
    ensures forall k :: 0 <= k < |Split(s, sep)| ==> AllDigits(Split(s, sep)[k])
    decreases |s|
  {
    var i := Find(s, sep);
    if i < |s| {
      SplitDigits(s[i + 1..], sep);
    }
  }

  lemma SplitOfDigits(a: string, sep: char)
    requires AllDigits(a) && !IsDigit(sep)
    ensures Split(a, sep) == [a]
  {
    FindAbsent(a, sep);
  }

  lemma SplitOfTwo(a: string, b: string, sep: char)
    requires AllDigits(a) && AllDigits(b) && !IsDigit(sep)
    ensures Split(a + [sep] + b, sep) == [a, b]
  {
    assert sep !in a && sep !in b;
    assert Join([a, b], sep) == a + [sep] + b;
    SplitJoin([a, b], sep);
  }

  lemma ReplaceFirstTwo(val: string, sep: char)
    requires |Split(val, sep)| == 2
    ensures ReplaceFirst(val, sep, '.') == Split(val, sep)[0] + "." + Split(val, sep)[1]
  {
    var i := Find(val, sep);
    assert i < |val|;
    assert Split(val[i + 1..], sep) == [val[i + 1..]];
  }

  lemma ReplaceFirstOne(val: string, sep: char)
    requires |Split(val, sep)| == 1
    ensures ReplaceFirst(val, sep, '.') == val == Split(val, sep)[0]
  {
  }

  /** Digits, a '.', digits: an amount string whose parts are the two digit runs. */
  lemma DigitsDotDigits(a: string, b: string)
    requires AllDigits(a) && AllDigits(b)
    ensures AmountText(a + "." + b)
    ensures IntegerPart(a + "." + b) == a && FractionPart(a + "." + b) == b
  {
    var r := a + "." + b;
    assert r == a + ("." + b);
    FindAfter(a, "." + b, '.');
    assert Find("." + b, '.') == 0;
    forall i, j | 0 <= i < j < |r|
      ensures r[i] != '.' || r[j] != '.'
    {
      if i != |a| {
        assert r[i] != '.' by { if i < |a| { assert r[i] == a[i]; } else { assert r[i] == b[i - |a| - 1]; } }
      } else {
        assert r[j] == b[j - |a| - 1];
      }
    }
    forall i | 0 <= i < |r|
      ensures IsDigit(r[i]) || r[i] == '.'
    {
      if i < |a| { assert r[i] == a[i]; } else if i > |a| { assert r[i] == b[i - |a| - 1]; }
    }
  }

  lemma DigitsOnly(a: string)
    requires AllDigits(a)
    ensures AmountText(a)
    ensures IntegerPart(a) == a && FractionPart(a) == []
  {
    FindAbsent(a, '.');
  }

  /** What `NormalizeTwoSegments` produces from numeric text with at most one separator. */
  lemma NormalizeForm(val: string, sep: char, decimals: Option<nat>)
    requires !IsDigit(sep) && NumericText(val, sep) && val != []
    requires |Split(val, sep)| <= 2
    ensures var parts := Split(val, sep);
      && (forall k :: 0 <= k < |parts| ==> AllDigits(parts[k]))
      && NormalizeTwoSegments(val, sep, decimals) ==
        if val == [sep] then "0."
        else if |parts| == 1 then parts[0]
        else parts[0] + "." + FractionKept(parts[1], decimals)
  {
    var parts := Split(val, sep);
    SplitDigits(val, sep);
    if |parts| == 1 {
      ReplaceFirstOne(val, sep);
    } else {
      ReplaceFirstTwo(val, sep);
      if decimals.Some? && |parts[1]| <= decimals.value {
        assert parts[1][..Min(|parts[1]|, decimals.value)] == parts[1];
      }
      if val == [sep] {
        assert Find(val, sep) == 0;
        assert parts[1] == [];
      }
    }
  }

  /** The fraction digits kept: at most `decimals` of them when the token is known. */
  function FractionKept(fraction: string, decimals: Option<nat>): string {
    if decimals.Some? then fraction[..Min(|fraction|, decimals.value)] else fraction
  }

  /** The result is empty exactly when the input holds no digit and no separator. */
  lemma ParseValEmpty(raw: string, sep: char, decimals: Option<nat>)
    requires !IsDigit(sep)
    ensures ParseVal(raw, sep, decimals) == [] <==>
      forall i :: 0 <= i < |raw| ==> !IsDigit(raw[i]) && raw[i] != sep
  {
    var val := KeepNumeric(raw, sep);
    if val != [] && |Split(val, sep)| <= 2 {
      NormalizeForm(val, sep, decimals);
    }
  }

  /** A lone separator becomes "0.". */
  lemma ParseValBareSeparator(raw: string, sep: char, decimals: Option<nat>)
    requires !IsDigit(sep) && KeepNumeric(raw, sep) == [sep]
    ensures ParseVal(raw, sep, decimals) == "0."
  {
    assert Find([sep], sep) == 0;
    assert Split([sep], sep) == [[], []];
  }

  /** The result is always digits with at most one '.'; its integer part is the digits typed
      before the first separator, and its fraction is the digits between the first and
      second separators, cut to `decimals` only when there is no second separator. */
  lemma ParseValParts(raw: string, sep: char, decimals: Option<nat>)
    requires !IsDigit(sep)
    ensures AmountText(ParseVal(raw, sep, decimals))
    ensures var val := KeepNumeric(raw, sep);
      var parts := Split(val, sep);
      var r := ParseVal(raw, sep, decimals);
      val != [] && val != [sep] ==>
        && IntegerPart(r) == parts[0]
        && ('.' in r <==> |parts| >= 2)
        && FractionPart(r) ==
          if |parts| == 1 then []
          else if |parts| == 2 then FractionKept(parts[1], decimals)
          else parts[1]
  {
    var val := KeepNumeric(raw, sep);
    var r := ParseVal(raw, sep, decimals);
    if val == [] {
      assert r == [];
    } else if val == [sep] {
      ParseValBareSeparator(raw, sep, decimals);
      DigitsDotDigits("0", "");
      assert "0" + "." + "" == "0.";
    } else {
      var parts := Split(val, sep);
      SplitDigits(val, sep);
      if |parts| > 2 {
        DigitsDotDigits(parts[0], parts[1]);
      } else {
        NormalizeForm(val, sep, decimals);
        if |parts| == 1 {
          DigitsOnly(parts[0]);
          assert '.' !in parts[0];
        } else {
          assert AllDigits(FractionKept(parts[1], decimals));
          DigitsDotDigits(parts[0], FractionKept(parts[1], decimals));
        }
      }
      if |parts| >= 2 {
        assert r[|parts[0]|] == '.';
      }
    }
  }

  /** As written, a second separator skips the cut to `decimals`: whatever the token's
      precision, all digits between the first and second separators are kept. */
  lemma ParseValKeepsExcessPlaces(a: string, b: string, c: string, sep: char, decimals: nat)
    requires AllDigits(a) && AllDigits(b) && AllDigits(c) && !IsDigit(sep)
    requires |b| > decimals
    ensures var r := ParseVal(a + [sep] + (b + [sep] + c), sep, Some(decimals));
      r == a + "." + b && |FractionPart(r)| > decimals
  {
    var s := a + [sep] + (b + [sep] + c);
    ThreeSegments(a, b, c, sep);
    KeepNumericAll(s, sep);
    DigitsDotDigits(a, b);
  }

  /** For instance "1.2.3" with a 0-decimal token gives "1.2". */
  lemma ParseValKeepsExcessPlacesExample()
    ensures ParseVal("1.2.3", '.', Some(0)) == "1.2"
  {
    assert "1" + ['.'] + ("2" + ['.'] + "3") == "1.2.3";
    assert "1" + "." + "2" == "1.2";
    ParseValKeepsExcessPlaces("1", "2", "3", '.', 0);
  }

  lemma ThreeSegments(a: string, b: string, c: string, sep: char)
    requires AllDigits(a) && AllDigits(b) && AllDigits(c) && !IsDigit(sep)
    ensures var s := a + [sep] + (b + [sep] + c);
      NumericText(s, sep) && Split(s, sep) == [a, b, c]
  {
    var s := a + [sep] + (b + [sep] + c);
    assert s == a + ([sep] + (b + [sep] + c));
    FindAfter(a, [sep] + (b + [sep] + c), sep);
    assert s[..|a|] == a;
    assert s[|a| + 1..] == b + [sep] + c;
    SplitOfTwo(b, c, sep);
    NumericAppend(b, [sep], sep);
    NumericAppend(b + [sep], c, sep);
    NumericAppend(a, [sep], sep);
    NumericAppend(a + [sep], b + [sep] + c, sep);
  }

  lemma NumericAppend(x: string, y: string, sep: char)
    requires (AllDigits(x) || NumericText(x, sep)) && (AllDigits(y) || NumericText(y, sep) || y == [sep])
    ensures NumericText(x + y, sep)
  {
    forall i | 0 <= i < |x + y|
      ensures IsDigit((x + y)[i]) || (x + y)[i] == sep
    {
      if i < |x| { assert (x + y)[i] == x[i]; } else { assert (x + y)[i] == y[i - |x|]; }
    }
  }

  /** As written, normalising again is not a no-op: the second pass applies the cut the first
      one skipped. */
  lemma ParseValNotIdempotent(a: string, b: string, c: string, decimals: nat)
    requires AllDigits(a) && AllDigits(b) && AllDigits(c) && |b| > decimals
    ensures var r := ParseVal(a + ['.'] + (b + ['.'] + c), '.', Some(decimals));
      ParseVal(r, '.', Some(decimals)) == a + "." + b[..decimals] != r
  {
    ParseValKeepsExcessPlaces(a, b, c, '.', decimals);
    var r := a + "." + b;
    assert r == a + ['.'] + b;
    DigitsDotDigits(a, b);
    KeepNumericAll(r, '.');
    SplitOfTwo(a, b, '.');
    NormalizeForm(r, '.', Some(decimals));
    assert |a + "." + b[..decimals]| < |r|;
  }

  /** Text with more than one separator loses everything from the second one on. */
  function KeepTwoSegments(val: string, sep: char): (r: string) {
    var parts := Split(val, sep);
    if |parts| > 2 then parts[0] + [sep] + parts[1] else val
  }

  /** `handleParseVal` as evidently intended: the extra separators are dropped first and the
      rest of the normalisation (the cut to `decimals` included) then applies. */
  function ParseValIntended(raw: string, sep: char, decimals: Option<nat>): string {
    var val := KeepTwoSegments(KeepNumeric(raw, sep), sep);
    if val == [] then "" else NormalizeTwoSegments(val, sep, decimals)
  }

  lemma KeepTwoSegmentsForm(val: string, sep: char)
    requires !IsDigit(sep) && NumericText(val, sep)
    ensures var v := KeepTwoSegments(val, sep);
      && NumericText(v, sep)
      && |Split(v, sep)| <= 2
      && (v == [] <==> val == [])
      && (|Split(val, sep)| <= 2 ==> v == val)
      && (|Split(val, sep)| > 2 ==> Split(v, sep) == Split(val, sep)[..2])
  {
    var parts := Split(val, sep);
    SplitDigits(val, sep);
    if |parts| > 2 {
      SplitOfTwo(parts[0], parts[1], sep);
      var v := parts[0] + [sep] + parts[1];
      forall i | 0 <= i < |v|
        ensures IsDigit(v[i]) || v[i] == sep
      {
        if i < |parts[0]| { assert v[i] == parts[0][i]; }
        else if i > |parts[0]| { assert v[i] == parts[1][i - |parts[0]| - 1]; }
      }
    }
  }

  /** The intended version differs from the written one only on text with two or more
      separators. */
  lemma ParseValIntendedAgrees(raw: string, sep: char, decimals: Option<nat>)
    requires !IsDigit(sep)
    requires |Split(KeepNumeric(raw, sep), sep)| <= 2
    ensures ParseValIntended(raw, sep, decimals) == ParseVal(raw, sep, decimals)
  {
    KeepTwoSegmentsForm(KeepNumeric(raw, sep), sep);
  }

  /** The intended version never keeps more than `decimals` fraction digits, and still keeps
      the digits before the first separator as the integer part. */
  lemma ParseValIntendedFractionBound(raw: string, sep: char, decimals: Option<nat>)
    requires !IsDigit(sep)
    ensures var r := ParseValIntended(raw, sep, decimals);
      && AmountText(r)
      && (decimals.Some? ==> |FractionPart(r)| <= decimals.value)
      && (KeepTwoSegments(KeepNumeric(raw, sep), sep) !in {[], [sep]} ==>
            IntegerPart(r) == Split(KeepNumeric(raw, sep), sep)[0])
  {
    var val := KeepNumeric(raw, sep);
    KeepTwoSegmentsForm(val, sep);
    var v := KeepTwoSegments(val, sep);
    var r := ParseValIntended(raw, sep, decimals);
    if v != [] {
      NormalizeForm(v, sep, decimals);
      var parts := Split(v, sep);
      if v == [sep] {
        DigitsDotDigits("0", "");
        assert "0" + "." + "" == "0.";
      } else if |parts| == 1 {
        DigitsOnly(parts[0]);
      } else {
        assert AllDigits(FractionKept(parts[1], decimals));
        DigitsDotDigits(parts[0], FractionKept(parts[1], decimals));
      }
      if v != [sep] {
        assert parts[0] == Split(val, sep)[0];
      }
    }
  }

  /** Feeding the intended result back in (with '.' as the separator) changes nothing, except
      for the lone "." that a 0-decimal token leaves from ".5". */
  lemma ParseValIntendedIdempotent(raw: string, decimals: Option<nat>)
    ensures var r := ParseValIntended(raw, '.', decimals);
      r != "." ==> ParseValIntended(r, '.', decimals) == r
  {
    var val := KeepNumeric(raw, '.');
    KeepTwoSegmentsForm(val, '.');
    var v := KeepTwoSegments(val, '.');
    if v != [] {
      assert ParseValIntended(raw, '.', decimals) == NormalizeTwoSegments(v, '.', decimals);
      NormalizeIdempotent(v, decimals);
    }
  }

  lemma NormalizeIdempotent(v: string, decimals: Option<nat>)
    requires NumericText(v, '.') && v != [] && |Split(v, '.')| <= 2
    ensures var r := NormalizeTwoSegments(v, '.', decimals);
      r != "." ==> ParseValIntended(r, '.', decimals) == r
  {
    NormalizeForm(v, '.', decimals);
    var parts := Split(v, '.');
    if v == ['.'] {
      assert "0" + "." + "" == "0.";
      ReparseDigitsDot("0", "", decimals);
    } else if |parts| == 1 {
      ReparseDigits(parts[0], decimals);
    } else {
      var f := FractionKept(parts[1], decimals);
      assert AllDigits(f);
      if parts[0] + f != [] {
        ReparseDigitsDot(parts[0], f, decimals);
      } else {
        assert parts[0] + "." + f == ".";
      }
    }
  }

  /** The one exception to idempotence, shared by both versions: with a 0-decimal token
      ".5" becomes ".", which normalises to "0.". */
  lemma LoneDotExample(b: string)
    requires AllDigits(b) && b != []
    ensures ParseValIntended(['.'] + b, '.', Some(0)) == "."
    ensures ParseVal(['.'] + b, '.', Some(0)) == "."
    ensures ParseValIntended(".", '.', Some(0)) == "0."
  {
    var s := [] + ['.'] + b;
    assert s == ['.'] + b;
    DigitsDotDigits([], b);
    KeepNumericAll(s, '.');
    SplitOfTwo([], b, '.');
    KeepTwoSegmentsForm(s, '.');
    NormalizeForm(s, '.', Some(0));
    assert "" + "." + b[..0] == ".";
    assert Find(".", '.') == 0;
    assert Split(".", '.') == [[], []];
    KeepNumericAll(".", '.');
  }

  lemma KeepNumericAll(s: string, sep: char)
    requires NumericText(s, sep)
    ensures KeepNumeric(s, sep) == s
  {
    if s != [] {
      assert NumericText(s[1..], sep) by {
        forall i | 0 <= i < |s[1..]| ensures IsDigit(s[1..][i]) || s[1..][i] == sep { assert s[1..][i] == s[i + 1]; }
      }
      KeepNumericAll(s[1..], sep);
    }
  }

  lemma ReparseDigits(a: string, decimals: Option<nat>)
    requires AllDigits(a) && a != []
    ensures ParseValIntended(a, '.', decimals) == a
  {
    KeepNumericAll(a, '.');
    SplitOfDigits(a, '.');
    NormalizeForm(a, '.', decimals);
  }

  lemma ReparseDigitsDot(a: string, f: string, decimals: Option<nat>)
    requires AllDigits(a) && AllDigits(f) && a + f != []
    requires decimals.Some? ==> |f| <= decimals.value
    ensures ParseValIntended(a + "." + f, '.', decimals) == a + "." + f
  {
    var r := a + "." + f;
    DigitsDotDigits(a, f);
    KeepNumericAll(r, '.');
    SplitOfTwo(a, f, '.');
    assert r == a + ['.'] + f;
    assert r != ['.'] by { assert |r| == |a| + 1 + |f|; }
    NormalizeForm(r, '.', decimals);
    assert FractionKept(f, decimals) == f;
  }

  /** `shakeValueDecimal(value, decimals)`: an amount with more significant places than the
      token allows is cut down (rounding toward zero) and rewritten by decimal.js `toString`.
      An empty value, one still ending in '.', or an unknown precision passes through; `None`
      is the decimal.js constructor throwing on text it cannot read. */
  function ShakeValueDecimal(value: string, decimals: Option<nat>): Option<string> {
    if value == [] || value[|value| - 1] == '.' || decimals.None? then Some(value)
    else
      match Parse(value)
      case None => None
      case Some(d) =>
        if Trim(d).places > decimals.value then Some(Render(FloorTo(d, decimals.value)))
        else Some(value)
  }

  /** The value comes back untouched exactly when it is empty, ends in '.', has no known
      precision, or reads as a decimal with at most `decimals` significant places. */
  lemma ShakeValueDecimalKeeps(value: string, decimals: Option<nat>)
    ensures ShakeValueDecimal(value, decimals) == Some(value) <==>
      || value == [] || value[|value| - 1] == '.' || decimals.None?
      || (Parse(value).Some? && Trim(Parse(value).value).places <= decimals.value)
  {
    if value != [] && value[|value| - 1] != '.' && decimals.Some? && Parse(value).Some? {
      var d, k := Parse(value).value, decimals.value;
      if Trim(d).places > k {
        var t := Trim(FloorTo(d, k));
        ParseRender(FloorTo(d, k));
        assert Trimmed(t) && t.places <= k;
      }
    }
  }

  /** The constructor throwing is the only way to get no result. */
  lemma ShakeValueDecimalThrows(value: string, decimals: Option<nat>)
    ensures ShakeValueDecimal(value, decimals).None? <==>
      value != [] && value[|value| - 1] != '.' && decimals.Some? && Parse(value).None?
  {
  }

  /** A readable value with a known precision comes back as a decimal with at most `decimals`
      significant places that is not above the original and less than one unit of the last
      kept place below it. */
  lemma ShakeValueDecimalFloors(value: string, k: nat, d: Dec)
    requires Parse(value) == Some(d) && value[|value| - 1] != '.'
    ensures var r := ShakeValueDecimal(value, Some(k));
      && r.Some? && Parse(r.value).Some?
      && var t := Parse(r.value).value;
      && Trim(t).places <= k
      && Value(t) <= Value(d) < Value(t) + Ulp(k)
  {
    UlpPositive(k);
    if Trim(d).places > k {
      ParseRender(FloorTo(d, k));
      FloorToValue(d, k);
      assert Trim(Trim(FloorTo(d, k))) == Trim(FloorTo(d, k));
    }
  }

  /** Applying it again to its own result changes nothing. */
  lemma ShakeValueDecimalIdempotent(value: string, decimals: Option<nat>)
    requires ShakeValueDecimal(value, decimals).Some?
    ensures var s := ShakeValueDecimal(value, decimals).value;
      ShakeValueDecimal(s, decimals) == Some(s)
  {
    var s := ShakeValueDecimal(value, decimals).value;
    if s != value {
      var d, k := Parse(value).value, decimals.value;
      var f := FloorTo(d, k);
      ParseRender(f);
      assert Trim(Trim(f)) == Trim(f);
      assert s[|s| - 1] != '.';
    }
  }
}
