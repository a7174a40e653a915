/** The text forms of decimals: the decimal.js constructor on plain unsigned literals
    (`Parse`), `toFixed` (`ToFixed`), `toString` without exponent notation (`Render`), and the
    project's `trimTrailZero` helper (`TrimTrailZero`). */
module DecimalStrings {
  import opened Options
  import opened Numerals
  import opened Decimals

  /** Index of the first `c` in `s`, or `|s|` when there is none. */
  function Find(s: string, c: char): (i: nat)
    ensures i <= |s|
    ensures forall j :: 0 <= j < i ==> s[j] != c
    ensures i < |s| ==> s[i] == c
  {
    if s == [] then 0 else if s[0] == c then 0 else 1 + Find(s[1..], c)
  }

  /** Searching past a prefix that lacks `c` skips the whole prefix. */
  lemma {:induction false} FindAfter(a: string, b: string, c: char)
    requires c !in a
    ensures Find(a + b, c) == |a| + Find(b, c)
  {
    if a != [] {
      assert (a + b)[1..] == a[1..] + b;
      FindAfter(a[1..], b, c);
    } else {
      assert a + b == b;
    }
  }

  /** `new Decimal(s)` for a plain literal: digits, at most one '.', at least one digit
      (decimal.js also reads "5." and ".5"). `None` where the constructor throws. */
  function Parse(s: string): Option<Dec> {
    var i := Find(s, '.');
    if i == |s| then ParseParts(s, []) else ParseParts(s[..i], s[i + 1..])
  }

  /** The decimal with integer digits `whole` and fraction digits `fraction`. */
  function ParseParts(whole: string, fraction: string): Option<Dec> {
    if AllDigits(whole) && AllDigits(fraction) && |whole| + |fraction| >= 1 then
      Some(Dec(DigitsValue(whole) * Pow10(|fraction|) + DigitsValue(fraction), |fraction|))
    else None
  }

  /** decimal.js `toFixed(d.places)` of an already rounded value: the integer digits, then,
      when there are places, a '.' and exactly `d.places` digits. */
  function ToFixed(d: Dec): (r: string)
    ensures |r| >= 1 && IsDigit(r[|r| - 1])
    decreases d.places
  {
    if d.places == 0 then NatDigits(d.units)
    else ToFixed(Dec(d.units / 10, d.places - 1)) + (if d.places == 1 then "." else "")
         + [DigitChar(d.units % 10)]
  }

  /** Drops trailing zeros after a '.', then a dangling '.'; text without '.' is left alone. */
  function TrimTrailZero(s: string): string {
    if '.' in s then DropFractionZeros(s) else s
  }

  function DropFractionZeros(s: string): string {
    if s != [] && s[|s| - 1] == '0' then DropFractionZeros(s[..|s| - 1])
    else if s != [] && s[|s| - 1] == '.' then s[..|s| - 1]
    else s
  }

  /** decimal.js `toString()` in plain notation: no trailing zero places. */
  function Render(d: Dec): string {
    ToFixed(Trim(d))
  }

  /** `ToFixed(d)` is the integer digits `w`, then '.' and `d.places` fraction digits `f`, with
      `w * 10^places + f` the units. */
  lemma {:induction false} ToFixedShape(d: Dec) returns (w: nat, f: string)
    ensures |f| == d.places && AllDigits(f)
    ensures w * Pow10(d.places) + DigitsValue(f) == d.units
    ensures d.places == 0 ==> ToFixed(d) == NatDigits(w)
    ensures d.places > 0 ==> ToFixed(d) == NatDigits(w) + "." + f
    decreases d.places
  {
    if d.places == 0 {
      w, f := d.units, [];
    } else if d.places == 1 {
      w, f := d.units / 10, [DigitChar(d.units % 10)];
      assert f[..0] == [];
    } else {
      var w', f' := ToFixedShape(Dec(d.units / 10, d.places - 1));
      w, f := w', f' + [DigitChar(d.units % 10)];
      assert f[..|f| - 1] == f';
      assert DigitsValue(f) == DigitsValue(f') * 10 + d.units % 10;
      ShiftDigit(w', Pow10(d.places - 1), DigitsValue(f'), d.units % 10);
    }
  }

  /** Reading back what `ToFixed` printed gives the same decimal. */
  lemma ParseToFixed(d: Dec)
    ensures Parse(ToFixed(d)) == Some(d)
  {
    var w, f := ToFixedShape(d);
    if d.places == 0 {
      ParseDigits(NatDigits(w));
    } else {
      ParseDigitsDotDigits(NatDigits(w), f);
    }
    ParsePartsOfDigits(d, w, f);
  }

  lemma ParsePartsOfDigits(d: Dec, w: nat, f: string)
    requires |f| == d.places && AllDigits(f)
    requires w * Pow10(d.places) + DigitsValue(f) == d.units
    ensures ParseParts(NatDigits(w), f) == Some(d)
    ensures d.places == 0 ==> Dec(DigitsValue(NatDigits(w)), 0) == d
  {
  }

  lemma ParseDigits(s: string)
    requires |s| >= 1 && AllDigits(s)
    ensures Parse(s) == Some(Dec(DigitsValue(s), 0))
  {
    FindAfter(s, [], '.');
    assert s + [] == s;
    assert DigitsValue(s) * Pow10(0) + DigitsValue([]) == DigitsValue(s);
  }

  lemma ParseDigitsDotDigits(whole: string, fraction: string)
    requires |whole| >= 1 && AllDigits(whole) && AllDigits(fraction)
    ensures Parse(whole + "." + fraction) == ParseParts(whole, fraction)
  {
    var s := whole + "." + fraction;
    assert s == whole + ("." + fraction);
    FindAfter(whole, "." + fraction, '.');
    assert Find("." + fraction, '.') == 0;
    assert s[..|whole|] == whole;
    assert s[|whole| + 1..] == fraction;
  }

  /** Trimming the `toFixed` text is printing the trimmed decimal. */
  lemma TrimTrailZeroToFixed(d: Dec)
    ensures TrimTrailZero(ToFixed(d)) == Render(d)
  {
    var w, f := ToFixedShape(d);
    if d.places == 0 {
      assert forall i :: 0 <= i < |ToFixed(d)| ==> ToFixed(d)[i] != '.';
    } else {
      assert ToFixed(d)[|NatDigits(w)|] == '.';
      DropZerosToFixed(d);
    }
  }

  lemma {:induction false} DropZerosToFixed(d: Dec)
    requires d.places > 0
    ensures DropFractionZeros(ToFixed(d)) == ToFixed(Trim(d))
    decreases d.places
  {
    var d' := Dec(d.units / 10, d.places - 1);
    var last := DigitChar(d.units % 10);
    var prefix := ToFixed(d') + (if d.places == 1 then "." else "");
    assert ToFixed(d) == prefix + [last];
    DropFractionZerosLast(prefix, last);
    if d.units % 10 == 0 {
      assert last == '0';
      assert DropFractionZeros(ToFixed(d)) == DropFractionZeros(prefix);
      assert Trim(d) == Trim(d');
      if d.places == 1 {
        assert prefix == ToFixed(d') + ['.'];
        DropFractionZerosLast(ToFixed(d'), '.');
        assert DropFractionZeros(prefix) == ToFixed(d');
        assert Trim(d') == d';
      } else {
        assert prefix == ToFixed(d');
        DropZerosToFixed(d');
      }
    } else {
      assert last != '0' && last != '.';
      assert DropFractionZeros(ToFixed(d)) == ToFixed(d);
      assert Trim(d) == d;
    }
  }

  lemma DropFractionZerosLast(p: string, c: char)
    ensures DropFractionZeros(p + [c])
         == if c == '0' then DropFractionZeros(p) else if c == '.' then p else p + [c]
  {
    assert (p + [c])[..|p + [c]| - 1] == p;
  }

  /** What `Render` prints reads back as the trimmed decimal. */
  lemma ParseRender(d: Dec)
    ensures Parse(Render(d)) == Some(Trim(d))
  {
    ParseToFixed(Trim(d));
  }
}
