/** The inline coercions of the `object`-typed arguments `IncludeDuplicates`
    (src/ExcelMazRegex.cs:154-164, repeated at 261-271 and 326-336) and
    `MaxGroups` (src/ExcelMazRegex.cs:165-191). */
module Coercion {
  import opened ExcelValues

  /** The `IncludeDuplicates` ternary chain: omitted means true, a boolean is
      itself, text is true only when EMPTY (any non-empty text, "TRUE"
      included, is false), a number is true when positive, and anything else
      is false. */
  function IncludeDuplicates(a: ExcelArg): (inc: bool)
    ensures inc <==> a.Missing? || (a.Bool? && a.b) || (a.Str? && a.s == "") || (a.Num? && a.n > 0)
    ensures a == Str("TRUE") ==> !inc
  {
    match a
    case Missing => true
    case Bool(b) => b
    case Str(s) => s == ""
    case Num(n) => n > 0
    case Other => false
  }

  /** The result of the `MaxGroups` coercion: a ceiling, or the outcome the
      function returns instead (#VALUE! for unparsable text, a fault for the
      invalid `(bool)` cast). */
  datatype Coerced = Value(n: Int32) | Raise(err: Outcome)

  /** `(int)(double)x`: the integral value when it fits; outside the range the
      conversion yields the "integer indefinite" value 0x80000000. */
  function TruncateToInt32(n: int): (v: Int32)
    ensures MinInt32 <= n <= MaxInt32 ==> v == n
  {
    if MinInt32 <= n <= MaxInt32 then n else MinInt32
  }

  /** The `MaxGroups` coercion. Because `&` does not short-circuit, the
      `(bool)MaxGroups` cast is evaluated for every argument that is neither a
      number nor text, so an omitted or other argument faults. */
  function MaxGroupsArg(a: ExcelArg): (r: Coerced)
    ensures r == Raise(Fault) <==> a.Missing? || a.Other?
    ensures r == Raise(ValueError) <==> a.Str? && a.s != "" && ParseInt32(a.s).None?
    ensures r.Raise? ==> r.err == Fault || r.err == ValueError
    ensures a.Bool? ==> r == Value(if a.b then 1 else 0)
    ensures a.Str? && a.s == "" ==> r == Value(0)
    ensures a.Num? && MinInt32 <= a.n <= MaxInt32 ==> r == Value(a.n)
    ensures a.Str? && a.s != "" && ParseInt32(a.s).Some? ==> r == Value(ParseInt32(a.s).value)
  {
    match a
    case Num(n) => Value(TruncateToInt32(n))
    case Str(s) =>
      if s == "" then Value(0)
      else (match ParseInt32(s)
            case None => Raise(ValueError)
            case Some(v) => Value(v))
    case Bool(b) => if b then Value(1) else Value(0)
    case Missing => Raise(Fault)
    case Other => Raise(Fault)
  }

  // ---------------------------------------------------------------------
  // `int.TryParse` with the default integer style: optional leading and
  // trailing white space, an optional sign, one or more decimal digits, and a
  // value that fits in 32 bits.

  predicate IsWhite(c: char) { c == ' ' || '\t' <= c <= '\r' }

  predicate IsDigit(c: char) { '0' <= c <= '9' }

  predicate AllDigits(s: string) { forall i :: 0 <= i < |s| ==> IsDigit(s[i]) }

  predicate AllWhite(s: string) { forall i :: 0 <= i < |s| ==> IsWhite(s[i]) }

  function TrimStart(s: string): (t: string)
    ensures |t| <= |s|
    ensures t != [] ==> !IsWhite(t[0])
  {
    if s != [] && IsWhite(s[0]) then TrimStart(s[1..]) else s
  }

  function TrimEnd(s: string): (t: string)
    ensures |t| <= |s|
    ensures t != [] ==> !IsWhite(t[|t| - 1])
  {
    if s != [] && IsWhite(s[|s| - 1]) then TrimEnd(s[..|s| - 1]) else s
  }

  /** The value of a string of decimal digits, most significant first. */
  function DigitsValue(ds: string): nat
    requires AllDigits(ds)
  {
    if ds == [] then 0 else DigitsValue(ds[..|ds| - 1]) * 10 + (ds[|ds| - 1] - '0') as int
  }

  function ParseInt32(s: string): (r: Option<Int32>)
    ensures r.Some? ==> TrimEnd(TrimStart(s)) != ""
  {
    var t := TrimEnd(TrimStart(s));
    if t == "" then None else SignedDigits(t)
  }

  /** An optional sign followed by one or more digits, within 32 bits. */
  function SignedDigits(t: string): Option<Int32>
    requires t != ""
  {
    var ds := if t[0] == '-' || t[0] == '+' then t[1..] else t;
    if ds == [] || !AllDigits(ds) then None
    else
      var v: int := if t[0] == '-' then -(DigitsValue(ds) as int) else DigitsValue(ds);
      if MinInt32 <= v <= MaxInt32 then Some(v) else None
  }

  /** The shortest decimal text of a natural number. */
  function Decimal(n: nat): (ds: string)
  {
    if n < 10 then ['0' + n as char] else Decimal(n / 10) + ['0' + (n % 10) as char]
  }

  /** The invariant-culture text of a 32-bit integer. */
  function Int32Text(n: Int32): string
  {
    if n < 0 then "-" + Decimal(-(n as int)) else Decimal(n)
  }

  lemma {:induction false} DecimalDigits(n: nat)
    ensures |Decimal(n)| > 0 && AllDigits(Decimal(n))
    ensures DigitsValue(Decimal(n)) == n
  {
    if n >= 10 {
      DecimalDigits(n / 10);
      var ds := Decimal(n);
      assert ds[..|ds| - 1] == Decimal(n / 10);
    }
  }

  lemma TrimIdle(s: string)
    requires s != [] && !IsWhite(s[0]) && !IsWhite(s[|s| - 1])
    ensures TrimEnd(TrimStart(s)) == s
  {
  }

  /** Every 32-bit integer, written in decimal, is accepted by the `MaxGroups`
      coercion as itself. */
  lemma MaxGroupsTextRoundTrip(n: Int32)
    ensures MaxGroupsArg(Str(Int32Text(n))) == Value(n)
  {
    ParseDecimal(n);
  }

  lemma ParseDecimal(n: Int32)
    ensures Int32Text(n) != "" && ParseInt32(Int32Text(n)) == Some(n)
  {
    if n < 0 {
      ParseNegative(n);
    } else {
      ParseNonNegative(n);
    }
  }

  lemma ParseNonNegative(n: Int32)
    requires n >= 0
    ensures Int32Text(n) != "" && ParseInt32(Int32Text(n)) == Some(n)
  {
    var ds := Decimal(n);
    assert Int32Text(n) == ds;
    assert ds != [] && AllDigits(ds) && DigitsValue(ds) == n by { DecimalDigits(n); }
    assert TrimEnd(TrimStart(ds)) == ds by {
      assert IsDigit(ds[0]) && IsDigit(ds[|ds| - 1]);
      TrimIdle(ds);
    }
    ParseUnsigned(ds);
  }

  lemma ParseNegative(n: Int32)
    requires n < 0
    ensures Int32Text(n) != "" && ParseInt32(Int32Text(n)) == Some(n)
  {
    var m: nat := -(n as int);
    var ds := Decimal(m);
    var t := Int32Text(n);
    assert t == "-" + ds;
    assert ds != [] && AllDigits(ds) && DigitsValue(ds) == m by { DecimalDigits(m); }
    assert t[0] == '-' && t[1..] == ds;
    assert TrimEnd(TrimStart(t)) == t by {
      assert t[|t| - 1] == ds[|ds| - 1];
      assert IsDigit(ds[|ds| - 1]);
      TrimIdle(t);
    }
    ParseMinus(t, ds);
  }

  /** Trimmed digits without a sign parse as their value. */
  lemma ParseUnsigned(ds: string)
    requires ds != [] && AllDigits(ds) && TrimEnd(TrimStart(ds)) == ds
    requires DigitsValue(ds) <= MaxInt32
    ensures ParseInt32(ds) == Some(DigitsValue(ds))
  {
    assert IsDigit(ds[0]);
  }

  /** Trimmed digits after a minus sign parse as the negated value. */
  lemma ParseMinus(t: string, ds: string)
    requires |t| >= 1 && t[0] == '-' && t[1..] == ds && ds != [] && AllDigits(ds)
    requires TrimEnd(TrimStart(t)) == t
    requires DigitsValue(ds) <= -MinInt32
    ensures ParseInt32(t) == Some(-(DigitsValue(ds) as int))
  {
    var v: int := -(DigitsValue(ds) as int);
    assert MinInt32 <= v <= MaxInt32;
    assert SignedDigits(t) == Some(v);
  }

  /** The value an optional sign and a digit string denote. */
  function SignedValue(sign: string, ds: string): int
    requires AllDigits(ds)
  {
    if sign == "-" then -(DigitsValue(ds) as int) else DigitsValue(ds)
  }

  /** White space, an optional sign, one or more digits and white space are
      accepted exactly when the signed value fits in 32 bits, and then parse as
      that value. */
  lemma ParseSignedDigits(lead: string, sign: string, ds: string, trail: string)
    requires AllWhite(lead) && AllWhite(trail)
    requires sign == "" || sign == "-" || sign == "+"
    requires ds != [] && AllDigits(ds)
    ensures var v := SignedValue(sign, ds);
      ParseInt32(lead + sign + ds + trail) == if MinInt32 <= v <= MaxInt32 then Some(v) else None
  {
    var t := sign + ds;
    assert TrimEnd(TrimStart(lead + sign + ds + trail)) == t by {
      assert IsDigit(ds[0]) && IsDigit(ds[|ds| - 1]);
      assert t[|t| - 1] == ds[|ds| - 1];
      assert lead + sign + ds + trail == lead + (t + trail);
      assert t + trail != [] && (t + trail)[0] == t[0];
      TrimStartPad(lead, t + trail);
      TrimEndPad(t, trail);
    }
    SignedDigitsOf(sign, ds);
  }

  lemma SignedDigitsOf(sign: string, ds: string)
    requires sign == "" || sign == "-" || sign == "+"
    requires ds != [] && AllDigits(ds)
    ensures var v := SignedValue(sign, ds);
      SignedDigits(sign + ds) == if MinInt32 <= v <= MaxInt32 then Some(v) else None
  {
    var t := sign + ds;
    assert IsDigit(ds[0]);
    assert (if t[0] == '-' || t[0] == '+' then t[1..] else t) == ds;
  }

  /** `s` spells white space, an optional sign, one or more digits and white space. */
  predicate Spells(s: string, lead: string, sign: string, ds: string, trail: string)
  {
    && AllWhite(lead) && AllWhite(trail)
    && (sign == "" || sign == "-" || sign == "+")
    && ds != [] && AllDigits(ds)
    && s == lead + sign + ds + trail
  }

  /** The converse: only white space, an optional sign, one or more digits
      and white space are accepted, and the result is their signed value. */
  lemma ParseAcceptsOnlySignedDigits(s: string)
    requires ParseInt32(s).Some?
    ensures exists lead, sign, ds, trail :: Spells(s, lead, sign, ds, trail) && ParseInt32(s).value == SignedValue(sign, ds)
  {
    var lead, sign, ds, trail := ParseSplit(s);
  }

  lemma ParseSplit(s: string) returns (lead: string, sign: string, ds: string, trail: string)
    requires ParseInt32(s).Some?
    ensures Spells(s, lead, sign, ds, trail) && ParseInt32(s).value == SignedValue(sign, ds)
  {
    var t0 := TrimStart(s);
    var t := TrimEnd(t0);
    assert t != "" && ParseInt32(s) == SignedDigits(t);
    sign := if t[0] == '-' || t[0] == '+' then t[..1] else "";
    ds := t[|sign|..];
    assert (sign == "" || sign == "-" || sign == "+") && ds != [] && AllDigits(ds) && t == sign + ds
           && SignedDigits(t).value == SignedValue(sign, ds) by {
      SignedDigitsShape(t);
    }
    lead := s[..|s| - |t0|];
    trail := t0[|t|..];
    assert AllWhite(lead) && s == lead + t0 by {
      TrimStartSplit(s);
    }
    assert AllWhite(trail) && t0 == t + trail by {
      TrimEndSplit(t0);
    }
    assert s == lead + ((sign + ds) + trail);
    ConcatFour(lead, sign, ds, trail);
  }

  lemma ConcatFour(a: string, b: string, c: string, d: string)
    ensures a + ((b + c) + d) == a + b + c + d
  {
  }

  /** Accepted trimmed text is an optional sign followed by digits. */
  lemma SignedDigitsShape(t: string)
    requires t != "" && SignedDigits(t).Some?
    ensures var sign := if t[0] == '-' || t[0] == '+' then t[..1] else "";
      var ds := t[|sign|..];
      && (sign == "" || sign == "-" || sign == "+") && ds != [] && AllDigits(ds) && t == sign + ds
      && SignedDigits(t).value == SignedValue(sign, ds)
  {
    var sign := if t[0] == '-' || t[0] == '+' then t[..1] else "";
    if t[0] == '-' || t[0] == '+' {
      assert sign == [t[0]];
    }
    assert t[|sign|..] == (if t[0] == '-' || t[0] == '+' then t[1..] else t);
  }

  lemma {:induction false} TrimStartSplit(s: string)
    ensures AllWhite(s[..|s| - |TrimStart(s)|])
    ensures s == s[..|s| - |TrimStart(s)|] + TrimStart(s)
  {
    if s != [] && IsWhite(s[0]) {
      TrimStartSplit(s[1..]);
      var w := s[1..][..|s| - 1 - |TrimStart(s)|];
      assert s[..|s| - |TrimStart(s)|] == [s[0]] + w;
    }
  }

  lemma {:induction false} TrimEndSplit(s: string)
    ensures AllWhite(s[|TrimEnd(s)|..])
    ensures s == TrimEnd(s) + s[|TrimEnd(s)|..]
  {
    if s != [] && IsWhite(s[|s| - 1]) {
      var p := s[..|s| - 1];
      TrimEndSplit(p);
      assert s[|TrimEnd(s)|..] == p[|TrimEnd(p)|..] + [s[|s| - 1]];
    }
  }

  /** Through the `MaxGroups` coercion: in-range signed digits give the
      ceiling they denote, out-of-range ones #VALUE!. */
  lemma MaxGroupsSignedDigits(lead: string, sign: string, ds: string, trail: string)
    requires AllWhite(lead) && AllWhite(trail)
    requires sign == "" || sign == "-" || sign == "+"
    requires ds != [] && AllDigits(ds)
    ensures var v := SignedValue(sign, ds);
      MaxGroupsArg(Str(lead + sign + ds + trail)) == if MinInt32 <= v <= MaxInt32 then Value(v) else Raise(ValueError)
  {
    ParseSignedDigits(lead, sign, ds, trail);
  }

  /** One past the largest 32-bit integer is refused with #VALUE!. */
  lemma MaxGroupsOutOfRange()
    ensures MaxGroupsArg(Str("2147483648")) == Raise(ValueError)
  {
    assert AllDigits("2147483648") && DigitsValue("2147483648") == 2147483648 by {
      OnePastMaxInt32();
    }
    MaxGroupsSignedDigits("", "", "2147483648", "");
    assert "" + "" + "2147483648" + "" == "2147483648";
  }

  lemma OnePastMaxInt32()
    ensures AllDigits("2147483648") && DigitsValue("2147483648") == 2147483648
  {
    var d := ['2'];
    assert DigitsValue(d) == 2 by { assert d[..0] == []; }
    DigitsSnoc(d, '1');
    d := d + ['1'];
    assert DigitsValue(d) == 21;
    DigitsSnoc(d, '4');
    d := d + ['4'];
    assert DigitsValue(d) == 214;
    DigitsSnoc(d, '7');
    d := d + ['7'];
    assert DigitsValue(d) == 2147;
    DigitsSnoc(d, '4');
    d := d + ['4'];
    assert DigitsValue(d) == 21474;
    DigitsSnoc(d, '8');
    d := d + ['8'];
    assert DigitsValue(d) == 214748;
    DigitsSnoc(d, '3');
    d := d + ['3'];
    assert DigitsValue(d) == 2147483;
    DigitsSnoc(d, '6');
    d := d + ['6'];
    assert DigitsValue(d) == 21474836;
    DigitsSnoc(d, '4');
    d := d + ['4'];
    assert DigitsValue(d) == 214748364;
    DigitsSnoc(d, '8');
    d := d + ['8'];
    assert DigitsValue(d) == 2147483648;
    assert d == "2147483648";
  }

  lemma DigitsSnoc(p: string, c: char)
    requires AllDigits(p) && IsDigit(c)
    ensures AllDigits(p + [c]) && DigitsValue(p + [c]) == DigitsValue(p) * 10 + (c - '0') as int
  {
    assert (p + [c])[..|p|] == p;
  }

  /** White space and a plus sign around a number are accepted. */
  lemma MaxGroupsPaddedPlus()
    ensures MaxGroupsArg(Str(" +7 ")) == Value(7)
  {
    assert DigitsValue("7") == 7;
    MaxGroupsSignedDigits(" ", "+", "7", " ");
    assert " " + "+" + "7" + " " == " +7 ";
  }

  lemma {:induction false} TrimStartPad(w: string, x: string)
    requires AllWhite(w) && x != [] && !IsWhite(x[0])
    ensures TrimStart(w + x) == x
    decreases |w|
  {
    if w == [] {
      assert w + x == x;
    } else {
      assert (w + x)[0] == w[0];
      assert (w + x)[1..] == w[1..] + x;
      TrimStartPad(w[1..], x);
    }
  }

  lemma {:induction false} TrimEndPad(x: string, w: string)
    requires AllWhite(w) && x != [] && !IsWhite(x[|x| - 1])
    ensures TrimEnd(x + w) == x
    decreases |w|
  {
    if w == [] {
      assert x + w == x;
    } else {
      assert (x + w)[|x + w| - 1] == w[|w| - 1];
      assert (x + w)[..|x + w| - 1] == x + w[..|w| - 1];
      TrimEndPad(x, w[..|w| - 1]);
    }
  }

  /** Text holding something other than white space, a sign and digits is
      refused with #VALUE!. */
  lemma MaxGroupsRejectsLetters(s: string, i: nat)
    requires i < |s| && !IsWhite(s[i]) && !IsDigit(s[i]) && s[i] != '-' && s[i] != '+'
    ensures MaxGroupsArg(Str(s)) == Raise(ValueError)
  {
    ParseRejectsLetters(s, i);
  }

  lemma ParseRejectsLetters(s: string, i: nat)
    requires i < |s| && !IsWhite(s[i]) && !IsDigit(s[i]) && s[i] != '-' && s[i] != '+'
    ensures ParseInt32(s).None?
  {
    var t0 := TrimStart(s);
    TrimStartKeeps(s, i);
    var i0 := i - (|s| - |t0|);
    assert t0[i0] == s[i];
    TrimEndKeeps(t0, i0);
    var t := TrimEnd(t0);
    assert t[i0] == s[i];
    var ds := if t[0] == '-' || t[0] == '+' then t[1..] else t;
    if t[0] == '-' || t[0] == '+' {
      assert i0 > 0;
      assert ds[i0 - 1] == s[i];
    } else {
      assert ds[i0] == s[i];
    }
    assert !AllDigits(ds);
  }

  lemma {:induction false} TrimStartKeeps(s: string, i: nat)
    requires i < |s| && !IsWhite(s[i])
    ensures |s| - |TrimStart(s)| <= i
    ensures TrimStart(s) == s[|s| - |TrimStart(s)|..]
  {
    if s != [] && IsWhite(s[0]) {
      TrimStartKeeps(s[1..], i - 1);
    }
  }

  lemma {:induction false} TrimEndKeeps(s: string, i: nat)
    requires i < |s| && !IsWhite(s[i])
    ensures i < |TrimEnd(s)|
    ensures TrimEnd(s) == s[..|TrimEnd(s)|]
  {
    if s != [] && IsWhite(s[|s| - 1]) {
      TrimEndKeeps(s[..|s| - 1], i);
    }
  }
}
