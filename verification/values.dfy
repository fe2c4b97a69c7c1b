/** The typed values of a decoded call and the three-way string coercion of
    `HwCall._convert_to_type`: a numeric text becomes an int or a float, the
    text `None` becomes null, anything else stays text. Python's `float(...)`
    is modelled by a decimal-literal recognizer: an optional sign, digits,
    optionally a `.` and more digits, with at least one digit in all. */
module Values {
  import opened Wrappers
  import opened Text

  /** A Python scalar in a decoded record: `int`, `float`, `None` or `str`. */
  datatype Value = Int(i: int) | Float(f: real) | Null | Str(s: string)

  predicate IsDigit(c: char)
  {
    '0' <= c <= '9'
  }

  predicate AllDigits(s: string)
  {
    forall i :: 0 <= i < |s| ==> IsDigit(s[i])
  }

  function DigitValue(c: char): nat
    requires IsDigit(c)
  {
    c as int - '0' as int
  }

  function DigitChar(d: nat): (c: char)
    requires d < 10
    ensures IsDigit(c) && DigitValue(c) == d
  {
    ('0' as int + d) as char
  }

  /** The number a run of decimal digits denotes. */
  function DigitsValue(s: string): nat
    requires AllDigits(s)
    decreases |s|
  {
    if s == [] then 0 else DigitsValue(s[..|s| - 1]) * 10 + DigitValue(s[|s| - 1])
  }

  function Pow10(n: nat): (p: nat)
    ensures p >= 1
  {
    if n == 0 then 1 else 10 * Pow10(n - 1)
  }

  /** The text after an optional leading sign. */
  function Unsigned(s: string): string
  {
    if |s| > 0 && (s[0] == '+' || s[0] == '-') then s[1..] else s
  }

  /** The pieces of the unsigned text around its `.`s. */
  function DecimalParts(s: string): seq<string>
  {
    Split(Unsigned(s), ".")
  }

  /** `s` is a decimal literal: what `float(s)` accepts in this model. */
  predicate IsDecimal(s: string)
  {
    var parts := DecimalParts(s);
    && |parts| <= 2
    && AllDigits(parts[0])
    && AllDigits(parts[|parts| - 1])
    && parts[0] + parts[|parts| - 1] != ""
  }

  /** The number a decimal literal denotes. */
  function DecimalValue(s: string): real
    requires IsDecimal(s)
  {
    var parts := DecimalParts(s);
    var whole := DigitsValue(parts[0]) as real;
    var magnitude :=
      if |parts| == 2 then whole + DigitsValue(parts[1]) as real / Pow10(|parts[1]|) as real
      else whole;
    if |s| > 0 && s[0] == '-' then -magnitude else magnitude
  }

  /** Python's `float.is_integer()`. */
  predicate IsInteger(x: real)
  {
    x.Floor as real == x
  }

  /** A decimal literal without a `.` always denotes an integer. */
  lemma NoDotIsInteger(s: string)
    requires IsDecimal(s) && '.' !in s
    ensures IsInteger(DecimalValue(s))
  {
    var u := Unsigned(s);
    assert '.' !in u;
    assert !Contains(u, ".") by { ContainsChar(u, '.'); }
    var parts := DecimalParts(s);
    assert |parts| == 1;
    var n: int := DigitsValue(parts[0]);
    assert DecimalValue(s) == n as real || DecimalValue(s) == (-n) as real;
  }

  /** The text "None" is not numeric. */
  lemma NoneIsNotDecimal()
    ensures !IsDecimal("None")
  {
    ContainsChar("None", '.');
    var parts := DecimalParts("None");
    assert Unsigned("None") == "None";
    assert |parts| == 1 && parts[0] == "None";
    assert !IsDigit("None"[0]);
  }

  /** `HwCall._convert_to_type`: total over all texts. */
  function ConvertToType(s: string): (r: Value)
    ensures r.Int? <==> IsDecimal(s) && '.' !in s
    ensures r.Float? <==> IsDecimal(s) && '.' in s
    ensures r.Int? ==> r.i as real == DecimalValue(s)
    ensures r.Float? ==> r.f == DecimalValue(s)
    ensures r.Null? <==> s == "None"
    ensures r.Str? ==> r.s == s
  {
    NoneIsNotDecimal();
    if IsDecimal(s) then
      var x := DecimalValue(s);
      if IsInteger(x) && '.' !in s then Int(x.Floor)
      else
        assert '.' in s by {
          if '.' !in s { NoDotIsInteger(s); }
        }
        Float(x)
    else if s == "None" then Null
    else Str(s)
  }

  /** Python's `==` between two values (an int equals the float with the same value). */
  predicate PyEq(a: Value, b: Value)
  {
    match (a, b)
    case (Int(x), Int(y)) => x == y
    case (Int(x), Float(y)) => x as real == y
    case (Float(x), Int(y)) => x == y as real
    case (Float(x), Float(y)) => x == y
    case (Null, Null) => true
    case (Str(x), Str(y)) => x == y
    case _ => false
  }

  /** Decimal text of a natural number, as Python's `str(n)`. */
  function NatText(n: nat): (s: string)
    ensures s != [] && AllDigits(s) && '.' !in s
  {
    if n < 10 then [DigitChar(n)] else NatText(n / 10) + [DigitChar(n % 10)]
  }

  /** Decimal text of an integer, as Python's `str(n)`. */
  function IntText(n: int): (s: string)
  {
    if n < 0 then "-" + NatText(-n) else NatText(n)
  }

  lemma {:induction false} NatTextValue(n: nat)
    ensures DigitsValue(NatText(n)) == n
  {
    if n >= 10 {
      var s := NatText(n);
      assert s[..|s| - 1] == NatText(n / 10);
      NatTextValue(n / 10);
    }
  }

  /** A run of digits holds no `.`. */
  lemma DigitsHaveNoDot(t: string)
    requires AllDigits(t)
    ensures '.' !in t && !Contains(t, ".")
  {
    ContainsChar(t, '.');
    assert forall k :: 0 <= k < |t| ==> IsDigit(t[k]);
  }

  /** An optionally negated run of digits is a single piece once unsigned. */
  lemma SignedDigitsParts(sign: string, t: string)
    requires sign == "" || sign == "-"
    requires t != [] && AllDigits(t)
    ensures Unsigned(sign + t) == t && DecimalParts(sign + t) == [t] && '.' !in sign + t
  {
    if sign == "-" {
      assert (sign + t)[1..] == t;
    } else {
      assert sign + t == t && IsDigit(t[0]);
    }
    DigitsHaveNoDot(t);
  }

  /** An optionally negated run of digits converts to that integer. */
  lemma ConvertSignedDigits(sign: string, t: string)
    requires sign == "" || sign == "-"
    requires t != [] && AllDigits(t)
    ensures var v: int := DigitsValue(t); ConvertToType(sign + t) == Int(if sign == "-" then -v else v)
  {
    SignedDigitsParts(sign, t);
    assert IsDecimal(sign + t);
    assert |sign + t| > 0 && ((sign + t)[0] == '-' <==> sign == "-");
  }

  /** Round trip: the text of any integer converts back to that integer. */
  lemma ConvertIntText(n: int)
    ensures ConvertToType(IntText(n)) == Int(n)
  {
    var sign := if n < 0 then "-" else "";
    var m: nat := if n < 0 then -n else n;
    assert IntText(n) == sign + NatText(m);
    NatTextValue(m);
    ConvertSignedDigits(sign, NatText(m));
  }

  /** The same run of digits followed by `.0` is two pieces once unsigned. */
  lemma SignedDigitsPointZeroParts(sign: string, t: string)
    requires sign == "" || sign == "-"
    requires t != [] && AllDigits(t)
    ensures var s := sign + t + ".0";
      DecimalParts(s) == [t, "0"] && '.' in s && (s[0] == '-' <==> sign == "-")
  {
    var u := t + "." + "0";
    var s := sign + t + ".0";
    assert s == sign + u;
    if sign == "-" {
      assert s[1..] == u;
    } else {
      assert s[0] == t[0] && IsDigit(t[0]);
    }
    assert Unsigned(s) == u;
    assert Split(u, ".") == [t, "0"] by {
      DigitsHaveNoDot(t);
      FindAfterFreePrefix(t, ".", "0");
      SplitAtFirst(t, ".", "0");
      assert !Contains("0", ".") by { ContainsChar("0", '.'); }
    }
    assert s[|s| - 2] == '.';
  }

  /** A text whose unsigned part is two runs of digits around one `.`. */
  lemma TwoPartDecimal(s: string, w: string, f: string)
    requires DecimalParts(s) == [w, f] && AllDigits(w) && AllDigits(f) && w + f != ""
    ensures IsDecimal(s)
    ensures var magnitude := DigitsValue(w) as real + DigitsValue(f) as real / Pow10(|f|) as real;
      DecimalValue(s) == if |s| > 0 && s[0] == '-' then -magnitude else magnitude
  {
  }

  /** An optionally negated run of digits followed by `.0` denotes the
      same number as the digits, negated with the sign. */
  lemma SignedDigitsPointZeroValue(sign: string, t: string)
    requires sign == "" || sign == "-"
    requires t != [] && AllDigits(t)
    ensures var s := sign + t + ".0"; var v := DigitsValue(t) as real;
      IsDecimal(s) && '.' in s && DecimalValue(s) == if sign == "-" then -v else v
  {
    SignedDigitsPointZeroParts(sign, t);
    PointZeroDecimal(sign + t + ".0", t);
  }

  /** A literal whose parts are a run of digits and `0` denotes the digits. */
  lemma PointZeroDecimal(s: string, t: string)
    requires DecimalParts(s) == [t, "0"] && AllDigits(t)
    ensures var v := DigitsValue(t) as real;
      IsDecimal(s) && DecimalValue(s) == if |s| > 0 && s[0] == '-' then -v else v
  {
    ZeroFraction();
    TwoPartDecimal(s, t, "0");
  }

  /** The fraction `.0` adds nothing. */
  lemma ZeroFraction()
    ensures AllDigits("0") && DigitsValue("0") as real / Pow10(|"0"|) as real == 0.0
  {
    assert DigitsValue("0") == 0 by { assert "0"[..0] == ""; }
    assert Pow10(|"0"|) == 10 by { assert |"0"| == 1 && Pow10(1) == 10; }
  }

  /** An optionally negated run of digits followed by `.0` converts to a float. */
  lemma ConvertSignedDigitsPointZero(sign: string, t: string)
    requires sign == "" || sign == "-"
    requires t != [] && AllDigits(t)
    ensures var v := DigitsValue(t) as real;
      ConvertToType(sign + t + ".0") == Float(if sign == "-" then -v else v)
  {
    SignedDigitsPointZeroValue(sign, t);
  }

  /** Writing the same integer with a trailing `.0` converts to a float instead. */
  lemma ConvertIntTextPointZero(n: int)
    ensures ConvertToType(IntText(n) + ".0") == Float(n as real)
  {
    var sign := if n < 0 then "-" else "";
    var m: nat := if n < 0 then -n else n;
    assert IntText(n) + ".0" == sign + NatText(m) + ".0";
    NatTextValue(m);
    ConvertSignedDigitsPointZero(sign, NatText(m));
  }

  /** The coercion examples the decoder is expected to reproduce. */
  lemma ConvertExamples()
    ensures ConvertToType("10") == Int(10)
    ensures ConvertToType("10.0") == Float(10.0)
    ensures ConvertToType("-3.25") == Float(-3.25)
    ensures ConvertToType("None") == Null
    ensures ConvertToType("abc") == Str("abc")
  {
    TenExamples();
    NegativeFractionExample();
    TextExample();
  }

  lemma TenExamples()
    ensures ConvertToType("10") == Int(10) && ConvertToType("10.0") == Float(10.0)
  {
    assert IntText(10) == "10" by {
      assert NatText(10) == NatText(1) + [DigitChar(0)];
    }
    ConvertIntText(10);
    ConvertIntTextPointZero(10);
    assert "10" + ".0" == "10.0";
  }

  lemma TextExample()
    ensures ConvertToType("abc") == Str("abc")
  {
    assert !Contains("abc", ".") by { ContainsChar("abc", '.'); }
    assert Unsigned("abc") == "abc";
    assert DecimalParts("abc") == ["abc"];
    assert !IsDigit("abc"[0]);
  }

  /** `-3.25` splits into `3` and `25` after its sign. */
  lemma NegativeFractionParts()
    ensures Unsigned("-3.25") == "3.25" && DecimalParts("-3.25") == ["3", "25"]
  {
    assert Unsigned("-3.25") == "3" + "." + "25";
    assert !Contains("3", ".") by { ContainsChar("3", '.'); }
    assert !Contains("25", ".") by { ContainsChar("25", '.'); }
    FindAfterFreePrefix("3", ".", "25");
    SplitAtFirst("3", ".", "25");
  }

  lemma NegativeFractionExample()
    ensures IsDecimal("-3.25") && DecimalValue("-3.25") == -3.25 && '.' in "-3.25"
  {
    NegativeFractionParts();
    assert DigitsValue("3") == 3 by { assert "3"[..0] == ""; }
    assert DigitsValue("25") == 25 by {
      assert "25"[..1] == "2";
      assert "2"[..0] == "";
    }
    assert AllDigits("3") && AllDigits("25");
    assert Pow10(2) == 100;
    TwoPartDecimal("-3.25", "3", "25");
    assert "-3.25"[2] == '.';
  }
}
