/**
 * The parsed JSON payload as the plotting script sees it, and Python's `int()`
 * conversion applied to it.
 */
module Values {
  import opened Wrappers

  /** A scalar of the parsed payload: `null`, a number, or a string. */
  datatype Value = Null | Int(i: int) | Str(s: string)

  /** One JSON object of the payload: the keys it has and their values. */
  type Record = map<string, Value>

  /** The Python exception a step raises; none of them is caught. */
  datatype Error =
    | KeyError(key: string)   // `item['date']` on a record without that key
    | TypeError               // `int(None)`, or `None in some_string`
    | ValueError              // `int('abc')`, a date that does not split or parse
    | AttributeError          // `.split` on a non-string, `.group` on a failed search

  /** `item.get(key, default)` */
  function Get(item: Record, key: string, default: Value): Value {
    if key in item then item[key] else default
  }

  predicate IsDigit(c: char) {
    '0' <= c <= '9'
  }

  predicate AllDigits(s: string) {
    forall k :: 0 <= k < |s| ==> IsDigit(s[k])
  }

  /** The number a string of decimal digits denotes. */
  function DigitsValue(ds: string): nat
    requires AllDigits(ds)
  {
    if ds == [] then 0
    else DigitsValue(ds[..|ds| - 1]) * 10 + (ds[|ds| - 1] as int - '0' as int)
  }

  /** A decimal integer literal: an optional sign and at least one digit. */
  predicate IsIntLiteral(s: string) {
    if |s| > 0 && (s[0] == '+' || s[0] == '-') then |s| > 1 && AllDigits(s[1..])
    else |s| > 0 && AllDigits(s)
  }

  /** Python's `int(s)` for a string `s`. */
  function ParseInt(s: string): (r: Result<int, Error>)
    ensures r.Failure? ==> r.error == ValueError
  {
    if |s| > 0 && s[0] == '-' && |s| > 1 && AllDigits(s[1..]) then Success(0 - DigitsValue(s[1..]))
    else if |s| > 0 && s[0] == '+' && |s| > 1 && AllDigits(s[1..]) then Success(DigitsValue(s[1..]))
    else if |s| > 0 && AllDigits(s) then Success(DigitsValue(s))
    else Failure(ValueError)
  }

  /** `int(s)` accepts exactly the decimal literals and reads their digits. */
  lemma ParseIntAccepts(s: string)
    ensures ParseInt(s).Success? <==> IsIntLiteral(s)
    ensures ParseInt(s).Success? && AllDigits(s) ==> ParseInt(s).value == DigitsValue(s)
    ensures ParseInt(s).Success? && s[0] == '-' ==> ParseInt(s).value == 0 - DigitsValue(s[1..])
    ensures ParseInt(s).Success? && s[0] == '+' ==> ParseInt(s).value == DigitsValue(s[1..])
  {
  }

  /** Python's `int(v)` for a value of the payload. */
  function ToInt(v: Value): Result<int, Error> {
    match v
    case Null => Failure(TypeError)
    case Int(i) => Success(i)
    case Str(s) => ParseInt(s)
  }

  /**
   * `int()` of a payload value raises exactly on `None` (a `TypeError`) and on
   * a string that is not a decimal literal (a `ValueError`); a number and a
   * literal keep their value.
   */
  lemma ToIntSpec(v: Value)
    ensures ToInt(v).Success? <==> v.Int? || (v.Str? && IsIntLiteral(v.s))
    ensures ToInt(v).Failure? ==> (ToInt(v).error == TypeError <==> v.Null?)
    ensures ToInt(v).Failure? ==> ToInt(v).error in {TypeError, ValueError}
    ensures v.Int? ==> ToInt(v).value == v.i
    ensures v.Str? && AllDigits(v.s) && v.s != [] ==> ToInt(v).value == DigitsValue(v.s)
  {
    if v.Str? {
      ParseIntAccepts(v.s);
    }
  }

  function DigitChar(d: nat): char
    requires d < 10
  {
    ('0' as int + d) as char
  }

  /** The decimal digits of `n` without leading zeros, as `str(n)` writes them. */
  function ShowNat(n: nat): (s: string)
    ensures |s| > 0 && AllDigits(s)
    ensures n < 10 ==> |s| == 1
    ensures 10 <= n < 100 ==> |s| == 2
  {
    if n < 10 then [DigitChar(n)] else ShowNat(n / 10) + [DigitChar(n % 10)]
  }

  /** `str(n)` for an integer. */
  function ShowInt(n: int): (s: string)
    ensures IsIntLiteral(s)
  {
    if n < 0 then "-" + ShowNat(-n) else ShowNat(n)
  }

  /** Reading back the digits of `n` gives `n`. */
  lemma {:induction false} DigitsOfShowNat(n: nat)
    ensures DigitsValue(ShowNat(n)) == n
  {
    if n >= 10 {
      var s := ShowNat(n);
      assert s[..|s| - 1] == ShowNat(n / 10);
      DigitsOfShowNat(n / 10);
    }
  }

  /** `int(str(n)) == n`: the string conversion is undone by the integer one. */
  lemma {:induction false} ParseShowInt(n: int)
    ensures ParseInt(ShowInt(n)) == Success(n)
    ensures ToInt(Str(ShowInt(n))) == Success(n)
  {
    var s := ShowInt(n);
    if n < 0 {
      var t := ShowNat(-n);
      assert s[0] == '-' && s[1..] == t;
      DigitsOfShowNat(-n);
      assert ParseInt(s) == Success(0 - DigitsValue(t));
    } else {
      assert s == ShowNat(n) && IsDigit(s[0]);
      DigitsOfShowNat(n);
      assert ParseInt(s) == Success(DigitsValue(s));
    }
  }
}
