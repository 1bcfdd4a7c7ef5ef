/**
 * The loosely typed arguments the reporting queries receive, and JavaScript's
 * `Number(...)` coercion of them, restricted to integers.
 */
module JsValues {
  import opened Wrappers

  /** An argument as a caller may pass it: absent, a number, or a string. */
  datatype JsArg = Undefined | Num(n: int) | Str(s: string)

  predicate IsDigit(c: char) {
    '0' <= c <= '9'
  }

  predicate AllDigits(s: string) {
    forall i :: 0 <= i < |s| ==> IsDigit(s[i])
  }

  /** The value of a string of decimal digits. */
  function DecimalValue(s: string): nat
    requires AllDigits(s)
  {
    if s == [] then 0
    else 10 * DecimalValue(s[..|s| - 1]) + (s[|s| - 1] as int - '0' as int)
  }

  /**
   * `Number(s)` for a string: the empty string is 0, an optional sign followed by
   * decimal digits is that integer, and anything else is NaN (`None`).
   */
  function StringToNumber(s: string): (r: Option<int>)
    ensures s == "" ==> r == Some(0)
    ensures (exists i :: 0 < i < |s| && !IsDigit(s[i])) ==> r.None?
    ensures |s| > 0 && !IsDigit(s[0]) && s[0] != '-' && s[0] != '+' ==> r.None?
    ensures r.Some? && r.value < 0 ==> |s| > 1 && s[0] == '-'
    ensures r.Some? <==> AllDigits(s) || (|s| > 1 && (s[0] == '-' || s[0] == '+') && AllDigits(s[1..]))
  {
    if s == "" then Some(0)
    else if AllDigits(s) then Some(DecimalValue(s))
    else if |s| > 1 && s[0] == '-' && AllDigits(s[1..]) then
      assert forall i :: 0 < i < |s| ==> s[i] == s[1..][i - 1];
      Some(-(DecimalValue(s[1..]) as int))
    else if |s| > 1 && s[0] == '+' && AllDigits(s[1..]) then
      assert forall i :: 0 < i < |s| ==> s[i] == s[1..][i - 1];
      Some(DecimalValue(s[1..]))
    else None
  }

  /**
   * `Number(a)`; `None` stands for NaN, which is also what `Number(undefined)` gives.
   * A number converts as its decimal string does, and the empty string is 0.
   */
  function ToNumber(a: JsArg): (r: Option<int>)
    ensures a.Num? ==> r == StringToNumber(IntToString(a.n))
    ensures forall n: int :: a == Str(IntToString(n)) ==> r == Some(n)
    ensures a == Str("") ==> r == Some(0)
  {
    DecimalStringsConvert();
    match a
    case Undefined => None
    case Num(n) => Some(n)
    case Str(s) => StringToNumber(s)
  }

  /** The decimal digits of `n`, most significant first (`String(n)` for n >= 0). */
  function DigitsOf(n: nat): (s: string)
    ensures |s| > 0
  {
    if n < 10 then [('0' as int + n) as char]
    else DigitsOf(n / 10) + [('0' as int + n % 10) as char]
  }

  /** `String(n)`: how an integer is written when it is passed as a string. */
  function IntToString(n: int): (s: string)
    ensures |s| > 0
  {
    if n < 0 then "-" + DigitsOf(-n) else DigitsOf(n)
  }

  /** Reading back the digits of `n` gives `n`. */
  lemma {:induction false} DigitsRoundTrip(n: nat)
    ensures AllDigits(DigitsOf(n)) && DecimalValue(DigitsOf(n)) == n
  {
    var s := DigitsOf(n);
    if n >= 10 {
      DigitsRoundTrip(n / 10);
      assert s[..|s| - 1] == DigitsOf(n / 10);
    }
  }

  /** `Number(String(n)) === n` for every integer. */
  lemma DecimalStringsConvert()
    ensures forall n: int :: StringToNumber(IntToString(n)) == Some(n)
  {
    forall n: int ensures StringToNumber(IntToString(n)) == Some(n) {
      NumberOfStringRoundTrip(n);
    }
  }

  /** `Number(String(n)) === n` for every integer `n`. */
  lemma NumberOfStringRoundTrip(n: int)
    ensures StringToNumber(IntToString(n)) == Some(n)
  {
    var s := IntToString(n);
    if n < 0 {
      DigitsRoundTrip(-n);
      assert s[1..] == DigitsOf(-n);
      assert !AllDigits(s) by {
        assert !IsDigit(s[0]);
      }
      assert |s| > 1 && s[0] == '-' && AllDigits(s[1..]);
    } else {
      DigitsRoundTrip(n);
      assert s != "" && AllDigits(s);
    }
  }
}
