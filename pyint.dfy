/**
 * Python's `int(x)` applied to a query-string value, as `manage_items` does
 * with the `id` argument of DELETE: `None` (argument absent) raises
 * TypeError, text that is not a base-10 integer literal raises ValueError.
 * Accepted text: optional surrounding whitespace, an optional sign, then
 * digits with single underscores allowed between digits.
 */
module PyInt {
  import opened Wrappers
  import Text

  /** The ASCII whitespace `int()` skips around a literal: space, \t, \n,
      \v, \f and \r (the C-locale isspace set; U+001C..U+001F, for which
      str.isspace() also holds, are not skipped). */
  predicate IsPySpace(c: char) {
    c == ' ' || c == '\t' || c == '\n' || c == '\r' || c == '\U{000B}' || c == '\U{000C}'
  }

  predicate IsDigit(c: char) {
    '0' <= c <= '9'
  }

  /** digit ("_"? digit)* */
  predicate IsDigitString(s: string) {
    && |s| > 0
    && IsDigit(s[0])
    && IsDigit(s[|s| - 1])
    && (forall i :: 0 <= i < |s| ==> IsDigit(s[i]) || s[i] == '_')
    && (forall i :: 0 <= i < |s| - 1 && s[i] == '_' ==> IsDigit(s[i + 1]))
  }

  /** Decimal value of the digits of `s`, underscores skipped. */
  function DigitsValue(s: string): nat {
    if s == [] then 0
    else if IsDigit(s[|s| - 1]) then DigitsValue(s[..|s| - 1]) * 10 + (s[|s| - 1] as int - '0' as int)
    else DigitsValue(s[..|s| - 1])
  }

  /** The value of a stripped literal: an optional sign, then digits. */
  function LiteralValue(t: string): Option<int> {
    var negative := |t| > 0 && t[0] == '-';
    var body := if |t| > 0 && (t[0] == '-' || t[0] == '+') then t[1..] else t;
    var v: int := DigitsValue(body);
    if IsDigitString(body) then Some(if negative then -v else v) else None
  }

  /** `int(arg)`: None for both the TypeError and the ValueError path. */
  function ParseInt(arg: Option<string>): (r: Option<int>)
    ensures arg.None? ==> r.None?
    ensures arg == Some("") ==> r.None?
  {
    match arg
    case None => None
    case Some(s) => LiteralValue(Text.Trim(s, IsPySpace))
  }

  /** Python's str(n) for a natural number. */
  function NatToDecimal(n: nat): (r: string)
    ensures |r| > 0
    ensures forall i :: 0 <= i < |r| ==> IsDigit(r[i])
  {
    if n < 10 then [('0' as int + n) as char]
    else NatToDecimal(n / 10) + [('0' as int + n % 10) as char]
  }

  /** Python's str(n). */
  function IntToDecimal(n: int): string {
    if n < 0 then "-" + NatToDecimal(-n) else NatToDecimal(n)
  }

  lemma {:induction false} NatToDecimalValue(n: nat)
    ensures DigitsValue(NatToDecimal(n)) == n
  {
    var r := NatToDecimal(n);
    if n >= 10 {
      NatToDecimalValue(n / 10);
      assert r[..|r| - 1] == NatToDecimal(n / 10);
    }
  }

  lemma DecimalIsDigitString(m: nat)
    ensures IsDigitString(NatToDecimal(m))
  {
    var d := NatToDecimal(m);
    assert IsDigit(d[0]) && IsDigit(d[|d| - 1]);
  }

  lemma LiteralOfDecimal(n: int)
    ensures LiteralValue(IntToDecimal(n)) == Some(n)
  {
    var m: nat := if n < 0 then -n else n;
    var d := NatToDecimal(m);
    NatToDecimalValue(m);
    DecimalIsDigitString(m);
    var s := IntToDecimal(n);
    if n < 0 {
      assert s[0] == '-' && s[1..] == d;
    } else {
      assert s == d && IsDigit(s[0]);
    }
  }

  /** int(str(n)) == n: every id the store can hold can be named in a request. */
  lemma ParseIntRoundTrip(n: int)
    ensures ParseInt(Some(IntToDecimal(n))) == Some(n)
  {
    var s := IntToDecimal(n);
    var m: nat := if n < 0 then -n else n;
    var d := NatToDecimal(m);
    assert IsDigit(d[0]) && IsDigit(d[|d| - 1]);
    assert s[|s| - 1] == d[|d| - 1];
    assert !IsPySpace(s[0]) && !IsPySpace(s[|s| - 1]);
    Text.TrimNoop(s, IsPySpace);
    LiteralOfDecimal(n);
  }

  /** Surrounding whitespace is ignored, as int(" 7 ") == 7. */
  lemma ParseIntIgnoresSpaces(s: string, pre: string, post: string)
    requires forall i :: 0 <= i < |pre| ==> IsPySpace(pre[i])
    requires forall i :: 0 <= i < |post| ==> IsPySpace(post[i])
    ensures ParseInt(Some(pre + s + post)) == ParseInt(Some(s))
  {
    Text.TrimPadded(pre, s, post, IsPySpace);
  }

  /** Text holding anything but whitespace, a sign, digits or underscores is refused. */
  lemma ParseIntRejectsLetters(s: string, k: nat)
    requires k < |s|
    requires !IsPySpace(s[k]) && !IsDigit(s[k]) && s[k] != '_' && s[k] != '-' && s[k] != '+'
    ensures ParseInt(Some(s)).None?
  {
    var t := Text.Trim(s, IsPySpace);
    var lo, hi := Text.TrimSlice(s, IsPySpace);
    assert lo <= k < hi;
    assert t[k - lo] == s[k];
    var body := if |t| > 0 && (t[0] == '-' || t[0] == '+') then t[1..] else t;
    assert !IsDigitString(body) by {
      if |t| > 0 && (t[0] == '-' || t[0] == '+') {
        assert body[k - lo - 1] == s[k];
      } else {
        assert body[k - lo] == s[k];
      }
    }
  }

  /** The information separators U+001C..U+001F are not skipped: `int("\x1c1")`
      raises ValueError. */
  lemma ParseIntKeepsSeparators()
    ensures ParseInt(Some("\U{001C}1")).None?
  {
    ParseIntRejectsLetters("\U{001C}1", 0);
  }
}
