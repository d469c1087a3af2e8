/** JavaScript's global `parseInt(string)` with no radix argument, on the
    integers: `None` stands for `NaN`. */
module JsNumber {
  import opened Wrappers
  import JsStrings

  predicate IsDecimalDigit(c: char) { '0' <= c <= '9' }

  /** A digit of the radix `parseInt` settled on (10, or 16 after "0x"). */
  predicate IsDigitIn(c: char, radix: nat) {
    if radix == 16 then IsDecimalDigit(c) || 'a' <= c <= 'f' || 'A' <= c <= 'F'
    else IsDecimalDigit(c)
  }

  function DigitValue(c: char): (v: nat)
    ensures IsDecimalDigit(c) ==> v == c as int - '0' as int
  {
    if IsDecimalDigit(c) then c as int - '0' as int
    else if 'a' <= c <= 'f' then c as int - 'a' as int + 10
    else if 'A' <= c <= 'F' then c as int - 'A' as int + 10
    else 0
  }

  /** The longest prefix of `s` made of digits of `radix`. */
  function TakeDigits(s: string, radix: nat): (d: string)
    ensures |d| <= |s| && d == s[..|d|]
    ensures forall i :: 0 <= i < |d| ==> IsDigitIn(d[i], radix)
    ensures |d| < |s| ==> !IsDigitIn(s[|d|], radix)
  {
    if s != [] && IsDigitIn(s[0], radix) then [s[0]] + TakeDigits(s[1..], radix) else []
  }

  /** The value of a digit string, most significant digit first. */
  function DigitsValue(d: string, radix: nat): nat {
    if d == [] then 0 else DigitsValue(d[..|d| - 1], radix) * radix + DigitValue(d[|d| - 1])
  }

  /** The longest run of digits of `radix` at the start of `u`, as a number;
      no digit at all is `NaN`. */
  function ParseDigits(u: string, radix: nat): Option<nat> {
    var d := TakeDigits(u, radix);
    if d == [] then None else Some(DigitsValue(d, radix))
  }

  /** An unsigned numeral: radix 16 after a "0x"/"0X" prefix, else radix 10. */
  function ParseUnsigned(u: string): Option<nat> {
    if |u| >= 2 && u[0] == '0' && (u[1] == 'x' || u[1] == 'X') then ParseDigits(u[2..], 16)
    else ParseDigits(u, 10)
  }

  /** `parseInt(s)`: skip leading whitespace, take an optional sign, then read
      an unsigned numeral. */
  function ParseInt(s: string): Option<int> {
    if s != [] && JsStrings.IsWhitespace(s[0]) then ParseInt(s[1..])
    else if s != [] && s[0] == '-' then
      match ParseUnsigned(s[1..])
      case None => None
      case Some(v) => Some(0 - v)
    else if s != [] && s[0] == '+' then ParseUnsigned(s[1..])
    else ParseUnsigned(s)
  }

  /** Leading whitespace does not change what `parseInt` reads: it reads the
      string `trim` would leave at the front. */
  lemma {:induction false} ParseSkipsLeadingWhitespace(s: string)
    ensures ParseInt(s) == ParseInt(JsStrings.TrimStart(s))
  {
    if s != [] && JsStrings.IsWhitespace(s[0]) {
      ParseSkipsLeadingWhitespace(s[1..]);
    }
  }

  /** `parseInt(id)` for an optional message id: `undefined` is converted to
      the string "undefined", which holds no digit. */
  function ParseId(id: Option<string>): (r: Option<int>)
    ensures id.None? ==> r.None?
  {
    match id
    case None => ParseInt("undefined")
    case Some(s) => ParseInt(s)
  }

  function DigitChar(d: nat): (c: char)
    requires d < 10
    ensures IsDecimalDigit(c) && DigitValue(c) == d
  {
    ('0' as int + d) as char
  }

  /** The decimal numeral of `n`, as `String(n)` writes it. */
  function DecimalString(n: nat): (s: string)
    ensures s != []
    ensures forall i :: 0 <= i < |s| ==> IsDecimalDigit(s[i])
  {
    if n < 10 then [DigitChar(n)] else DecimalString(n / 10) + [DigitChar(n % 10)]
  }

  lemma {:induction false} DecimalValue(n: nat)
    ensures DigitsValue(DecimalString(n), 10) == n
  {
    var s := DecimalString(n);
    if n < 10 {
      assert s[..0] == [];
    } else {
      DecimalValue(n / 10);
      assert s[..|s| - 1] == DecimalString(n / 10);
    }
  }

  lemma {:induction false} TakeAllDigits(s: string, radix: nat)
    requires forall i :: 0 <= i < |s| ==> IsDigitIn(s[i], radix)
    ensures TakeDigits(s, radix) == s
  {
    if s != [] {
      TakeAllDigits(s[1..], radix);
      assert [s[0]] + s[1..] == s;
    }
  }

  /** A string that starts with a decimal digit and has no "0x" prefix is
      read as a decimal numeral. */
  lemma ParseStartingWithDigit(s: string)
    requires s != [] && IsDecimalDigit(s[0])
    requires !(|s| >= 2 && s[0] == '0' && (s[1] == 'x' || s[1] == 'X'))
    ensures ParseInt(s) == ParseDigits(s, 10)
  {
    assert !JsStrings.IsWhitespace(s[0]);
  }

  /** The numeral of `n` is read back by `parseInt`, with or without trailing
      text that is not a digit (as with "12abc"). */
  lemma ParseDecimal(n: nat, rest: string)
    requires rest == [] || !IsDecimalDigit(rest[0])
    requires n > 0 || rest == [] || (rest[0] != 'x' && rest[0] != 'X')
    ensures ParseInt(DecimalString(n) + rest) == Some(n)
  {
    var d := DecimalString(n);
    var s := d + rest;
    assert s[0] == d[0];
    assert |s| >= 2 && s[0] == '0' ==> s[1] != 'x' && s[1] != 'X' by {
      if |s| >= 2 && s[0] == '0' {
        if |d| >= 2 {
          assert s[1] == d[1];
        } else {
          assert s[1] == rest[0];
        }
      }
    }
    ParseStartingWithDigit(s);
    TakeDigitsOfConcat(d, rest, 10);
    DecimalValue(n);
  }

  /** After a minus sign `parseInt` negates the unsigned numeral that follows. */
  lemma ParseAfterMinus(u: string)
    ensures ParseInt("-" + u) == if ParseUnsigned(u).Some? then Some(0 - ParseUnsigned(u).value) else None
  {
    var s := "-" + u;
    assert !JsStrings.IsWhitespace(s[0]) && s[0] == '-';
    assert s[1..] == u;
  }

  /** The numeral of `n` read as an unsigned numeral is `n`. */
  lemma UnsignedDecimal(n: nat)
    ensures ParseUnsigned(DecimalString(n)) == Some(n)
  {
    var d := DecimalString(n);
    assert |d| >= 2 ==> IsDecimalDigit(d[1]);
    TakeAllDigits(d, 10);
    DecimalValue(n);
  }

  /** A minus sign in front of the numeral of `n` reads back as -n. */
  lemma ParseNegativeDecimal(n: nat)
    ensures ParseInt("-" + DecimalString(n)) == Some(0 - n)
  {
    ParseAfterMinus(DecimalString(n));
    UnsignedDecimal(n);
  }

  lemma {:induction false} TakeDigitsOfConcat(d: string, rest: string, radix: nat)
    requires forall i :: 0 <= i < |d| ==> IsDigitIn(d[i], radix)
    requires rest == [] || !IsDigitIn(rest[0], radix)
    ensures TakeDigits(d + rest, radix) == d
  {
    if d != [] {
      assert (d + rest)[1..] == d[1..] + rest;
      TakeDigitsOfConcat(d[1..], rest, radix);
      assert [d[0]] + d[1..] == d;
    }
  }

  /** NaN: text without a leading digit parses to nothing. */
  lemma ParseSamples()
    ensures ParseInt("undefined") == None
    ensures ParseInt("abc") == None
    ensures ParseInt("") == None
  {
    assert !JsStrings.IsWhitespace('u') && !JsStrings.IsWhitespace('a');
    assert TakeDigits("undefined", 10) == [];
    assert TakeDigits("abc", 10) == [];
  }
}
