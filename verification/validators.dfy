/** The argument checks of both readers: the limit validators (built on
    Python's `int()`), the filename check of the web form, and the status
    decision of the command-line reader's source check. */
module Validators {
  import opened Wrappers
  import opened Text

  // ---------------------------------------------------------------- int()

  /** A value handed to a limit validator: the form and the command line
      give strings; callers in code may pass integers. */
  datatype PyValue = Str(s: string) | Int(i: int)

  predicate DigitsOrUnderscores(s: string) {
    forall i :: 0 <= i < |s| ==> IsDigit(s[i]) || s[i] == '_'
  }

  /** The digits of a decimal integer literal as `int()` reads them: one
      or more digits, an underscore allowed only between two digits. */
  predicate IntBody(s: string) {
    && s != []
    && IsDigit(s[0])
    && IsDigit(s[|s| - 1])
    && DigitsOrUnderscores(s)
    && forall i :: 0 < i < |s| ==> !(s[i - 1] == '_' && s[i] == '_')
  }

  /** The digits of `s` with the underscores dropped. */
  function DropUnderscores(s: string): (r: string)
    requires DigitsOrUnderscores(s)
    ensures AllDigits(r)
    ensures |r| <= |s|
    ensures AllDigits(s) ==> r == s
  {
    if s == [] then []
    else
      assert forall i :: 1 <= i < |s| ==> s[1..][i - 1] == s[i];
      (if s[0] == '_' then [] else [s[0]]) + DropUnderscores(s[1..])
  }

  /** An integer literal body read as a number, negated after a minus. */
  function ReadBody(body: string, negative: bool): (r: Option<int>)
    ensures r.Some? <==> IntBody(body)
  {
    if IntBody(body) then
      var n: int := DigitsValue(DropUnderscores(body));
      Some(if negative then -n else n)
    else None
  }

  /** `int()` on a string whose surrounding whitespace is gone: one sign
      is allowed, and the rest must be an integer literal body. */
  function ParseLiteral(t: string): (r: Option<int>)
    ensures r.Some? ==> t != []
  {
    if t != [] && t[0] == '-' then ReadBody(t[1..], true)
    else if t != [] && t[0] == '+' then ReadBody(t[1..], false)
    else ReadBody(t, false)
  }

  /** `int(s)` for a string: surrounding whitespace is ignored. `None` is
      the `ValueError`. */
  function ParseInt(s: string): (r: Option<int>)
    ensures r.Some? ==> Strip(s) != []
  {
    ParseLiteral(Strip(s))
  }

  /** A plain run of digits is a literal body that keeps all its digits. */
  lemma DigitsAreIntBody(d: string)
    requires d != [] && AllDigits(d)
    ensures IntBody(d) && DropUnderscores(d) == d
  {
  }

  /** A plain run of digits reads back as the number it denotes. */
  lemma ParseLiteralOfUnsigned(d: string)
    requires d != [] && AllDigits(d)
    ensures ParseLiteral(d) == Some(DigitsValue(d))
  {
    DigitsAreIntBody(d);
    assert !(d[0] == '-' || d[0] == '+');
  }

  /** A run of digits after a minus sign reads back as the negative. */
  lemma ParseLiteralOfMinus(d: string)
    requires d != [] && AllDigits(d)
    ensures ParseLiteral("-" + d) == Some(-(DigitsValue(d) as int))
  {
    var s := "-" + d;
    assert ParseLiteral(s) == ReadBody(d, true) by {
      assert s[0] == '-';
      assert s[1..] == d;
    }
    ReadBodyOfDigits(d);
  }

  /** A plain run of digits is read as the number it denotes. */
  lemma ReadBodyOfDigits(d: string)
    requires d != [] && AllDigits(d)
    ensures ReadBody(d, false) == Some(DigitsValue(d))
    ensures ReadBody(d, true) == Some(-(DigitsValue(d) as int))
  {
    DigitsAreIntBody(d);
  }

  /** A minus sign and digits have no whitespace to strip. */
  lemma StripOfMinus(d: string)
    requires d != [] && AllDigits(d)
    ensures Strip("-" + d) == "-" + d
  {
    var s := "-" + d;
    assert s[0] == '-' && s[|s| - 1] == d[|d| - 1];
    StripOfTrimmed(s);
  }

  /** The same with whatever `int()` does about surrounding whitespace. */
  lemma ParseIntOfUnsigned(d: string)
    requires d != [] && AllDigits(d)
    ensures ParseInt(d) == Some(DigitsValue(d))
  {
    assert IsDigit(d[0]) && IsDigit(d[|d| - 1]);
    StripOfTrimmed(d);
    ParseLiteralOfUnsigned(d);
  }

  /** A minus sign before digits, read by `int()`. */
  lemma ParseIntOfMinus(d: string)
    requires d != [] && AllDigits(d)
    ensures ParseInt("-" + d) == Some(-(DigitsValue(d) as int))
  {
    StripOfMinus(d);
    ParseLiteralOfMinus(d);
  }

  /** The rendering of a natural number reads back as that number. */
  lemma ParseIntOfNatToString(n: nat)
    ensures ParseInt(NatToString(n)) == Some(n)
  {
    ParseIntOfUnsigned(NatToString(n));
    NatToStringRoundTrip(n);
  }

  /** A minus sign in front of a rendering reads back as the negative. */
  lemma ParseIntOfNegative(n: nat)
    ensures ParseInt("-" + NatToString(n)) == Some(-(n as int))
  {
    ParseIntOfMinus(NatToString(n));
    NatToStringRoundTrip(n);
  }

  /** A letter is not a number. */
  lemma ParseIntRejectsLetter()
    ensures ParseInt("a") == None
  {
    StripOfTrimmed("a");
    assert !IntBody("a");
    assert ParseInt("a") == ParseLiteral("a") == ReadBody("a", false);
  }

  /** `int(value)`: an integer is itself, a string is parsed. */
  function ToInt(v: PyValue): Option<int> {
    match v
    case Int(i) => Some(i)
    case Str(s) => ParseInt(s)
  }

  // ---------------------------------------------------------------- limits

  /** The web application's `NotValidLimitArg`. */
  datatype WebLimitError = NotValidLimitArg

  /** The web application's `validate_limit_arg`: a conversion failure and
      a value that is not positive raise the same error. */
  function ValidateLimitArgWeb(v: PyValue): (r: Result<nat, WebLimitError>)
    ensures r.Success? <==> ToInt(v).Some? && ToInt(v).value > 0
    ensures r.Success? ==> r.value == ToInt(v).value && r.value > 0
  {
    match ToInt(v)
    case None => Failure(NotValidLimitArg)
    case Some(n) => if n <= 0 then Failure(NotValidLimitArg) else Success(n)
  }

  /** The command-line reader's errors: the `ValueError` of `int()` goes
      out as it is; a value that is not positive is reported separately. */
  datatype CliLimitError = ValueError | NegativeOrZeroLimitArgError

  /** The command-line reader's `validate_limit_arg`. */
  function ValidateLimitArgCli(v: PyValue): (r: Result<nat, CliLimitError>)
    ensures r == Failure(ValueError) <==> ToInt(v).None?
    ensures r == Failure(NegativeOrZeroLimitArgError) <==> ToInt(v).Some? && ToInt(v).value <= 0
    ensures r.Success? ==> r.value == ToInt(v).value && r.value > 0
  {
    match ToInt(v)
    case None => Failure(ValueError)
    case Some(n) => if n <= 0 then Failure(NegativeOrZeroLimitArgError) else Success(n)
  }

  /** The two validators accept the same values and return the same
      number; they differ only in how they name the rejection. */
  lemma LimitValidatorsAgree(v: PyValue)
    ensures ValidateLimitArgWeb(v).Success? <==> ValidateLimitArgCli(v).Success?
    ensures ValidateLimitArgWeb(v).Success? ==> ValidateLimitArgWeb(v).value == ValidateLimitArgCli(v).value
  {
  }

  /** The three rejections the unit test expects: `'a'`, -1 and 0. */
  lemma CliLimitTestCases()
    ensures ValidateLimitArgCli(Str("a")) == Failure(ValueError)
    ensures ValidateLimitArgCli(Int(-1)) == Failure(NegativeOrZeroLimitArgError)
    ensures ValidateLimitArgCli(Int(0)) == Failure(NegativeOrZeroLimitArgError)
  {
    ParseIntRejectsLetter();
  }

  /** Every positive number typed in decimal is accepted as itself. */
  lemma PositiveLimitAccepted(n: nat)
    requires n > 0
    ensures ValidateLimitArgWeb(Str(NatToString(n))) == Success(n)
    ensures ValidateLimitArgCli(Str(NatToString(n))) == Success(n)
  {
    ParseIntOfNatToString(n);
  }

  /** A typed negative number is a rejected value, not an unreadable one. */
  lemma NegativeLimitRejected(n: nat)
    ensures ValidateLimitArgCli(Str("-" + NatToString(n))) == Failure(NegativeOrZeroLimitArgError)
  {
    ParseIntOfNegative(n);
  }

  // ---------------------------------------------------------------- filename

  datatype FilenameError = NotValidFilename

  /** `validate_filename`: only a missing form field is rejected; an
      empty name passes. */
  function ValidateFilename(filename: Option<string>): (r: Result<string, FilenameError>)
    ensures r.Failure? <==> filename.None?
    ensures r.Success? ==> r.value == filename.value
  {
    match filename
    case None => Failure(NotValidFilename)
    case Some(name) => Success(name)
  }

  // ---------------------------------------------------------------- source

  /** The command-line reader's source errors; `RequestFailed` stands for
      whatever the request itself raised. */
  datatype SourceError = PageNotFoundError | BlockedRequestError | RequestFailed

  /** `validate_source` on the status of the response, `None` when the
      request raised. Only 404 and 403 are refused. */
  function ValidateSource(status: Option<int>): (r: Result<(), SourceError>)
    ensures r == Failure(PageNotFoundError) <==> status == Some(404)
    ensures r == Failure(BlockedRequestError) <==> status == Some(403)
    ensures r == Failure(RequestFailed) <==> status.None?
    ensures r.Success? <==> status.Some? && status.value != 404 && status.value != 403
  {
    match status
    case None => Failure(RequestFailed)
    case Some(code) =>
      if code == 404 then Failure(PageNotFoundError)
      else if code == 403 then Failure(BlockedRequestError)
      else Success(())
  }
}
