/**
 * The three pure validators of utils/security.py: `validate_ipn`,
 * `validate_date_format` and `validate_file_upload`.
 *
 * Regular-expression classes are modelled on ASCII: `\d` is '0'..'9', `\D` is
 * every other character, and `str.lower()` folds only 'A'..'Z'.
 */
module Security {
  import opened Text
  import Dates

  /** A Python argument: a `str`, or some other value (None, a number, a list, ...). */
  datatype Arg = Str(s: string) | NonStr

  /**
   * `validate_ipn`: empty text and non-strings are refused; otherwise every
   * non-digit is dropped and exactly ten digits must remain. The trailing
   * `all(0 <= d <= 9 ...)` test cannot fail on digits.
   */
  function ValidateIpn(ipn: Arg): (ok: bool)
    ensures ipn.NonStr? ==> !ok
    ensures ipn.Str? ==> (ok <==> |DigitsOf(ipn.s)| == 10)
  {
    if ipn.NonStr? || ipn.s == "" then false
    else
      var digits := DigitsOf(ipn.s);
      if |digits| != 10 then false
      else forall i :: 0 <= i < |digits| ==> 0 <= DigitValue(digits[i]) <= 9
  }

  lemma {:induction false} DigitsOfConcat(a: string, b: string)
    ensures DigitsOf(a + b) == DigitsOf(a) + DigitsOf(b)
  {
    if a != [] {
      assert (a + b)[0] == a[0];
      assert (a + b)[1..] == a[1..] + b;
      DigitsOfConcat(a[1..], b);
    } else {
      assert a + b == b;
    }
  }

  /** The verdict depends only on the digits: validating the digits alone gives the same answer. */
  lemma IpnDependsOnDigitsOnly(s: string)
    ensures ValidateIpn(Str(s)) == ValidateIpn(Str(DigitsOf(s)))
  {
    DigitsOfAllDigits(DigitsOf(s));
  }

  /** Inserting a separator anywhere does not change the verdict. */
  lemma IpnToleratesSeparators(a: string, sep: char, b: string)
    requires !IsDigit(sep)
    ensures ValidateIpn(Str(a + [sep] + b)) == ValidateIpn(Str(a + b))
  {
    DigitsOfConcat(a + [sep], b);
    DigitsOfConcat(a, [sep]);
    DigitsOfConcat(a, b);
    assert DigitsOf([sep]) == [];
  }

  /** A text made only of digits passes exactly when it has ten of them. */
  lemma IpnOfDigits(s: string)
    requires AllDigits(s)
    ensures ValidateIpn(Str(s)) <==> |s| == 10
  {
    DigitsOfAllDigits(s);
  }

  /** Empty text and non-strings fail. */
  lemma IpnEmptyExamples()
    ensures !ValidateIpn(Str(""))
    ensures !ValidateIpn(NonStr)
  {
  }

  /** The text matches `\d{4}-\d{2}-\d{2}` exactly. */
  predicate DateShape(s: string) {
    |s| == 10 && AllDigits(s[..4]) && s[4] == '-' && AllDigits(s[5..7]) && s[7] == '-' && AllDigits(s[8..])
  }

  /**
   * `validate_date_format`: None and empty text are refused; otherwise
   * `re.match(r'^\d{4}-\d{2}-\d{2}$', s)`, where `$` also matches just before
   * one final newline. There is no calendar check.
   */
  function ValidateDateFormat(dateString: Option<string>): (ok: bool)
    ensures ok <==> (dateString.Some? &&
      (DateShape(dateString.value) ||
       (|dateString.value| == 11 && dateString.value[10] == '\n' && DateShape(dateString.value[..10]))))
  {
    match dateString
    case None => false
    case Some(s) =>
      if s == "" then false
      else DateShape(s) || (|s| == 11 && s[10] == '\n' && DateShape(s[..10]))
  }

  /** Every ISO-formatted calendar date passes the format check. */
  lemma IsoFormatPassesFormatCheck(d: Dates.CalendarDate)
    ensures ValidateDateFormat(Some(Dates.IsoFormat(d)))
  {
    var s := Dates.IsoFormat(d);
    assert s[..4] == Padded(d.year, 4);
    assert s[5..7] == Padded(d.month, 2);
    assert s[8..] == Padded(d.day, 2);
  }

  lemma {:induction false} PaddedDigitsValue(t: string)
    requires AllDigits(t)
    ensures Padded(DigitsValue(t), |t|) == t
  {
    if t != [] {
      var init, last := t[..|t| - 1], t[|t| - 1];
      PaddedDigitsValue(init);
      var v, d := DigitsValue(init), DigitValue(last);
      assert DigitsValue(t) == v * 10 + d;
      LastDecimalDigit(v, d);
      assert t == init + [last];
    }
  }

  /** Appending the digit `d` to `v` and taking it off again. */
  lemma LastDecimalDigit(v: nat, d: int)
    requires 0 <= d <= 9
    ensures (v * 10 + d) / 10 == v && (v * 10 + d) % 10 == d
  {
  }

  lemma TwoDigitField(t: string, v: int)
    requires |t| == 2 && AllDigits(t)
    requires Dates.MonthField(t) == Some(v) || Dates.DayField(t) == Some(v)
    ensures Padded(v, 2) == t
  {
    Dates.PaddedTwo(v);
  }

  /**
   * Shape-valid text that `strptime` accepts is the ISO form of the date it
   * denotes: the two checks agree on canonical text and differ only on the
   * calendar (shape passes `2024-13-45`, strptime refuses it).
   */
  lemma ShapeAndParseMeanIsoFormat(s: string)
    requires DateShape(s) && Dates.ParseDate(s).Some?
    ensures Dates.IsoFormat(Dates.ParseDate(s).value) == s
  {
    var d := Dates.ParseDate(s).value;
    PaddedDigitsValue(s[..4]);
    var rest := s[5..];
    assert rest[..2] == s[5..7] && rest[3..] == s[8..];
    TwoDigitField(s[5..7], d.month);
    TwoDigitField(s[8..], d.day);
    assert s == s[..4] + "-" + s[5..7] + "-" + s[8..];
  }

  /** The format check has no calendar: month 13, day 45 passes. */
  lemma FormatCheckIgnoresCalendar()
    ensures ValidateDateFormat(Some("2024-13-45"))
    ensures Dates.ParseDate("2024-13-45").None?
  {
    Dates.ParseCanonical("2024-13-45", 2024, "13", "45");
  }

  /** strptime accepts unpadded fields that the format check refuses; `$` admits one final newline. */
  lemma FormatCheckStricterThanParser()
    ensures !ValidateDateFormat(Some("2024-1-5"))
    ensures Dates.ParseDate("2024-1-5").Some?
    ensures ValidateDateFormat(Some("2024-01-05\n"))
    ensures !ValidateDateFormat(Some(""))
  {
    Dates.ParseUnpadded();
    assert "2024-01-05\n"[..10] == "2024-01-05";
  }

  /**
   * The longest dot-free suffix of `s`: `filename.rsplit('.', 1)[1]` when `s`
   * holds a dot.
   */
  function AfterLastDot(s: string): (e: string)
    ensures '.' !in e
    ensures |e| <= |s| && s[|s| - |e|..] == e
    ensures '.' in s ==> |e| < |s| && s[|s| - |e| - 1] == '.'
  {
    if s == [] || s[|s| - 1] == '.' then []
    else AfterLastDot(s[..|s| - 1]) + [s[|s| - 1]]
  }

  /** The extension of `p + "." + e` is `e` whenever `e` holds no dot. */
  lemma {:induction false} AfterLastDotOf(p: string, e: string)
    requires '.' !in e
    ensures AfterLastDot(p + "." + e) == e
  {
    if e != [] {
      var s := p + "." + e;
      assert s[..|s| - 1] == p + "." + e[..|e| - 1];
      AfterLastDotOf(p, e[..|e| - 1]);
    }
  }

  const AllowedExtensions: set<string> := {"csv", "xlsx", "xls"}

  /** `validate_file_upload`: the lower-cased text after the last '.' must be csv, xlsx or xls. */
  function ValidateFileUpload(filename: Option<string>): (ok: bool)
    ensures ok ==> filename.Some? && '.' in filename.value
  {
    match filename
    case None => false
    case Some(s) =>
      if s == "" then false
      else
        var extension := if '.' in s then LowerAscii(AfterLastDot(s)) else "";
        extension in AllowedExtensions
  }

  /** A name is accepted exactly when its final extension, lower-cased, is allowed. */
  lemma FileUploadByExtension(p: string, e: string)
    requires '.' !in e
    ensures ValidateFileUpload(Some(p + "." + e)) <==> LowerAscii(e) in AllowedExtensions
  {
    AfterLastDotOf(p, e);
    assert '.' in p + "." + e by { assert (p + "." + e)[|p|] == '.'; }
  }

  /** Lower-casing the extension does not change the verdict. */
  lemma FileUploadIgnoresCase(p: string, e: string)
    requires '.' !in e
    ensures ValidateFileUpload(Some(p + "." + e)) == ValidateFileUpload(Some(p + "." + LowerAscii(e)))
  {
    LowerAsciiKeepsDotless(e);
    LowerAsciiIdempotent(e);
    FileUploadByExtension(p, e);
    FileUploadByExtension(p, LowerAscii(e));
  }

  /** A name without a dot, or with nothing after the last dot, is refused. */
  lemma FileUploadNoExtensionExamples()
    ensures !ValidateFileUpload(Some("csv"))
    ensures !ValidateFileUpload(Some("staff."))
  {
    FileUploadByExtension("staff", "");
    assert "staff" + "." + "" == "staff.";
  }
}
