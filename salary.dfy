/** The salary range rules of the submission form: the live feedback under the salary field and the
    check made when the form is submitted. */
module Salary {
  import opened Wrappers
  import opened NumberWords
  import NumberParse

  /** What the salary field shows after an edit: nothing, one of the two range errors, or the amount
      spelled out in words. */
  datatype Feedback = Silent | TooLow(message: string) | TooHigh(message: string) | InWords(text: string)

  /** The accepted range of a currency, the two error messages and the suffix of the amount in words. */
  datatype Range = Range(low: int, high: int, lowMessage: string, highMessage: string, suffix: string)

  /** The currencies with a range; any other currency has none. */
  function RangeFor(currency: string): Option<Range> {
    if currency == "USD" then
      Some(Range(300, 50000, "Minimum USD salary is $300", "Maximum USD salary is $50,000", " US Dollars"))
    else if currency == "IQD" then
      Some(Range(350000, 70000000, "Minimum IQD salary is 350,000 IQD", "Maximum IQD salary is 70,000,000 IQD",
                 " Iraqi Dinars"))
    else None
  }

  /** The feedback for a currency and a parsed amount (`None` when the amount is not a number).
      An empty currency, a non-numeric amount and an unknown currency show nothing; otherwise the
      amount is compared with the currency's bounds, low bound first. */
  function ValidateSalary(currency: string, salary: Option<int>): (r: Feedback)
    ensures currency == "" || salary.None? || RangeFor(currency).None? ==> r == Silent
    ensures salary.Some? && RangeFor(currency).Some? ==>
              var s, g := salary.value, RangeFor(currency).value;
              (r.TooLow? <==> s < g.low) && (r.TooHigh? <==> s > g.high)
              && (r.TooLow? ==> r.message == g.lowMessage) && (r.TooHigh? ==> r.message == g.highMessage)
              && (g.low <= s <= g.high ==> r == InWords(Words(s) + g.suffix))
  {
    if currency == "" then Silent
    else match salary
      case None => Silent
      case Some(s) =>
        if currency == "USD" then
          if s < 300 then TooLow("Minimum USD salary is $300")
          else if s > 50000 then TooHigh("Maximum USD salary is $50,000")
          else InWords(Words(s) + " US Dollars")
        else if currency == "IQD" then
          if s < 350000 then TooLow("Minimum IQD salary is 350,000 IQD")
          else if s > 70000000 then TooHigh("Maximum IQD salary is 70,000,000 IQD")
          else InWords(Words(s) + " Iraqi Dinars")
        else Silent
  }

  /** The check made on submit. A comparison with a non-numeric amount is false in the script, so a
      non-numeric amount passes, as does any currency without a range. */
  function SubmitValid(currency: string, salary: Option<int>): (ok: bool)
    ensures !ok <==> salary.Some? && RangeFor(currency).Some?
                     && (salary.value < RangeFor(currency).value.low || salary.value > RangeFor(currency).value.high)
  {
    if currency == "USD" && salary.Some? && (salary.value < 300 || salary.value > 50000) then false
    else if currency == "IQD" && salary.Some? && (salary.value < 350000 || salary.value > 70000000) then false
    else true
  }

  /** Submitting is refused exactly when the live feedback shows a range error. */
  lemma SubmitAgreesWithFeedback(currency: string, salary: Option<int>)
    ensures !SubmitValid(currency, salary)
            <==> ValidateSalary(currency, salary).TooLow? || ValidateSalary(currency, salary).TooHigh?
  {
  }

  /** Submitting a range currency with a number is accepted exactly when the number is within range. */
  lemma SubmitWithinRange(currency: string, s: int)
    requires RangeFor(currency).Some?
    ensures SubmitValid(currency, Some(s)) <==> RangeFor(currency).value.low <= s <= RangeFor(currency).value.high
  {
  }

  /** Every amount that is spelled out lies within its currency's range, and its words read back as
      the amount itself. */
  lemma WordsNameTheAmount(currency: string, salary: Option<int>)
    requires ValidateSalary(currency, salary).InWords?
    ensures salary.Some? && RangeFor(currency).Some?
    ensures var s, g, t := salary.value, RangeFor(currency).value, ValidateSalary(currency, salary).text;
            g.low <= s <= g.high && |g.suffix| < |t| && t[|t| - |g.suffix|..] == g.suffix
            && NumberParse.ParseWords(t[..|t| - |g.suffix|]) == salary
  {
    var s, g := salary.value, RangeFor(currency).value;
    var t := Words(s) + g.suffix;
    assert t[..|t| - |g.suffix|] == Words(s);
    assert t[|t| - |g.suffix|..] == g.suffix;
    WordsShape(s);
    NumberParse.WordsRoundTrip(s);
  }

  /** The amount in words is never the bare word "zero" and never has stray spaces before the suffix. */
  lemma WordsWellFormed(currency: string, salary: Option<int>)
    requires ValidateSalary(currency, salary).InWords?
    ensures var s := salary.value; Words(s) != "zero" && Text.WellSpaced(Words(s))
  {
    WordsShape(salary.value);
  }

  // Worked examples at the bounds.

  lemma ExampleBoundsUSD()
    ensures ValidateSalary("USD", Some(299)) == TooLow("Minimum USD salary is $300")
    ensures ValidateSalary("USD", Some(50001)) == TooHigh("Maximum USD salary is $50,000")
    ensures ValidateSalary("USD", Some(300)) == InWords(Words(300) + " US Dollars")
    ensures ValidateSalary("USD", Some(50000)) == InWords(Words(50000) + " US Dollars")
  {
  }

  lemma ExampleBoundsIQD()
    ensures ValidateSalary("IQD", Some(349999)) == TooLow("Minimum IQD salary is 350,000 IQD")
    ensures ValidateSalary("IQD", Some(70000001)) == TooHigh("Maximum IQD salary is 70,000,000 IQD")
    ensures ValidateSalary("IQD", Some(70000000)) == InWords(Words(70000000) + " Iraqi Dinars")
  {
  }

  lemma ExampleSilent()
    ensures ValidateSalary("", Some(1000)) == Silent
    ensures ValidateSalary("USD", None) == Silent
    ensures ValidateSalary("EUR", Some(1)) == Silent
  {
  }

  /** A non-numeric amount passes the submit check, although the live feedback has shown nothing. */
  lemma SubmitAcceptsNonNumeric(currency: string)
    ensures SubmitValid(currency, None) && ValidateSalary(currency, None) == Silent
  {
  }
}
