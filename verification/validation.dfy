/** The staged check the "Set Target Count" dialog runs on the typed text
    before it commits a new target. */
module Validation {
  import opened Common
  import opened Text

  /** The largest count the counter reaches and the largest target it accepts. */
  const MaxCount: nat := 100000

  /** Why a proposed target was refused, one kind per stage. */
  datatype ValidationError =
    | EmptyInput              // nothing but white space was typed
    | NotInteger              // the text is not a whole number
    | NonPositive             // the number is zero or negative
    | ExceedsMax              // the number is above MaxCount
    | NotGreaterThanCurrent   // the number does not exceed the current count

  /** Validates `input` as a new target while the counter stands at `count`.
      The stages run in order and the first that fails names the error. */
  function ValidateTarget(input: string, count: nat): (r: Result<nat, ValidationError>)
    ensures r == Err(EmptyInput) <==> AllSpace(input)
    ensures r == Err(NotInteger) <==> !AllSpace(input) && ParseInt(input).None?
    ensures r.Ok? <==> exists n: nat :: ParseInt(input) == Some(n) && count < n <= MaxCount
    ensures r.Ok? ==> ParseInt(input) == Some(r.value) && 0 < count + 1 <= r.value <= MaxCount
    ensures r == Err(NonPositive) <==> ParseInt(input).Some? && ParseInt(input).value <= 0
    ensures r == Err(ExceedsMax) <==> ParseInt(input).Some? && ParseInt(input).value > MaxCount
    ensures r == Err(NotGreaterThanCurrent) <==>
              ParseInt(input).Some? && 0 < ParseInt(input).value <= MaxCount
              && ParseInt(input).value <= count
  {
    if Trim(input) == [] then Err(EmptyInput)
    else match ParseInt(input)
      case None => Err(NotInteger)
      case Some(num) =>
        if num <= 0 then Err(NonPositive)
        else if num > MaxCount then Err(ExceedsMax)
        else if num <= count then Err(NotGreaterThanCurrent)
        else Ok(num)
  }

  /** Typing the decimal form of a whole number, padded with any white space,
      is accepted exactly when it lies strictly above the count and within
      MaxCount, and the accepted target is that number. */
  lemma AcceptsRenderedNumber(n: int, count: nat, pre: string, post: string)
    requires AllSpace(pre) && AllSpace(post)
    ensures ValidateTarget(pre + IntToString(n) + post, count).Ok? <==> count < n <= MaxCount
    ensures count < n <= MaxCount ==> ValidateTarget(pre + IntToString(n) + post, count) == Ok(n)
  {
    ParseRoundTrip(n, pre, post);
  }

  /** Which stage rejects a rendered number: zero or below, then above the
      maximum, then not above the count, in that order. */
  lemma RejectionStageOfNumber(n: int, count: nat)
    ensures n <= 0 ==> ValidateTarget(IntToString(n), count) == Err(NonPositive)
    ensures n > MaxCount ==> ValidateTarget(IntToString(n), count) == Err(ExceedsMax)
    ensures 0 < n <= MaxCount && n <= count ==>
              ValidateTarget(IntToString(n), count) == Err(NotGreaterThanCurrent)
  {
    ParseRoundTrip(n, [], []);
    assert [] + IntToString(n) + [] == IntToString(n);
  }

  /** Concrete rejections: a number below the count, and nothing typed. */
  lemma RejectionExamples()
    ensures ValidateTarget("3", 5) == Err(NotGreaterThanCurrent)
    ensures ValidateTarget("", 0) == Err(EmptyInput)
  {
    RejectionStageOfNumber(3, 5);
    assert IntToString(3) == [DigitChar(3)] == "3";
  }

  /** A concrete rejection: a word is not a whole number. */
  lemma NotIntegerExample()
    ensures ValidateTarget("abc", 0) == Err(NotInteger)
  {
    WordDoesNotParse([], "abc", []);
    assert [] + "abc" + [] == "abc";
  }

  /** Text that, inside its white-space padding, starts with neither a sign
      nor a digit is no whole number. */
  lemma WordDoesNotParse(pre: string, w: string, post: string)
    requires AllSpace(pre) && AllSpace(post)
    requires |w| > 0 && !IsSpace(w[0]) && !IsSpace(w[|w| - 1])
    requires !IsDigit(w[0]) && w[0] != '-' && w[0] != '+'
    ensures !AllSpace(pre + w + post) && ParseInt(pre + w + post).None?
  {
    TrimPadded(pre, w, post);
    ParseOfTrimmed(pre + w + post, w);
  }

  /** A concrete acceptance: "50" at count 5 sets the target to 50. */
  lemma AcceptanceExample()
    ensures ValidateTarget("50", 5) == Ok(50)
  {
    AcceptsRenderedNumber(50, 5, [], []);
    RenderFifty();
    assert [] + "50" + [] == "50";
  }

  lemma RenderFifty()
    ensures IntToString(50) == "50"
  {
    assert NatToString(50) == NatToString(5) + [DigitChar(0)];
  }
}
