/**
  The two input forms of the Diet Tracker page: "Record Daily Intake", whose
  Submit button sends the calories consumed and burned, and "Average
  Balance", whose button asks for the average over a number of records.

  The form keeps the texts typed into its fields. Each button is disabled
  while a field is empty or the tracker cannot take the request; when it is
  clicked, the fields are read with `parseInt` and the request is issued
  only if the numbers pass a guard. The requests issued are recorded, in
  order, in `submissions` and `averageRequests`.
 */
module DietForm {
  import opened Wrappers
  import opened Decimal

  /** One call of `submitDailyData(caloriesIn, caloriesOut)`. */
  datatype Submission = Submission(caloriesIn: int, caloriesOut: int)

  /** The submission a click on Submit issues for the two field texts: intake above zero, burn not negative. */
  function SubmitRequest(inText: string, outText: string): (r: Option<Submission>)
    ensures r.Some? ==> r.value.caloriesIn > 0 && r.value.caloriesOut >= 0
  {
    var inVal := ParseInt(inText);
    var outVal := ParseInt(outText);
    if inVal.Some? && outVal.Some? && inVal.value > 0 && outVal.value >= 0 then
      Some(Submission(inVal.value, outVal.value))
    else
      None
  }

  /** The record count a click on Calculate Average asks for: only a count above zero. */
  function AverageRequest(countText: string): (r: Option<int>)
    ensures r.Some? ==> r.value > 0
  {
    var num := ParseInt(countText);
    if num.Some? && num.value > 0 then Some(num.value) else None
  }

  /** For fields holding the decimal texts of two integers, Submit sends exactly those integers when intake > 0 and burn >= 0, and nothing otherwise. */
  lemma SubmitOfRenderedNumbers(x: int, y: int)
    ensures SubmitRequest(IntToString(x), IntToString(y)) == (if x > 0 && y >= 0 then Some(Submission(x, y)) else None)
  {
    ParseIntOfToString(x);
    ParseIntOfToString(y);
  }

  /** `parseInt` drops a fraction: an intake typed as "x.f" is submitted as x. */
  lemma SubmitDropsFraction(x: int, fraction: string, y: int)
    requires x > 0 && y >= 0
    ensures SubmitRequest(IntToString(x) + "." + fraction, IntToString(y)) == Some(Submission(x, y))
  {
    ParseBigIntOfToString(x);
    assert IntToString(x) + "." + fraction == IntToString(x) + ("." + fraction);
    ParseIntIgnoresSuffix(IntToString(x), "." + fraction);
    ParseIntOfToString(y);
  }

  /** A field that holds no number at all issues no submission. */
  lemma SubmitNeedsNumbers(inText: string, outText: string)
    requires ParseInt(inText).None? || ParseInt(outText).None?
    ensures SubmitRequest(inText, outText).None?
  {
  }

  /** For a count field holding the decimal text of an integer, the average is asked for exactly that count when it is above zero. */
  lemma AverageOfRenderedCount(n: int)
    ensures AverageRequest(IntToString(n)) == (if n > 0 then Some(n) else None)
  {
    ParseIntOfToString(n);
  }

  class Form {
    var caloriesIn: string
    var caloriesOut: string
    var numRecordsForAvg: string
    /** The calls made to `submitDailyData`, oldest first. */
    var submissions: seq<Submission>
    /** The calls made to `calculateAverageBalance`, oldest first. */
    var averageRequests: seq<int>

    /** Every request issued passed its guard. */
    ghost predicate Valid()
      reads this
    {
      && (forall i :: 0 <= i < |submissions| ==> submissions[i].caloriesIn > 0 && submissions[i].caloriesOut >= 0)
      && (forall i :: 0 <= i < |averageRequests| ==> averageRequests[i] > 0)
    }

    /** Both calorie fields start empty, the record count at "7"; nothing has been issued. */
    constructor ()
      ensures Valid()
      ensures caloriesIn == "" && caloriesOut == "" && numRecordsForAvg == "7"
      ensures submissions == [] && averageRequests == []
    {
      caloriesIn, caloriesOut, numRecordsForAvg := "", "", "7";
      submissions, averageRequests := [], [];
    }

    method SetCaloriesIn(text: string)
      requires Valid()
      modifies this
      ensures Valid()
      ensures caloriesIn == text
      ensures caloriesOut == old(caloriesOut) && numRecordsForAvg == old(numRecordsForAvg)
      ensures submissions == old(submissions) && averageRequests == old(averageRequests)
    {
      caloriesIn := text;
    }

    method SetCaloriesOut(text: string)
      requires Valid()
      modifies this
      ensures Valid()
      ensures caloriesOut == text
      ensures caloriesIn == old(caloriesIn) && numRecordsForAvg == old(numRecordsForAvg)
      ensures submissions == old(submissions) && averageRequests == old(averageRequests)
    {
      caloriesOut := text;
    }

    method SetNumRecordsForAvg(text: string)
      requires Valid()
      modifies this
      ensures Valid()
      ensures numRecordsForAvg == text
      ensures caloriesIn == old(caloriesIn) && caloriesOut == old(caloriesOut)
      ensures submissions == old(submissions) && averageRequests == old(averageRequests)
    {
      numRecordsForAvg := text;
    }

    /**
      A click on Submit. `canSubmit` is the tracker's readiness. When the
      button is enabled and the guard passes, one submission is issued and
      both calorie fields are cleared; otherwise nothing changes.
     */
    method ClickSubmit(canSubmit: bool)
      requires Valid()
      modifies this
      ensures Valid()
      ensures numRecordsForAvg == old(numRecordsForAvg) && averageRequests == old(averageRequests)
      ensures var request := SubmitRequest(old(caloriesIn), old(caloriesOut));
        if canSubmit && request.Some? then
          && submissions == old(submissions) + [request.value]
          && caloriesIn == "" && caloriesOut == ""
          && SubmitRequest(caloriesIn, caloriesOut).None?
        else
          && submissions == old(submissions)
          && caloriesIn == old(caloriesIn) && caloriesOut == old(caloriesOut)
    {
      if !canSubmit || caloriesIn == "" || caloriesOut == "" {
        return;  // the button is disabled
      }
      var inVal := ParseInt(caloriesIn);
      var outVal := ParseInt(caloriesOut);
      if inVal.Some? && outVal.Some? && inVal.value > 0 && outVal.value >= 0 {
        submissions := submissions + [Submission(inVal.value, outVal.value)];
        caloriesIn := "";
        caloriesOut := "";
      }
    }

    /**
      A click on Calculate Average. `canCalculateAvg` is the tracker's
      readiness. When the button is enabled and the count is above zero,
      the average over that many records is asked for; nothing else changes.
     */
    method ClickCalculateAverage(canCalculateAvg: bool)
      requires Valid()
      modifies this
      ensures Valid()
      ensures caloriesIn == old(caloriesIn) && caloriesOut == old(caloriesOut)
      ensures numRecordsForAvg == old(numRecordsForAvg) && submissions == old(submissions)
      ensures var request := AverageRequest(old(numRecordsForAvg));
        averageRequests == if canCalculateAvg && request.Some? then old(averageRequests) + [request.value] else old(averageRequests)
    {
      if !canCalculateAvg || numRecordsForAvg == "" {
        return;  // the button is disabled
      }
      var num := ParseInt(numRecordsForAvg);
      if num.Some? && num.value > 0 {
        averageRequests := averageRequests + [num.value];
      }
    }
  }
}
