/**
 * The data frame a page holds in `df1`, and the statements that change it:
 * `clean_code`, which rebinds its local frame to row selections and
 * overwrites columns one after another, the sidebar filters, which rebind
 * `df1` to a selection, and `order_by_week`, which adds a column to the
 * frame it is given.
 */
module Frames {
  import opened Outcomes
  import opened Dates
  import opened Tables
  import opened Orders
  import opened Views

  class Frame {
    /** The rows of the frame, in index order. */
    var rows: seq<Row>

    constructor (rows: seq<Row>)
      ensures this.rows == rows
    {
      this.rows := rows;
    }

    /** `df.loc[mask, :]` and `df.loc[mask, :].copy()`: a new frame of the selected rows. */
    method Select(keep: Row -> bool) returns (r: Frame)
      ensures fresh(r) && r.rows == Keep(rows, keep)
    {
      r := new Frame(Keep(rows, keep));
    }

    /**
     * The column assignment `df1[column] = <coercion of df1[column]>`: every
     * row converted, or, when some row raises, the exception of the first
     * such row and the frame left as it was.
     */
    method Coerce(c: Conversion) returns (e: Option<CleanError>)
      modifies this
      ensures e.None? <==> ApplyStep(old(rows), Convert(c)).Ok?
      ensures e.None? ==> rows == ApplyStep(old(rows), Convert(c)).value
      ensures e.Some? ==> rows == old(rows) && ApplyStep(old(rows), Convert(c)) == Err(e.value)
    {
      var converted := ApplyStep(rows, Convert(c));
      if converted.Ok? {
        rows := converted.value;
        e := None;
      } else {
        e := Some(converted.error);
      }
    }

    /** `df1['week_of_year'] = df1['Order_Date'].dt.strftime('%U')`. */
    method AddWeekOfYear()
      requires Dated(rows)
      modifies this
      ensures rows == WithWeek(old(rows))
    {
      rows := WithWeek(rows);
    }
  }

  /** The statements of `clean_code`, in its order, as `steps` lists them. */
  ghost predicate CleanCodeSteps(steps: seq<Step>)
  {
    && |steps| == 13
    && steps[0] == DropMissing(AgeField) && steps[1] == Convert(AgeToInt)
    && steps[2] == Convert(RatingToFloat)
    && steps[3] == Convert(DateFromText)
    && steps[4] == DropMissing(MultipleDeliveriesField) && steps[5] == Convert(MultipleDeliveriesToInt)
    && steps[6] == DropMissing(TrafficField) && steps[7] == DropMissing(WeatherField)
    && steps[8] == DropMissing(CityField) && steps[9] == DropMissing(FestivalField)
    && steps[10] == Convert(StripText)
    && steps[11] == Convert(SplitTimeTaken) && steps[12] == Convert(TimeTakenToInt)
  }

  lemma PipelineIsCleanCode()
    ensures CleanCodeSteps(Pipeline)
  {
  }

  /** The run from the `k`-th of `steps` on: that step over the table, then the rest. */
  lemma RunAt(t: seq<Row>, steps: seq<Step>, k: nat)
    requires k < |steps|
    ensures Run(t, steps[k..]) ==
      match ApplyStep(t, steps[k])
      case Err(e) => Err(e)
      case Ok(u) => Run(u, steps[k + 1..])
  {
    assert steps[k..][0] == steps[k];
    assert steps[k..][1..] == steps[k + 1..];
  }

  /**
   * One selection statement of `clean_code`, the `k`-th of `steps`: the
   * local frame rebound to the rows without the sentinel.
   */
  method DropStep(d: Frame, ghost steps: seq<Step>, ghost k: nat, f: Field) returns (r: Frame)
    requires k < |steps| && steps[k] == DropMissing(f)
    ensures fresh(r) && Run(d.rows, steps[k..]) == Run(r.rows, steps[k + 1..])
  {
    RunAt(d.rows, steps, k);
    DropOk(d.rows, f);
    r := d.Select(Present(f));
  }

  /**
   * One column assignment of `clean_code`, the `k`-th of `steps`: the
   * frame's column converted in place, or the exception that ends the
   * routine.
   */
  method ConvertStep(d: Frame, ghost steps: seq<Step>, ghost k: nat, c: Conversion) returns (e: Option<CleanError>)
    requires k < |steps| && steps[k] == Convert(c)
    modifies d
    ensures e.None? ==> Run(old(d.rows), steps[k..]) == Run(d.rows, steps[k + 1..])
    ensures e.Some? ==> Run(old(d.rows), steps[k..]) == Err(e.value)
  {
    RunAt(d.rows, steps, k);
    e := d.Coerce(c);
  }

  /**
   * `clean_code(df1)`. It returns a new frame holding exactly what `Clean`
   * computes, or the exception `Clean` ends in; the caller's frame is never
   * modified.
   */
  method CleanCode(df: Frame) returns (result: Result<Frame, CleanError>)
    ensures result.Ok? <==> Clean(df.rows).Ok?
    ensures result.Ok? ==> fresh(result.value) && result.value.rows == Clean(df.rows).value
    ensures result.Err? ==> result.error == Clean(df.rows).error
  {
    PipelineIsCleanCode();
    assert Pipeline[0..] == Pipeline;
    result := CleanStatements(df, Pipeline);
  }

  /**
   * The body of `clean_code`, section by section, proved against the
   * `steps` it performs.
   */
  method CleanStatements(df: Frame, ghost steps: seq<Step>) returns (result: Result<Frame, CleanError>)
    requires CleanCodeSteps(steps)
    ensures result.Ok? ==> fresh(result.value) && Run(df.rows, steps[0..]) == Ok(result.value.rows)
    ensures result.Err? ==> Run(df.rows, steps[0..]) == Err(result.error)
  {
    var d :- DropAgeAndConvert(df, steps);
    var e := ConvertRatingAndDate(d, steps);
    if e.Some? { return Err(e.value); }
    d :- DropSentinels(d, steps);
    e := CleanTextAndTime(d, steps);
    if e.Some? { return Err(e.value); }
    return Ok(d);
  }

  /** Section 1 of `clean_code`: the rows without an age dropped into a new frame, the age converted. */
  method DropAgeAndConvert(df: Frame, ghost steps: seq<Step>) returns (result: Result<Frame, CleanError>)
    requires CleanCodeSteps(steps)
    ensures result.Ok? ==> fresh(result.value) && Run(df.rows, steps[0..]) == Run(result.value.rows, steps[2..])
    ensures result.Err? ==> Run(df.rows, steps[0..]) == Err(result.error)
  {
    var d := DropStep(df, steps, 0, AgeField);
    var e := ConvertStep(d, steps, 1, AgeToInt);
    if e.Some? { return Err(e.value); }
    return Ok(d);
  }

  /** Sections 2 and 3 of `clean_code`: the rating and the date converted in place. */
  method ConvertRatingAndDate(d: Frame, ghost steps: seq<Step>) returns (e: Option<CleanError>)
    requires CleanCodeSteps(steps)
    modifies d
    ensures e.None? ==> Run(old(d.rows), steps[2..]) == Run(d.rows, steps[4..])
    ensures e.Some? ==> Run(old(d.rows), steps[2..]) == Err(e.value)
  {
    e := ConvertStep(d, steps, 2, RatingToFloat);
    if e.Some? { return; }
    e := ConvertStep(d, steps, 3, DateFromText);
  }

  /**
   * Section 4 of `clean_code` and the selections after it: the rows without
   * a number of deliveries dropped and that column converted, then the rows
   * with the sentinel in traffic density, weather, city or festival dropped.
   */
  method DropSentinels(d0: Frame, ghost steps: seq<Step>) returns (result: Result<Frame, CleanError>)
    requires CleanCodeSteps(steps)
    ensures result.Ok? ==> fresh(result.value) && Run(d0.rows, steps[4..]) == Run(result.value.rows, steps[10..])
    ensures result.Err? ==> Run(d0.rows, steps[4..]) == Err(result.error)
  {
    var d := DropStep(d0, steps, 4, MultipleDeliveriesField);
    var e := ConvertStep(d, steps, 5, MultipleDeliveriesToInt);
    if e.Some? { return Err(e.value); }
    d := DropStep(d, steps, 6, TrafficField);
    d := DropStep(d, steps, 7, WeatherField);
    d := DropStep(d, steps, 8, CityField);
    d := DropStep(d, steps, 9, FestivalField);
    return Ok(d);
  }

  /**
   * Sections 5 and 6 of `clean_code`, in place: the seven text columns
   * stripped, then the time taken cut after its separator and converted.
   */
  method CleanTextAndTime(d: Frame, ghost steps: seq<Step>) returns (e: Option<CleanError>)
    requires CleanCodeSteps(steps)
    modifies d
    ensures e.None? ==> Run(old(d.rows), steps[10..]) == Ok(d.rows)
    ensures e.Some? ==> Run(old(d.rows), steps[10..]) == Err(e.value)
  {
    e := ConvertStep(d, steps, 10, StripText);
    if e.Some? { return; }
    e := ConvertStep(d, steps, 11, SplitTimeTaken);
    if e.Some? { return; }
    e := ConvertStep(d, steps, 12, TimeTakenToInt);
    assert steps[13..] == [];
  }

  /**
   * The company page's sidebar filters: `df1` rebound to the rows ordered
   * before the cutoff, then to those of the chosen traffic densities.
   */
  method FilterCompanyPage(df: Frame, cutoff: Date, traffic: seq<string>) returns (r: Frame)
    ensures fresh(r) && r.rows == CompanyFilters(df.rows, cutoff, traffic)
  {
    r := df.Select(OrderedBefore(cutoff));
    r := r.Select(TrafficIn(traffic));
  }

  /**
   * The deliverers and restaurants pages' sidebar filters: date, traffic
   * density and weather, each rebinding `df1` to a selection.
   */
  method FilterDeliveryPage(df: Frame, cutoff: Date, traffic: seq<string>, weather: seq<string>) returns (r: Frame)
    ensures fresh(r) && r.rows == DeliveryFilters(df.rows, cutoff, traffic, weather)
  {
    r := df.Select(OrderedBefore(cutoff));
    r := r.Select(TrafficIn(traffic));
    r := r.Select(WeatherIn(weather));
  }

  /**
   * `order_by_week(df1)`: adds the week column to the frame it is given,
   * which the page's later charts then read, and counts the orders per week.
   */
  method OrderByWeek(df: Frame) returns (counts: seq<Group<string>>)
    requires Dated(df.rows)
    modifies df
    ensures df.rows == WithWeek(old(df.rows))
    ensures Weekly(df.rows) && counts == OrdersPerWeek(df.rows)
  {
    WeekCounts(df.rows);
    df.AddWeekOfYear();
    counts := OrdersPerWeek(df.rows);
  }
}
