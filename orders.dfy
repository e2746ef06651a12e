/**
 * The order table and the cleaning routine `clean_code` that every page of
 * the dashboard runs on it right after reading the file.
 *
 * A table is a sequence of rows. Columns that a coercion rewrites hold a
 * `Cell`, which is the text read from the file until the coercion replaces
 * it by a typed value. The routine is a fixed list of steps (`Pipeline`):
 * a step either drops the rows whose field holds the missing-value sentinel
 * `"NaN "`, or converts one or more columns of every remaining row, and a
 * conversion that fails on any row aborts the whole pass.
 */
module Orders {
  import opened Outcomes
  import opened Text
  import opened Dates
  import opened Tables

  // ---------------------------------------------------------------------
  // Data model

  /**
   * A cell of a column that the routine coerces: the text read from the file,
   * or the 64-bit integer, float or timestamp a coercion stored there. A float
   * is kept as the literal it was parsed from (its value is not modelled);
   * `NaT` is the missing timestamp the date coercion stores for a text it
   * reads as no date at all.
   */
  datatype Cell = Str(s: string) | Int(n: int) | Float(literal: string) | Stamp(date: Date) | NaT

  /** One order record, one field per column of the dataset. */
  datatype Row = Row(
    id: string,
    deliveryPersonId: string,
    age: Cell,
    rating: Cell,
    restaurantLatitude: real,
    restaurantLongitude: real,
    deliveryLatitude: real,
    deliveryLongitude: real,
    orderDate: Cell,
    timeOrdered: string,
    timeOrderPicked: string,
    weather: string,
    traffic: string,
    vehicleCondition: int,
    orderType: string,
    vehicleType: string,
    multipleDeliveries: Cell,
    festival: string,
    city: string,
    timeTaken: Cell,
    weekOfYear: Option<string>)

  /** A row as read from the file: the coerced columns still hold text and there is no week column yet. */
  predicate IsRaw(x: Row)
  {
    x.age.Str? && x.rating.Str? && x.orderDate.Str? && x.multipleDeliveries.Str? && x.timeTaken.Str?
    && x.weekOfYear.None?
  }

  /** The text the file uses for a missing value (with its trailing space). */
  const Missing: string := "NaN "

  /** The separator in front of the minutes in the time-taken column. */
  const TimeSeparator: string := "(min) "

  /** The six columns checked for the missing-value sentinel. */
  datatype Field = AgeField | MultipleDeliveriesField | TrafficField | WeatherField | CityField | FestivalField

  /** The field holds the sentinel; the comparison is exact string equality. */
  predicate IsMissing(x: Row, f: Field)
  {
    match f
    case AgeField => x.age == Str(Missing)
    case MultipleDeliveriesField => x.multipleDeliveries == Str(Missing)
    case TrafficField => x.traffic == Missing
    case WeatherField => x.weather == Missing
    case CityField => x.city == Missing
    case FestivalField => x.festival == Missing
  }

  /** The row selection mask `df1[column] != 'NaN '`. */
  function Present(f: Field): Row -> bool
  {
    x => !IsMissing(x, f)
  }

  /** None of the six checked fields holds the sentinel. */
  predicate Complete(x: Row)
  {
    !IsMissing(x, AgeField) && !IsMissing(x, MultipleDeliveriesField) && !IsMissing(x, TrafficField)
    && !IsMissing(x, WeatherField) && !IsMissing(x, CityField) && !IsMissing(x, FestivalField)
  }

  /** The ways the routine can abort; each is the exception the named coercion raises. */
  datatype CleanError =
    | BadAge                    // astype('int64') on Delivery_person_Age
    | BadRating                 // astype(float) on Delivery_person_Ratings
    | BadOrderDate              // to_datetime(format='%d-%m-%Y') on Order_Date
    | BadMultipleDeliveries     // astype('int64') on multiple_deliveries
    | TimeTakenNotText          // x.split on a cell that is not a string (AttributeError)
    | MissingTimeSeparator      // x.split('(min) ')[1] without a separator (IndexError)
    | BadTimeTaken              // astype('int64') on Time_taken(min)

  // ---------------------------------------------------------------------
  // Cell coercions

  /** `astype('int64')` of one cell: text goes through `int()` and the 64-bit range check; an integer stays. */
  function ToInt64(c: Cell, e: CleanError): (r: Result<Cell, CleanError>)
    ensures r.Ok? ==> r.value.Int? && (c.Str? ==> ParseInt64(c.s) == Some(r.value.n))
    ensures c.Str? ==> (r.Ok? <==> ParseInt64(c.s).Some?)
    ensures r.Err? ==> r.error == e
  {
    match c
    case Str(s) => (match ParseInt64(s) case Some(n) => Ok(Int(n)) case None => Err(e))
    case Int(n) => Ok(Int(n))
    case _ => Err(e)
  }

  /** `astype(float)` of one cell: text must be `float()` syntax; a float stays; an integer becomes a float. */
  function ToFloat(c: Cell): (r: Result<Cell, CleanError>)
    ensures r.Ok? ==> r.value.Float? && (c.Str? ==> r.value.literal == c.s)
    ensures c.Str? ==> (r.Ok? <==> IsFloatText(c.s))
    ensures r.Err? ==> r.error == BadRating
  {
    match c
    case Str(s) => if IsFloatText(s) then Ok(Float(s)) else Err(BadRating)
    case Float(l) => Ok(Float(l))
    case Int(n) => Ok(Float(Decimal(n)))
    case _ => Err(BadRating)
  }

  /**
   * The texts pandas' strptime path reads as NaT before it matches the
   * format: the empty text and the six spellings of "not a time".
   */
  const NaTTexts: set<string> := {"", "NaN", "nan", "NAN", "NaT", "nat", "NAT"}

  /**
   * What `to_datetime(..., format='%d-%m-%Y')` makes of one text: NaT for
   * the NaT texts, otherwise the timestamp of the day the text names, or
   * nothing when the text does not match the format.
   */
  function ReadOrderDate(s: string): (r: Option<Cell>)
    ensures r.Some? ==> r.value.NaT? || (r.value.Stamp? && IsValid(r.value.date) && InTimestampRange(r.value.date))
  {
    if s in NaTTexts then Some(NaT)
    else match ParseOrderDate(s) case Some(d) => Some(Stamp(d)) case None => None
  }

  /**
   * Reading NaT first takes no date away from the format: no NaT text
   * matches `%d-%m-%Y`, so a text is read as NaT exactly when it is one of
   * them, and as a timestamp exactly when it names a day.
   */
  lemma ReadOrderDateSpec(s: string)
    ensures ReadOrderDate(s) == Some(NaT) <==> s in NaTTexts
    ensures ParseOrderDate(s).Some? <==> ReadOrderDate(s).Some? && ReadOrderDate(s).value.Stamp?
    ensures ParseOrderDate(s).Some? ==> ReadOrderDate(s) == Some(Stamp(ParseOrderDate(s).value))
    ensures ReadOrderDate(s).None? <==> s !in NaTTexts && ParseOrderDate(s).None?
  {
    if s in NaTTexts {
      NaTTextIsNoDate(s);
    }
  }

  /** A NaT text holds no dash, so it does not match `%d-%m-%Y`. */
  lemma NaTTextIsNoDate(s: string)
    requires s in NaTTexts
    ensures ParseOrderDate(s).None?
  {
    assert '-' !in s;
  }

  /** `pd.to_datetime(..., format='%d-%m-%Y')` of one cell; a timestamp or NaT stays. */
  function ToDate(c: Cell): (r: Result<Cell, CleanError>)
    ensures r.Ok? ==> r.value.Stamp? || r.value.NaT?
    ensures r.Ok? && c.Str? && r.value.Stamp? ==> IsValid(r.value.date) && InTimestampRange(r.value.date)
    ensures c.Str? ==> (r.Ok? <==> c.s in NaTTexts || ParseOrderDate(c.s).Some?)
    ensures r.Ok? && c.Str? ==> (r.value.NaT? <==> c.s in NaTTexts)
    ensures r.Ok? && c.Str? && r.value.Stamp? ==> ParseOrderDate(c.s) == Some(r.value.date)
    ensures r.Err? ==> r.error == BadOrderDate
  {
    match c
    case Str(s) => (match ReadOrderDate(s) case Some(d) => Ok(d) case None => Err(BadOrderDate))
    case Stamp(d) => Ok(Stamp(d))
    case NaT => Ok(NaT)
    case _ => Err(BadOrderDate)
  }

  /** `x.split('(min) ')[1]` of one cell. */
  function SplitTime(c: Cell): (r: Result<Cell, CleanError>)
    ensures r.Ok? ==> c.Str? && SplitSecond(c.s, TimeSeparator).Some? && r.value == Str(SplitSecond(c.s, TimeSeparator).value)
    ensures r.Err? ==> r.error == (if c.Str? then MissingTimeSeparator else TimeTakenNotText)
    ensures c.Str? ==> (r.Ok? <==> exists k :: MatchAt(c.s, TimeSeparator, k))
  {
    match c
    case Str(s) => (match SplitSecond(s, TimeSeparator) case Some(t) => Ok(Str(t)) case None => Err(MissingTimeSeparator))
    case _ => Err(TimeTakenNotText)
  }

  // ---------------------------------------------------------------------
  // The routine as a list of steps

  /** The column rewrites of `clean_code`, each applied to every row. */
  datatype Conversion =
    | AgeToInt
    | RatingToFloat
    | DateFromText
    | MultipleDeliveriesToInt
    | StripText
    | SplitTimeTaken
    | TimeTakenToInt

  datatype Step = DropMissing(field: Field) | Convert(conversion: Conversion)

  /** The steps of `clean_code`, in the order it runs them. */
  const Pipeline: seq<Step> := [
    DropMissing(AgeField), Convert(AgeToInt),
    Convert(RatingToFloat),
    Convert(DateFromText),
    DropMissing(MultipleDeliveriesField), Convert(MultipleDeliveriesToInt),
    DropMissing(TrafficField), DropMissing(WeatherField), DropMissing(CityField), DropMissing(FestivalField),
    Convert(StripText),
    Convert(SplitTimeTaken), Convert(TimeTakenToInt)
  ]

  /** One conversion on one row. */
  function ConvertRow(x: Row, c: Conversion): Result<Row, CleanError>
  {
    match c
    case AgeToInt => var a :- ToInt64(x.age, BadAge); Ok(x.(age := a))
    case RatingToFloat => var v :- ToFloat(x.rating); Ok(x.(rating := v))
    case DateFromText => var d :- ToDate(x.orderDate); Ok(x.(orderDate := d))
    case MultipleDeliveriesToInt =>
      var m :- ToInt64(x.multipleDeliveries, BadMultipleDeliveries); Ok(x.(multipleDeliveries := m))
    case StripText =>
      Ok(x.(id := Strip(x.id), traffic := Strip(x.traffic), orderType := Strip(x.orderType),
            vehicleType := Strip(x.vehicleType), city := Strip(x.city),
            deliveryPersonId := Strip(x.deliveryPersonId), festival := Strip(x.festival)))
    case SplitTimeTaken => var t :- SplitTime(x.timeTaken); Ok(x.(timeTaken := t))
    case TimeTakenToInt => var t :- ToInt64(x.timeTaken, BadTimeTaken); Ok(x.(timeTaken := t))
  }

  /** What one step makes of one row: no row, the row rewritten, or the exception. */
  function StepRow(x: Row, s: Step): (r: Result<seq<Row>, CleanError>)
    ensures r.Ok? ==> |r.value| <= 1
  {
    match s
    case DropMissing(f) => if IsMissing(x, f) then Ok([]) else Ok([x])
    case Convert(c) => var y :- ConvertRow(x, c); Ok([y])
  }

  /**
   * One step on the whole table: the rows in order, each through `StepRow`;
   * the first row that raises decides the exception.
   */
  function ApplyStep(t: seq<Row>, s: Step): Result<seq<Row>, CleanError>
  {
    if t == [] then Ok([])
    else
      var a :- ApplyStep(t[..|t| - 1], s);
      var b :- StepRow(t[|t| - 1], s);
      Ok(a + b)
  }

  /** The steps one after the other, the first exception ending the run. */
  function Run(t: seq<Row>, steps: seq<Step>): Result<seq<Row>, CleanError>
    decreases |steps|
  {
    if steps == [] then Ok(t)
    else
      var u :- ApplyStep(t, steps[0]);
      Run(u, steps[1..])
  }

  /** `clean_code(df1)`. */
  function Clean(raw: seq<Row>): Result<seq<Row>, CleanError>
  {
    Run(raw, Pipeline)
  }

  /** The steps applied to a single row on its own: what becomes of it, or the exception it raises. */
  function Through(x: Row, steps: seq<Step>): (r: Result<seq<Row>, CleanError>)
    ensures r.Ok? ==> |r.value| <= 1
    decreases |steps|
  {
    if steps == [] then Ok([x])
    else
      var o :- StepRow(x, steps[0]);
      if o == [] then Ok([]) else Through(o[0], steps[1..])
  }

  /** What a row becomes, nothing when it raises. */
  function Outcome(x: Row, steps: seq<Step>): (r: seq<Row>)
    ensures |r| <= 1
  {
    match Through(x, steps)
    case Ok(o) => o
    case Err(_) => []
  }

  /** What the rows of `t` become, each taken through the steps on its own. */
  function Survivors(t: seq<Row>, steps: seq<Step>): seq<Row>
  {
    if t == [] then [] else Survivors(t[..|t| - 1], steps) + Outcome(t[|t| - 1], steps)
  }

  // ---------------------------------------------------------------------
  // Running the steps over a table is running them over each row

  /** A step succeeds on a table exactly when it succeeds on every row. */
  lemma {:induction false} ApplyStepOk(t: seq<Row>, s: Step)
    ensures ApplyStep(t, s).Ok? <==> forall i :: 0 <= i < |t| ==> StepRow(t[i], s).Ok?
  {
    if t != [] {
      var init := t[..|t| - 1];
      ApplyStepOk(init, s);
      assert forall i :: 0 <= i < |init| ==> init[i] == t[i];
    }
  }

  /** Once a prefix of the table raises, the whole table raises the same exception. */
  lemma {:induction false} ApplyStepErrPrefix(t: seq<Row>, i: nat, s: Step)
    requires i <= |t| && ApplyStep(t[..i], s).Err?
    ensures ApplyStep(t, s) == ApplyStep(t[..i], s)
    decreases |t| - i
  {
    if i < |t| {
      assert t[..i + 1][..i] == t[..i];
      ApplyStepErrPrefix(t, i + 1, s);
    } else {
      assert t[..i] == t;
    }
  }

  lemma {:induction false} RunEmpty(steps: seq<Step>)
    ensures Run([], steps) == Ok([])
    decreases |steps|
  {
    if steps != [] { RunEmpty(steps[1..]); }
  }

  /**
   * Appending a row: the run succeeds when it does on the rest and on the
   * row, and appends the row's outcome; when it fails, the exception is the
   * one the rest raises or the one the row raises.
   */
  lemma {:induction false} RunSnoc(t: seq<Row>, x: Row, steps: seq<Step>)
    ensures Run(t + [x], steps).Ok? <==> Run(t, steps).Ok? && Through(x, steps).Ok?
    ensures Run(t + [x], steps).Ok? ==> Run(t + [x], steps).value == Run(t, steps).value + Through(x, steps).value
    ensures Run(t + [x], steps).Err? ==>
      Run(t + [x], steps) == Run(t, steps) || Run(t + [x], steps) == Through(x, steps)
    decreases |steps|
  {
    if steps != [] {
      var s, rest := steps[0], steps[1..];
      assert (t + [x])[..|t|] == t;
      match ApplyStep(t, s)
      case Err(_) =>
      case Ok(a) =>
        match StepRow(x, s)
        case Err(_) =>
        case Ok(b) =>
          assert ApplyStep(t + [x], s) == Ok(a + b);
          if b == [] {
            assert a + b == a;
          } else {
            assert b == [b[0]];
            RunSnoc(a, b[0], rest);
          }
    }
  }

  /**
   * Running the steps over a table succeeds exactly when every row gets
   * through them on its own, and then yields what the rows become, in order.
   */
  lemma {:induction false} RunRows(t: seq<Row>, steps: seq<Step>)
    ensures Run(t, steps).Ok? <==> forall i :: 0 <= i < |t| ==> Through(t[i], steps).Ok?
    ensures Run(t, steps).Ok? ==> Run(t, steps).value == Survivors(t, steps)
  {
    if t == [] {
      RunEmpty(steps);
    } else {
      var init, x := t[..|t| - 1], t[|t| - 1];
      RunRows(init, steps);
      assert t == init + [x];
      RunSnoc(init, x, steps);
      assert forall i :: 0 <= i < |init| ==> init[i] == t[i];
    }
  }

  /** A run that fails raises the exception of some row taken through the steps on its own. */
  lemma {:induction false} RunErrFromRow(t: seq<Row>, steps: seq<Step>)
    requires Run(t, steps).Err?
    ensures exists i :: 0 <= i < |t| && Through(t[i], steps) == Run(t, steps)
  {
    if t == [] {
      RunEmpty(steps);
    } else {
      var init, x := t[..|t| - 1], t[|t| - 1];
      assert t == init + [x];
      RunSnoc(init, x, steps);
      if Run(t, steps) == Run(init, steps) {
        RunErrFromRow(init, steps);
        var i :| 0 <= i < |init| && Through(init[i], steps) == Run(init, steps);
        assert t[i] == init[i];
      } else {
        assert Through(t[|t| - 1], steps) == Run(t, steps);
      }
    }
  }

  /** A step that fails on a table raises the exception of some row. */
  lemma {:induction false} ApplyStepErr(t: seq<Row>, s: Step)
    requires ApplyStep(t, s).Err?
    ensures exists i :: 0 <= i < |t| && StepRow(t[i], s) == Err(ApplyStep(t, s).error)
  {
    var init := t[..|t| - 1];
    if ApplyStep(init, s).Err? {
      ApplyStepErr(init, s);
      var i :| 0 <= i < |init| && StepRow(init[i], s) == Err(ApplyStep(init, s).error);
      assert t[i] == init[i];
    }
  }

  /** A step that every row comes through unchanged leaves the table as it is. */
  lemma {:induction false} ApplyStepIdentity(t: seq<Row>, s: Step)
    requires forall i :: 0 <= i < |t| ==> StepRow(t[i], s) == Ok([t[i]])
    ensures ApplyStep(t, s) == Ok(t)
  {
    if t != [] {
      var init := t[..|t| - 1];
      assert forall i :: 0 <= i < |init| ==> init[i] == t[i];
      ApplyStepIdentity(init, s);
      assert init + [t[|t| - 1]] == t;
    }
  }

  /** A step that raises the same exception on every row of a non-empty table raises it on the table. */
  lemma ApplyStepAllFail(t: seq<Row>, s: Step, e: CleanError)
    requires t != [] && forall i :: 0 <= i < |t| ==> StepRow(t[i], s) == Err(e)
    ensures ApplyStep(t, s) == Err(e)
  {
    ApplyStepOk(t, s);
    ApplyStepErr(t, s);
  }

  /** A drop step keeps exactly the rows whose field is not the sentinel, in order. */
  lemma {:induction false} DropOk(t: seq<Row>, f: Field)
    ensures ApplyStep(t, DropMissing(f)) == Ok(Keep(t, Present(f)))
  {
    if t != [] {
      DropOk(t[..|t| - 1], f);
    }
  }

  /** The run from the `k`-th step on: that step over the table, then the rest. */
  lemma RunFrom(t: seq<Row>, k: nat)
    requires k < |Pipeline|
    ensures Run(t, Pipeline[k..]) ==
      match ApplyStep(t, Pipeline[k])
      case Err(e) => Err(e)
      case Ok(u) => Run(u, Pipeline[k + 1..])
  {
    assert Pipeline[k..][0] == Pipeline[k];
    assert Pipeline[k..][1..] == Pipeline[k + 1..];
  }

  /**
   * A row whose age is present but is not a 64-bit integer aborts the pass
   * with the age coercion's exception, whatever the other rows hold: the age
   * is the first column coerced.
   */
  lemma BadAgeAborts(raw: seq<Row>, i: nat)
    requires i < |raw| && raw[i].age.Str? && raw[i].age != Str(Missing) && ParseInt64(raw[i].age.s).None?
    ensures Clean(raw) == Err(BadAge)
  {
    var kept := Keep(raw, Present(AgeField));
    DropOk(raw, AgeField);
    RunFrom(raw, 0);
    assert Pipeline[0..] == Pipeline;
    KeepMembers(raw, Present(AgeField));
    assert raw[i] in kept;
    var j :| 0 <= j < |kept| && kept[j] == raw[i];
    ApplyStepOk(kept, Pipeline[1]);
    assert StepRow(kept[j], Pipeline[1]).Err?;
    ApplyStepErr(kept, Pipeline[1]);
    RunFrom(kept, 1);
  }

  // ---------------------------------------------------------------------
  // What the routine does to one row

  /** The number of minutes in a time-taken text: the piece after the separator, as a 64-bit integer. */
  function TimeTakenMinutes(s: string): (r: Option<int>)
    ensures r.Some? ==> exists k :: MatchAt(s, TimeSeparator, k)
    ensures r.Some? ==> InInt64(r.value)
  {
    match SplitSecond(s, TimeSeparator)
    case None => None
    case Some(t) => ParseInt64(t)
  }

  /** A time taken written as the separator and a 64-bit integer reads back as that integer. */
  lemma TimeTakenRoundTrip(n: int)
    requires InInt64(n)
    ensures TimeTakenMinutes(TimeSeparator + Decimal(n)) == Some(n)
  {
    var d := Decimal(n);
    DecimalChars(n);
    forall k ensures !MatchAt(d, TimeSeparator, k) {
      if 0 <= k && k + |TimeSeparator| <= |d| {
        assert d[k..k + |TimeSeparator|][0] == d[k] != TimeSeparator[0];
      }
    }
    assert TimeSeparator + d == "" + TimeSeparator + d;
    SplitSecondOf("", TimeSeparator, d);
    DecimalRoundTrip(n);
  }

  /**
   * The minutes are the piece after the separator read by `int()`: with no
   * separator before the first one and none after it, the text gives the
   * 64-bit integer that piece holds, and nothing when it holds none.
   */
  lemma TimeTakenMinutesOf(a: string, b: string)
    requires forall k :: !MatchAt(a, TimeSeparator, k)
    requires forall k :: !MatchAt(b, TimeSeparator, k)
    ensures TimeTakenMinutes(a + TimeSeparator + b) == ParseInt64(b)
  {
    var s := a + TimeSeparator + b;
    var w := |TimeSeparator|;
    forall k | 0 <= k < |a| ensures !MatchAt(s, TimeSeparator, k) {
      if k + w <= |a| {
        assert !MatchAt(a, TimeSeparator, k);
        assert s[k..k + w] == a[k..k + w];
      } else {
        // a match here would put the separator's opening parenthesis at a
        // position of the separator that holds no parenthesis
        var j := |a| - k;
        assert s[k..k + w][j] == '(';
        assert TimeSeparator[j] != '(';
        assert s[k..k + w] != TimeSeparator;
      }
    }
    SplitSecondOf(a, TimeSeparator, b);
  }

  /**
   * A raw row does not abort the pass: every coercion that reaches it
   * succeeds. Age, rating and date are coerced unless the age is missing;
   * the multiple-deliveries count unless that or the age is missing; the
   * time taken only on rows with no missing field at all.
   */
  predicate Admissible(x: Row)
    requires IsRaw(x)
  {
    IsMissing(x, AgeField)
    || (ParseInt64(x.age.s).Some? && IsFloatText(x.rating.s) && ReadOrderDate(x.orderDate.s).Some?
        && (IsMissing(x, MultipleDeliveriesField)
            || (ParseInt64(x.multipleDeliveries.s).Some?
                && (!Complete(x) || TimeTakenMinutes(x.timeTaken.s).Some?))))
  }

  /** `y` is the cleaned form of the raw row `x`, field by field. */
  predicate CleanedFrom(x: Row, y: Row)
    requires IsRaw(x)
  {
    && y.age.Int? && ParseInt64(x.age.s) == Some(y.age.n)
    && y.rating == Float(x.rating.s) && IsFloatText(x.rating.s)
    && ReadOrderDate(x.orderDate.s) == Some(y.orderDate)
    && y.multipleDeliveries.Int? && ParseInt64(x.multipleDeliveries.s) == Some(y.multipleDeliveries.n)
    && y.timeTaken.Int? && TimeTakenMinutes(x.timeTaken.s) == Some(y.timeTaken.n)
    && y.id == Strip(x.id) && y.deliveryPersonId == Strip(x.deliveryPersonId)
    && y.traffic == Strip(x.traffic) && y.orderType == Strip(x.orderType)
    && y.vehicleType == Strip(x.vehicleType) && y.city == Strip(x.city) && y.festival == Strip(x.festival)
    && y.weather == x.weather
    && y.restaurantLatitude == x.restaurantLatitude && y.restaurantLongitude == x.restaurantLongitude
    && y.deliveryLatitude == x.deliveryLatitude && y.deliveryLongitude == x.deliveryLongitude
    && y.timeOrdered == x.timeOrdered && y.timeOrderPicked == x.timeOrderPicked
    && y.vehicleCondition == x.vehicleCondition && y.weekOfYear == x.weekOfYear
  }

  /** The steps from the `k`-th on: the `k`-th step, then the rest. */
  lemma PipelineFrom(x: Row, k: nat)
    requires k < |Pipeline|
    ensures Through(x, Pipeline[k..]) ==
      match StepRow(x, Pipeline[k])
      case Err(e) => Err(e)
      case Ok(o) => if o == [] then Ok([]) else Through(o[0], Pipeline[k + 1..])
  {
    assert Pipeline[k..][0] == Pipeline[k];
    assert Pipeline[k..][1..] == Pipeline[k + 1..];
  }

  /** A conversion step rewrites the row and passes it on, or raises. */
  lemma ConvertAt(y: Row, k: nat)
    requires k < |Pipeline| && Pipeline[k].Convert?
    ensures Through(y, Pipeline[k..]) ==
      match ConvertRow(y, Pipeline[k].conversion)
      case Err(e) => Err(e)
      case Ok(z) => Through(z, Pipeline[k + 1..])
  {
    PipelineFrom(y, k);
  }

  /** Step 1: coerce the age. */
  lemma AgeStep(x: Row)
    requires x.age.Str?
    ensures Through(x, Pipeline[1..]) ==
      if ParseInt64(x.age.s).None? then Err(BadAge)
      else Through(x.(age := Int(ParseInt64(x.age.s).value)), Pipeline[2..])
  {
    ConvertAt(x, 1);
  }

  /** Step 2: coerce the rating. */
  lemma RatingStep(x: Row)
    requires x.rating.Str?
    ensures Through(x, Pipeline[2..]) ==
      if !IsFloatText(x.rating.s) then Err(BadRating)
      else Through(x.(rating := Float(x.rating.s)), Pipeline[3..])
  {
    ConvertAt(x, 2);
  }

  /** Step 3: coerce the date. */
  lemma DateStep(x: Row)
    requires x.orderDate.Str?
    ensures Through(x, Pipeline[3..]) ==
      if ReadOrderDate(x.orderDate.s).None? then Err(BadOrderDate)
      else Through(x.(orderDate := ReadOrderDate(x.orderDate.s).value), Pipeline[4..])
  {
    ConvertAt(x, 3);
  }

  /** Steps 0-3: drop a missing age, then coerce age, rating and date. */
  lemma EarlySteps(x: Row)
    requires IsRaw(x)
    ensures Through(x, Pipeline) ==
      if IsMissing(x, AgeField) then Ok([])
      else if ParseInt64(x.age.s).None? then Err(BadAge)
      else if !IsFloatText(x.rating.s) then Err(BadRating)
      else if ReadOrderDate(x.orderDate.s).None? then Err(BadOrderDate)
      else Through(x.(age := Int(ParseInt64(x.age.s).value), rating := Float(x.rating.s),
                      orderDate := ReadOrderDate(x.orderDate.s).value), Pipeline[4..])
  {
    assert Pipeline[0..] == Pipeline;
    DropAt(x, 0);
    if !IsMissing(x, AgeField) {
      AgeStep(x);
      if ParseInt64(x.age.s).Some? {
        var x1 := x.(age := Int(ParseInt64(x.age.s).value));
        RatingStep(x1);
        if IsFloatText(x.rating.s) {
          DateStep(x1.(rating := Float(x.rating.s)));
        }
      }
    }
  }

  /** Steps 4-5: drop a missing multiple-deliveries count, then coerce it. */
  lemma MiddleSteps(y: Row)
    requires y.multipleDeliveries.Str?
    ensures Through(y, Pipeline[4..]) ==
      if IsMissing(y, MultipleDeliveriesField) then Ok([])
      else if ParseInt64(y.multipleDeliveries.s).None? then Err(BadMultipleDeliveries)
      else Through(y.(multipleDeliveries := Int(ParseInt64(y.multipleDeliveries.s).value)), Pipeline[6..])
  {
    var p4 := Pipeline[4..];
    assert p4[0] == DropMissing(MultipleDeliveriesField);
    if !IsMissing(y, MultipleDeliveriesField) {
      var p5 := p4[1..];
      assert Through(y, p4) == Through(y, p5);
      assert p5[0] == Convert(MultipleDeliveriesToInt);
      match ParseInt64(y.multipleDeliveries.s)
      case None =>
        assert StepRow(y, p5[0]).Err?;
      case Some(m) =>
        var y1 := y.(multipleDeliveries := Int(m));
        assert StepRow(y, p5[0]) == Ok([y1]);
        assert p5[1..] == Pipeline[6..];
        assert Through(y, p5) == Through(y1, Pipeline[6..]);
    }
  }

  /** The text columns `clean_code` strips, stripped. */
  function Stripped(y: Row): Row
  {
    y.(id := Strip(y.id), traffic := Strip(y.traffic), orderType := Strip(y.orderType),
       vehicleType := Strip(y.vehicleType), city := Strip(y.city),
       deliveryPersonId := Strip(y.deliveryPersonId), festival := Strip(y.festival))
  }

  /** A drop step lets the row on to the next step unless its field is missing. */
  lemma DropAt(y: Row, k: nat)
    requires k < |Pipeline| && Pipeline[k].DropMissing?
    ensures Through(y, Pipeline[k..]) == if IsMissing(y, Pipeline[k].field) then Ok([]) else Through(y, Pipeline[k + 1..])
  {
    PipelineFrom(y, k);
  }

  /** Steps 6-9: drop a row whose traffic, weather, city or festival is missing. */
  lemma LateDrops(y: Row)
    ensures Through(y, Pipeline[6..]) ==
      if IsMissing(y, TrafficField) || IsMissing(y, WeatherField) || IsMissing(y, CityField) || IsMissing(y, FestivalField)
      then Ok([])
      else Through(y, Pipeline[10..])
  {
    DropAt(y, 6);
    DropAt(y, 7);
    DropAt(y, 8);
    DropAt(y, 9);
  }

  /** Step 10: strip the text columns. */
  lemma StripStep(y: Row)
    ensures Through(y, Pipeline[10..]) == Through(Stripped(y), Pipeline[11..])
  {
    PipelineFrom(y, 10);
    assert StepRow(y, Pipeline[10]) == Ok([Stripped(y)]);
  }

  /** Steps 11-12: split the time-taken text and coerce the piece after the separator. */
  lemma TimeSteps(y: Row)
    requires y.timeTaken.Str?
    ensures Through(y, Pipeline[11..]).Ok? <==> TimeTakenMinutes(y.timeTaken.s).Some?
    ensures Through(y, Pipeline[11..]).Ok? ==>
      Through(y, Pipeline[11..]).value == [y.(timeTaken := Int(TimeTakenMinutes(y.timeTaken.s).value))]
  {
    var rest := Pipeline[11..];
    assert rest == [Convert(SplitTimeTaken), Convert(TimeTakenToInt)];
    var last := rest[1..];
    assert last == [Convert(TimeTakenToInt)];
    match SplitSecond(y.timeTaken.s, TimeSeparator)
    case None =>
      assert StepRow(y, rest[0]).Err?;
    case Some(t) =>
      var y1 := y.(timeTaken := Str(t));
      assert StepRow(y, rest[0]) == Ok([y1]);
      assert Through(y, rest) == Through(y1, last);
      match ParseInt64(t)
      case None =>
        assert StepRow(y1, last[0]).Err?;
      case Some(m) =>
        var y2 := y1.(timeTaken := Int(m));
        assert StepRow(y1, last[0]) == Ok([y2]);
        assert last[1..] == [];
        assert Through(y1, last) == Through(y2, []);
  }

  /** The row after steps 0-5, when none of them drops or rejects it. */
  function Coerced(x: Row): Row
    requires IsRaw(x) && ParseInt64(x.age.s).Some? && ReadOrderDate(x.orderDate.s).Some?
    requires ParseInt64(x.multipleDeliveries.s).Some?
  {
    x.(age := Int(ParseInt64(x.age.s).value), rating := Float(x.rating.s),
       orderDate := ReadOrderDate(x.orderDate.s).value,
       multipleDeliveries := Int(ParseInt64(x.multipleDeliveries.s).value))
  }

  /** Steps 0-5 on a row that none of them drops or rejects. */
  lemma HeadSteps(x: Row)
    requires IsRaw(x) && !IsMissing(x, AgeField) && !IsMissing(x, MultipleDeliveriesField)
    requires ParseInt64(x.age.s).Some? && IsFloatText(x.rating.s) && ReadOrderDate(x.orderDate.s).Some?
    requires ParseInt64(x.multipleDeliveries.s).Some?
    ensures Through(x, Pipeline) == Through(Coerced(x), Pipeline[6..])
  {
    EarlySteps(x);
    MiddleSteps(x.(age := Int(ParseInt64(x.age.s).value), rating := Float(x.rating.s),
                   orderDate := ReadOrderDate(x.orderDate.s).value));
  }

  /** Steps 6-12: the four drops, the strip and the time-taken coercion. */
  lemma TailSteps(y: Row)
    requires y.timeTaken.Str?
    ensures Through(y, Pipeline[6..]).Ok? <==> !Complete(y) || TimeTakenMinutes(y.timeTaken.s).Some?
    ensures Through(y, Pipeline[6..]).Ok? && !Complete(y) ==> Through(y, Pipeline[6..]).value == []
    ensures Through(y, Pipeline[6..]).Ok? && Complete(y) ==>
      Through(y, Pipeline[6..]).value == [Stripped(y).(timeTaken := Int(TimeTakenMinutes(y.timeTaken.s).value))]
    requires !IsMissing(y, AgeField) && !IsMissing(y, MultipleDeliveriesField)
  {
    LateDrops(y);
    if Complete(y) {
      StripStep(y);
      TimeSteps(Stripped(y));
    }
  }

  /** Coercing the age and multiple-deliveries columns does not change which rows are complete. */
  lemma CompleteAfterCoercion(x: Row, y: Row)
    requires !IsMissing(x, AgeField) && !IsMissing(x, MultipleDeliveriesField)
    requires y.age.Int? && y.multipleDeliveries.Int?
    requires y.traffic == x.traffic && y.weather == x.weather && y.city == x.city && y.festival == x.festival
    ensures Complete(y) == Complete(x)
  {
  }

  /** The per-row fate of a raw row: when it aborts, when it is dropped, what it becomes. */
  lemma ThroughPipeline(x: Row)
    requires IsRaw(x)
    ensures Through(x, Pipeline).Ok? <==> Admissible(x)
    ensures Through(x, Pipeline).Ok? ==> (Through(x, Pipeline).value != [] <==> Complete(x))
    ensures Through(x, Pipeline).Ok? && Complete(x) ==> CleanedFrom(x, Through(x, Pipeline).value[0])
  {
    EarlySteps(x);
    if !IsMissing(x, AgeField) && ParseInt64(x.age.s).Some? && IsFloatText(x.rating.s) && ReadOrderDate(x.orderDate.s).Some? {
      MiddleSteps(x.(age := Int(ParseInt64(x.age.s).value), rating := Float(x.rating.s),
                     orderDate := ReadOrderDate(x.orderDate.s).value));
      if !IsMissing(x, MultipleDeliveriesField) && ParseInt64(x.multipleDeliveries.s).Some? {
        var y := Coerced(x);
        HeadSteps(x);
        TailSteps(y);
        CompleteAfterCoercion(x, y);
      }
    }
  }

  // ---------------------------------------------------------------------
  // What the routine does to a table

  /**
   * When every row comes through the steps, and exactly the rows satisfying
   * `p` come out, the survivors line up one to one with the rows `p` keeps.
   */
  lemma {:induction false} SurvivorsAligned(t: seq<Row>, steps: seq<Step>, p: Row -> bool)
    requires forall i :: 0 <= i < |t| ==> (Outcome(t[i], steps) != [] <==> p(t[i]))
    ensures |Survivors(t, steps)| == |Keep(t, p)|
    ensures forall i :: 0 <= i < |Keep(t, p)| ==> [Survivors(t, steps)[i]] == Outcome(Keep(t, p)[i], steps)
  {
    if t != [] {
      var init, x := t[..|t| - 1], t[|t| - 1];
      assert forall i :: 0 <= i < |init| ==> init[i] == t[i];
      SurvivorsAligned(init, steps, p);
      var k0, u0 := Keep(init, p), Survivors(init, steps);
      var k, u := Keep(t, p), Survivors(t, steps);
      var o := Outcome(x, steps);
      assert u == u0 + o;
      if p(x) {
        assert k == k0 + [x];
        assert o == [o[0]];
      } else {
        assert k == k0 && o == [];
      }
      forall i | 0 <= i < |k| ensures [u[i]] == Outcome(k[i], steps) {
        if i < |k0| {
          assert k[i] == k0[i] && u[i] == u0[i];
        }
      }
    }
  }

  /**
   * `clean_code` on a table read from the file. It succeeds exactly when no
   * row makes a coercion fail that reaches it; then it keeps exactly the
   * rows with none of the six fields missing, in their original order, and
   * each kept row comes out cleaned field by field.
   */
  lemma CleanSpec(raw: seq<Row>)
    requires forall i :: 0 <= i < |raw| ==> IsRaw(raw[i])
    ensures Clean(raw).Ok? <==> forall i :: 0 <= i < |raw| ==> Admissible(raw[i])
    ensures Clean(raw).Ok? ==> |Clean(raw).value| == |Keep(raw, Complete)|
    ensures Clean(raw).Ok? ==> forall i :: 0 <= i < |Clean(raw).value| ==>
      IsRaw(Keep(raw, Complete)[i]) && CleanedFrom(Keep(raw, Complete)[i], Clean(raw).value[i])
  {
    RunRows(raw, Pipeline);
    forall i | 0 <= i < |raw| ensures Through(raw[i], Pipeline).Ok? <==> Admissible(raw[i]) {
      ThroughPipeline(raw[i]);
    }
    if Clean(raw).Ok? {
      forall i | 0 <= i < |raw| ensures Outcome(raw[i], Pipeline) != [] <==> Complete(raw[i]) {
        ThroughPipeline(raw[i]);
      }
      SurvivorsAligned(raw, Pipeline, Complete);
      var k := Keep(raw, Complete);
      KeepMembers(raw, Complete);
      forall i | 0 <= i < |k| ensures IsRaw(k[i]) && CleanedFrom(k[i], Clean(raw).value[i]) {
        assert k[i] in k;
        ThroughPipeline(k[i]);
      }
    }
  }

  /**
   * The rating and the date are coerced on every row that has an age, before
   * the other sentinels are looked at: a malformed rating or date aborts the
   * pass even on a row that a later selection would have dropped. A date
   * text is malformed when it is neither a NaT text nor a `%d-%m-%Y` day.
   */
  lemma MalformedRowAborts(raw: seq<Row>, i: nat)
    requires forall j :: 0 <= j < |raw| ==> IsRaw(raw[j])
    requires i < |raw| && IsRaw(raw[i]) && !IsMissing(raw[i], AgeField)
    requires !IsFloatText(raw[i].rating.s) || (raw[i].orderDate.s !in NaTTexts && ParseOrderDate(raw[i].orderDate.s).None?)
    ensures Clean(raw).Err?
  {
    CleanSpec(raw);
    assert !Admissible(raw[i]);
  }

  /**
   * A row whose date is a NaT text is not an error: with every other
   * coercion succeeding it comes through the pass, its date NaT.
   */
  lemma UndatedRowKept(x: Row)
    requires IsRaw(x) && Complete(x) && x.orderDate.s in NaTTexts
    requires ParseInt64(x.age.s).Some? && IsFloatText(x.rating.s) && ParseInt64(x.multipleDeliveries.s).Some?
    requires TimeTakenMinutes(x.timeTaken.s).Some?
    ensures Through(x, Pipeline).Ok? && |Through(x, Pipeline).value| == 1
    ensures Through(x, Pipeline).value[0].orderDate == NaT
  {
    ThroughPipeline(x);
  }

  /** The invariant of a cleaned table's rows: typed columns, nothing missing, stripped text. */
  predicate Cleaned(y: Row)
  {
    && y.age.Int? && InInt64(y.age.n)
    && y.rating.Float?
    && (y.orderDate.NaT? || (y.orderDate.Stamp? && IsValid(y.orderDate.date) && InTimestampRange(y.orderDate.date)))
    && y.multipleDeliveries.Int? && InInt64(y.multipleDeliveries.n)
    && y.timeTaken.Int? && InInt64(y.timeTaken.n)
    && Complete(y)
    && Trimmed(y.id) && Trimmed(y.deliveryPersonId) && Trimmed(y.traffic) && Trimmed(y.orderType)
    && Trimmed(y.vehicleType) && Trimmed(y.city) && Trimmed(y.festival)
  }

  /** A stripped text is never the sentinel, which ends in a space. */
  lemma StrippedIsNotMissing(s: string)
    ensures Strip(s) != Missing
  {
    var r := Strip(s);
    if r == Missing { assert IsSpace(r[|r| - 1]); }
  }

  lemma CleanedText(x: Row, y: Row)
    requires !IsMissing(x, WeatherField)
    requires y.age.Int? && y.multipleDeliveries.Int? && y.weather == x.weather
    requires y.id == Strip(x.id) && y.deliveryPersonId == Strip(x.deliveryPersonId)
    requires y.traffic == Strip(x.traffic) && y.orderType == Strip(x.orderType)
    requires y.vehicleType == Strip(x.vehicleType) && y.city == Strip(x.city) && y.festival == Strip(x.festival)
    ensures Complete(y)
    ensures Trimmed(y.id) && Trimmed(y.deliveryPersonId) && Trimmed(y.traffic) && Trimmed(y.orderType)
    ensures Trimmed(y.vehicleType) && Trimmed(y.city) && Trimmed(y.festival)
  {
    StrippedComplete(x, y);
  }

  /** Typed counts and stripped text hold no sentinel. */
  lemma StrippedComplete(x: Row, y: Row)
    requires !IsMissing(x, WeatherField)
    requires y.age.Int? && y.multipleDeliveries.Int? && y.weather == x.weather
    requires y.traffic == Strip(x.traffic) && y.city == Strip(x.city) && y.festival == Strip(x.festival)
    ensures Complete(y)
  {
    StrippedIsNotMissing(x.traffic);
    StrippedIsNotMissing(x.city);
    StrippedIsNotMissing(x.festival);
  }

  /** A row cleaned from a complete raw row satisfies the invariant. */
  lemma CleanedFromIsCleaned(x: Row, y: Row)
    requires IsRaw(x) && Complete(x) && CleanedFrom(x, y)
    ensures Cleaned(y)
  {
    CleanedText(x, y);
  }

  /** Every row `clean_code` returns satisfies the invariant; in particular no checked field is missing. */
  lemma CleanedTable(raw: seq<Row>)
    requires forall i :: 0 <= i < |raw| ==> IsRaw(raw[i])
    requires Clean(raw).Ok?
    ensures forall i :: 0 <= i < |Clean(raw).value| ==> Cleaned(Clean(raw).value[i])
  {
    CleanSpec(raw);
    var k := Keep(raw, Complete);
    KeepMembers(raw, Complete);
    forall i | 0 <= i < |Clean(raw).value| ensures Cleaned(Clean(raw).value[i]) {
      assert k[i] in k;
      CleanedFromIsCleaned(k[i], Clean(raw).value[i]);
    }
  }

  /** A cleaned row holds no sentinel, so no drop step removes it. */
  lemma CleanedDropFixed(y: Row, f: Field)
    requires Cleaned(y)
    ensures StepRow(y, DropMissing(f)) == Ok([y])
  {
  }

  /** Stripping text with no whitespace at its ends changes nothing. */
  lemma StrippedTrimmed(y: Row)
    requires Trimmed(y.id) && Trimmed(y.deliveryPersonId) && Trimmed(y.traffic) && Trimmed(y.orderType)
    requires Trimmed(y.vehicleType) && Trimmed(y.city) && Trimmed(y.festival)
    ensures Stripped(y) == y
  {
  }

  /** Coercing a cell that already holds an integer changes nothing. */
  lemma IntCellsFixed(y: Row)
    requires y.age.Int? && y.multipleDeliveries.Int?
    ensures StepRow(y, Convert(AgeToInt)) == Ok([y])
    ensures StepRow(y, Convert(MultipleDeliveriesToInt)) == Ok([y])
  {
    assert ConvertRow(y, AgeToInt) == Ok(y.(age := Int(y.age.n)));
    assert ConvertRow(y, MultipleDeliveriesToInt) == Ok(y.(multipleDeliveries := Int(y.multipleDeliveries.n)));
  }

  /** Coercing a cell that already holds a float, a timestamp or NaT changes nothing. */
  lemma FloatAndStampFixed(y: Row)
    requires y.rating.Float? && (y.orderDate.Stamp? || y.orderDate.NaT?)
    ensures StepRow(y, Convert(RatingToFloat)) == Ok([y])
    ensures StepRow(y, Convert(DateFromText)) == Ok([y])
  {
    assert ConvertRow(y, RatingToFloat) == Ok(y.(rating := Float(y.rating.literal)));
    assert ConvertRow(y, DateFromText) == Ok(y.(orderDate := y.orderDate));
  }

  /** Stripping a row whose text has no whitespace at its ends changes nothing. */
  lemma StripTextFixed(y: Row)
    requires Trimmed(y.id) && Trimmed(y.deliveryPersonId) && Trimmed(y.traffic) && Trimmed(y.orderType)
    requires Trimmed(y.vehicleType) && Trimmed(y.city) && Trimmed(y.festival)
    ensures StepRow(y, Convert(StripText)) == Ok([y])
  {
    StrippedTrimmed(y);
    assert ConvertRow(y, StripText) == Ok(Stripped(y));
  }

  /** Coercing an already coerced cell, or stripping trimmed text, changes nothing. */
  lemma CleanedConvertFixed(y: Row, c: Conversion)
    requires Cleaned(y) && c != SplitTimeTaken && c != TimeTakenToInt
    ensures StepRow(y, Convert(c)) == Ok([y])
  {
    if c == StripText {
      StripTextFixed(y);
    } else if c == AgeToInt || c == MultipleDeliveriesToInt {
      IntCellsFixed(y);
    } else {
      FloatAndStampFixed(y);
    }
  }

  /** Every step before the split leaves a cleaned row as it is. */
  lemma CleanedStepFixed(y: Row, k: nat)
    requires Cleaned(y) && k < 11
    ensures StepRow(y, Pipeline[k]) == Ok([y])
  {
    var s := Pipeline[k];
    assert s.Convert? ==> s.conversion != SplitTimeTaken && s.conversion != TimeTakenToInt;
    if s.DropMissing? {
      CleanedDropFixed(y, s.field);
    } else {
      CleanedConvertFixed(y, s.conversion);
    }
  }

  /**
   * `clean_code` cannot be run twice: on a non-empty cleaned table every
   * step up to the split leaves the rows alone, and the split then meets a
   * time taken that is already an integer.
   */
  lemma CleanNotIdempotent(u: seq<Row>)
    requires u != [] && forall i :: 0 <= i < |u| ==> Cleaned(u[i])
    ensures Clean(u) == Err(TimeTakenNotText)
  {
    assert Pipeline[0..] == Pipeline;
    for k := 0 to 11
      invariant Clean(u) == Run(u, Pipeline[k..])
    {
      CleanedTableFixed(u, k);
    }
    SplitRejectsCleaned(u);
    SplitAborts(u, TimeTakenNotText);
  }

  /** A step before the split passes a cleaned table on unchanged. */
  lemma CleanedTableFixed(u: seq<Row>, k: nat)
    requires k < 11 && forall i :: 0 <= i < |u| ==> Cleaned(u[i])
    ensures Run(u, Pipeline[k..]) == Run(u, Pipeline[k + 1..])
  {
    forall i | 0 <= i < |u| ensures StepRow(u[i], Pipeline[k]) == Ok([u[i]]) {
      CleanedStepFixed(u[i], k);
    }
    ApplyStepIdentity(u, Pipeline[k]);
    RunFrom(u, k);
  }

  /** The split raises on a time taken that is already an integer. */
  lemma SplitRejectsInt(x: Row)
    requires x.timeTaken.Int?
    ensures StepRow(x, Convert(SplitTimeTaken)) == Err(TimeTakenNotText)
  {
  }

  /** The split raises on a non-empty table whose time taken is already an integer. */
  lemma SplitRejectsCleaned(u: seq<Row>)
    requires u != [] && forall i :: 0 <= i < |u| ==> u[i].timeTaken.Int?
    ensures ApplyStep(u, Convert(SplitTimeTaken)) == Err(TimeTakenNotText)
  {
    forall i | 0 <= i < |u| ensures StepRow(u[i], Convert(SplitTimeTaken)) == Err(TimeTakenNotText) {
      SplitRejectsInt(u[i]);
    }
    ApplyStepAllFail(u, Convert(SplitTimeTaken), TimeTakenNotText);
  }

  /** When the split raises, so does the rest of the routine. */
  lemma SplitAborts(u: seq<Row>, e: CleanError)
    requires ApplyStep(u, Convert(SplitTimeTaken)) == Err(e)
    ensures Run(u, Pipeline[11..]) == Err(e)
  {
    RunFrom(u, 11);
  }
}
