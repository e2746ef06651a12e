/**
 * Concrete inputs and what the cleaning routine makes of them: single
 * values the coercions read, a malformed age, a two-row table, and a row
 * whose date is missing.
 */
module Scenarios {
  import opened Outcomes
  import opened Text
  import opened Dates
  import opened Tables
  import opened Orders
  import opened Views

  lemma Decimal24() ensures Decimal(24) == "24" { }
  lemma Decimal30() ensures Decimal(30) == "30" { }
  lemma Decimal29() ensures Decimal(29) == "29" { }

  /** The minutes after the separator become the integer time taken. */
  lemma TimeTakenExamples()
    ensures TimeTakenMinutes("(min) 24") == Some(24)
    ensures TimeTakenMinutes("(min) 7") == Some(7)
  {
    Decimal24();
    assert TimeSeparator + Decimal(24) == "(min) 24";
    TimeTakenRoundTrip(24);
    assert TimeSeparator + Decimal(7) == "(min) 7";
    TimeTakenRoundTrip(7);
  }

  /** Minutes written as a word are no number, so the time-taken coercion fails on them. */
  lemma TimeTakenRejectsWord()
    ensures TimeTakenMinutes("(min) abc") == None
  {
    assert "(min) abc" == "" + TimeSeparator + "abc";
    TimeTakenMinutesOf("", "abc");
    WordIsNotInt("abc", 0);
  }

  /** Whitespace around a traffic density is stripped. */
  lemma StripExample()
    ensures Strip(" Jam ") == "Jam"
  {
    var s := " Jam ";
    assert IsSpace(s[0]) && !IsSpace(s[1]) && !IsSpace(s[3]) && IsSpace(s[4]);
    StripRemovesSpace(s);
    StripSlice(s);
    assert Lead(s) == 1;
    assert |Strip(s)| == 3;
  }

  /** The sentinel without its trailing space, or a word, is a malformed age that aborts the pass. */
  lemma BadAgeExamples(raw: seq<Row>, i: nat)
    requires i < |raw| && (raw[i].age == Str("NaN") || raw[i].age == Str("abc"))
    ensures Clean(raw) == Err(BadAge)
  {
    SentinelIsNotInt();
    WordIsNotInt("abc", 0);
    BadAgeAborts(raw, i);
  }

  // ---------------------------------------------------------------------
  // A two-row table: one row without an age, one complete row

  /** A complete row as read from the file; the columns not listed may hold anything. */
  predicate ScenarioRow(x: Row)
  {
    && x.age == Str("29") && x.rating == Str("4.5") && x.orderDate == Str("11-02-2022")
    && x.multipleDeliveries == Str("1") && x.traffic == "Jam " && x.weather == "Sunny"
    && x.city == "Urban " && x.festival == "No" && x.timeTaken == Str("(min) 30") && x.weekOfYear.None?
  }

  /** "29" reads as 29, "1" as 1 and "(min) 30" as 30 minutes. */
  lemma TextValues()
    ensures ParseInt64("29") == Some(29) && ParseInt64("1") == Some(1)
    ensures TimeTakenMinutes("(min) 30") == Some(30)
  {
    AgeText();
    DeliveriesText();
    TimeText();
  }

  lemma AgeText()
    ensures ParseInt64("29") == Some(29)
  {
    Decimal29();
    DecimalRoundTrip(29);
  }

  lemma DeliveriesText()
    ensures ParseInt64("1") == Some(1)
  {
    DecimalRoundTrip(1);
  }

  lemma TimeText()
    ensures TimeTakenMinutes("(min) 30") == Some(30)
  {
    Decimal30();
    assert TimeSeparator + Decimal(30) == "(min) 30";
    TimeTakenRoundTrip(30);
  }

  /** The values read from the complete row. */
  lemma ScenarioValues(x: Row)
    requires ScenarioRow(x)
    ensures ParseInt64(x.age.s) == Some(29) && ParseInt64(x.multipleDeliveries.s) == Some(1)
    ensures TimeTakenMinutes(x.timeTaken.s) == Some(30)
  {
    TextValues();
  }

  lemma ScenarioRating(x: Row)
    requires ScenarioRow(x)
    ensures IsFloatText(x.rating.s)
  {
    var s := "4.5";
    assert Trimmed(s) by { assert !IsSpace(s[0]) && !IsSpace(s[2]); }
    assert LowerAscii(s) == s;
    assert IndexOf(s, 'e') == None by { assert 'e' !in s; }
    assert IndexOf(s, '.') == Some(1);
    assert s[..1] == "4" && s[2..] == "5";
    assert IsDigitRun("4") && IsDigitRun("5");
  }

  lemma ScenarioDate(x: Row)
    requires ScenarioRow(x)
    ensures ReadOrderDate(x.orderDate.s) == Some(Stamp(Date(2022, 2, 11)))
  {
    ParseOrderDateSecondExample();
    ReadOrderDateSpec(x.orderDate.s);
  }

  /** A single trailing space is stripped. */
  lemma TrailingSpace(s: string)
    requires s != [] && !IsSpace(s[0]) && !IsSpace(s[|s| - 1])
    ensures Strip(s + " ") == s
  {
    var t := s + " ";
    StripRemovesSpace(t);
    StripSlice(t);
    assert t[0] == s[0] && t[|s| - 1] == s[|s| - 1];
  }

  lemma ScenarioText(x: Row)
    requires ScenarioRow(x)
    ensures Strip(x.traffic) == "Jam" && Strip(x.city) == "Urban"
  {
    assert x.traffic == "Jam" + " " && x.city == "Urban" + " ";
    TrailingSpace("Jam");
    TrailingSpace("Urban");
  }

  /** The complete row gets through every coercion and is kept. */
  lemma ScenarioAdmissible(x: Row)
    requires ScenarioRow(x)
    ensures IsRaw(x) && Complete(x) && Admissible(x)
  {
    ScenarioValues(x);
    ScenarioRating(x);
    ScenarioDate(x);
  }

  /** What the routine makes of the complete row. */
  predicate ScenarioResult(y: Row)
  {
    && y.age == Int(29) && y.rating == Float("4.5") && y.orderDate == Stamp(Date(2022, 2, 11))
    && y.multipleDeliveries == Int(1) && y.traffic == "Jam" && y.city == "Urban" && y.timeTaken == Int(30)
  }

  lemma ScenarioCleaned(x: Row, y: Row)
    requires ScenarioRow(x) && CleanedFrom(x, y)
    ensures ScenarioResult(y)
  {
    ScenarioValues(x);
    ScenarioDate(x);
    ScenarioText(x);
  }

  lemma ScenarioOutcome(x: Row)
    requires ScenarioRow(x)
    ensures Through(x, Pipeline).Ok? && |Through(x, Pipeline).value| == 1
    ensures ScenarioResult(Through(x, Pipeline).value[0])
  {
    ScenarioAdmissible(x);
    ThroughPipeline(x);
    ScenarioCleaned(x, Through(x, Pipeline).value[0]);
  }

  /** A row without an age is dropped, whatever else it holds. */
  lemma NoAgeOutcome(x: Row)
    requires IsRaw(x) && x.age == Str(Missing)
    ensures Through(x, Pipeline) == Ok([])
  {
    ThroughPipeline(x);
  }

  /**
   * Of a row without an age and a complete row, the routine keeps exactly
   * the complete row, with its age, deliveries and time taken as integers,
   * its rating as a float, its date as a calendar day and its traffic and
   * city stripped.
   */
  lemma EndToEnd(x0: Row, x1: Row)
    requires IsRaw(x0) && x0.age == Str(Missing) && ScenarioRow(x1)
    ensures Clean([x0, x1]).Ok? && |Clean([x0, x1]).value| == 1
    ensures ScenarioResult(Clean([x0, x1]).value[0])
  {
    var raw := [x0, x1];
    NoAgeOutcome(x0);
    ScenarioOutcome(x1);
    RunRows(raw, Pipeline);
    assert raw[..1] == [x0] && [x0][..0] == [];
    assert Survivors([x0], Pipeline) == [];
  }

  // ---------------------------------------------------------------------
  // A complete row whose date is missing

  /** The complete row with the date text "NaN" comes through the routine, its date NaT. */
  lemma UndatedRow(x: Row)
    requires ScenarioRow(x)
    ensures Through(x.(orderDate := Str("NaN")), Pipeline).Ok?
    ensures |Through(x.(orderDate := Str("NaN")), Pipeline).value| == 1
    ensures Through(x.(orderDate := Str("NaN")), Pipeline).value[0].orderDate == NaT
  {
    var u := x.(orderDate := Str("NaN"));
    ScenarioValues(x);
    ScenarioRating(x);
    assert u.orderDate.s in NaTTexts;
    UndatedRowKept(u);
  }

  /** A table of one row is cleaned as that row on its own is. */
  lemma CleanSingle(u: Row)
    requires Through(u, Pipeline).Ok?
    ensures Clean([u]).Ok? && Clean([u]).value == Through(u, Pipeline).value
  {
    RunRows([u], Pipeline);
    assert Survivors([u], Pipeline) == Through(u, Pipeline).value by { assert [u][..0] == []; }
  }

  /**
   * The complete row with the date text "NaN": the routine keeps it with
   * NaT as its date, and the date filter of every page then drops it.
   */
  lemma UndatedOutcome(x: Row, cutoff: Date, traffic: seq<string>, weather: seq<string>)
    requires ScenarioRow(x)
    ensures Clean([x.(orderDate := Str("NaN"))]).Ok?
    ensures |Clean([x.(orderDate := Str("NaN"))]).value| == 1
    ensures Clean([x.(orderDate := Str("NaN"))]).value[0].orderDate == NaT
    ensures CompanyFilters(Clean([x.(orderDate := Str("NaN"))]).value, cutoff, traffic) == []
    ensures DeliveryFilters(Clean([x.(orderDate := Str("NaN"))]).value, cutoff, traffic, weather) == []
  {
    var u := x.(orderDate := Str("NaN"));
    UndatedRow(x);
    CleanSingle(u);
    var t := Clean([u]).value;
    assert t == [t[0]];
    UndatedFilteredOut(t, cutoff, traffic, weather);
    KeepMembers(t, DateAndTraffic(cutoff, traffic));
    KeepMembers(t, DateTrafficAndWeather(cutoff, traffic, weather));
  }
}
