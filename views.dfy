/**
 * What the pages compute from the cleaned table: the sidebar filters, the
 * order counts of the company page, the deliverer rankings and the age and
 * vehicle-condition extremes of the deliverers page, and the festival
 * delivery times of the restaurants page.
 */
module Views {
  import opened Outcomes
  import opened Text
  import opened Dates
  import opened Tables
  import opened Orders

  // ---------------------------------------------------------------------
  // Sidebar filters

  /** Every row holds a calendar day in its date column, as every row the date filter lets through does. */
  predicate Dated(t: seq<Row>)
  {
    forall x :: x in t ==> x.orderDate.Stamp? && IsValid(x.orderDate.date)
  }

  /** The mask `df1['Order_Date'] < date_slider` for a slider set to midnight of `cutoff`. */
  function OrderedBefore(cutoff: Date): Row -> bool
  {
    (x: Row) => x.orderDate.Stamp? && Before(x.orderDate.date, cutoff)
  }

  /** The mask `df1['Road_traffic_density'].isin(options)`. */
  function TrafficIn(options: seq<string>): Row -> bool
  {
    (x: Row) => x.traffic in options
  }

  /** The mask `df1['Weatherconditions'].isin(options)`. */
  function WeatherIn(options: seq<string>): Row -> bool
  {
    (x: Row) => x.weather in options
  }

  function DateAndTraffic(cutoff: Date, traffic: seq<string>): Row -> bool
  {
    (x: Row) => OrderedBefore(cutoff)(x) && x.traffic in traffic
  }

  function DateTrafficAndWeather(cutoff: Date, traffic: seq<string>, weather: seq<string>): Row -> bool
  {
    (x: Row) => OrderedBefore(cutoff)(x) && x.traffic in traffic && x.weather in weather
  }

  /**
   * The company page's filters, the date mask and then the traffic mask: the
   * rows kept are exactly the rows ordered before the cutoff whose traffic
   * density is one of the chosen ones, in their original order.
   */
  function CompanyFilters(t: seq<Row>, cutoff: Date, traffic: seq<string>): (r: seq<Row>)
    ensures r == Keep(t, DateAndTraffic(cutoff, traffic))
    ensures IsSubsequence(r, t)
    ensures forall x :: x in r <==> x in t && OrderedBefore(cutoff)(x) && x.traffic in traffic
  {
    KeepKeep(t, OrderedBefore(cutoff), TrafficIn(traffic), DateAndTraffic(cutoff, traffic));
    KeepIsSubsequence(t, DateAndTraffic(cutoff, traffic));
    KeepMembers(t, DateAndTraffic(cutoff, traffic));
    Keep(Keep(t, OrderedBefore(cutoff)), TrafficIn(traffic))
  }

  /**
   * The deliverers and restaurants pages' filters, date, traffic and weather
   * masks one after another: the rows kept are exactly the rows that pass
   * all three, in their original order, so the order of the masks does not
   * matter.
   */
  function DeliveryFilters(t: seq<Row>, cutoff: Date, traffic: seq<string>, weather: seq<string>): (r: seq<Row>)
    ensures r == Keep(t, DateTrafficAndWeather(cutoff, traffic, weather))
    ensures IsSubsequence(r, t)
    ensures forall x :: x in r <==> x in t && OrderedBefore(cutoff)(x) && x.traffic in traffic && x.weather in weather
  {
    var both := DateAndTraffic(cutoff, traffic);
    var all := DateTrafficAndWeather(cutoff, traffic, weather);
    KeepKeep(t, OrderedBefore(cutoff), TrafficIn(traffic), both);
    KeepKeep(t, both, WeatherIn(weather), all);
    KeepIsSubsequence(t, all);
    KeepMembers(t, all);
    Keep(Keep(Keep(t, OrderedBefore(cutoff)), TrafficIn(traffic)), WeatherIn(weather))
  }

  /** The company page's selection is the other pages' selection without the weather mask. */
  lemma CompanyIgnoresWeather(t: seq<Row>, cutoff: Date, traffic: seq<string>, weather: seq<string>)
    ensures DeliveryFilters(t, cutoff, traffic, weather) == Keep(CompanyFilters(t, cutoff, traffic), WeatherIn(weather))
    ensures forall x :: x in t && x.weather !in weather && DateAndTraffic(cutoff, traffic)(x) ==>
      x in CompanyFilters(t, cutoff, traffic) && x !in DeliveryFilters(t, cutoff, traffic, weather)
  {
    KeepKeep(t, DateAndTraffic(cutoff, traffic), WeatherIn(weather), DateTrafficAndWeather(cutoff, traffic, weather));
  }

  /** Every row ordered on or after the cutoff is filtered out, whatever the other choices. */
  lemma NothingFromCutoffOn(t: seq<Row>, cutoff: Date, traffic: seq<string>, weather: seq<string>)
    requires Dated(t)
    ensures forall x :: x in DeliveryFilters(t, cutoff, traffic, weather) ==> Before(x.orderDate.date, cutoff)
    ensures forall x :: x in CompanyFilters(t, cutoff, traffic) ==> Before(x.orderDate.date, cutoff)
    ensures forall x :: x in t && !Before(x.orderDate.date, cutoff) ==>
      x !in CompanyFilters(t, cutoff, traffic) && x !in DeliveryFilters(t, cutoff, traffic, weather)
  {
  }

  /** A row whose date is NaT compares false with the cutoff, so every page's filters drop it. */
  lemma UndatedFilteredOut(t: seq<Row>, cutoff: Date, traffic: seq<string>, weather: seq<string>)
    ensures forall x :: x in t && x.orderDate.NaT? ==>
      x !in CompanyFilters(t, cutoff, traffic) && x !in DeliveryFilters(t, cutoff, traffic, weather)
  {
  }

  /**
   * Whatever else the cleaned date column holds, the rows the date filter
   * lets through hold calendar days, so the counts that read the dates
   * are defined on them.
   */
  lemma FilteredIsDated(t: seq<Row>, cutoff: Date, traffic: seq<string>, weather: seq<string>)
    requires forall x :: x in t ==> x.orderDate.Stamp? ==> IsValid(x.orderDate.date)
    ensures Dated(CompanyFilters(t, cutoff, traffic)) && Dated(DeliveryFilters(t, cutoff, traffic, weather))
  {
  }

  /** A selection of a dated table is dated. */
  lemma KeepDated(t: seq<Row>, p: Row -> bool)
    requires Dated(t)
    ensures Dated(Keep(t, p))
  {
    KeepMembers(t, p);
  }

  // ---------------------------------------------------------------------
  // Order counts of the company page

  /** The `Order_Date` column as calendar days. */
  function Days(t: seq<Row>): seq<Date>
    requires Dated(t)
  {
    seq(|t|, i requires 0 <= i < |t| => t[i].orderDate.date)
  }

  /**
   * `order_metric`: the number of orders per day. Each day that occurs has
   * exactly one group, no other day has one, each group counts the rows of
   * its day, and the counts add up to the number of rows.
   */
  function OrdersPerDay(t: seq<Row>): (r: seq<Group<Date>>)
    requires Dated(t)
    ensures DistinctKeys(r) && Total(r) == |t|
    ensures forall d :: d in GroupKeys(r) <==> d in Days(t)
    ensures forall i :: 0 <= i < |r| ==> r[i].size == multiset(Days(t))[r[i].key] && r[i].size > 0
  {
    CountByCorrect(Days(t));
    CountBy(Days(t))
  }

  /** The city and traffic density of every row. */
  function CitiesAndTraffic(t: seq<Row>): seq<(string, string)>
  {
    seq(|t|, i requires 0 <= i < |t| => (t[i].city, t[i].traffic))
  }

  /** `traffic_order_city`: the number of orders per pair of city and traffic density. */
  function OrdersPerCityAndTraffic(t: seq<Row>): (r: seq<Group<(string, string)>>)
    ensures DistinctKeys(r) && Total(r) == |t|
    ensures forall k :: k in GroupKeys(r) <==> k in CitiesAndTraffic(t)
    ensures forall i :: 0 <= i < |r| ==> r[i].size == multiset(CitiesAndTraffic(t))[r[i].key] && r[i].size > 0
  {
    CountByCorrect(CitiesAndTraffic(t));
    CountBy(CitiesAndTraffic(t))
  }

  /** The traffic density of every row. */
  function TrafficColumn(t: seq<Row>): seq<string>
  {
    seq(|t|, i requires 0 <= i < |t| => t[i].traffic)
  }

  /**
   * The counts of `traffic_order_share`, the number of orders per traffic
   * density; their sum, the denominator of the shares, is the number of rows.
   */
  function OrdersPerTraffic(t: seq<Row>): (r: seq<Group<string>>)
    ensures DistinctKeys(r) && Total(r) == |t|
    ensures forall k :: k in GroupKeys(r) <==> k in TrafficColumn(t)
    ensures forall i :: 0 <= i < |r| ==> r[i].size == multiset(TrafficColumn(t))[r[i].key] && r[i].size > 0
  {
    CountByCorrect(TrafficColumn(t));
    CountBy(TrafficColumn(t))
  }

  /** The bubbles of one traffic density in `traffic_order_city`. */
  function OfTraffic(traffic: string): ((string, string)) -> bool
  {
    (k: (string, string)) => k.1 == traffic
  }

  /** The slice of one traffic density in `traffic_order_share`. */
  function IsTraffic(traffic: string): string -> bool
  {
    (k: string) => k == traffic
  }

  /**
   * The city and traffic counts of one density add up to that density's
   * count, and both are the number of orders with that density.
   */
  lemma CityCountsAddUp(t: seq<Row>, traffic: string)
    ensures TotalWhere(OrdersPerCityAndTraffic(t), OfTraffic(traffic)) == |Keep(t, TrafficIn([traffic]))|
    ensures TotalWhere(OrdersPerTraffic(t), IsTraffic(traffic)) == |Keep(t, TrafficIn([traffic]))|
  {
    CountByWhere(CitiesAndTraffic(t), OfTraffic(traffic));
    CountByWhere(TrafficColumn(t), IsTraffic(traffic));
    SameRows(t, traffic);
  }

  lemma {:induction false} SameRows(t: seq<Row>, traffic: string)
    ensures |Keep(CitiesAndTraffic(t), OfTraffic(traffic))| == |Keep(t, TrafficIn([traffic]))|
    ensures |Keep(TrafficColumn(t), IsTraffic(traffic))| == |Keep(t, TrafficIn([traffic]))|
  {
    if t != [] {
      var init := t[..|t| - 1];
      SameRows(init, traffic);
      assert CitiesAndTraffic(t)[..|t| - 1] == CitiesAndTraffic(init);
      assert TrafficColumn(t)[..|t| - 1] == TrafficColumn(init);
    }
  }

  // ---------------------------------------------------------------------
  // Orders per week

  /** The week column `Order_Date.dt.strftime('%U')` added to every row. */
  function WithWeek(t: seq<Row>): (r: seq<Row>)
    requires Dated(t)
    ensures |r| == |t|
    ensures forall i :: 0 <= i < |t| ==> r[i] == t[i].(weekOfYear := Some(WeekLabel(t[i].orderDate.date)))
  {
    seq(|t|, i requires 0 <= i < |t| => t[i].(weekOfYear := Some(WeekLabel(t[i].orderDate.date))))
  }

  /** Every row holds a week label. */
  predicate Weekly(t: seq<Row>)
  {
    forall x :: x in t ==> x.weekOfYear.Some?
  }

  /** The `week_of_year` column. */
  function Weeks(t: seq<Row>): seq<string>
    requires Weekly(t)
  {
    seq(|t|, i requires 0 <= i < |t| => t[i].weekOfYear.value)
  }

  /** The week labels the dates of the rows fall in. */
  function WeeksOfDays(t: seq<Row>): seq<string>
    requires Dated(t)
  {
    seq(|t|, i requires 0 <= i < |t| => WeekLabel(t[i].orderDate.date))
  }

  /** `order_by_week`'s count: the number of orders per value of the week column. */
  function OrdersPerWeek(t: seq<Row>): (r: seq<Group<string>>)
    requires Weekly(t)
    ensures DistinctKeys(r) && Total(r) == |t|
    ensures forall w :: w in GroupKeys(r) <==> w in Weeks(t)
    ensures forall i :: 0 <= i < |r| ==> r[i].size == multiset(Weeks(t))[r[i].key] && r[i].size > 0
  {
    CountByCorrect(Weeks(t));
    CountBy(Weeks(t))
  }

  /**
   * After the week column is added, the weekly count has one group per week
   * in which some order falls, labelled by the two-digit `%U` number, holding
   * the number of orders of that week.
   */
  lemma WeekCounts(t: seq<Row>)
    requires Dated(t)
    ensures Weekly(WithWeek(t))
    ensures var r := OrdersPerWeek(WithWeek(t));
      && Total(r) == |t|
      && (forall w :: w in GroupKeys(r) <==> w in WeeksOfDays(t))
      && (forall i :: 0 <= i < |r| ==> r[i].size == multiset(WeeksOfDays(t))[r[i].key])
      && (forall i :: 0 <= i < |r| ==> |r[i].key| == 2 && AllDigits(r[i].key) && 0 <= RunValue(r[i].key) <= 53)
  {
    var u := WithWeek(t);
    assert Weeks(u) == WeeksOfDays(t);
    WeekLabels(t);
  }

  /** Every label of the week column is a two-digit `%U` number. */
  lemma WeekLabels(t: seq<Row>)
    requires Dated(t)
    ensures forall w :: w in WeeksOfDays(t) ==> |w| == 2 && AllDigits(w) && 0 <= RunValue(w) <= 53
  {
    forall w | w in WeeksOfDays(t) ensures |w| == 2 && AllDigits(w) && 0 <= RunValue(w) <= 53 {
      var k :| 0 <= k < |t| && WeeksOfDays(t)[k] == w;
      assert t[k] in t;
    }
  }

  // ---------------------------------------------------------------------
  // Age and vehicle condition extremes of the deliverers page

  /** Every row holds an integer age, as every row of a cleaned table does. */
  predicate Aged(t: seq<Row>)
  {
    forall x :: x in t ==> x.age.Int?
  }

  function Ages(t: seq<Row>): seq<int>
    requires Aged(t)
  {
    seq(|t|, i requires 0 <= i < |t| => t[i].age.n)
  }

  function Conditions(t: seq<Row>): seq<int>
  {
    seq(|t|, i requires 0 <= i < |t| => t[i].vehicleCondition)
  }

  /** `Delivery_person_Age.max()`: the age of some row, at least every row's age; none for no rows. */
  function OldestAge(t: seq<Row>): (r: Option<int>)
    requires Aged(t)
    ensures r.Some? <==> t != []
    ensures r.Some? ==> exists i :: 0 <= i < |t| && t[i].age == Int(r.value)
    ensures r.Some? ==> forall i :: 0 <= i < |t| ==> t[i].age.n <= r.value
  {
    var r := MaxOf(Ages(t));
    assert forall i :: 0 <= i < |t| ==> Ages(t)[i] == t[i].age.n;
    assert r.Some? ==> exists i :: 0 <= i < |t| && t[i].age == Int(r.value) by {
      if r.Some? {
        var i :| 0 <= i < |t| && Ages(t)[i] == r.value;
        assert t[i] in t;
      }
    }
    r
  }

  /** `Delivery_person_Age.min()`: the age of some row, at most every row's age; none for no rows. */
  function YoungestAge(t: seq<Row>): (r: Option<int>)
    requires Aged(t)
    ensures r.Some? <==> t != []
    ensures r.Some? ==> exists i :: 0 <= i < |t| && t[i].age == Int(r.value)
    ensures r.Some? ==> forall i :: 0 <= i < |t| ==> r.value <= t[i].age.n
  {
    var r := MinOf(Ages(t));
    assert forall i :: 0 <= i < |t| ==> Ages(t)[i] == t[i].age.n;
    assert r.Some? ==> exists i :: 0 <= i < |t| && t[i].age == Int(r.value) by {
      if r.Some? {
        var i :| 0 <= i < |t| && Ages(t)[i] == r.value;
        assert t[i] in t;
      }
    }
    r
  }

  /** `Vehicle_condition.max()`: the best condition of any row; none for no rows. */
  function BestCondition(t: seq<Row>): (r: Option<int>)
    ensures r.Some? <==> t != []
    ensures r.Some? ==> exists i :: 0 <= i < |t| && t[i].vehicleCondition == r.value
    ensures r.Some? ==> forall i :: 0 <= i < |t| ==> t[i].vehicleCondition <= r.value
  {
    assert forall i :: 0 <= i < |t| ==> Conditions(t)[i] == t[i].vehicleCondition;
    MaxOf(Conditions(t))
  }

  /** `Vehicle_condition.min()`: the worst condition of any row; none for no rows. */
  function WorstCondition(t: seq<Row>): (r: Option<int>)
    ensures r.Some? <==> t != []
    ensures r.Some? ==> exists i :: 0 <= i < |t| && t[i].vehicleCondition == r.value
    ensures r.Some? ==> forall i :: 0 <= i < |t| ==> r.value <= t[i].vehicleCondition
  {
    assert forall i :: 0 <= i < |t| ==> Conditions(t)[i] == t[i].vehicleCondition;
    MinOf(Conditions(t))
  }

  /** On a non-empty selection the youngest age is at most the oldest, and likewise for the conditions. */
  lemma ExtremesOrdered(t: seq<Row>)
    requires Aged(t) && t != []
    ensures YoungestAge(t).value <= OldestAge(t).value
    ensures WorstCondition(t).value <= BestCondition(t).value
  {
    MinAtMostMax(Ages(t));
    MinAtMostMax(Conditions(t));
  }

  // ---------------------------------------------------------------------
  // Top deliverers per city

  /**
   * One row of the per-deliverer table of `top_delivers`: a city, a
   * deliverer and the deliverer's mean time taken in that city.
   */
  datatype Deliverer = Deliverer(city: string, deliveryPersonId: string, meanTime: real)

  /** The cities whose first rows are shown, in the order they are concatenated. */
  const Cities: seq<string> := ["Metropolitian", "Urban", "Semi-Urban"]

  /** The number of rows shown per city. */
  const TopCount: nat := 10

  function InCity(c: string): Deliverer -> bool
  {
    (d: Deliverer) => d.city == c
  }

  /** The first `TopCount` rows of city `c`, in ranking order. */
  function CityHead(ranked: seq<Deliverer>, c: string): seq<Deliverer>
  {
    Head(Keep(ranked, InCity(c)), TopCount)
  }

  /**
   * `top_delivers` after the ranking: the first ten rows of each of the three
   * cities, concatenated. Every row shown is a ranked row of one of those cities.
   */
  function TopDelivers(ranked: seq<Deliverer>): (r: seq<Deliverer>)
    ensures |r| <= |Cities| * TopCount
    ensures forall d :: d in r ==> d in ranked && d.city in Cities
  {
    KeepMembers(ranked, InCity(Cities[0]));
    KeepMembers(ranked, InCity(Cities[1]));
    KeepMembers(ranked, InCity(Cities[2]));
    CityHead(ranked, Cities[0]) + CityHead(ranked, Cities[1]) + CityHead(ranked, Cities[2])
  }

  lemma CityHeadInCity(ranked: seq<Deliverer>, c: string)
    ensures forall i :: 0 <= i < |CityHead(ranked, c)| ==> CityHead(ranked, c)[i].city == c
  {
    var k := Keep(ranked, InCity(c));
    KeepMembers(ranked, InCity(c));
    forall i | 0 <= i < |CityHead(ranked, c)| ensures CityHead(ranked, c)[i].city == c {
      assert CityHead(ranked, c)[i] == k[i] && k[i] in k;
    }
  }

  /**
   * The rows of city `c` in the result are the first ten rows of that city in
   * the ranking (all of them when it has fewer), in ranking order.
   */
  lemma TopDeliversPerCity(ranked: seq<Deliverer>, c: string)
    requires c in Cities
    ensures Keep(TopDelivers(ranked), InCity(c)) == CityHead(ranked, c)
    ensures |Keep(TopDelivers(ranked), InCity(c))| == if |Keep(ranked, InCity(c))| < TopCount then |Keep(ranked, InCity(c))| else TopCount
  {
    CityHeadInCity(ranked, Cities[0]);
    CityHeadInCity(ranked, Cities[1]);
    CityHeadInCity(ranked, Cities[2]);
    assert |Cities[0]| == 13 && |Cities[1]| == 5 && |Cities[2]| == 10;
    SelectBlock(CityHead(ranked, Cities[0]), CityHead(ranked, Cities[1]), CityHead(ranked, Cities[2]),
      Cities[0], Cities[1], Cities[2], c);
  }

  /** Of three blocks of three different cities, selecting one city gives its block. */
  lemma SelectBlock(h0: seq<Deliverer>, h1: seq<Deliverer>, h2: seq<Deliverer>, c0: string, c1: string, c2: string, c: string)
    requires c0 != c1 && c1 != c2 && c0 != c2 && (c == c0 || c == c1 || c == c2)
    requires forall i :: 0 <= i < |h0| ==> h0[i].city == c0
    requires forall i :: 0 <= i < |h1| ==> h1[i].city == c1
    requires forall i :: 0 <= i < |h2| ==> h2[i].city == c2
    ensures Keep(h0 + h1 + h2, InCity(c)) == if c == c0 then h0 else if c == c1 then h1 else h2
  {
    ThreeBlocks(h0, h1, h2, InCity(c));
    if c == c0 {
      KeepAll(h0, InCity(c)); KeepNone(h1, InCity(c)); KeepNone(h2, InCity(c));
      assert h0 + [] + [] == h0;
    } else if c == c1 {
      KeepNone(h0, InCity(c)); KeepAll(h1, InCity(c)); KeepNone(h2, InCity(c));
      assert [] + h1 + [] == h1;
    } else {
      KeepNone(h0, InCity(c)); KeepNone(h1, InCity(c)); KeepAll(h2, InCity(c));
      assert [] + [] + h2 == h2;
    }
  }

  lemma ThreeBlocks<T>(a: seq<T>, b: seq<T>, c: seq<T>, p: T -> bool)
    ensures Keep(a + b + c, p) == Keep(a, p) + Keep(b, p) + Keep(c, p)
  {
    KeepAppend(a + b, c, p);
    KeepAppend(a, b, p);
  }

  /** The result lists the Metropolitian rows, then the Urban rows, then the Semi-Urban rows. */
  lemma TopDeliversCityOrder(ranked: seq<Deliverer>)
    ensures TopDelivers(ranked) ==
      Keep(TopDelivers(ranked), InCity(Cities[0])) + Keep(TopDelivers(ranked), InCity(Cities[1]))
      + Keep(TopDelivers(ranked), InCity(Cities[2]))
  {
    TopDeliversPerCity(ranked, Cities[0]);
    TopDeliversPerCity(ranked, Cities[1]);
    TopDeliversPerCity(ranked, Cities[2]);
  }

  /** Python's `<` on strings: code point by code point, a proper prefix first. */
  predicate LexLess(a: string, b: string)
    decreases |a|
  {
    b != [] && (a == [] || a[0] < b[0] || (a[0] == b[0] && LexLess(a[1..], b[1..])))
  }

  /** The sort key as written: deliverer identifier first, mean time only between equal identifiers. */
  predicate IdThenTime(a: Deliverer, b: Deliverer)
  {
    LexLess(a.deliveryPersonId, b.deliveryPersonId) || (a.deliveryPersonId == b.deliveryPersonId && a.meanTime <= b.meanTime)
  }

  /** `sort_values(['Delivery_person_ID', 'Time_taken(min)'], ascending=top_asc)`. */
  predicate RankedAsWritten(ranked: seq<Deliverer>, ascending: bool)
  {
    forall i, j :: 0 <= i < j < |ranked| ==>
      if ascending then IdThenTime(ranked[i], ranked[j]) else IdThenTime(ranked[j], ranked[i])
  }

  /** `a` may come before `b` in a ranking by mean time: faster first when ascending, slower first otherwise. */
  predicate TimeFirst(a: Deliverer, b: Deliverer, ascending: bool)
  {
    if ascending then a.meanTime <= b.meanTime else b.meanTime <= a.meanTime
  }

  /** A ranking by mean time alone, as the tables' titles (fastest, slowest) call for. */
  predicate RankedByTime(ranked: seq<Deliverer>, ascending: bool)
  {
    forall i, j :: 0 <= i < j < |ranked| ==> TimeFirst(ranked[i], ranked[j], ascending)
  }

  /**
   * On a ranking by mean time, each city's rows shown are its fastest (or, when
   * descending, slowest): every row shown of city `c` has a mean time at least
   * as good as every row of `c` left out.
   */
  lemma TopDeliversByTime(ranked: seq<Deliverer>, ascending: bool, c: string)
    requires c in Cities && RankedByTime(ranked, ascending)
    ensures var shown, all := Keep(TopDelivers(ranked), InCity(c)), Keep(ranked, InCity(c));
      forall i, j :: 0 <= i < |shown| <= j < |all| ==> TimeFirst(shown[i], all[j], ascending)
  {
    TopDeliversPerCity(ranked, c);
    KeepKeepsOrder(ranked, InCity(c), (a, b) => TimeFirst(a, b, ascending));
  }

  /**
   * Eleven Metropolitian deliverers `a` to `k`, each with a one-letter
   * identifier; the last one is the fastest.
   */
  function IdOrderSample(): (s: seq<Deliverer>)
    ensures |s| == 11
  {
    seq(11, i requires 0 <= i < 11 => Deliverer("Metropolitian", [(97 + i) as char], if i == 10 then 1.0 else 50.0))
  }

  /**
   * The ranking as written is by identifier, so the fastest deliverer of a
   * city is left out of the "fastest" table when ten identifiers of that city
   * sort before it.
   */
  lemma AsWrittenMissesFastest()
    ensures var s := IdOrderSample();
      && RankedAsWritten(s, true)
      && s[10] !in TopDelivers(s)
      && forall d :: d in TopDelivers(s) ==> s[10].meanTime < d.meanTime
  {
    var s := IdOrderSample();
    SampleRankedAsWritten();
    SampleTop();
    forall d | d in s[..10] ensures d != s[10] && s[10].meanTime < d.meanTime {
      var i :| 0 <= i < 10 && s[..10][i] == d;
      assert d.deliveryPersonId[0] != s[10].deliveryPersonId[0];
    }
  }

  lemma SampleRankedAsWritten()
    ensures RankedAsWritten(IdOrderSample(), true)
  {
    var s := IdOrderSample();
    forall i, j | 0 <= i < j < |s| ensures IdThenTime(s[i], s[j]) {
      assert LexLess(s[i].deliveryPersonId, s[j].deliveryPersonId);
    }
  }

  /** All eleven sample rows are Metropolitian, so the table shows the first ten. */
  lemma SampleTop()
    ensures TopDelivers(IdOrderSample()) == IdOrderSample()[..10]
  {
    var s := IdOrderSample();
    assert forall i :: 0 <= i < |s| ==> s[i].city == Cities[0];
    assert |Cities[0]| == 13 && |Cities[1]| == 5 && |Cities[2]| == 10;
    KeepAll(s, InCity(Cities[0]));
    KeepNone(s, InCity(Cities[1]));
    KeepNone(s, InCity(Cities[2]));
  }

  // ---------------------------------------------------------------------
  // Delivery times with and without a festival

  function OnFestival(festival: string): Row -> bool
  {
    (x: Row) => x.festival == festival
  }

  /** Every row holds an integer time taken, as every row of a cleaned table does. */
  predicate Timed(t: seq<Row>)
  {
    forall x :: x in t ==> x.timeTaken.Int?
  }

  /** The minutes of a row's time taken; every row of a cleaned table holds an integer there. */
  function MinutesOf(x: Row): int
  {
    if x.timeTaken.Int? then x.timeTaken.n else 0
  }

  /** The `Time_taken(min)` column. */
  function Minutes(t: seq<Row>): seq<int>
  {
    if t == [] then [] else Minutes(t[..|t| - 1]) + [MinutesOf(t[|t| - 1])]
  }

  lemma {:induction false} MinutesAt(t: seq<Row>)
    ensures |Minutes(t)| == |t| && forall i :: 0 <= i < |t| ==> Minutes(t)[i] == MinutesOf(t[i])
  {
    if t != [] {
      MinutesAt(t[..|t| - 1]);
    }
  }

  /**
   * The times taken of the `festival` group of `groupby('Festival')`, the
   * sample whose mean and standard deviation `avg_std_time_festival` shows:
   * a time is in it exactly when some row of that festival value took it,
   * and as often as such rows took it.
   */
  function FestivalTimes(t: seq<Row>, festival: string): (r: seq<int>)
    requires Timed(t)
    ensures |r| == |Keep(t, OnFestival(festival))|
    ensures forall n :: n in r <==> exists x :: x in t && x.festival == festival && x.timeTaken == Int(n)
    ensures forall n :: multiset(r)[n] == |Keep(t, FestivalTook(festival, n))|
  {
    var k := Keep(t, OnFestival(festival));
    KeepMembers(t, OnFestival(festival));
    var r := Minutes(k);
    MinutesAt(k);
    FestivalCounts(t, festival);
    assert forall n :: n in r <==> exists x :: x in t && x.festival == festival && x.timeTaken == Int(n) by {
      forall n ensures n in r <==> exists x :: x in t && x.festival == festival && x.timeTaken == Int(n) {
        if n in r {
          var i :| 0 <= i < |r| && r[i] == n;
          assert k[i] in k;
        }
        if x :| x in t && x.festival == festival && x.timeTaken == Int(n) {
          assert x in k;
          var i :| 0 <= i < |k| && k[i] == x;
          assert r[i] == n;
        }
      }
    }
    r
  }

  /** The row's time taken is `n` minutes. */
  function TookMinutes(n: int): Row -> bool
  {
    (x: Row) => x.timeTaken == Int(n)
  }

  /** The row has festival value `festival` and took `n` minutes. */
  function FestivalTook(festival: string, n: int): Row -> bool
  {
    (x: Row) => x.festival == festival && x.timeTaken == Int(n)
  }

  /** On a table of integer times, each time occurs in the column as often as rows took it. */
  lemma {:induction false} MinutesCount(t: seq<Row>, n: int)
    requires Timed(t)
    ensures multiset(Minutes(t))[n] == |Keep(t, TookMinutes(n))|
  {
    if t != [] {
      var init, last := t[..|t| - 1], t[|t| - 1];
      assert Timed(init) by {
        forall x | x in init ensures x.timeTaken.Int? {
          var i :| 0 <= i < |init| && init[i] == x;
          assert x == t[i];
        }
      }
      MinutesCount(init, n);
      MinutesLast(t);
      assert last in t;
    }
  }

  /** Each time occurs in a festival group as often as rows of that festival value took it. */
  lemma FestivalCounts(t: seq<Row>, festival: string)
    requires Timed(t)
    ensures forall n :: multiset(Minutes(Keep(t, OnFestival(festival))))[n] == |Keep(t, FestivalTook(festival, n))|
  {
    var k := Keep(t, OnFestival(festival));
    KeepMembers(t, OnFestival(festival));
    forall n ensures multiset(Minutes(k))[n] == |Keep(t, FestivalTook(festival, n))| {
      MinutesCount(k, n);
      KeepKeep(t, OnFestival(festival), TookMinutes(n), FestivalTook(festival, n));
    }
  }

  /**
   * `avg_std_time_festival` as written selects the `'Yes'` group whatever
   * festival value it is asked for.
   */
  function FestivalTimesAsWritten(t: seq<Row>, festival: string): (r: seq<int>)
    requires Timed(t)
    ensures forall n :: n in r <==> exists x :: x in t && x.festival == "Yes" && x.timeTaken == Int(n)
  {
    FestivalTimes(t, "Yes")
  }

  /** Asked for the orders outside a festival, the function as written reports the festival orders' times. */
  lemma FestivalAsWrittenCounterexample(t: seq<Row>)
    requires |t| == 2
    requires t[0].festival == "Yes" && t[0].timeTaken == Int(10)
    requires t[1].festival == "No" && t[1].timeTaken == Int(40)
    ensures FestivalTimesAsWritten(t, "No") == [10]
    ensures FestivalTimes(t, "No") == [40]
  {
    assert t[..1] == [t[0]] && [t[0]][..0] == [];
    assert Keep(t, OnFestival("Yes")) == [t[0]];
    assert Keep(t, OnFestival("No")) == [t[1]];
    assert Minutes([t[0]]) == [10];
    assert Minutes([t[1]]) == [40];
  }

  /**
   * When every row is a festival order or not, the festival group and the
   * other group together hold every time taken, each as often as it occurs.
   */
  lemma FestivalPartition(t: seq<Row>)
    requires Timed(t)
    requires forall i :: 0 <= i < |t| ==> t[i].festival == "Yes" || t[i].festival == "No"
    ensures multiset(FestivalTimes(t, "Yes")) + multiset(FestivalTimes(t, "No")) == multiset(Minutes(t))
  {
    GroupsPartition(t, OnFestival("Yes"), OnFestival("No"));
  }

  /** Two selections that split every row between them split the times taken between them. */
  lemma {:induction false} GroupsPartition(t: seq<Row>, p: Row -> bool, q: Row -> bool)
    requires forall i :: 0 <= i < |t| ==> p(t[i]) != q(t[i])
    ensures multiset(Minutes(Keep(t, p))) + multiset(Minutes(Keep(t, q))) == multiset(Minutes(t))
  {
    if t != [] {
      var init, last := t[..|t| - 1], t[|t| - 1];
      GroupsPartition(init, p, q);
      MinutesLast(t);
      var kp, kq := Keep(init, p), Keep(init, q);
      var m := multiset{MinutesOf(last)};
      Shuffle(multiset(Minutes(kp)), multiset(Minutes(kq)), multiset(Minutes(init)), m);
      if p(last) {
        assert Keep(t, p) == kp + [last] && Keep(t, q) == kq;
        MinutesSnoc(kp, last);
      } else {
        assert Keep(t, p) == kp && Keep(t, q) == kq + [last];
        MinutesSnoc(kq, last);
      }
    }
  }

  /** The times of a table are those of all its rows but the last, and the last one's. */
  lemma MinutesLast(t: seq<Row>)
    requires t != []
    ensures multiset(Minutes(t)) == multiset(Minutes(t[..|t| - 1])) + multiset{MinutesOf(t[|t| - 1])}
  {
  }

  /** One more element on either side of a split of `whole` makes a split of `whole + m`. */
  lemma Shuffle(a: multiset<int>, b: multiset<int>, whole: multiset<int>, m: multiset<int>)
    requires a + b == whole
    ensures (a + m) + b == whole + m && a + (b + m) == whole + m
  {
  }

  lemma MinutesSnoc(t: seq<Row>, x: Row)
    ensures Minutes(t + [x]) == Minutes(t) + [MinutesOf(x)]
    ensures multiset(Minutes(t + [x])) == multiset(Minutes(t)) + multiset{MinutesOf(x)}
  {
    assert (t + [x])[..|t|] == t;
  }
}
