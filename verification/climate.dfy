/** Monthly climate: forecast samples grouped by month (`fetchMonthlyClimate`,
    app.js:302-333) and the good/bad/warn colouring of the month chips
    (`applyClimateClassification`, app.js:848-865). */
module Climate {
  import opened Wrappers
  import Seqs

  /** `Date.getMonth()`: 0 for January through 11 for December. */
  type MonthIndex = m: int | 0 <= m < 12

  /** `item.rain`, when present: the optional '3h' and '1h' amounts in mm. */
  datatype Rain = Rain(threeHour: Option<real>, oneHour: Option<real>)

  /** One forecast item, its month already derived from `dt`. */
  datatype Sample = Sample(month: MonthIndex, temp: real, humidity: real, rain: Option<Rain>)

  /** One entry of the returned `list`. */
  datatype ClimateMonth = ClimateMonth(month: MonthIndex, tempAverage: real, humidity: real, rain: real)

  /** JavaScript truthiness of an optional number: present and not zero. */
  predicate TruthyNumber(x: Option<real>) {
    x.Some? && x.value != 0.0
  }

  /** `(item.rain && (item.rain['3h'] || item.rain['1h'])) || 0`: the 3-hour
      amount when it is truthy, else the 1-hour amount when that is, else 0. */
  function RainAmount(r: Option<Rain>): (mm: real)
    ensures mm == 0.0 || (r.Some? && (Some(mm) == r.value.threeHour || Some(mm) == r.value.oneHour))
    ensures r.Some? && TruthyNumber(r.value.threeHour) ==> mm == r.value.threeHour.value
    ensures r.Some? && !TruthyNumber(r.value.threeHour) && TruthyNumber(r.value.oneHour) ==> mm == r.value.oneHour.value
    ensures r.None? || (!TruthyNumber(r.value.threeHour) && !TruthyNumber(r.value.oneHour)) ==> mm == 0.0
    ensures mm != 0.0 && r.Some? && r.value.threeHour != Some(mm) ==> !TruthyNumber(r.value.threeHour)
  {
    match r
    case None => 0.0
    case Some(x) =>
      if TruthyNumber(x.threeHour) then x.threeHour.value
      else if TruthyNumber(x.oneHour) then x.oneHour.value
      else 0.0
  }

  // ------------------------------------------------------------ reference reading

  /** The samples that fall in month `m`, in order. */
  function InMonth(samples: seq<Sample>, m: MonthIndex): seq<Sample> {
    if |samples| == 0 then []
    else
      var init := InMonth(samples[..|samples| - 1], m);
      var s := samples[|samples| - 1];
      if s.month == m then init + [s] else init
  }

  /** The month's samples are exactly the samples dated in that month. */
  lemma {:induction false} InMonthMembers(samples: seq<Sample>, m: MonthIndex)
    ensures forall x :: x in InMonth(samples, m) <==> x in samples && x.month == m
  {
    if |samples| > 0 {
      var s := samples[|samples| - 1];
      InMonthMembers(samples[..|samples| - 1], m);
      assert samples == samples[..|samples| - 1] + [s];
    }
  }

  /** `reduce((a, b) => a + b, 0)`: a left-to-right sum. */
  function Sum(xs: seq<real>): real {
    if |xs| == 0 then 0.0 else Sum(xs[..|xs| - 1]) + xs[|xs| - 1]
  }

  /** `xs.length ? sum / xs.length : 0`. */
  function Mean(xs: seq<real>): real {
    if |xs| == 0 then 0.0 else Sum(xs) / (|xs| as real)
  }

  function Temps(ss: seq<Sample>): seq<real> {
    seq(|ss|, i requires 0 <= i < |ss| => ss[i].temp)
  }

  function Humidities(ss: seq<Sample>): seq<real> {
    seq(|ss|, i requires 0 <= i < |ss| => ss[i].humidity)
  }

  function Rains(ss: seq<Sample>): seq<real> {
    seq(|ss|, i requires 0 <= i < |ss| => RainAmount(ss[i].rain))
  }

  predicate Present(samples: seq<Sample>, m: MonthIndex) {
    exists i :: 0 <= i < |samples| && samples[i].month == m
  }

  /** What the list says about month `m`: mean temperature and humidity of
      its samples, and the total (not the mean) of their rain. */
  function MonthOf(samples: seq<Sample>, m: MonthIndex): ClimateMonth {
    var f := InMonth(samples, m);
    ClimateMonth(m, Mean(Temps(f)), Mean(Humidities(f)), Sum(Rains(f)))
  }

  /** The entries for the months below `n` that have samples, ascending. */
  function MonthsBelow(samples: seq<Sample>, n: nat): (list: seq<ClimateMonth>)
    requires n <= 12
    ensures forall i :: 0 <= i < |list| ==> list[i].month < n && Present(samples, list[i].month)
    ensures forall i :: 0 <= i < |list| ==> list[i] == MonthOf(samples, list[i].month)
    ensures forall i, j :: 0 <= i < j < |list| ==> list[i].month < list[j].month
  {
    if n == 0 then []
    else
      var m: MonthIndex := n - 1;
      var below := MonthsBelow(samples, n - 1);
      if Present(samples, m) then
        var list := below + [MonthOf(samples, m)];
        assert forall i :: 0 <= i < |below| ==> list[i] == below[i];
        assert list[|below|].month == m;
        list
      else below
  }

  /** Month `m` has an entry in `list`. */
  predicate Listed(list: seq<ClimateMonth>, m: MonthIndex) {
    exists i :: 0 <= i < |list| && list[i].month == m
  }

  /** Every month below `n` that has samples is listed. */
  lemma {:induction false} MonthsBelowComplete(samples: seq<Sample>, n: nat, m: MonthIndex)
    requires n <= 12 && m < n && Present(samples, m)
    ensures Listed(MonthsBelow(samples, n), m)
  {
    var list := MonthsBelow(samples, n);
    var below := MonthsBelow(samples, n - 1);
    if m == n - 1 {
      assert list == below + [MonthOf(samples, m)];
      assert list[|below|].month == m;
    } else {
      MonthsBelowComplete(samples, n - 1, m);
      var i :| 0 <= i < |below| && below[i].month == m;
      if Present(samples, n - 1) {
        assert list == below + [MonthOf(samples, n - 1)];
      } else {
        assert list == below;
      }
      assert list[i] == below[i];
    }
  }

  lemma AllMonthsListed(samples: seq<Sample>)
    ensures forall m: MonthIndex :: Present(samples, m) ==> Listed(MonthsBelow(samples, 12), m)
  {
    forall m: MonthIndex | Present(samples, m)
      ensures Listed(MonthsBelow(samples, 12), m)
    {
      MonthsBelowComplete(samples, 12, m);
    }
  }

  /** The whole aggregation: exactly one entry per month that has samples, in
      ascending month order (`Object.keys` lists integer keys ascending). */
  function Aggregate(samples: seq<Sample>): (list: seq<ClimateMonth>)
    ensures |list| <= 12
    ensures forall i :: 0 <= i < |list| ==> Present(samples, list[i].month)
    ensures forall m: MonthIndex :: Present(samples, m) ==> Listed(list, m)
    ensures forall i, j :: 0 <= i < j < |list| ==> list[i].month < list[j].month
    ensures forall i :: 0 <= i < |list| ==> list[i] == MonthOf(samples, list[i].month)
  {
    var list := MonthsBelow(samples, 12);
    AscendingBound(list, 12);
    AllMonthsListed(samples);
    list
  }

  /** Strictly ascending months below `n` number at most `n`. */
  lemma {:induction false} AscendingBound(list: seq<ClimateMonth>, n: nat)
    requires forall i :: 0 <= i < |list| ==> list[i].month < n
    requires forall i, j :: 0 <= i < j < |list| ==> list[i].month < list[j].month
    ensures |list| <= n
  {
    if |list| > 0 {
      var last := list[|list| - 1].month;
      AscendingBound(list[..|list| - 1], last);
    }
  }

  /** A mean lies between the least and the greatest value averaged. */
  lemma {:induction false} SumBounds(xs: seq<real>, lo: real, hi: real)
    requires forall i :: 0 <= i < |xs| ==> lo <= xs[i] <= hi
    ensures (|xs| as real) * lo <= Sum(xs) <= (|xs| as real) * hi
  {
    if |xs| > 0 {
      SumBounds(xs[..|xs| - 1], lo, hi);
    }
  }

  lemma MeanBounds(xs: seq<real>, lo: real, hi: real)
    requires |xs| > 0
    requires forall i :: 0 <= i < |xs| ==> lo <= xs[i] <= hi
    ensures lo <= Mean(xs) <= hi
  {
    SumBounds(xs, lo, hi);
    var n := |xs| as real;
    assert Mean(xs) * n == Sum(xs);
  }

  /** If every sample of a month is within [lo, hi] degrees, so is the month's
      average temperature. */
  lemma AverageWithinSampleRange(samples: seq<Sample>, m: MonthIndex, lo: real, hi: real)
    requires Present(samples, m)
    requires forall i :: 0 <= i < |samples| && samples[i].month == m ==> lo <= samples[i].temp <= hi
    ensures lo <= MonthOf(samples, m).tempAverage <= hi
  {
    var f := InMonth(samples, m);
    InMonthMembers(samples, m);
    var k :| 0 <= k < |samples| && samples[k].month == m;
    assert samples[k] in f;
    forall i | 0 <= i < |f|
      ensures lo <= Temps(f)[i] <= hi
    {
      assert f[i] in samples;
    }
    MeanBounds(Temps(f), lo, hi);
  }

  // ------------------------------------------------------------ the code's loops

  /** `byMonth[mi]`: the temperatures and humidities pushed so far, and the
      rain added so far. */
  datatype Bucket = Bucket(temps: seq<real>, rain: real, humid: seq<real>)

  /** What the code's bucket for a month holds once the month's samples `f`
      have been pushed. */
  function BucketOf(f: seq<Sample>): Bucket {
    Bucket(Temps(f), Sum(Rains(f)), Humidities(f))
  }

  lemma PresentSnoc(prefix: seq<Sample>, s: Sample, m: MonthIndex)
    ensures Present(prefix + [s], m) <==> Present(prefix, m) || s.month == m
  {
    var p := prefix + [s];
    if Present(prefix, m) {
      var k :| 0 <= k < |prefix| && prefix[k].month == m;
      assert p[k] == prefix[k];
    }
    if s.month == m {
      assert p[|prefix|] == s;
    }
  }

  lemma {:induction false} InMonthAbsent(samples: seq<Sample>, m: MonthIndex)
    requires !Present(samples, m)
    ensures InMonth(samples, m) == []
  {
    if |samples| > 0 {
      var init := samples[..|samples| - 1];
      assert forall j :: 0 <= j < |init| ==> init[j] == samples[j];
      InMonthAbsent(init, m);
    }
  }

  lemma InMonthSnoc(prefix: seq<Sample>, s: Sample, m: MonthIndex)
    ensures InMonth(prefix + [s], m) == if s.month == m then InMonth(prefix, m) + [s] else InMonth(prefix, m)
  {
    assert (prefix + [s])[..|prefix|] == prefix;
  }

  /** Pushing one sample onto a month's bucket is the bucket of one more sample. */
  lemma BucketSnoc(f: seq<Sample>, s: Sample)
    ensures BucketOf(f + [s]) == Bucket(BucketOf(f).temps + [s.temp], BucketOf(f).rain + RainAmount(s.rain), BucketOf(f).humid + [s.humidity])
  {
    assert Temps(f + [s]) == Temps(f) + [s.temp];
    assert Humidities(f + [s]) == Humidities(f) + [s.humidity];
    var rs := Rains(f + [s]);
    assert rs == Rains(f) + [RainAmount(s.rain)];
    assert rs[..|rs| - 1] == Rains(f);
  }

  /** The two loops of `fetchMonthlyClimate`: fill one bucket per month seen,
      then list the buckets by ascending month with their averages. They
      compute exactly the reference aggregation. */
  method AggregateByMonth(samples: seq<Sample>) returns (list: seq<ClimateMonth>)
    ensures list == Aggregate(samples)
  {
    var byMonth: map<MonthIndex, Bucket> := map[];
    var i := 0;
    while i < |samples|
      invariant 0 <= i <= |samples|
      invariant forall m: MonthIndex :: m in byMonth <==> Present(samples[..i], m)
      invariant forall m: MonthIndex :: m in byMonth ==> byMonth[m] == BucketOf(InMonth(samples[..i], m))
    {
      var s := samples[i];
      var b := if s.month in byMonth then byMonth[s.month] else Bucket([], 0.0, []);
      if s.month !in byMonth {
        InMonthAbsent(samples[..i], s.month);
      }
      assert b == BucketOf(InMonth(samples[..i], s.month));
      BucketSnoc(InMonth(samples[..i], s.month), s);
      byMonth := byMonth[s.month := Bucket(b.temps + [s.temp], b.rain + RainAmount(s.rain), b.humid + [s.humidity])];
      assert samples[..i + 1] == samples[..i] + [s];
      forall m: MonthIndex
        ensures m in byMonth <==> Present(samples[..i + 1], m)
        ensures m in byMonth ==> byMonth[m] == BucketOf(InMonth(samples[..i + 1], m))
      {
        PresentSnoc(samples[..i], s, m);
        InMonthSnoc(samples[..i], s, m);
      }
      i := i + 1;
    }
    assert samples[..i] == samples;
    list := [];
    var m: int := 0;
    while m < 12
      invariant 0 <= m <= 12
      invariant list == MonthsBelow(samples, m)
    {
      if m in byMonth {
        var v := byMonth[m];
        list := list + [ClimateMonth(m, Mean(v.temps), Mean(v.humid), v.rain)];
      }
      m := m + 1;
    }
  }

  /** `fetchMonthlyClimate` around the loops: no key, a response that is not
      ok, a rejected request or a body without `list` all give `null`. */
  function MonthlyClimate(hasKey: bool, response: Response<Option<seq<Sample>>>): (r: Option<seq<ClimateMonth>>)
    ensures r.Some? <==> hasKey && response.Ok? && response.body.Some?
    ensures r.Some? ==> r.value == Aggregate(response.body.value)
  {
    if !hasKey then None
    else match response
      case Ok(Some(samples)) => Some(Aggregate(samples))
      case _ => None
  }

  // ------------------------------------------------------------ classification

  const Months: seq<string> := ["January", "February", "March", "April", "May", "June", "July",
                                "August", "September", "October", "November", "December"]

  /** `isGood`: average temperature within [15, 30] and less than 100 mm of
      rain; the humidity clause evaluates to true whatever the humidity. */
  predicate IsGood(m: ClimateMonth) {
    15.0 <= m.tempAverage <= 30.0 && m.rain < 100.0
  }

  datatype Grade = Good | Bad | Warn

  function GradeOf(m: ClimateMonth): Grade {
    if IsGood(m) then Good else Bad
  }

  /** Entry `i` is the last one for its month. */
  predicate LastFor(list: seq<ClimateMonth>, i: int) {
    0 <= i < |list| && forall j :: i < j < |list| ==> list[j].month != list[i].month
  }

  /** The position of the last entry for month `m`, or -1 when there is none. */
  function LastEntry(list: seq<ClimateMonth>, m: int): (i: int)
    ensures -1 <= i < |list|
    ensures i >= 0 ==> list[i].month == m && LastFor(list, i)
    ensures i < 0 ==> forall j :: 0 <= j < |list| ==> list[j].month != m
  {
    Seqs.LastIndex(list, (e: ClimateMonth) => e.month == m)
  }

  /** The `labels` object: each listed month's grade, a later entry for the
      same month overwriting an earlier one. */
  function Labels(list: seq<ClimateMonth>): (labels: map<int, Grade>)
    ensures forall m :: m in labels <==> LastEntry(list, m) >= 0
    ensures forall m :: m in labels ==> labels[m] == GradeOf(list[LastEntry(list, m)])
  {
    if |list| == 0 then map[]
    else
      var last := list[|list| - 1];
      Labels(list[..|list| - 1])[last.month := GradeOf(last)]
  }

  /** `MONTHS.indexOf(text)`. */
  function MonthIndexOf(text: string): (r: int)
    ensures -1 <= r < 12
    ensures r == -1 <==> text !in Months
    ensures r >= 0 ==> Months[r] == text
  {
    if text == "January" then 0 else if text == "February" then 1
    else if text == "March" then 2 else if text == "April" then 3
    else if text == "May" then 4 else if text == "June" then 5
    else if text == "July" then 6 else if text == "August" then 7
    else if text == "September" then 8 else if text == "October" then 9
    else if text == "November" then 10 else if text == "December" then 11
    else -1
  }

  /** A month chip: its text and its class list. */
  datatype Chip = Chip(text: string, classes: set<string>)

  const GradeClasses: set<string> := {"good", "bad", "warn"}

  function GradeClass(g: Grade): string {
    match g
    case Good => "good"
    case Bad => "bad"
    case Warn => "warn"
  }

  /** The grade a chip gets: its month's label, or warn when the month has no
      entry or the chip names no month. */
  function ChipGrade(labels: map<int, Grade>, text: string): Grade {
    var mi := MonthIndexOf(text);
    if mi in labels then labels[mi] else Warn
  }

  /** Recolouring one chip: the three grade classes are removed, exactly one
      is added back, and nothing else about the chip changes. */
  function Recolor(labels: map<int, Grade>, chip: Chip): (c: Chip)
    ensures c.text == chip.text
    ensures c.classes - GradeClasses == chip.classes - GradeClasses
    ensures c.classes * GradeClasses == {GradeClass(ChipGrade(labels, chip.text))}
  {
    Chip(chip.text, chip.classes - GradeClasses + {GradeClass(ChipGrade(labels, chip.text))})
  }

  function Classify(list: seq<ClimateMonth>, chips: seq<Chip>): (r: seq<Chip>)
    ensures |r| == |chips|
  {
    var labels := Labels(list);
    seq(|chips|, i requires 0 <= i < |chips| => Recolor(labels, chips[i]))
  }

  /** Each chip against the climate list itself: a chip is `good` or `bad`
      exactly when the last entry for the month it names grades so, and
      `warn` exactly when no entry is for that month (or it names none); its
      text and other classes are unchanged. */
  lemma ClassifyAgainstList(list: seq<ClimateMonth>, chips: seq<Chip>, i: int)
    requires 0 <= i < |chips|
    ensures var c := Classify(list, chips)[i];
            && c.text == chips[i].text
            && c.classes - GradeClasses == chips[i].classes - GradeClasses
            && ("good" in c.classes <==>
                  exists j :: LastFor(list, j) && Months[list[j].month] == chips[i].text && IsGood(list[j]))
            && ("bad" in c.classes <==>
                  exists j :: LastFor(list, j) && Months[list[j].month] == chips[i].text && !IsGood(list[j]))
            && ("warn" in c.classes <==>
                  forall j :: 0 <= j < |list| ==> Months[list[j].month] != chips[i].text)
  {
    var c := Classify(list, chips)[i];
    var text := chips[i].text;
    var labels := Labels(list);
    var g := ChipGrade(labels, text);
    GradeClassMembership(c.classes, g);
    var mi := MonthIndexOf(text);
    forall j | 0 <= j < |list|
      ensures Months[list[j].month] == text <==> list[j].month == mi
    {
      MonthNamesDistinct(list[j].month);
    }
    if mi in labels {
      var e := LastEntry(list, mi);
      assert g == GradeOf(list[e]);
      forall j | LastFor(list, j) && Months[list[j].month] == text
        ensures j == e
      {
        LastEntryIs(list, j);
      }
    } else {
      assert LastEntry(list, mi) < 0;
    }
  }

  /** Each month's name is found at its own index. */
  lemma MonthNamesDistinct(m: MonthIndex)
    ensures MonthIndexOf(Months[m]) == m
  {
  }

  /** The grade the chip for month `m` gets from the aggregated samples. */
  lemma GradeFromSamples(samples: seq<Sample>, m: MonthIndex)
    ensures ChipGrade(Labels(Aggregate(samples)), Months[m])
            == if Present(samples, m) then GradeOf(MonthOf(samples, m)) else Warn
  {
    var list := Aggregate(samples);
    MonthNamesDistinct(m);
    if Present(samples, m) {
      var i :| 0 <= i < |list| && list[i].month == m;
      assert LastFor(list, i);
      LastEntryIs(list, i);
    } else {
      assert forall j :: 0 <= j < |list| ==> list[j].month != m;
    }
  }

  /** An entry with no later entry for its month is the one `labels` keeps. */
  lemma LastEntryIs(list: seq<ClimateMonth>, i: int)
    requires LastFor(list, i)
    ensures LastEntry(list, list[i].month) == i
  {
  }

  /** End to end: a chip naming month `m` is coloured good exactly when the
      samples of `m` average 15 to 30 degrees with under 100 mm of rain in
      total, bad when `m` has samples otherwise, and warn when it has none. */
  lemma ChipColourFromSamples(samples: seq<Sample>, chip: Chip, m: MonthIndex)
    requires chip.text == Months[m]
    ensures var c := Recolor(Labels(Aggregate(samples)), chip);
            && ("good" in c.classes <==> Present(samples, m) && IsGood(MonthOf(samples, m)))
            && ("bad" in c.classes <==> Present(samples, m) && !IsGood(MonthOf(samples, m)))
            && ("warn" in c.classes <==> !Present(samples, m))
  {
    var c := Recolor(Labels(Aggregate(samples)), chip);
    GradeFromSamples(samples, m);
    GradeClassMembership(c.classes, ChipGrade(Labels(Aggregate(samples)), chip.text));
  }

  /** A class set whose grade classes are exactly `{GradeClass(g)}` holds the
      class of `g` and neither other grade class. */
  lemma GradeClassMembership(classes: set<string>, g: Grade)
    requires classes * GradeClasses == {GradeClass(g)}
    ensures ("good" in classes <==> g == Good) && ("bad" in classes <==> g == Bad) && ("warn" in classes <==> g == Warn)
  {
    assert "good" in classes <==> "good" in classes * GradeClasses;
    assert "bad" in classes <==> "bad" in classes * GradeClasses;
    assert "warn" in classes <==> "warn" in classes * GradeClasses;
  }

  /** A chip whose text names no month is always coloured warn. */
  lemma NonMonthChipWarns(list: seq<ClimateMonth>, chip: Chip)
    requires chip.text !in Months
    ensures var c := Recolor(Labels(list), chip);
            "warn" in c.classes && "good" !in c.classes && "bad" !in c.classes
  {
    var c := Recolor(Labels(list), chip);
    assert ChipGrade(Labels(list), chip.text) == Warn;
    GradeClassMembership(c.classes, Warn);
  }
}
