/** `render_prometheus` of src/metrics.rs: two metric families over a list of
    check results. `Document` is the exposition as structured lines; the method
    pushes text the way the source does and is proved to print that document.

    The float a duration becomes is not fixed here: a conversion from nanoseconds
    to numerals is a parameter, and what is proved holds for every conversion. */
module Prometheus {
  import opened Types
  import opened Decimal
  import opened Exposition

  const GAUGE := "healthkit_check_healthiness"
  const GAUGE_HELP :=
    "Health status of the check " + "(1 = healthy, 0.5 = degraded, " + "0 = unhealthy)."
  const HISTOGRAM := "healthkit_check_duration_seconds"
  const HISTOGRAM_HELP := "Duration of the check " + "execution in seconds."

  /** Bucket upper bounds in nanoseconds. */
  const BUCKETS: seq<nat> := [
    5_000_000, 10_000_000, 25_000_000, 50_000_000, 100_000_000, 250_000_000,
    500_000_000, 1_000_000_000, 2_500_000_000, 5_000_000_000, 10_000_000_000]

  const ZERO: Numeral := Decimals([0], [])
  const ONE: Numeral := Decimals([1], [])

  function HealthinessValue(s: HealthStatus): Numeral {
    match s
    case Healthy => ONE
    case Degraded => Decimals([0], [5])
    case Unhealthy => ZERO
  }

  /** `as_secs_f64`, up to the text of the float. */
  type AsSecs = nat -> Numeral

  /** What the renderer takes from a check result. */
  datatype Reading = Reading(name: string, status: HealthStatus, seconds: Numeral)

  function Read(r: CheckResult, secs: AsSecs): Reading {
    Reading(r.name, r.status, secs(r.duration))
  }

  function Readings(results: seq<CheckResult>, secs: AsSecs): seq<Reading> {
    seq(|results|, i requires 0 <= i < |results| => Read(results[i], secs))
  }

  // ----------------------------------------------------------- the document

  function GaugeLine(r: Reading): Line {
    Sample(GAUGE, [Label("check", r.name)], HealthinessValue(r.status))
  }

  function CountValue(count: nat): Numeral
    requires count <= 1
  {
    if count == 0 then ZERO else ONE
  }

  function BucketLine(r: Reading, le: string, count: nat): Line
    requires count <= 1
  {
    Sample(HISTOGRAM + "_bucket", [Label("check", r.name), Label("le", le)], CountValue(count))
  }

  /** `u64::from(secs <= bucket)`, and the constant 1 of the +Inf bucket. */
  function BucketCount(r: Reading, j: nat): (count: nat)
    requires j < 12
    ensures count <= 1
  {
    if j == 11 || AtMost(r.seconds, Exact(BUCKETS[j])) then 1 else 0
  }

  function PrintNumber(n: nat): string {
    PrintNumeral(Exact(n))
  }

  function BucketBound(j: nat): string
    requires j < 12
  {
    if j == 11 then "+Inf" else PrintNumber(BUCKETS[j])
  }

  function HistogramLine(r: Reading, j: nat): Line
    requires j < 14
  {
    if j < 12 then BucketLine(r, BucketBound(j), BucketCount(r, j))
    else if j == 12 then Sample(HISTOGRAM + "_sum", [Label("check", r.name)], r.seconds)
    else Sample(HISTOGRAM + "_count", [Label("check", r.name)], ONE)
  }

  /** The `offset`-th line after the histogram family's header: every result has
      14 of them, 11 buckets, +Inf, sum and count. */
  function HistogramAt(results: seq<Reading>, offset: nat): Line
    requires offset < 14 * |results|
  {
    HistogramLine(results[offset / 14], offset % 14)
  }

  function LineAt(results: seq<Reading>, k: nat): Line
    requires k < 4 + 15 * |results|
  {
    var n := |results|;
    if k == 0 then Help(GAUGE, GAUGE_HELP)
    else if k == 1 then Type(GAUGE, "gauge")
    else if k < 2 + n then GaugeLine(results[k - 2])
    else if k == 2 + n then Help(HISTOGRAM, HISTOGRAM_HELP)
    else if k == 3 + n then Type(HISTOGRAM, "histogram")
    else HistogramAt(results, k - 4 - n)
  }

  function Document(results: seq<Reading>): seq<Line> {
    seq(4 + 15 * |results|, k requires 0 <= k < 4 + 15 * |results| => LineAt(results, k))
  }

  function Render(results: seq<Reading>): string {
    PrintAll(Document(results))
  }

  // --------------------------------------------------------------- the method

  function OneLabel(metric: string, escaped: string, value: string): string {
    metric + "{check=\"" + escaped + "\"} " + value + "\n"
  }

  function TwoLabels(metric: string, escaped: string, le: string, value: string): string {
    metric + "{check=\"" + escaped + "\",le=\"" + le + "\"} " + value + "\n"
  }

  lemma OneLabelText(metric: string, e: string, value: string)
    ensures OneLabel(metric, e, value)
         == metric + ("{" + (("check" + "=\"" + e + "\"") + "}")) + " " + value + "\n"
  {
    assert "{check=\"" == "{" + ("check" + "=\"");
    assert "\"} " == "\"" + "}" + " ";
  }

  lemma TwoLabelsText(metric: string, e: string, le: string, value: string)
    ensures TwoLabels(metric, e, le, value)
         == metric + ("{" + (("check" + "=\"" + e + "\"") + ("," + (("le" + "=\"" + le + "\"") + "}"))))
          + " " + value + "\n"
  {
    assert "{check=\"" == "{" + ("check" + "=\"");
    assert "\",le=\"" == "\"" + "," + ("le" + "=\"");
    assert "\"} " == "\"" + "}" + " ";
  }

  lemma PrintOneLabel(l: Label)
    ensures PrintLabelBlock([l]) == "{" + ((l.key + "=\"" + Escape(l.value) + "\"") + "}")
  {
  }

  lemma PrintTwoLabels(c: Label, l: Label)
    ensures PrintLabelBlock([c, l])
         == "{" + ((c.key + "=\"" + Escape(c.value) + "\"") + ("," + ((l.key + "=\"" + Escape(l.value) + "\"") + "}")))
  {
    assert [c, l][1..] == [l];
    PrintOneLabel(l);
  }

  lemma OneLabelPrints(metric: string, name: string, value: Numeral)
    ensures OneLabel(metric, Escape(name), PrintNumeral(value)) == Print(Sample(metric, [Label("check", name)], value))
  {
    OneLabelText(metric, Escape(name), PrintNumeral(value));
    PrintOneLabel(Label("check", name));
  }

  lemma TwoLabelsPrint(metric: string, name: string, le: string, value: Numeral)
    requires Escape(le) == le
    ensures TwoLabels(metric, Escape(name), le, PrintNumeral(value))
         == Print(Sample(metric, [Label("check", name), Label("le", le)], value))
  {
    TwoLabelsText(metric, Escape(name), le, PrintNumeral(value));
    PrintTwoLabels(Label("check", name), Label("le", le));
  }

  predicate IsPlain(c: char) {
    c != '\\' && c != '\"' && c != '\n'
  }

  lemma NumberIsPlain(n: nat)
    ensures forall i | 0 <= i < |PrintNumber(n)| :: IsPlain(PrintNumber(n)[i])
  {
    forall i | 0 <= i < |PrintNumber(n)| ensures IsPlain(PrintNumber(n)[i]) {
      NumeralChars(Exact(n), i);
    }
  }

  lemma BoundIsPlain(j: nat)
    requires j < 12
    ensures Escape(BucketBound(j)) == BucketBound(j)
  {
    if j < 11 {
      NumberIsPlain(BUCKETS[j]);
    }
    EscapePlain(BucketBound(j));
  }

  lemma WholeNumbers()
    ensures PrintNumeral(ZERO) == "0" && PrintNumeral(ONE) == "1"
  {
  }

  function FmtCount(count: nat): string
    requires count <= 1
  {
    if count == 0 then "0" else "1"
  }

  lemma BucketPrints(r: Reading, j: nat)
    requires j < 12
    ensures TwoLabels(HISTOGRAM + "_bucket", Escape(r.name), BucketBound(j), FmtCount(BucketCount(r, j)))
         == Print(HistogramLine(r, j))
  {
    WholeNumbers();
    BoundIsPlain(j);
    TwoLabelsPrint(HISTOGRAM + "_bucket", r.name, BucketBound(j), CountValue(BucketCount(r, j)));
  }

  /** One more printed line extends the text of a document's prefix. */
  lemma NextLine(results: seq<Reading>, k: nat)
    requires k < 4 + 15 * |results|
    ensures PrintAll(Document(results)[..k + 1]) == PrintAll(Document(results)[..k]) + Print(LineAt(results, k))
  {
    hide LineAt, Print, PrintAll;
    var d := Document(results);
    assert d[..k + 1] == d[..k] + [d[k]];
    PrintAllAppend(d[..k], [d[k]]);
    PrintAllOne(d[k]);
  }

  lemma PrintAllOne(line: Line)
    ensures PrintAll([line]) == Print(line)
  {
    assert PrintAll([line]) == Print(line) + PrintAll([line][1..]);
  }

  /** The text of the document's first `k` lines. */
  ghost function Upto(results: seq<Reading>, k: nat): string
    requires k <= 4 + 15 * |results|
  {
    PrintAll(Document(results)[..k])
  }

  lemma HeaderSteps(results: seq<Reading>)
    ensures var n := |results|;
            && Upto(results, 2) == Print(Help(GAUGE, GAUGE_HELP)) + Print(Type(GAUGE, "gauge"))
            && Upto(results, 4 + n)
            == Upto(results, 2 + n) + Print(Help(HISTOGRAM, HISTOGRAM_HELP)) + Print(Type(HISTOGRAM, "histogram"))
  {
    hide Print, HistogramAt, GaugeLine;
    var n := |results|;
    NextLine(results, 0);
    NextLine(results, 1);
    NextLine(results, 2 + n);
    NextLine(results, 3 + n);
  }

  lemma GaugeStep(results: seq<Reading>, i: nat)
    requires i < |results|
    ensures Upto(results, 2 + i)
          + OneLabel(GAUGE, Escape(results[i].name), PrintNumeral(HealthinessValue(results[i].status)))
         == Upto(results, 3 + i)
  {
    OneLabelPrints(GAUGE, results[i].name, HealthinessValue(results[i].status));
    NextLine(results, 2 + i);
  }

  /** Offset of line `j` in the histogram block of result `i`. */
  function BlockOffset(results: seq<Reading>, i: nat, j: nat): nat {
    4 + |results| + 14 * i + j
  }

  lemma BlockArithmetic(i: nat, j: nat)
    requires j < 14
    ensures (14 * i + j) / 14 == i && (14 * i + j) % 14 == j
  {
  }

  lemma BlockLine(results: seq<Reading>, i: nat, j: nat)
    requires i < |results| && j < 14
    ensures 14 * i + j < 14 * |results| && HistogramAt(results, 14 * i + j) == HistogramLine(results[i], j)
  {
    BlockArithmetic(i, j);
  }

  lemma BlockIndex(results: seq<Reading>, i: nat, j: nat)
    requires i < |results| && j < 14
    ensures BlockOffset(results, i, j) < 4 + 15 * |results|
    ensures LineAt(results, BlockOffset(results, i, j)) == HistogramLine(results[i], j)
  {
    hide HistogramLine;
    BlockLine(results, i, j);
    assert BlockOffset(results, i, j) - 4 - |results| == 14 * i + j;
  }

  lemma BucketStep(results: seq<Reading>, i: nat, j: nat)
    requires i < |results| && j < 12
    ensures Upto(results, BlockOffset(results, i, j))
          + TwoLabels(HISTOGRAM + "_bucket", Escape(results[i].name), BucketBound(j),
                      FmtCount(BucketCount(results[i], j)))
         == Upto(results, BlockOffset(results, i, j + 1))
  {
    hide OneLabel, TwoLabels, PrintNumber, Escape, HistogramLine, LineAt, BucketBound, BucketCount;
    BlockIndex(results, i, j);
    BucketPrints(results[i], j);
    NextLine(results, BlockOffset(results, i, j));
  }

  lemma SumAndCountLines(r: Reading)
    ensures HistogramLine(r, 12) == Sample(HISTOGRAM + "_sum", [Label("check", r.name)], r.seconds)
    ensures HistogramLine(r, 13) == Sample(HISTOGRAM + "_count", [Label("check", r.name)], ONE)
  {
  }

  lemma SumStep(results: seq<Reading>, i: nat)
    requires i < |results|
    ensures Upto(results, BlockOffset(results, i, 12))
          + OneLabel(HISTOGRAM + "_sum", Escape(results[i].name), PrintNumeral(results[i].seconds))
         == Upto(results, BlockOffset(results, i, 13))
  {
    hide HistogramLine, LineAt, Print, PrintNumeral, OneLabel, Escape;
    BlockIndex(results, i, 12);
    SumAndCountLines(results[i]);
    OneLabelPrints(HISTOGRAM + "_sum", results[i].name, results[i].seconds);
    NextLine(results, BlockOffset(results, i, 12));
  }

  lemma CountStep(results: seq<Reading>, i: nat)
    requires i < |results|
    ensures Upto(results, BlockOffset(results, i, 13)) + OneLabel(HISTOGRAM + "_count", Escape(results[i].name), "1")
         == Upto(results, BlockOffset(results, i, 14))
  {
    hide HistogramLine, LineAt, Print, PrintNumeral, OneLabel, Escape;
    BlockIndex(results, i, 13);
    SumAndCountLines(results[i]);
    WholeNumbers();
    OneLabelPrints(HISTOGRAM + "_count", results[i].name, ONE);
    NextLine(results, BlockOffset(results, i, 13));
  }

  lemma UptoAll(results: seq<Reading>)
    ensures Upto(results, 4 + 15 * |results|) == Render(results)
  {
    assert Document(results)[..4 + 15 * |results|] == Document(results);
  }

  /** The source's pushes, family by family. */
  method RenderPrometheus(results: seq<CheckResult>, secs: AsSecs) returns (out: string)
    ensures out == Render(Readings(results, secs))
    ensures Parse(out).Some? && SpelledOut(Parse(out).value, results, secs)
  {
    hide Upto, Print, Parse, SpelledOut, Render;
    ghost var readings := Readings(results, secs);
    HeaderSteps(readings);
    out := Print(Help(GAUGE, GAUGE_HELP));
    out := out + Print(Type(GAUGE, "gauge"));
    out := PushGauges(results, secs, out);
    out := out + Print(Help(HISTOGRAM, HISTOGRAM_HELP));
    out := out + Print(Type(HISTOGRAM, "histogram"));
    out := PushHistograms(results, secs, out);
    UptoAll(readings);
    RenderSpelledOut(results, secs);
  }

  method PushGauges(results: seq<CheckResult>, secs: AsSecs, before: string) returns (out: string)
    requires before == Upto(Readings(results, secs), 2)
    ensures out == Upto(Readings(results, secs), 2 + |results|)
  {
    hide Upto, OneLabel, PrintNumeral, Escape;
    out := before;
    for i := 0 to |results|
      invariant out == Upto(Readings(results, secs), 2 + i)
    {
      var name := EscapeLabel(results[i].name);
      GaugeStep(Readings(results, secs), i);
      out := out + OneLabel(GAUGE, name, PrintNumeral(HealthinessValue(results[i].status)));
    }
  }

  method PushHistograms(results: seq<CheckResult>, secs: AsSecs, before: string) returns (out: string)
    requires before == Upto(Readings(results, secs), 4 + |results|)
    ensures out == Upto(Readings(results, secs), 4 + 15 * |results|)
  {
    out := before;
    for i := 0 to |results|
      invariant out == Upto(Readings(results, secs), BlockOffset(Readings(results, secs), i, 0))
    {
      out := PushHistogram(results, secs, i, out);
    }
  }

  /** The histogram lines of one result, pushed after `before`. */
  method PushHistogram(results: seq<CheckResult>, secs: AsSecs, i: nat, before: string) returns (out: string)
    requires i < |results|
    requires before == Upto(Readings(results, secs), BlockOffset(Readings(results, secs), i, 0))
    ensures out == Upto(Readings(results, secs), BlockOffset(Readings(results, secs), i + 1, 0))
  {
    hide Upto, OneLabel, TwoLabels, PrintNumeral, Escape, AtMost;
    ghost var readings := Readings(results, secs);
    var name := EscapeLabel(results[i].name);
    var seconds := secs(results[i].duration);
    out := before;
    for j := 0 to 11
      invariant out == Upto(readings, BlockOffset(readings, i, j))
    {
      var count := if AtMost(seconds, Exact(BUCKETS[j])) then 1 else 0;
      BucketStep(readings, i, j);
      out := out + TwoLabels(HISTOGRAM + "_bucket", name, PrintNumber(BUCKETS[j]), FmtCount(count));
    }
    BucketStep(readings, i, 11);
    out := out + TwoLabels(HISTOGRAM + "_bucket", name, "+Inf", "1");
    SumStep(readings, i);
    out := out + OneLabel(HISTOGRAM + "_sum", name, PrintNumeral(seconds));
    CountStep(readings, i);
    out := out + OneLabel(HISTOGRAM + "_count", name, "1");
  }

  /** Text of a number below ten from its fraction digits. */
  lemma SmallNumberText(whole: Digit, f: nat, ds: seq<Digit>)
    requires f < BILLION && FractionDigits(f) == ds
    ensures PrintNumber(whole * BILLION + f) == [DigitChar(whole)] + PrintFraction(ds)
  {
    var n := whole * BILLION + f;
    assert n / BILLION == whole && n % BILLION == f;
    assert Digits(whole) == [whole];
  }

  lemma Powers()
    ensures Pow10(9) == BILLION && Pow10(8) == 100_000_000 && Pow10(7) == 10_000_000 && Pow10(6) == 1_000_000
  {
    assert Pow10(4) == 10_000;
  }

  lemma TenthsText()
    ensures FractionDigits(100_000_000) == [1] && FractionDigits(500_000_000) == [5]
  {
    Powers();
  }

  lemma HundredthsText()
    ensures FractionDigits(10_000_000) == [0, 1] && FractionDigits(50_000_000) == [0, 5]
    ensures FractionDigits(250_000_000) == [2, 5]
  {
    Powers();
    assert Fraction(10_000_000, 8) == [1] && Fraction(50_000_000, 8) == [5];
  }

  lemma ThousandthsText()
    ensures FractionDigits(5_000_000) == [0, 0, 5] && FractionDigits(3_000_000) == [0, 0, 3]
    ensures FractionDigits(25_000_000) == [0, 2, 5]
  {
    Powers();
    assert Fraction(5_000_000, 7) == [5] && Fraction(3_000_000, 7) == [3];
    assert Fraction(5_000_000, 8) == [0] + Fraction(5_000_000, 7);
    assert Fraction(3_000_000, 8) == [0] + Fraction(3_000_000, 7);
    assert Fraction(25_000_000, 8) == [2] + Fraction(5_000_000, 7);
  }

  lemma OnePlace(whole: Digit, f: nat, a: Digit)
    requires f < BILLION && FractionDigits(f) == [a]
    ensures PrintNumber(whole * BILLION + f) == [DigitChar(whole), '.', DigitChar(a)]
  {
    SmallNumberText(whole, f, [a]);
    assert AsChars([a]) == [DigitChar(a)];
  }

  lemma TwoPlaces(whole: Digit, f: nat, a: Digit, b: Digit)
    requires f < BILLION && FractionDigits(f) == [a, b]
    ensures PrintNumber(whole * BILLION + f) == [DigitChar(whole), '.', DigitChar(a), DigitChar(b)]
  {
    SmallNumberText(whole, f, [a, b]);
    assert AsChars([a, b]) == [DigitChar(a), DigitChar(b)];
  }

  lemma ThreePlaces(whole: Digit, f: nat, a: Digit, b: Digit, c: Digit)
    requires f < BILLION && FractionDigits(f) == [a, b, c]
    ensures PrintNumber(whole * BILLION + f) == [DigitChar(whole), '.', DigitChar(a), DigitChar(b), DigitChar(c)]
  {
    SmallNumberText(whole, f, [a, b, c]);
    assert AsChars([a, b, c]) == [DigitChar(a), DigitChar(b), DigitChar(c)];
  }

  /** The texts the documentation and the tests of the renderer spell out. */
  lemma DocumentedValues()
    ensures PrintNumeral(HealthinessValue(Healthy)) == "1"
    ensures PrintNumeral(HealthinessValue(Degraded)) == "0.5"
    ensures PrintNumeral(HealthinessValue(Unhealthy)) == "0"
    ensures PrintNumber(3_000_000) == "0.003"
  {
    hide PrintNumber, FractionDigits;
    WholeNumbers();
    assert AsChars([5]) == "5";
    ThousandthsText();
    ThreePlaces(0, 3_000_000, 0, 0, 3);
  }

  lemma DocumentedThousandths()
    ensures BucketBound(0) == "0.005" && BucketBound(2) == "0.025"
  {
    hide PrintNumber, FractionDigits;
    ThousandthsText();
    ThreePlaces(0, 5_000_000, 0, 0, 5);
    ThreePlaces(0, 25_000_000, 0, 2, 5);
  }

  lemma DocumentedHundredths()
    ensures BucketBound(1) == "0.01" && BucketBound(3) == "0.05" && BucketBound(5) == "0.25"
  {
    hide PrintNumber, FractionDigits;
    HundredthsText();
    TwoPlaces(0, 10_000_000, 0, 1);
    TwoPlaces(0, 50_000_000, 0, 5);
    TwoPlaces(0, 250_000_000, 2, 5);
  }

  lemma DocumentedTenths()
    ensures BucketBound(4) == "0.1" && BucketBound(6) == "0.5" && BucketBound(8) == "2.5"
  {
    hide PrintNumber, FractionDigits;
    TenthsText();
    OnePlace(0, 100_000_000, 1);
    OnePlace(0, 500_000_000, 5);
    OnePlace(2, 500_000_000, 5);
  }

  lemma WholeNumberText(n: nat)
    ensures PrintNumber(n * BILLION) == AsChars(Digits(n))
  {
    assert n * BILLION / BILLION == n && n * BILLION % BILLION == 0;
    assert FractionDigits(0) == [];
  }

  lemma DocumentedSeconds()
    ensures BucketBound(7) == "1" && BucketBound(9) == "5" && BucketBound(10) == "10" && BucketBound(11) == "+Inf"
  {
    hide PrintNumber;
    WholeNumberText(1);
    WholeNumberText(5);
    WholeNumberText(10);
    assert Digits(10) == Digits(1) + [0];
  }

  /** The gauge values, the bucket bounds and the 3 ms of the documentation, as
      they are written there. */
  lemma DocumentedTexts()
    ensures PrintNumeral(HealthinessValue(Healthy)) == "1"
    ensures PrintNumeral(HealthinessValue(Degraded)) == "0.5"
    ensures PrintNumeral(HealthinessValue(Unhealthy)) == "0"
    ensures PrintNumber(3_000_000) == "0.003"
    ensures seq(12, j requires 0 <= j < 12 => BucketBound(j))
         == ["0.005", "0.01", "0.025", "0.05", "0.1", "0.25", "0.5", "1", "2.5", "5", "10", "+Inf"]
  {
    hide PrintNumber, BucketBound, HealthinessValue, PrintNumeral;
    DocumentedValues();
    DocumentedThousandths();
    DocumentedHundredths();
    DocumentedTenths();
    DocumentedSeconds();
  }

  // --------------------------------------------------------------- structure

  lemma MetricNames()
    ensures IsName(GAUGE) && IsName(HISTOGRAM) && IsName("gauge") && IsName("histogram")
    ensures IsName(HISTOGRAM + "_bucket") && IsName(HISTOGRAM + "_sum") && IsName(HISTOGRAM + "_count")
    ensures IsName("check") && IsName("le")
  {
  }

  lemma GaugeHelpStaysOnItsLine()
    ensures '\n' !in GAUGE_HELP
  {
    assert '\n' !in "Health status of the check ";
    assert '\n' !in "(1 = healthy, 0.5 = degraded, ";
  }

  lemma HistogramHelpStaysOnItsLine()
    ensures '\n' !in HISTOGRAM_HELP
  {
  }

  lemma DocumentIsWellFormed(results: seq<Reading>)
    ensures forall l | l in Document(results) :: WellFormed(l)
  {
    forall k | 0 <= k < |Document(results)| ensures WellFormed(Document(results)[k]) {
      MetricNames();
      GaugeHelpStaysOnItsLine();
      HistogramHelpStaysOnItsLine();
    }
  }

  // -------------------------------------------------------------- round trip

  /** What a scrape learns about one check. */
  datatype Observation = Observation(name: string, gauge: Numeral, buckets: seq<Numeral>, sum: Numeral, count: Numeral)

  function Observed(r: Reading): Observation {
    Observation(r.name, HealthinessValue(r.status), seq(12, j requires 0 <= j < 12 => CountValue(BucketCount(r, j))),
                r.seconds, ONE)
  }

  function CheckLabel(line: Line): string {
    if line.Sample? && line.labels != [] then line.labels[0].value else ""
  }

  function SampleValue(line: Line): Numeral {
    if line.Sample? then line.value else ZERO
  }

  function SampleValues(lines: seq<Line>, from: nat, count: nat): seq<Numeral>
    requires from + count <= |lines|
    decreases |lines| - from
  {
    if count == 0 then [] else [SampleValue(lines[from])] + SampleValues(lines, from + 1, count - 1)
  }

  lemma {:induction false} SampleValuesAre(lines: seq<Line>, from: nat, expected: seq<Numeral>)
    requires from + |expected| <= |lines|
    requires forall j | 0 <= j < |expected| :: SampleValue(lines[from + j]) == expected[j]
    ensures SampleValues(lines, from, |expected|) == expected
    decreases expected
  {
    if expected == [] {
    } else {
      forall j | 0 <= j < |expected| - 1 ensures SampleValue(lines[from + 1 + j]) == expected[1..][j] {
        assert SampleValue(lines[from + (j + 1)]) == expected[j + 1];
      }
      SampleValuesAre(lines, from + 1, expected[1..]);
      assert expected == [expected[0]] + expected[1..];
    }
  }

  /** The observations in a parsed exposition, by position alone. */
  function Recover(lines: seq<Line>): seq<Observation> {
    if |lines| < 4 then []
    else
      var n := (|lines| - 4) / 15;
      seq(n, i requires 0 <= i < n => RecoverOne(lines, n, i))
  }

  function RecoverOne(lines: seq<Line>, n: nat, i: nat): Observation
    requires i < n && 4 + 15 * n <= |lines|
  {
    var base := 4 + n + 14 * i;
    Observation(CheckLabel(lines[2 + i]), SampleValue(lines[2 + i]),
                SampleValues(lines, base, 12),
                SampleValue(lines[base + 12]), SampleValue(lines[base + 13]))
  }

  /** Reading a rendered exposition gives back its document... */
  lemma RenderParses(results: seq<Reading>)
    ensures Parse(Render(results)) == Some(Document(results))
  {
    DocumentIsWellFormed(results);
    ExpositionRoundTrip(Document(results));
  }

  lemma HistogramBlockAt(results: seq<Reading>, i: nat, j: nat)
    requires i < |results| && j < 14
    ensures BlockOffset(results, i, j) < 4 + 15 * |results|
    ensures Document(results)[BlockOffset(results, i, j)] == HistogramLine(results[i], j)
  {
    BlockIndex(results, i, j);
  }

  lemma RecoversBuckets(results: seq<Reading>, i: nat)
    requires i < |results|
    ensures BlockOffset(results, i, 12) <= |Document(results)|
    ensures SampleValues(Document(results), BlockOffset(results, i, 0), 12) == Observed(results[i]).buckets
  {
    var lines, from, expected := Document(results), BlockOffset(results, i, 0), Observed(results[i]).buckets;
    forall j | 0 <= j < |expected| ensures from + j < |lines| && SampleValue(lines[from + j]) == expected[j] {
      HistogramBlockAt(results, i, j);
    }
    HistogramBlockAt(results, i, 11);
    SampleValuesAre(lines, from, expected);
  }

  lemma GaugeLineAt(results: seq<Reading>, i: nat)
    requires i < |results|
    ensures |Document(results)| == 4 + 15 * |results| && Document(results)[2 + i] == GaugeLine(results[i])
  {
    hide HistogramAt;
  }

  lemma RecoversOne(results: seq<Reading>, i: nat)
    requires i < |results|
    ensures RecoverOne(Document(results), |results|, i) == Observed(results[i])
  {
    hide HistogramLine, HistogramAt, BucketCount, LineAt, Document;
    GaugeLineAt(results, i);
    RecoversBuckets(results, i);
    SumAndCountLines(results[i]);
    HistogramBlockAt(results, i, 12);
    HistogramBlockAt(results, i, 13);
  }

  /** ... and the document the name, gauge, 12 bucket counts, sum and count of
      every result, in order, whatever characters the names contain. */
  lemma {:induction false} RenderRoundTrip(results: seq<Reading>)
    ensures var parsed := Parse(Render(results));
            && parsed.Some?
            && |Recover(parsed.value)| == |results|
            && forall i | 0 <= i < |results| :: Recover(parsed.value)[i] == Observed(results[i])
  {
    hide LineAt, Observed, RecoverOne, Render, Parse;
    RenderParses(results);
    forall i | 0 <= i < |results| ensures Recover(Document(results))[i] == Observed(results[i]) {
      RecoversOne(results, i);
    }
  }

  // ------------------------------------------------- the document spelled out

  /** A line of the gauge family, for one check result. */
  ghost predicate GaugeSpelledOut(line: Line, r: CheckResult) {
    line == Sample("healthkit_check_healthiness", [Label("check", r.name)],
                   match r.status
                   case Healthy => Decimals([1], [])
                   case Degraded => Decimals([0], [5])
                   case Unhealthy => Decimals([0], []))
  }

  /** The `j`-th bucket line of one result: the source's bound, in seconds and in
      nanoseconds, and whether the seconds are within it. */
  ghost predicate BucketSpelledOut(lines: seq<Line>, base: nat, j: nat, r: CheckResult, seconds: Numeral)
    requires j < 12 && base + j < |lines|
  {
    lines[base + j]
    == Sample("healthkit_check_duration_seconds_bucket",
                   [Label("check", r.name),
                    Label("le", ["0.005", "0.01", "0.025", "0.05", "0.1", "0.25",
                                 "0.5", "1", "2.5", "5", "10", "+Inf"][j])],
                   if j == 11 || Magnitude(seconds) * 1_000_000_000.0 <= BoundNanos(j) as real
                   then Decimals([1], []) else Decimals([0], []))
  }

  function BoundNanos(j: nat): nat
    requires j < 11
  {
    [5_000_000, 10_000_000, 25_000_000, 50_000_000, 100_000_000, 250_000_000, 500_000_000, 1_000_000_000,
     2_500_000_000, 5_000_000_000, 10_000_000_000][j]
  }

  ghost predicate HistogramSpelledOut(lines: seq<Line>, base: nat, r: CheckResult, seconds: Numeral)
    requires base + 14 <= |lines|
  {
    && (forall j | 0 <= j < 12 :: BucketSpelledOut(lines, base, j, r, seconds))
    && lines[base + 12] == Sample("healthkit_check_duration_seconds_sum", [Label("check", r.name)], seconds)
    && lines[base + 13]
    == Sample("healthkit_check_duration_seconds_count", [Label("check", r.name)], Decimals([1], []))
  }

  /** Every line the source prints for a list of results. */
  ghost predicate SpelledOut(lines: seq<Line>, results: seq<CheckResult>, secs: AsSecs) {
    var n := |results|;
    && |lines| == 4 + 15 * n
    && lines[0] == Help("healthkit_check_healthiness",
                        "Health status of the check " + "(1 = healthy, 0.5 = degraded, " + "0 = unhealthy).")
    && lines[1] == Type("healthkit_check_healthiness", "gauge")
    && (forall i | 0 <= i < n :: GaugeSpelledOut(lines[2 + i], results[i]))
    && lines[2 + n] == Help("healthkit_check_duration_seconds", "Duration of the check " + "execution in seconds.")
    && lines[3 + n] == Type("healthkit_check_duration_seconds", "histogram")
    && (forall i | 0 <= i < n ::
          HistogramSpelledOut(lines, 4 + n + 14 * i, results[i], secs(results[i].duration)))
  }

  lemma BoundsSpelledOut(j: nat)
    requires j < 12
    ensures BucketBound(j)
         == ["0.005", "0.01", "0.025", "0.05", "0.1", "0.25", "0.5", "1", "2.5", "5", "10", "+Inf"][j]
    ensures j < 11 ==> BUCKETS[j] == BoundNanos(j)
  {
    hide BucketBound;
    DocumentedTexts();
    var all := seq(12, j requires 0 <= j < 12 => BucketBound(j));
    assert all[j] == BucketBound(j);
  }

  lemma BucketLineSpelledOut(lines: seq<Line>, base: nat, j: nat, r: CheckResult, secs: AsSecs)
    requires j < 12 && base + j < |lines| && lines[base + j] == HistogramLine(Read(r, secs), j)
    ensures BucketSpelledOut(lines, base, j, r, secs(r.duration))
  {
    hide BucketBound, Magnitude, Exact;
    BoundsSpelledOut(j);
    if j < 11 {
      ExactMagnitude(BUCKETS[j]);
    }
  }

  lemma HistogramLinesSpelledOut(results: seq<CheckResult>, secs: AsSecs, i: nat)
    requires i < |results|
    ensures var lines := Document(Readings(results, secs));
            && 4 + |results| + 14 * i + 14 <= |lines|
            && HistogramSpelledOut(lines, 4 + |results| + 14 * i, results[i], secs(results[i].duration))
  {
    hide HistogramLine, LineAt, BucketSpelledOut;
    var readings := Readings(results, secs);
    var base := 4 + |results| + 14 * i;
    HistogramBlockAt(readings, i, 12);
    forall j | 0 <= j < 12
      ensures BucketSpelledOut(Document(readings), base, j, results[i], secs(results[i].duration))
    {
      HistogramBlockAt(readings, i, j);
      BucketLineSpelledOut(Document(readings), base, j, results[i], secs);
    }
    SumAndCountLines(readings[i]);
    HistogramBlockAt(readings, i, 13);
  }

  lemma HeadersSpelledOut(results: seq<Reading>)
    ensures var d, n := Document(results), |results|;
            && |d| == 4 + 15 * n
            && d[0] == Help("healthkit_check_healthiness",
                            "Health status of the check " + "(1 = healthy, 0.5 = degraded, " + "0 = unhealthy).")
            && d[1] == Type("healthkit_check_healthiness", "gauge")
            && d[2 + n] == Help("healthkit_check_duration_seconds", "Duration of the check " + "execution in seconds.")
            && d[3 + n] == Type("healthkit_check_duration_seconds", "histogram")
  {
    hide HistogramAt, GaugeLine;
  }

  /** From the text alone, for every list of results and every conversion of
      durations: the lines of the source, each with the name, the status, the
      seconds and the buckets of its own result. */
  lemma {:induction false} RenderSpelledOut(results: seq<CheckResult>, secs: AsSecs)
    ensures var parsed := Parse(Render(Readings(results, secs)));
            parsed.Some? && SpelledOut(parsed.value, results, secs)
  {
    hide Document, Render, Parse, HistogramSpelledOut;
    var readings := Readings(results, secs);
    RenderParses(readings);
    HeadersSpelledOut(readings);
    forall i | 0 <= i < |results| ensures GaugeSpelledOut(Document(readings)[2 + i], results[i]) {
      GaugeLineAt(readings, i);
    }
    forall i | 0 <= i < |results|
      ensures 4 + |results| + 14 * i + 14 <= |Document(readings)|
      ensures HistogramSpelledOut(Document(readings), 4 + |results| + 14 * i, results[i], secs(results[i].duration))
    {
      HistogramLinesSpelledOut(results, secs, i);
    }
  }

  /** ... and how each kind of line is written. */
  lemma DocumentedLines(name: string, le: string, x: Numeral)
    requires Escape(le) == le
    ensures Print(Sample("healthkit_check_healthiness", [Label("check", name)], x))
         == "healthkit_check_healthiness" + "{check=\"" + Escape(name) + "\"} " + PrintNumeral(x) + "\n"
    ensures Print(Sample("healthkit_check_duration_seconds_bucket", [Label("check", name), Label("le", le)], x))
         == "healthkit_check_duration_seconds_bucket" + "{check=\"" + Escape(name) + "\",le=\"" + le + "\"} "
          + PrintNumeral(x) + "\n"
    ensures Print(Help(name, le)) == "# HELP " + name + " " + le + "\n"
    ensures Print(Type(name, le)) == "# TYPE " + name + " " + le + "\n"
  {
    hide Escape, PrintNumeral;
    OneLabelPrints("healthkit_check_healthiness", name, x);
    TwoLabelsPrint("healthkit_check_duration_seconds_bucket", name, le, x);
  }

  /** Rendering is injective on what it reads... */
  lemma RenderReadsBack(a: seq<Reading>, b: seq<Reading>)
    requires Render(a) == Render(b)
    ensures a == b
  {
    hide Render, Parse, Recover, Observed;
    RenderRoundTrip(a);
    RenderRoundTrip(b);
    var seen := Recover(Parse(Render(a)).value);
    forall i | 0 <= i < |a| ensures a[i] == b[i] {
      assert seen[i] == Observed(a[i]) && seen[i] == Observed(b[i]);
      ObservedDetermines(a[i], b[i]);
    }
  }

  lemma ObservedDetermines(a: Reading, b: Reading)
    requires Observed(a) == Observed(b)
    ensures a == b
  {
  }

  /** ... so it tells two result lists apart exactly when they differ in length
      or in some name, status or printed duration, however durations are
      converted to seconds. */
  lemma {:induction false} RenderInjective(a: seq<CheckResult>, b: seq<CheckResult>, secs: AsSecs)
    ensures Render(Readings(a, secs)) == Render(Readings(b, secs)) <==>
            && |a| == |b|
            && forall i | 0 <= i < |a| ::
                 a[i].name == b[i].name && a[i].status == b[i].status
                 && PrintNumeral(secs(a[i].duration)) == PrintNumeral(secs(b[i].duration))
  {
    var x, y := Readings(a, secs), Readings(b, secs);
    if Render(x) == Render(y) {
      RenderReadsBack(x, y);
      assert forall i | 0 <= i < |a| :: x[i] == Read(a[i], secs) && y[i] == Read(b[i], secs);
    }
    if |a| == |b| && forall i | 0 <= i < |a| ::
         a[i].name == b[i].name && a[i].status == b[i].status
         && PrintNumeral(secs(a[i].duration)) == PrintNumeral(secs(b[i].duration))
    {
      forall i | 0 <= i < |a| ensures x[i] == y[i] {
        PrintNumeralInjective(secs(a[i].duration), secs(b[i].duration));
      }
      assert x == y;
    }
  }

  lemma PrintNumeralInjective(x: Numeral, y: Numeral)
    requires PrintNumeral(x) == PrintNumeral(y)
    ensures x == y
  {
    NumberRoundTrip(x, "");
    NumberRoundTrip(y, "");
  }

  /** Below one second the conversion rounds to the decimal of the nanoseconds,
      and there the text determines the durations themselves. */
  ghost predicate ExactBelowOneSecond(secs: AsSecs) {
    forall d: nat | d < BILLION :: secs(d) == Exact(d)
  }

  lemma {:induction false} RenderDeterminesDurations(a: seq<CheckResult>, b: seq<CheckResult>, secs: AsSecs, i: nat)
    requires ExactBelowOneSecond(secs) && Render(Readings(a, secs)) == Render(Readings(b, secs))
    requires i < |a| && i < |b| && a[i].duration < BILLION && b[i].duration < BILLION
    ensures a[i].duration == b[i].duration
  {
    RenderReadsBack(Readings(a, secs), Readings(b, secs));
    assert Readings(a, secs)[i] == Read(a[i], secs) && Readings(b, secs)[i] == Read(b[i], secs);
    ExactOrder(a[i].duration, b[i].duration);
  }

  // ------------------------------------------------------- layout of the text

  predicate InFamily(line: Line, base: string) {
    match line
    case Help(name, _) => name == base
    case Type(name, _) => name == base
    case Sample(name, _, _) =>
      name == base || name == base + "_bucket" || name == base + "_sum" || name == base + "_count"
  }

  lemma FamiliesDoNotInterleave(results: seq<Reading>, k: nat)
    requires k < 4 + 15 * |results|
    ensures InFamily(Document(results)[k], if k < 2 + |results| then GAUGE else HISTOGRAM)
    ensures Document(results)[k].Help? <==> k == 0 || k == 2 + |results|
    ensures Document(results)[k].Type? <==> k == 1 || k == 3 + |results|
  {
  }

  /** The physical text: 4 + 15n newline-terminated lines that parse to two
      uninterrupted families, each HELP, TYPE, then samples only. */
  lemma {:induction false} ExpositionLayout(results: seq<Reading>)
    ensures var text := Render(results);
            Newlines(text) == 4 + 15 * |results| && text != "" && text[|text| - 1] == '\n'
    ensures Parse(Render(results)).Some? && |Parse(Render(results)).value| == 4 + 15 * |results|
    ensures forall k: nat | k < 4 + 15 * |results| ::
              var line := Parse(Render(results)).value[k];
              && InFamily(line, if k < 2 + |results| then GAUGE else HISTOGRAM)
              && (line.Help? <==> k == 0 || k == 2 + |results|)
              && (line.Type? <==> k == 1 || k == 3 + |results|)
  {
    RenderParses(results);
    DocumentIsWellFormed(results);
    PhysicalLines(Document(results));
    forall k: nat | k < 4 + 15 * |results|
      ensures InFamily(Document(results)[k], if k < 2 + |results| then GAUGE else HISTOGRAM)
      ensures Document(results)[k].Help? <==> k == 0 || k == 2 + |results|
      ensures Document(results)[k].Type? <==> k == 1 || k == 3 + |results|
    {
      FamiliesDoNotInterleave(results, k);
    }
  }

  /** A single observation's histogram: each bucket counts it exactly when its
      seconds are within the bound, counts never decrease along the bounds, and
      the +Inf bucket agrees with the total. */
  lemma HistogramIsCumulative(r: Reading, j: nat, k: nat)
    requires j <= k < 12
    ensures j < 11 ==> (Observed(r).buckets[j] == ONE <==> Magnitude(r.seconds) * BILLION as real <= BUCKETS[j] as real)
    ensures Observed(r).buckets[j] == ONE ==> Observed(r).buckets[k] == ONE
    ensures Observed(r).buckets[11] == Observed(r).count
  {
    hide Magnitude, Exact;
    if j < 11 {
      ExactMagnitude(BUCKETS[j]);
    }
    if k < 11 {
      ExactMagnitude(BUCKETS[k]);
      BoundsIncrease(j, k);
    }
  }

  lemma BoundsIncrease(j: nat, k: nat)
    requires j <= k < 11
    ensures j < k ==> BUCKETS[j] < BUCKETS[k]
  {
  }

  /** A conversion that rounds, but keeps the order, hits the bucket bounds and
      still sees one nanosecond beyond them; `as_secs_f64` does. */
  ghost predicate RoundsGently(secs: AsSecs) {
    && (forall d: nat, e: nat | d <= e :: AtMost(secs(d), secs(e)))
    && forall j | 0 <= j < 11 ::
         && Magnitude(secs(BUCKETS[j])) == Magnitude(Exact(BUCKETS[j]))
         && !AtMost(secs(BUCKETS[j] + 1), Exact(BUCKETS[j]))
  }

  /** Then the rounding never moves an observation across a bound: the buckets
      count the durations themselves. */
  lemma {:induction false} BucketsCountDurations(r: CheckResult, secs: AsSecs, j: nat)
    requires RoundsGently(secs) && j < 11
    ensures Observed(Read(r, secs)).buckets[j] == ONE <==> r.duration <= BUCKETS[j]
  {
    if r.duration <= BUCKETS[j] {
      assert AtMost(secs(r.duration), secs(BUCKETS[j]));
    } else {
      assert AtMost(secs(BUCKETS[j] + 1), secs(r.duration));
    }
  }

  /** The exact conversion is one of them. */
  lemma ExactRoundsGently()
    ensures RoundsGently(Exact)
  {
    hide Magnitude, Exact;
    forall d: nat, e: nat | d <= e ensures AtMost(Exact(d), Exact(e)) {
      ExactOrder(d, e);
    }
    forall j | 0 <= j < 11 ensures !AtMost(Exact(BUCKETS[j] + 1), Exact(BUCKETS[j])) {
      ExactOrder(BUCKETS[j] + 1, BUCKETS[j]);
    }
  }

  // -------------------------------------------------------------- uniqueness

  ghost predicate DistinctNames(results: seq<Reading>) {
    forall i, j | 0 <= i < j < |results| :: results[i].name != results[j].name
  }

  predicate SameSeries(a: Line, b: Line) {
    a.Sample? && b.Sample? && a.name == b.name && a.labels == b.labels
  }

  ghost predicate DistinctSeries(lines: seq<Line>) {
    forall i, j | 0 <= i < j < |lines| :: !SameSeries(lines[i], lines[j])
  }

  lemma BoundsDiffer(j: nat, k: nat)
    requires j < k < 12
    ensures BucketBound(j) != BucketBound(k)
  {
    if k < 11 {
      BoundsIncrease(j, k);
      if BucketBound(j) == BucketBound(k) {
        PrintNumeralInjective(Exact(BUCKETS[j]), Exact(BUCKETS[k]));
        ExactOrder(BUCKETS[j], BUCKETS[k]);
      }
    } else {
      assert IsDigitChar(PrintNumber(BUCKETS[j])[0]);
    }
  }

  /** Two lines of the histogram family belong to one series only if they are
      the same line of results with the same name. */
  lemma HistogramSeries(r: Reading, j: nat, q: Reading, k: nat)
    requires j < 14 && k < 14
    ensures SameSeries(HistogramLine(r, j), HistogramLine(q, k)) ==> r.name == q.name && j == k
  {
    Suffixes();
    if j < 12 && k < 12 && j != k {
      BoundsDiffer(if j < k then j else k, if j < k then k else j);
    }
  }

  lemma Suffixes()
    ensures GAUGE != HISTOGRAM + "_bucket" && GAUGE != HISTOGRAM + "_sum" && GAUGE != HISTOGRAM + "_count"
    ensures HISTOGRAM + "_bucket" != HISTOGRAM + "_sum" && HISTOGRAM + "_bucket" != HISTOGRAM + "_count"
    ensures HISTOGRAM + "_sum" != HISTOGRAM + "_count"
  {
    assert (HISTOGRAM + "_bucket")[33] == 'b' && (HISTOGRAM + "_sum")[33] == 's' && (HISTOGRAM + "_count")[33] == 'c';
    assert |HISTOGRAM + "_bucket"| == 39 && |HISTOGRAM + "_sum"| == 36 && |HISTOGRAM + "_count"| == 38 && |GAUGE| == 27;
  }

  lemma DistinctGaugeLines(results: seq<Reading>, x: nat, y: nat)
    requires DistinctNames(results) && x < y < 4 + 15 * |results| && x < 4 + |results|
    ensures !SameSeries(LineAt(results, x), LineAt(results, y))
  {
    Suffixes();
  }

  lemma DifferentPlaces(u: nat, v: nat)
    requires u < v
    ensures u / 14 <= v / 14 && (u / 14 == v / 14 ==> u % 14 != v % 14)
  {
  }

  lemma DistinctHistogramLines(results: seq<Reading>, x: nat, y: nat)
    requires DistinctNames(results) && 4 + |results| <= x < y < 4 + 15 * |results|
    ensures !SameSeries(LineAt(results, x), LineAt(results, y))
  {
    hide HistogramLine;
    var u, v := x - 4 - |results|, y - 4 - |results|;
    DifferentPlaces(u, v);
    HistogramSeries(results[u / 14], u % 14, results[v / 14], v % 14);
  }

  lemma DistinctNamesGiveDistinctSeries(results: seq<Reading>)
    requires DistinctNames(results)
    ensures DistinctSeries(Document(results))
  {
    forall x, y | 0 <= x < y < |Document(results)| ensures !SameSeries(Document(results)[x], Document(results)[y]) {
      if x < 4 + |results| {
        DistinctGaugeLines(results, x, y);
      } else {
        DistinctHistogramLines(results, x, y);
      }
    }
  }

  lemma RepeatedNameRepeatsSeries(results: seq<Reading>, i: nat, j: nat)
    requires i < j < |results| && results[i].name == results[j].name
    ensures SameSeries(Document(results)[2 + i], Document(results)[2 + j])
  {
    assert Document(results)[2 + i] == GaugeLine(results[i]);
    assert Document(results)[2 + j] == GaugeLine(results[j]);
  }

  /** Every sample of a scrape has its own series exactly when the check names
      are pairwise distinct; the registry itself does not ask for that. */
  lemma {:induction false} SeriesUniqueness(results: seq<Reading>)
    ensures Parse(Render(results)).Some?
    ensures DistinctSeries(Parse(Render(results)).value) <==> DistinctNames(results)
  {
    RenderParses(results);
    if DistinctNames(results) {
      DistinctNamesGiveDistinctSeries(results);
    } else {
      var i, j :| 0 <= i < j < |results| && results[i].name == results[j].name;
      RepeatedNameRepeatsSeries(results, i, j);
    }
  }
}
