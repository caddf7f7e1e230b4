/** The Prometheus text exposition format, version 0.0.4: its lines, their
    printed form and a reader for it. A value is the decimal numeral that is
    printed for it, of any length: distinct floats print distinct numerals, in
    the same order, so the numeral stands for the float. */
module Exposition {
  import opened Types
  import opened Decimal

  const BILLION: nat := 1_000_000_000

  datatype Label = Label(key: string, value: string)

  datatype Line =
    | Help(name: string, text: string)
    | Type(name: string, kind: string)
    | Sample(name: string, labels: seq<Label>, value: Numeral)

  /** Digits before and after the decimal point, the point itself being left out
      when nothing follows it. */
  datatype Decimals = Decimals(whole: seq<Digit>, frac: seq<Digit>)

  type Numeral = x: Decimals | x.whole != [] witness Decimals([0], [])

  function Magnitude(x: Numeral): real {
    Value(x.whole) as real + FractionValue(x.frac)
  }

  predicate AtMost(x: Numeral, y: Numeral) {
    Magnitude(x) <= Magnitude(y)
  }

  // ------------------------------------------------------------- label values

  function EscapeChar(c: char): string {
    if c == '\\' then "\\\\" else if c == '\"' then "\\\"" else if c == '\n' then "\\n" else [c]
  }

  function Escape(s: string): string {
    if s == "" then "" else EscapeChar(s[0]) + Escape(s[1..])
  }

  lemma {:induction false} EscapeAppend(a: string, b: string)
    ensures Escape(a + b) == Escape(a) + Escape(b)
    decreases a
  {
    if a == "" {
      assert a + b == b;
    } else {
      assert (a + b)[1..] == a[1..] + b;
      EscapeAppend(a[1..], b);
    }
  }

  method EscapeLabel(value: string) returns (out: string)
    ensures out == Escape(value)
  {
    out := "";
    for i := 0 to |value|
      invariant out == Escape(value[..i])
    {
      EscapeAppend(value[..i], [value[i]]);
      assert Escape([value[i]]) == EscapeChar(value[i]) + Escape([value[i]][1..]);
      assert value[..i + 1] == value[..i] + [value[i]];
      match value[i]
      case '\\' => out := out + "\\\\";
      case '\"' => out := out + "\\\"";
      case '\n' => out := out + "\\n";
      case _ => out := out + [value[i]];
    }
    assert value[..|value|] == value;
  }

  lemma FirstEscape(plain: string, c: char, rest: string)
    requires forall i | 0 <= i < |plain| :: plain[i] != '\\' && plain[i] != '\"' && plain[i] != '\n'
    ensures Escape(plain + [c] + rest) == plain + EscapeChar(c) + Escape(rest)
  {
    EscapePlain(plain);
    EscapeAppend(plain, [c] + rest);
    assert plain + [c] + rest == plain + ([c] + rest);
    assert ([c] + rest)[1..] == rest;
  }

  /** The escapes as the format writes them: backslash, quote and newline, and
      nothing else. */
  lemma DocumentedEscapes(a: string, b: string)
    requires forall i | 0 <= i < |a| :: a[i] != '\\' && a[i] != '\"' && a[i] != '\n'
    ensures Escape(a) == a
    ensures Escape(a + "\\" + b) == a + "\\\\" + Escape(b)
    ensures Escape(a + "\"" + b) == a + "\\\"" + Escape(b)
    ensures Escape(a + "\n" + b) == a + "\\n" + Escape(b)
  {
    EscapePlain(a);
    FirstEscape(a, '\\', b);
    FirstEscape(a, '\"', b);
    FirstEscape(a, '\n', b);
  }

  /** Nothing to escape, nothing changed. */
  lemma {:induction false} EscapePlain(s: string)
    requires forall i | 0 <= i < |s| :: s[i] != '\\' && s[i] != '\"' && s[i] != '\n'
    ensures Escape(s) == s
    decreases s
  {
    if s == "" {
    } else {
      EscapePlain(s[1..]);
      assert s == [s[0]] + s[1..];
    }
  }

  /** Reads a label value up to its closing quote: the value and what follows
      the quote. A raw newline, an unknown escape or a missing quote fails. */
  function ScanValue(s: string): (r: Option<(string, string)>)
    ensures r.Some? ==> |r.value.1| < |s|
  {
    if s == "" || s[0] == '\n' then None
    else if s[0] == '\"' then Some(("", s[1..]))
    else if s[0] == '\\' then
      if |s| == 1 then None
      else
        var c :- if s[1] == '\\' || s[1] == '\"' then Some(s[1])
                 else if s[1] == 'n' then Some('\n') else None;
        var (v, rest) :- ScanValue(s[2..]);
        Some(([c] + v, rest))
    else
      var (v, rest) :- ScanValue(s[1..]);
      Some(([s[0]] + v, rest))
  }

  lemma {:induction false} ScanReadsEscape(v: string, rest: string)
    ensures ScanValue(Escape(v) + "\"" + rest) == Some((v, rest))
    decreases v
  {
    var s := Escape(v) + "\"" + rest;
    if v == "" {
      assert s == "\"" + rest && s[1..] == rest;
    } else {
      var tail := Escape(v[1..]) + "\"" + rest;
      var n := |EscapeChar(v[0])|;
      assert s == EscapeChar(v[0]) + tail;
      assert s[n..] == tail;
      ScanReadsEscape(v[1..], rest);
      assert v == [v[0]] + v[1..];
    }
  }

  lemma {:induction false} ScanShape(s: string)
    requires ScanValue(s).Some?
    ensures s == Escape(ScanValue(s).value.0) + "\"" + ScanValue(s).value.1
    decreases s
  {
    var v := ScanValue(s).value.0;
    if s[0] == '\"' {
      assert s == "\"" + s[1..];
    } else {
      var n := if s[0] == '\\' then 2 else 1;
      ScanShape(s[n..]);
      assert v[1..] == ScanValue(s[n..]).value.0;
      assert s == s[..n] + s[n..] && s[..n] == EscapeChar(v[0]);
    }
  }

  /** The reader ends a value at the quote the writer put there, and at no
      other: it accepts exactly the escaped values, each with one meaning. */
  lemma ScanExactness(s: string, v: string, rest: string)
    ensures ScanValue(s) == Some((v, rest)) <==> s == Escape(v) + "\"" + rest
  {
    if ScanValue(s) == Some((v, rest)) {
      ScanShape(s);
    }
    if s == Escape(v) + "\"" + rest {
      ScanReadsEscape(v, rest);
    }
  }

  lemma EscapeInjective(a: string, b: string)
    requires Escape(a) == Escape(b)
    ensures a == b
  {
    ScanReadsEscape(a, "");
    ScanReadsEscape(b, "");
  }

  // ------------------------------------------------------------------ numbers

  function DigitChar(d: Digit): char {
    '0' + d as char
  }

  function AsChars(ds: seq<Digit>): string {
    seq(|ds|, i requires 0 <= i < |ds| => DigitChar(ds[i]))
  }

  lemma BillionthsFit(f: nat)
    requires f < BILLION
    ensures f < Pow10(9)
  {
    assert Pow10(4) == 10_000;
    assert Pow10(9) == BILLION;
  }

  function FractionDigits(f: nat): (ds: seq<Digit>)
    requires f < BILLION
    ensures |ds| <= 9
    ensures ds == [] <==> f == 0
  {
    BillionthsFit(f);
    Fraction(f, 9)
  }

  /** The numeral of `n` billionths, written out exactly. */
  function Exact(n: nat): Numeral {
    Decimals(Digits(n / BILLION), FractionDigits(n % BILLION))
  }

  lemma ExactMagnitude(n: nat)
    ensures Magnitude(Exact(n)) * BILLION as real == n as real
  {
    hide Digits, Fraction;
    var w, f := n / BILLION, n % BILLION;
    BillionthsFit(f);
    FractionIsExact(f, 9);
    assert Pow10(4) == 10_000;
    assert Pow10(9) == BILLION;
    assert n == w * BILLION + f;
    assert Magnitude(Exact(n)) == w as real + FractionValue(FractionDigits(f));
  }

  /** Exact numerals order, and so tell apart, the durations they are made of. */
  lemma ExactOrder(m: nat, n: nat)
    ensures AtMost(Exact(m), Exact(n)) <==> m <= n
    ensures Exact(m) == Exact(n) <==> m == n
  {
    hide Exact, Magnitude;
    ExactMagnitude(m);
    ExactMagnitude(n);
  }

  function PrintFraction(ds: seq<Digit>): string {
    if ds == [] then "" else "." + AsChars(ds)
  }

  function PrintNumeral(x: Numeral): string {
    AsChars(x.whole) + PrintFraction(x.frac)
  }

  predicate IsDigitChar(c: char) {
    '0' <= c <= '9'
  }

  lemma NumeralChars(x: Numeral, i: nat)
    requires i < |PrintNumeral(x)|
    ensures IsDigitChar(PrintNumeral(x)[i]) || PrintNumeral(x)[i] == '.'
  {
    if i < |x.whole| {
      assert PrintNumeral(x)[i] == AsChars(x.whole)[i];
    } else {
      assert PrintNumeral(x)[i] == PrintFraction(x.frac)[i - |x.whole|];
    }
  }

  function SplitDigits(s: string): (r: (seq<Digit>, string))
    ensures |r.0| + |r.1| == |s|
  {
    if s == "" || !IsDigitChar(s[0]) then ([], s)
    else
      var (ds, rest) := SplitDigits(s[1..]);
      ([(s[0] - '0') as nat] + ds, rest)
  }

  function ScanNumber(s: string): (r: Option<(Numeral, string)>)
    ensures r.Some? ==> |r.value.1| < |s|
  {
    var (whole, rest) := SplitDigits(s);
    if whole == [] then None else ScanFraction(whole, rest)
  }

  function ScanFraction(whole: seq<Digit>, s: string): (r: Option<(Numeral, string)>)
    requires whole != []
    ensures r.Some? ==> |r.value.1| <= |s|
  {
    if s == "" || s[0] != '.' then Some((Decimals(whole, []), s))
    else
      var (frac, tail) := SplitDigits(s[1..]);
      if frac == [] then None else Some((Decimals(whole, frac), tail))
  }

  lemma {:induction false} SplitReadsDigits(ds: seq<Digit>, rest: string)
    requires rest == "" || !IsDigitChar(rest[0])
    ensures SplitDigits(AsChars(ds) + rest) == (ds, rest)
    decreases ds
  {
    if ds == [] {
      assert AsChars(ds) + rest == rest;
    } else {
      SplitReadsDigits(ds[1..], rest);
      assert (AsChars(ds) + rest)[1..] == AsChars(ds[1..]) + rest;
      assert ds == [ds[0]] + ds[1..];
    }
  }

  lemma ScansFraction(whole: seq<Digit>, frac: seq<Digit>, rest: string)
    requires whole != [] && frac != [] && (rest == "" || !IsDigitChar(rest[0]))
    ensures ScanFraction(whole, "." + (AsChars(frac) + rest)) == Some((Decimals(whole, frac), rest))
  {
    SplitReadsDigits(frac, rest);
    assert ("." + (AsChars(frac) + rest))[1..] == AsChars(frac) + rest;
  }

  /** Reading back a printed number, up to the byte that follows it. */
  lemma NumberRoundTrip(x: Numeral, rest: string)
    requires rest == "" || (rest[0] != '.' && !IsDigitChar(rest[0]))
    ensures ScanNumber(PrintNumeral(x) + rest) == Some((x, rest))
  {
    if x.frac == [] {
      SplitReadsDigits(x.whole, rest);
      assert PrintNumeral(x) + rest == AsChars(x.whole) + rest;
    } else {
      var tail := "." + (AsChars(x.frac) + rest);
      SplitReadsDigits(x.whole, tail);
      ScansFraction(x.whole, x.frac, rest);
      assert PrintNumeral(x) + rest == AsChars(x.whole) + tail;
    }
  }

  // ------------------------------------------------------------------- names

  predicate IsNameChar(c: char) {
    'a' <= c <= 'z' || 'A' <= c <= 'Z' || '0' <= c <= '9' || c == '_'
  }

  predicate IsName(s: string) {
    s != "" && forall c | c in s :: IsNameChar(c)
  }

  function SplitName(s: string): (r: (string, string))
    ensures |r.0| + |r.1| == |s|
  {
    if s == "" || !IsNameChar(s[0]) then ("", s)
    else var (n, rest) := SplitName(s[1..]); ([s[0]] + n, rest)
  }

  lemma {:induction false} SplitReadsName(name: string, rest: string)
    requires forall c | c in name :: IsNameChar(c)
    requires rest == "" || !IsNameChar(rest[0])
    ensures SplitName(name + rest) == (name, rest)
    decreases name
  {
    if name == "" {
      assert name + rest == rest;
    } else {
      SplitReadsName(name[1..], rest);
      assert (name + rest)[1..] == name[1..] + rest;
      assert name == [name[0]] + name[1..];
    }
  }

  // ------------------------------------------------------------------- lines

  function PrintLabel(l: Label): string {
    l.key + "=\"" + Escape(l.value) + "\""
  }

  function PrintLabels(labels: seq<Label>): string
    requires labels != []
    decreases labels
  {
    PrintLabel(labels[0]) +
    if |labels| == 1 then "}" else "," + PrintLabels(labels[1..])
  }

  function PrintLabelBlock(labels: seq<Label>): string {
    if labels == [] then "" else "{" + PrintLabels(labels)
  }

  function Print(line: Line): string {
    match line
    case Help(name, text) => "# HELP " + name + " " + text + "\n"
    case Type(name, kind) => "# TYPE " + name + " " + kind + "\n"
    case Sample(name, labels, value) =>
      name + PrintLabelBlock(labels) + " " + PrintNumeral(value) + "\n"
  }

  function PrintAll(lines: seq<Line>): string {
    if lines == [] then "" else Print(lines[0]) + PrintAll(lines[1..])
  }

  /** What may be printed: names are names, help text stays on its line. */
  predicate WellFormed(line: Line) {
    match line
    case Help(name, text) => IsName(name) && '\n' !in text
    case Type(name, kind) => IsName(name) && IsName(kind)
    case Sample(name, labels, _) => IsName(name) && forall l | l in labels :: IsName(l.key)
  }

  function SplitLine(s: string): (r: Option<(string, string)>)
    ensures r.Some? ==> |r.value.0| + |r.value.1| < |s|
  {
    if s == "" then None
    else if s[0] == '\n' then Some(("", s[1..]))
    else var (text, rest) :- SplitLine(s[1..]); Some(([s[0]] + text, rest))
  }

  /** Consumes one expected piece of text. */
  function Expect(s: string, prefix: string): (r: Option<string>)
    ensures r.Some? ==> s == prefix + r.value
  {
    if prefix <= s then Some(s[|prefix|..]) else None
  }

  function ScanLabel(s: string): (r: Option<(Label, string)>)
    ensures r.Some? ==> |r.value.1| < |s|
  {
    var (key, afterKey) := SplitName(s);
    var quoted :- Expect(afterKey, "=\"");
    var (value, rest) :- ScanValue(quoted);
    if key == "" then None else Some((Label(key, value), rest))
  }

  function ScanLabels(s: string): (r: Option<(seq<Label>, string)>)
    ensures r.Some? ==> |r.value.1| < |s|
    decreases |s|
  {
    var (first, rest) :- ScanLabel(s);
    if rest == "" then None
    else if rest[0] == '}' then Some(([first], rest[1..]))
    else if rest[0] == ',' then
      var (more, tail) :- ScanLabels(rest[1..]);
      Some(([first] + more, tail))
    else None
  }

  function ParseHelp(s: string): (r: Option<(Line, string)>)
    ensures r.Some? ==> |r.value.1| < |s|
  {
    var (name, rest) := SplitName(s);
    var body :- Expect(rest, " ");
    var (text, tail) :- SplitLine(body);
    if name == "" then None else Some((Help(name, text), tail))
  }

  function ParseType(s: string): (r: Option<(Line, string)>)
    ensures r.Some? ==> |r.value.1| < |s|
  {
    var (name, rest) := SplitName(s);
    var body :- Expect(rest, " ");
    var (kind, end) := SplitName(body);
    var tail :- Expect(end, "\n");
    if name == "" || kind == "" then None else Some((Type(name, kind), tail))
  }

  function ParseSample(s: string): (r: Option<(Line, string)>)
    ensures r.Some? ==> |r.value.1| < |s|
  {
    var (name, rest) := SplitName(s);
    var (labels, body) :- ScanLabelBlock(rest);
    var (value, tail) :- ParseValue(body);
    if name == "" then None else Some((Sample(name, labels, value), tail))
  }

  function ScanLabelBlock(s: string): (r: Option<(seq<Label>, string)>)
    ensures r.Some? ==> |r.value.1| <= |s|
  {
    if s != "" && s[0] == '{' then ScanLabels(s[1..]) else Some(([], s))
  }

  function ParseValue(s: string): (r: Option<(Numeral, string)>)
    ensures r.Some? ==> |r.value.1| < |s|
  {
    var number :- Expect(s, " ");
    var (value, end) :- ScanNumber(number);
    var tail :- Expect(end, "\n");
    Some((value, tail))
  }

  function ParseLine(s: string): (r: Option<(Line, string)>)
    ensures r.Some? ==> |r.value.1| < |s|
  {
    if "# HELP " <= s then ParseHelp(s[7..])
    else if "# TYPE " <= s then ParseType(s[7..])
    else ParseSample(s)
  }

  function Parse(s: string): Option<seq<Line>>
    decreases |s|
  {
    if s == "" then Some([])
    else
      var (line, rest) :- ParseLine(s);
      var lines :- Parse(rest);
      Some([line] + lines)
  }

  // -------------------------------------------------------------- round trip

  lemma ExpectFinds(prefix: string, rest: string)
    ensures Expect(prefix + rest, prefix) == Some(rest)
  {
    assert (prefix + rest)[|prefix|..] == rest;
  }

  lemma {:induction false} SplitReadsLine(text: string, rest: string)
    requires '\n' !in text
    ensures SplitLine(text + "\n" + rest) == Some((text, rest))
    decreases text
  {
    if text == "" {
      assert text + "\n" + rest == "\n" + rest;
      assert ("\n" + rest)[1..] == rest;
    } else {
      SplitReadsLine(text[1..], rest);
      assert (text + "\n" + rest)[1..] == text[1..] + "\n" + rest;
      assert text == [text[0]] + text[1..];
    }
  }

  lemma LabelRoundTrip(l: Label, rest: string)
    requires IsName(l.key)
    ensures ScanLabel(PrintLabel(l) + rest) == Some((l, rest))
  {
    var quoted := Escape(l.value) + "\"" + rest;
    assert PrintLabel(l) + rest == l.key + ("=\"" + quoted);
    SplitReadsName(l.key, "=\"" + quoted);
    ExpectFinds("=\"", quoted);
    ScanReadsEscape(l.value, rest);
  }

  lemma {:induction false} LabelsRoundTrip(labels: seq<Label>, rest: string)
    requires labels != [] && forall l | l in labels :: IsName(l.key)
    ensures ScanLabels(PrintLabels(labels) + rest) == Some((labels, rest))
    decreases labels
  {
    if |labels| == 1 {
      var end := "}" + rest;
      assert PrintLabels(labels) + rest == PrintLabel(labels[0]) + end;
      LabelRoundTrip(labels[0], end);
      assert end[1..] == rest && labels == [labels[0]];
    } else {
      var end := "," + (PrintLabels(labels[1..]) + rest);
      assert PrintLabels(labels) + rest == PrintLabel(labels[0]) + end;
      LabelRoundTrip(labels[0], end);
      LabelsRoundTrip(labels[1..], rest);
      assert end[1..] == PrintLabels(labels[1..]) + rest;
      assert labels == [labels[0]] + labels[1..];
    }
  }

  lemma HelpRoundTrip(name: string, text: string, rest: string)
    requires WellFormed(Help(name, text))
    ensures ParseHelp(name + " " + text + "\n" + rest) == Some((Help(name, text), rest))
  {
    var body := text + "\n" + rest;
    assert name + " " + text + "\n" + rest == name + (" " + body);
    SplitReadsName(name, " " + body);
    ExpectFinds(" ", body);
    SplitReadsLine(text, rest);
  }

  lemma TypeRoundTrip(name: string, kind: string, rest: string)
    requires WellFormed(Type(name, kind))
    ensures ParseType(name + " " + kind + "\n" + rest) == Some((Type(name, kind), rest))
  {
    var body := kind + ("\n" + rest);
    assert name + " " + kind + "\n" + rest == name + (" " + body);
    SplitReadsName(name, " " + body);
    ExpectFinds(" ", body);
    SplitReadsName(kind, "\n" + rest);
    ExpectFinds("\n", rest);
  }

  lemma ValueRoundTrip(value: Numeral, rest: string)
    ensures ParseValue(" " + (PrintNumeral(value) + ("\n" + rest))) == Some((value, rest))
  {
    ExpectFinds(" ", PrintNumeral(value) + ("\n" + rest));
    NumberRoundTrip(value, "\n" + rest);
    ExpectFinds("\n", rest);
  }

  lemma BlockOpens(inner: string)
    ensures ScanLabelBlock("{" + inner) == ScanLabels(inner)
  {
    assert ("{" + inner)[1..] == inner;
  }

  lemma LabelBlockRoundTrip(labels: seq<Label>, rest: string)
    requires (forall l | l in labels :: IsName(l.key)) && rest != "" && rest[0] != '{'
    ensures ScanLabelBlock(PrintLabelBlock(labels) + rest) == Some((labels, rest))
  {
    if labels == [] {
      assert PrintLabelBlock(labels) + rest == rest;
    } else {
      LabelsRoundTrip(labels, rest);
      BlockOpens(PrintLabels(labels) + rest);
      assert PrintLabelBlock(labels) + rest == "{" + (PrintLabels(labels) + rest);
    }
  }

  lemma SampleParts(s: string, name: string, labels: seq<Label>, value: Numeral, body: string, rest: string)
    requires name != "" && SplitName(s).0 == name && ScanLabelBlock(SplitName(s).1) == Some((labels, body))
    requires ParseValue(body) == Some((value, rest))
    ensures ParseSample(s) == Some((Sample(name, labels, value), rest))
  {
  }

  lemma Regroup(name: string, block: string, number: string, rest: string)
    ensures name + block + " " + number + "\n" + rest == name + (block + (" " + (number + ("\n" + rest))))
  {
  }

  lemma SampleRoundTrip(name: string, labels: seq<Label>, value: Numeral, rest: string)
    requires WellFormed(Sample(name, labels, value))
    ensures ParseSample(Print(Sample(name, labels, value)) + rest) == Some((Sample(name, labels, value), rest))
  {
    var body := " " + (PrintNumeral(value) + ("\n" + rest));
    var block := PrintLabelBlock(labels);
    Regroup(name, block, PrintNumeral(value), rest);
    SplitReadsName(name, block + body) by {
      if labels != [] {
        assert (block + body)[0] == '{';
      }
    }
    LabelBlockRoundTrip(labels, body);
    ValueRoundTrip(value, rest);
    SampleParts(name + (block + body), name, labels, value, body, rest);
  }

  lemma NotAComment(s: string)
    requires s != "" && s[0] != '#'
    ensures ParseLine(s) == ParseSample(s)
  {
    assert "# HELP "[0] == '#' && "# TYPE "[0] == '#';
  }

  lemma CommentLines(s: string)
    ensures ParseLine("# HELP " + s) == ParseHelp(s)
    ensures ParseLine("# TYPE " + s) == ParseType(s)
  {
    ExpectFinds("# HELP ", s);
    ExpectFinds("# TYPE ", s);
    assert ("# TYPE " + s)[2] == 'T' && "# HELP "[2] == 'H';
  }

  lemma CommentRoundTrip(line: Line, rest: string)
    requires WellFormed(line) && !line.Sample?
    ensures ParseLine(Print(line) + rest) == Some((line, rest))
  {
    if line.Help? {
      var s := line.name + " " + line.text + "\n" + rest;
      assert Print(line) + rest == "# HELP " + s;
      CommentLines(s);
      HelpRoundTrip(line.name, line.text, rest);
    } else {
      var s := line.name + " " + line.kind + "\n" + rest;
      assert Print(line) + rest == "# TYPE " + s;
      CommentLines(s);
      TypeRoundTrip(line.name, line.kind, rest);
    }
  }

  lemma LineRoundTrip(line: Line, rest: string)
    requires WellFormed(line)
    ensures ParseLine(Print(line) + rest) == Some((line, rest))
  {
    if line.Sample? {
      assert (Print(line) + rest)[0] == line.name[0] && line.name[0] in line.name;
      NotAComment(Print(line) + rest);
      SampleRoundTrip(line.name, line.labels, line.value, rest);
    } else {
      CommentRoundTrip(line, rest);
    }
  }

  lemma ParseStep(s: string, line: Line, rest: string, lines: seq<Line>)
    requires ParseLine(s) == Some((line, rest)) && Parse(rest) == Some(lines)
    ensures Parse(s) == Some([line] + lines)
  {
  }

  /** Every printed exposition is read back line for line. */
  lemma {:induction false} ExpositionRoundTrip(lines: seq<Line>)
    requires forall l | l in lines :: WellFormed(l)
    ensures Parse(PrintAll(lines)) == Some(lines)
    decreases lines
  {
    if lines == [] {
    } else {
      LineRoundTrip(lines[0], PrintAll(lines[1..]));
      ExpositionRoundTrip(lines[1..]);
      ParseStep(PrintAll(lines), lines[0], PrintAll(lines[1..]), lines[1..]);
      assert lines == [lines[0]] + lines[1..];
    }
  }

  lemma {:induction false} PrintAllAppend(a: seq<Line>, b: seq<Line>)
    ensures PrintAll(a + b) == PrintAll(a) + PrintAll(b)
    decreases a
  {
    if a == [] {
      assert a + b == b;
    } else {
      assert (a + b)[1..] == a[1..] + b;
      PrintAllAppend(a[1..], b);
    }
  }

  // -------------------------------------------------------- physical lines

  function Newlines(s: string): nat {
    if s == "" then 0 else (if s[0] == '\n' then 1 else 0) + Newlines(s[1..])
  }

  lemma {:induction false} NewlinesAppend(a: string, b: string)
    ensures Newlines(a + b) == Newlines(a) + Newlines(b)
    decreases a
  {
    if a == "" {
      assert a + b == b;
    } else {
      assert (a + b)[1..] == a[1..] + b;
      NewlinesAppend(a[1..], b);
    }
  }

  lemma {:induction false} NoNewlines(s: string)
    requires '\n' !in s
    ensures Newlines(s) == 0
    decreases s
  {
    if s == "" {
    } else {
      NoNewlines(s[1..]);
    }
  }

  /** Escaping leaves no raw newline behind. */
  lemma {:induction false} EscapedHasNoNewline(v: string)
    ensures '\n' !in Escape(v)
    decreases v
  {
    if v == "" {
    } else {
      EscapedHasNoNewline(v[1..]);
    }
  }

  lemma {:induction false} LabelsHaveNoNewline(labels: seq<Label>)
    requires labels != [] && forall l | l in labels :: IsName(l.key)
    ensures '\n' !in PrintLabels(labels)
    decreases labels
  {
    EscapedHasNoNewline(labels[0].value);
    assert labels[0] in labels;
    if |labels| > 1 {
      LabelsHaveNoNewline(labels[1..]);
    }
  }

  lemma NumberHasNoNewline(x: Numeral)
    ensures '\n' !in PrintNumeral(x)
  {
    forall i | 0 <= i < |PrintNumeral(x)| ensures PrintNumeral(x)[i] != '\n' {
      NumeralChars(x, i);
    }
  }

  lemma OneNewline(body: string)
    requires '\n' !in body
    ensures Newlines(body + "\n") == 1 && (body + "\n")[|body|] == '\n'
  {
    NoNewlines(body);
    NewlinesAppend(body, "\n");
  }

  lemma LabelBlockHasNoNewline(labels: seq<Label>)
    requires forall l | l in labels :: IsName(l.key)
    ensures '\n' !in PrintLabelBlock(labels)
  {
    if labels != [] {
      LabelsHaveNoNewline(labels);
    }
  }

  /** A printed line is one physical line, whatever its labels contain. */
  lemma OneNewlinePerLine(line: Line)
    requires WellFormed(line)
    ensures Newlines(Print(line)) == 1 && Print(line) != "" && Print(line)[|Print(line)| - 1] == '\n'
  {
    match line
    case Help(name, text) => OneNewline("# HELP " + name + " " + text);
    case Type(name, kind) => OneNewline("# TYPE " + name + " " + kind);
    case Sample(name, labels, value) =>
      NumberHasNoNewline(value);
      LabelBlockHasNoNewline(labels);
      OneNewline(name + PrintLabelBlock(labels) + " " + PrintNumeral(value));
  }

  lemma {:induction false} PhysicalLines(lines: seq<Line>)
    requires forall l | l in lines :: WellFormed(l)
    ensures Newlines(PrintAll(lines)) == |lines|
    ensures lines != [] ==> PrintAll(lines) != "" && PrintAll(lines)[|PrintAll(lines)| - 1] == '\n'
    decreases lines
  {
    if lines == [] {
    } else {
      OneNewlinePerLine(lines[0]);
      PhysicalLines(lines[1..]);
      NewlinesAppend(Print(lines[0]), PrintAll(lines[1..]));
    }
  }
}
