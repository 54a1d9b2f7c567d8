/** The reading classifier of the InHand signal-level script: the threshold
    table per measure, the reading parser, the first-match band lookup, the
    tooltip text and the rule for the badge text. */
module Signals {
  import opened Wrappers
  import opened Text
  import opened Numerals

  /** One row of a threshold table: a reading at or above `min` that no
      earlier row took gets `desc` and `color`. */
  datatype Band = Band(desc: string, min: int, color: string)

  /** What the lookup reports for a reading. */
  datatype Label = Label(desc: string, color: string)

  /** The threshold tables of `measureConfigs`, best band first. */
  const SIGNAL_STRENGTH_BANDS: seq<Band> := [
    Band("Green (21–30)", 21, "#28a745"),
    Band("Yellow (11–20)", 11, "#FF9800"),
    Band("Red (0–10)", 0, "#dc3545")]
  const RSSI_BANDS: seq<Band> := [
    Band("Excellent (≥ -67)", -67, "#006400"),
    Band("Good (≥ -80)", -80, "#28a745"),
    Band("Fair (≥ -90)", -90, "#FF9800"),
    Band("Poor (< -90)", -9999, "#dc3545")]
  const RSRP_BANDS: seq<Band> := [
    Band("Excellent (≥ -80)", -80, "#006400"),
    Band("Good (≥ -90)", -90, "#28a745"),
    Band("Fair (≥ -100)", -100, "#FF9800"),
    Band("Poor (< -100)", -9999, "#dc3545")]
  const RSRQ_BANDS: seq<Band> := [
    Band("Good (≥ -10)", -10, "#28a745"),
    Band("Fair (≥ -15)", -15, "#FF9800"),
    Band("Poor (< -15)", -9999, "#dc3545")]
  const SINR_BANDS: seq<Band> := [
    Band("Excellent (≥ 20)", 20, "#006400"),
    Band("Good (≥ 13)", 13, "#28a745"),
    Band("Average (≥ 6)", 6, "#939F22"),
    Band("Low (≥ 0)", 0, "#EE6722"),
    Band("Very Low (< 0)", -9999, "#dc3545")]

  /** `measureConfigs[measureName]`: the threshold table of each measure;
      `None` stands for `undefined`. */
  function MeasureConfig(name: string): Option<seq<Band>> {
    if name == "Signal Strength" then Some(SIGNAL_STRENGTH_BANDS)
    else if name == "RSSI" then Some(RSSI_BANDS)
    else if name == "RSRP" then Some(RSRP_BANDS)
    else if name == "RSRQ" then Some(RSRQ_BANDS)
    else if name == "SINR" then Some(SINR_BANDS)
    else None
  }

  /** `measureExplanations[measureName]`: the help text of each measure. */
  function MeasureExplanation(name: string): Option<string> {
    if name == "Signal Strength" then Some("Signal Strength indicator (scale 0-30):\nShows cellular connection quality using the same color scheme as device LEDs. Higher values mean better connection.\n\nTo improve: Reposition the device higher up, closer to windows, or away from metal objects and concrete walls.")
    else if name == "RSSI" then Some("RSSI (Received Signal Strength Indicator):\nMeasures the power of the cellular signal in dBm. Closer to 0 means stronger signal, with -67dBm or better considered excellent.\n\nTo improve: Try different locations within your building, especially near windows facing the nearest cell tower.")
    else if name == "RSRP" then Some("RSRP (Reference Signal Received Power):\nIndicates the power of the 4G/LTE signal reaching your device. Similar to RSSI but more precise for LTE networks.\n\nTo improve: Move the device to a higher elevation and away from obstacles like thick walls or metal fixtures.")
    else if name == "RSRQ" then Some("RSRQ (Reference Signal Received Quality):\nShows the quality of the received signal, accounting for interference and noise. Higher values (closer to 0) indicate cleaner signal.\n\nTo improve: Move away from sources of interference like microwaves, Wi-Fi routers, and other electronic devices.")
    else if name == "SINR" then Some("SINR (Signal to Interference + Noise Ratio):\nMeasures signal clarity by comparing desired signal to background interference. Higher positive numbers mean clearer transmission.\n\nTo improve: Isolate the device from other electronics and try different orientations or positions in the room.")
    else None
  }

  /** The measures the script knows. */
  predicate KnownMeasure(name: string) {
    MeasureConfig(name).Some?
  }

  /** Each table runs from best to worst: its bounds strictly descend. */
  predicate StrictlyDescending(t: seq<Band>) {
    forall i, j :: 0 <= i < j < |t| ==> t[i].min > t[j].min
  }

  lemma ConfigsDescending(name: string)
    ensures MeasureConfig(name).Some? ==> StrictlyDescending(MeasureConfig(name).value)
  {
  }

  // ---------------------------------------------------------------------
  // parseValue

  /** The characters the pattern `/[^\-\d.]/g` leaves in place. */
  predicate Kept(c: char) {
    c == '-' || IsDigit(c) || c == '.'
  }

  /** `strValue.replace(/[^\-\d.]/g, '')`: every character other than '-',
      a digit or '.' is dropped, the rest keep their order. */
  function Clean(s: string): (r: string)
    ensures |r| <= |s|
    ensures forall i :: 0 <= i < |r| ==> Kept(r[i])
  {
    if s == [] then "" else (if Kept(s[0]) then [s[0]] else "") + Clean(s[1..])
  }

  lemma {:induction false} CleanConcat(a: string, b: string)
    ensures Clean(a + b) == Clean(a) + Clean(b)
  {
    if a == [] {
      assert a + b == b;
    } else {
      assert (a + b)[1..] == a[1..] + b;
      CleanConcat(a[1..], b);
    }
  }

  /** A string of kept characters comes through unchanged; one without any
      comes out empty. */
  lemma {:induction false} CleanExtremes(s: string)
    ensures (forall i :: 0 <= i < |s| ==> Kept(s[i])) ==> Clean(s) == s
    ensures (forall i :: 0 <= i < |s| ==> !Kept(s[i])) ==> Clean(s) == ""
  {
    if s != [] {
      CleanExtremes(s[1..]);
      assert s == [s[0]] + s[1..];
    }
  }

  /** The fraction digits after a point at the start of `s`, if any. */
  function FractionDigits(s: string): (r: string)
    ensures AllDigits(r)
  {
    if |s| > 0 && s[0] == '.' then LeadingDigits(s[1..]) else ""
  }

  /** The number spelled by a sign, integer digits and fraction digits. */
  function Spelled(neg: bool, ip: string, fp: string): Decimal
    requires AllDigits(ip) && AllDigits(fp)
  {
    DigitsValueConcat(ip, fp);
    var m: int := DigitsValue(ip + fp);
    Decimal(if neg then -m else m, |fp|)
  }

  /** What `parseFloat` reads at the start of a string made only of '-',
      digits and '.': an optional minus sign, a run of digits, then
      optionally a point and a second run, with one digit at least in all.
      `None` stands for NaN. */
  function NumericPrefix(c: string): Option<Decimal> {
    var neg := |c| > 0 && c[0] == '-';
    var body := if neg then c[1..] else c;
    var ip := LeadingDigits(body);
    var fp := FractionDigits(body[|ip|..]);
    if |ip| + |fp| == 0 then None else Some(Spelled(neg, ip, fp))
  }

  /** `parseFloat(cleaned) || 0`: the numeric prefix of the cleaned text, or
      zero when there is none (NaN and -0 are both falsy). */
  function ParseValue(s: string): Decimal {
    match NumericPrefix(Clean(s))
    case None => ZERO
    case Some(d) => d
  }

  /** The cleaned-up text of a reading: an optional minus sign, digits and an
      optional fraction. */
  function ReadingText(neg: bool, ip: string, fp: string): string {
    (if neg then "-" else "") + ip + (if fp == [] then "" else "." + fp)
  }

  lemma ReadingTextKept(neg: bool, ip: string, fp: string)
    requires AllDigits(ip) && AllDigits(fp)
    ensures forall i :: 0 <= i < |ReadingText(neg, ip, fp)| ==> Kept(ReadingText(neg, ip, fp)[i])
  {
    var sign := if neg then "-" else "";
    var frac := if fp == [] then "" else "." + fp;
    var core := ReadingText(neg, ip, fp);
    forall i | 0 <= i < |core| ensures Kept(core[i]) {
      if i < |sign| {
      } else if i < |sign| + |ip| {
        assert core[i] == ip[i - |sign|];
      } else {
        var j := i - |sign| - |ip|;
        assert core[i] == frac[j];
        if j > 0 { assert frac[j] == fp[j - 1]; }
      }
    }
  }

  /** `parseFloat` reads such a text back as the number it spells. */
  lemma NumericPrefixOfReading(neg: bool, ip: string, fp: string)
    requires AllDigits(ip) && AllDigits(fp) && |ip| + |fp| > 0
    ensures NumericPrefix(ReadingText(neg, ip, fp)) == Some(Spelled(neg, ip, fp))
  {
    var c := ReadingText(neg, ip, fp);
    var frac := if fp == [] then "" else "." + fp;
    var body := ip + frac;
    assert c == (if neg then "-" else "") + body;
    var body' := if |c| > 0 && c[0] == '-' then c[1..] else c;
    assert body' == body by {
      if neg {
        assert c[0] == '-' && c[1..] == body;
      } else {
        assert c == body;
        assert ip != [] ==> c[0] == ip[0];
        assert ip == [] ==> c[0] == '.';
      }
    }
    LeadingDigitsOf(ip, frac);
    assert body[|ip|..] == frac;
    assert FractionDigits(frac) == fp by {
      if fp != [] {
        assert frac[1..] == fp + "";
        LeadingDigitsOf(fp, "");
      }
    }
  }

  /** A reading written as an optional minus sign, digits, an optional
      fraction and then any unit text without '-', digits or '.' parses back
      to exactly the number written. */
  lemma ParseWrittenReading(neg: bool, ip: string, fp: string, unit: string)
    requires AllDigits(ip) && AllDigits(fp) && |ip| + |fp| > 0
    requires forall i :: 0 <= i < |unit| ==> !Kept(unit[i])
    ensures ParseValue(ReadingText(neg, ip, fp) + unit) == Spelled(neg, ip, fp)
  {
    var core := ReadingText(neg, ip, fp);
    ReadingTextKept(neg, ip, fp);
    CleanConcat(core, unit);
    CleanExtremes(core);
    CleanExtremes(unit);
    assert Clean(core + unit) == core + "";
    assert core + "" == core;
    NumericPrefixOfReading(neg, ip, fp);
  }

  /** Example: the unit after a negative reading is ignored. */
  lemma ParseNegativeExample()
    ensures ParseValue("-81 dBm") == Decimal(-81, 0)
  {
    assert ReadingText(true, "81", "") == "-81" by {
      assert "-" + "81" + "" == "-81";
    }
    assert "-81" + " dBm" == "-81 dBm";
    ParseWrittenReading(true, "81", "", " dBm");
    assert "81" + "" == "81";
    assert DigitsValue("81") == 81 by {
      assert "81"[..1] == "8" && "8"[..0] == "";
    }
    assert Spelled(true, "81", "") == Decimal(-81, 0);
  }

  /** Example: a reading with a fraction keeps its digits and its scale. */
  lemma ParseFractionExample()
    ensures ParseValue("12.5 dB") == Decimal(125, 1)
  {
    assert ReadingText(false, "12", "5") == "12.5" by {
      assert "." + "5" == ".5";
      assert "" + "12" + ".5" == "12.5";
    }
    assert "12.5" + " dB" == "12.5 dB";
    ParseWrittenReading(false, "12", "5", " dB");
    assert "12" + "5" == "125";
    assert DigitsValue("125") == 125 by {
      assert "125"[..2] == "12" && "12"[..1] == "1" && "1"[..0] == "";
    }
    assert Spelled(false, "12", "5") == Decimal(125, 1);
  }

  /** A reading without a numeric prefix falls back to zero. */
  lemma ParseFallbackExamples()
    ensures ParseValue("--") == ZERO
    ensures ParseValue("N/A") == ZERO
    ensures ParseValue("") == ZERO
  {
    assert Clean("--") == "--" by {
      assert "--"[1..] == "-" && "-"[1..] == "";
    }
    assert LeadingDigits("-") == "" && FractionDigits("-") == "";
    assert Clean("N/A") == "" by {
      assert "N/A"[1..] == "/A" && "/A"[1..] == "A" && "A"[1..] == "";
    }
    assert LeadingDigits("") == "" && FractionDigits("") == "";
  }

  // ---------------------------------------------------------------------
  // getLabelAndColor

  /** The first row at or after `i` whose bound the reading reaches. */
  function FirstBandFrom(t: seq<Band>, v: Decimal, i: nat): (r: Option<nat>)
    requires i <= |t|
    ensures r.Some? ==> i <= r.value < |t| && AtLeast(v, t[r.value].min)
    ensures r.Some? ==> forall j :: i <= j < r.value ==> !AtLeast(v, t[j].min)
    ensures r.None? ==> forall j :: i <= j < |t| ==> !AtLeast(v, t[j].min)
    decreases |t| - i
  {
    if i == |t| then None
    else if AtLeast(v, t[i].min) then Some(i)
    else FirstBandFrom(t, v, i + 1)
  }

  function FirstBand(t: seq<Band>, v: Decimal): Option<nat> {
    FirstBandFrom(t, v, 0)
  }

  /** `getLabelAndColor(measureName, numericValue)`: the description and
      colour of the first row, in table order, whose bound the reading
      reaches; nothing for an unknown measure or a reading below every bound. */
  function LabelAndColor(name: string, v: Decimal): (r: Option<Label>)
    ensures MeasureConfig(name).None? ==> r.None?
    ensures MeasureConfig(name).Some? ==>
      var t := MeasureConfig(name).value;
      && (r.None? <==> forall j :: 0 <= j < |t| ==> !AtLeast(v, t[j].min))
      && (r.Some? ==> exists k :: 0 <= k < |t| && AtLeast(v, t[k].min)
                        && (forall j :: 0 <= j < k ==> !AtLeast(v, t[j].min))
                        && r.value == Label(t[k].desc, t[k].color))
  {
    match MeasureConfig(name)
    case None => None
    case Some(t) =>
      match FirstBand(t, v)
      case None => None
      case Some(k) => Some(Label(t[k].desc, t[k].color))
  }

  /** The loop of `getLabelAndColor`, returning from inside the loop at the
      first row whose bound the reading reaches. */
  method GetLabelAndColor(name: string, v: Decimal) returns (r: Option<Label>)
    ensures r == LabelAndColor(name, v)
  {
    var config := MeasureConfig(name);
    if config.None? {
      return None;
    }
    var t := config.value;
    for i := 0 to |t|
      invariant forall j :: 0 <= j < i ==> !AtLeast(v, t[j].min)
    {
      if AtLeast(v, t[i].min) {
        return Some(Label(t[i].desc, t[i].color));
      }
    }
    return None;
  }

  lemma AtLeastWeaker(v: Decimal, lo: int, hi: int)
    requires lo <= hi && AtLeast(v, hi)
    ensures AtLeast(v, lo)
  {
    MulLe(lo, hi, Pow10(v.scale));
  }

  /** In a descending table the bands are intervals: a reading lands in row
      `k` exactly when it reaches that row's bound and not the bound of the
      row above. */
  lemma BandIsInterval(t: seq<Band>, v: Decimal, k: nat)
    requires StrictlyDescending(t) && k < |t|
    ensures FirstBand(t, v) == Some(k) <==> AtLeast(v, t[k].min) && (k == 0 || !AtLeast(v, t[k - 1].min))
  {
    if AtLeast(v, t[k].min) && (k == 0 || !AtLeast(v, t[k - 1].min)) {
      forall j | 0 <= j < k ensures !AtLeast(v, t[j].min) {
        if AtLeast(v, t[j].min) && j < k - 1 {
          AtLeastWeaker(v, t[k - 1].min, t[j].min);
        }
      }
    }
  }

  /** A larger reading never lands in a later (worse) band. */
  lemma LargerReadingNoWorseBand(t: seq<Band>, v: Decimal, w: Decimal)
    requires Le(v, w) && FirstBand(t, v).Some?
    ensures FirstBand(t, w).Some? && FirstBand(t, w).value <= FirstBand(t, v).value
  {
    var k := FirstBand(t, v).value;
    AtLeastMonotone(v, w, t[k].min);
  }

  /** A reading equal to a bound belongs to that bound's band. */
  lemma RssiBoundaries()
    ensures LabelAndColor("RSSI", Decimal(-90, 0)) == Some(Label("Fair (≥ -90)", "#FF9800"))
    ensures LabelAndColor("RSSI", Decimal(-81, 0)) == Some(Label("Fair (≥ -90)", "#FF9800"))
    ensures LabelAndColor("RSSI", Decimal(-95, 0)) == Some(Label("Poor (< -90)", "#dc3545"))
    ensures LabelAndColor("RSSI", Decimal(-67, 0)) == Some(Label("Excellent (≥ -67)", "#006400"))
  {
  }

  /** Signal Strength has no catch-all row: a negative reading gets no label. */
  lemma SignalStrengthNegative(v: Decimal)
    requires v.mantissa < 0
    ensures LabelAndColor("Signal Strength", v) == None
  {
    var t := MeasureConfig("Signal Strength").value;
    forall j | 0 <= j < |t| ensures !AtLeast(v, t[j].min) {
      MulLe(0, t[j].min, Pow10(v.scale));
    }
  }

  /** The other four tables end in a -9999 row, which every reading at or
      above -9999 reaches. */
  lemma SentinelCatchesAll(name: string, v: Decimal)
    requires KnownMeasure(name) && name != "Signal Strength" && AtLeast(v, -9999)
    ensures LabelAndColor(name, v).Some?
  {
    var t := MeasureConfig(name).value;
    assert t[|t| - 1].min == -9999;
  }

  // ---------------------------------------------------------------------
  // buildTooltipText

  const IMPROVE_MARKER := "\n\nTo improve:"
  const IMPROVE_HEADING := "\n\n📈 To improve:"

  /** The explanation with its improvement tip set apart: the text before
      the first marker, then, if there is a marker, the heading and the text
      up to the next marker. */
  function FormatExplanation(e: string): string {
    var parts := Split(e, IMPROVE_MARKER);
    parts[0] + (if |parts| > 1 then IMPROVE_HEADING + parts[1] else "")
  }

  /** Every row's description followed by a line break, in table order. */
  function DescLines(t: seq<Band>): string {
    if t == [] then "" else DescLines(t[..|t| - 1]) + t[|t| - 1].desc + "\n"
  }

  /** `buildTooltipText(measureName)`. */
  function TooltipText(name: string): string {
    var explanation := if MeasureExplanation(name).Some? then MeasureExplanation(name).value else "";
    TooltipOf(explanation, MeasureConfig(name))
  }

  /** The tooltip built from an explanation (empty when there is none) and a
      threshold table. */
  function TooltipOf(explanation: string, config: Option<seq<Band>>): string {
    match config
    case None => if explanation != "" then explanation else "No thresholds defined."
    case Some(t) =>
      var formatted := if explanation != "" then FormatExplanation(explanation) else "";
      var ranges := if explanation != "" && |t| > 0 then "\n\nRanges:\n"
                    else if |t| > 0 then "Ranges:\n" else "";
      Trim(formatted + ranges + DescLines(t))
  }

  /** `buildTooltipText(measureName)`: the two table lookups, then the
      text assembled from what they found. */
  method BuildTooltipText(name: string) returns (text: string)
    ensures text == TooltipText(name)
  {
    var explanation := if MeasureExplanation(name).Some? then MeasureExplanation(name).value else "";
    text := AssembleTooltip(explanation, MeasureConfig(name));
  }

  /** The body of `buildTooltipText` after the lookups: the explanation with
      its tip set apart, the "Ranges:" heading, and one `+=` per row. */
  method AssembleTooltip(explanation: string, thresholds: Option<seq<Band>>) returns (text: string)
    ensures text == TooltipOf(explanation, thresholds)
  {
    if thresholds.None? {
      return if explanation != "" then explanation else "No thresholds defined.";
    }
    var t := thresholds.value;
    var formatted := "";
    if explanation != "" {
      var parts := Split(explanation, IMPROVE_MARKER);
      formatted := parts[0];
      if |parts| > 1 {
        formatted := formatted + IMPROVE_HEADING + parts[1];
      }
    }
    assert formatted == if explanation != "" then FormatExplanation(explanation) else "";
    text := formatted;
    if explanation != "" && |t| > 0 {
      text := text + "\n\nRanges:\n";
    } else if |t| > 0 {
      text := text + "Ranges:\n";
    }
    ghost var head := text;
    assert t[..0] == [] && head + "" == head;
    for i := 0 to |t|
      invariant text == head + DescLines(t[..i])
    {
      DescLinesSnoc(t, i);
      text := text + t[i].desc + "\n";
    }
    assert t[..|t|] == t;
    assert text == formatted + (if explanation != "" && |t| > 0 then "\n\nRanges:\n"
                                else if |t| > 0 then "Ranges:\n" else "") + DescLines(t);
    text := Trim(text);
  }

  lemma DescLinesSnoc(t: seq<Band>, i: nat)
    requires i < |t|
    ensures DescLines(t[..i + 1]) == DescLines(t[..i]) + t[i].desc + "\n"
  {
    assert t[..i + 1][..i] == t[..i];
  }

  /** The marker cannot overlap itself, so when it occurs exactly once the
      explanation is the text before it, the marker and the text after it. */
  lemma MarkerFirstAt(head: string, tip: string)
    requires !Contains(head, IMPROVE_MARKER)
    ensures IndexOf(head + IMPROVE_MARKER + tip, IMPROVE_MARKER) == Some(|head|)
  {
    var e := head + IMPROVE_MARKER + tip;
    var m := IMPROVE_MARKER;
    assert OccursAt(e, m, |head|) by {
      assert e[|head|..|head| + |m|] == m;
    }
    forall j | 0 <= j < |head| ensures !OccursAt(e, m, j) {
      if j + |m| <= |head| {
        assert e[j..j + |m|] == head[j..j + |m|];
        assert !OccursAt(head, m, j);
      } else {
        var p := |head| - j;
        assert e[|head|] == '\n' && e[|head| + 1] == '\n';
        if p == 1 {
          assert e[j + 2] != m[2];
        } else {
          assert e[j + p] != m[p];
        }
      }
    }
  }

  /** The explanation of a tooltip is reassembled with the heading in
      place of the marker. */
  lemma FormatExplanationOfTip(head: string, tip: string)
    requires !Contains(head, IMPROVE_MARKER) && !Contains(tip, IMPROVE_MARKER)
    ensures FormatExplanation(head + IMPROVE_MARKER + tip) == head + IMPROVE_HEADING + tip
  {
    var e := head + IMPROVE_MARKER + tip;
    MarkerFirstAt(head, tip);
    assert e[..|head|] == head;
    assert e[|head| + |IMPROVE_MARKER|..] == tip;
    assert SplitOn(e, IMPROVE_MARKER) == [head] + SplitOn(tip, IMPROVE_MARKER);
    assert SplitOn(tip, IMPROVE_MARKER) == [tip];
  }

  /** An explanation without the marker is kept as it is. */
  lemma FormatExplanationWithoutTip(e: string)
    requires !Contains(e, IMPROVE_MARKER)
    ensures FormatExplanation(e) == e
  {
  }

  /** The descriptions joined by line breaks. */
  function JoinLines(t: seq<Band>): string {
    if t == [] then "" else if |t| == 1 then t[0].desc else JoinLines(t[..|t| - 1]) + "\n" + t[|t| - 1].desc
  }

  lemma {:induction false} DescLinesJoined(t: seq<Band>)
    requires t != []
    ensures DescLines(t) == JoinLines(t) + "\n"
  {
    if |t| > 1 {
      DescLinesJoined(t[..|t| - 1]);
    } else {
      assert t[..0] == [];
    }
  }

  /** The tooltip of a measure with both an explanation and a table: the
      explanation before its tip, the tip under its heading, then "Ranges:"
      and one line per row description, best band first. */
  lemma TooltipLayout(head: string, tip: string, t: seq<Band>)
    requires !Contains(head, IMPROVE_MARKER) && !Contains(tip, IMPROVE_MARKER)
    requires head != [] && !IsSpace(head[0])
    requires t != [] && t[|t| - 1].desc != [] && !IsSpace(Last(t[|t| - 1].desc))
    ensures TooltipOf(head + IMPROVE_MARKER + tip, Some(t))
            == head + IMPROVE_HEADING + tip + "\n\nRanges:\n" + JoinLines(t)
  {
    FormatExplanationOfTip(head, tip);
    DescLinesJoined(t);
    JoinLinesLast(t);
    var e := head + IMPROVE_MARKER + tip;
    var f := head + IMPROVE_HEADING + tip;
    var j := JoinLines(t);
    var x := f + "\n\nRanges:\n" + j;
    assert TooltipOf(e, Some(t)) == Trim(f + "\n\nRanges:\n" + (j + "\n"));
    AppendAssoc(f + "\n\nRanges:\n", j, "\n");
    assert x[0] == head[0];
    assert x[|x| - 1] == Last(j);
    TrimLine(x);
  }

  lemma TrimLine(x: string)
    requires Trimmed(x) && x != []
    ensures Trim(x + "\n") == x
  {
    TrimPadded("", x, "\n");
    assert "" + x + "\n" == x + "\n";
  }

  lemma AppendAssoc(a: string, b: string, c: string)
    ensures a + (b + c) == a + b + c
  {
  }

  function Last(s: string): char
    requires s != []
  {
    s[|s| - 1]
  }

  lemma JoinLinesLast(t: seq<Band>)
    requires t != [] && t[|t| - 1].desc != []
    ensures JoinLines(t) != [] && Last(JoinLines(t)) == Last(t[|t| - 1].desc)
  {
    if |t| > 1 {
      assert JoinLines(t) == (JoinLines(t[..|t| - 1]) + "\n") + t[|t| - 1].desc;
    }
  }

  /** A measure with no table gets the fixed message. */
  lemma TooltipUnknown(name: string)
    requires !KnownMeasure(name) && MeasureExplanation(name).None?
    ensures TooltipText(name) == "No thresholds defined."
  {
  }

  // ---------------------------------------------------------------------
  // The badge text

  predicate WordOrSpace(c: char) {
    IsWordChar(c) || IsSpace(c)
  }

  /** The end of the run of `[\w\s]` characters that starts at `i`. */
  function WordSpaceRunEnd(s: string, i: nat): (j: nat)
    requires i <= |s|
    ensures i <= j <= |s|
    ensures forall k :: i <= k < j ==> WordOrSpace(s[k])
    ensures j < |s| ==> !WordOrSpace(s[j])
    decreases |s| - i
  {
    if i < |s| && WordOrSpace(s[i]) then WordSpaceRunEnd(s, i + 1) else i
  }

  /** `/^Latest\s+[\w\s]+:/.test(s)`, decided by one scan: "Latest", a
      whitespace character, and a run of at least two `[\w\s]` characters
      from there on that stops at a ':'. */
  predicate IsLatestLabel(s: string) {
    |s| > 6 && s[..6] == "Latest" && IsSpace(s[6])
    && var j := WordSpaceRunEnd(s, 6); 8 <= j < |s| && s[j] == ':'
  }

  /** The regular expression matches with `\s+` spanning `s[6..a]` and
      `[\w\s]+` spanning `s[a..b]`. */
  predicate LatestMatch(s: string, a: int, b: int) {
    7 <= a < b < |s| && s[..6] == "Latest"
    && (forall k :: 6 <= k < a ==> IsSpace(s[k]))
    && (forall k :: a <= k < b ==> WordOrSpace(s[k]))
    && s[b] == ':'
  }

  /** The scan agrees with the regular expression: it accepts exactly the
      strings the pattern matches in some way. */
  lemma LatestLabelIsRegex(s: string)
    ensures IsLatestLabel(s) <==> exists a, b :: LatestMatch(s, a, b)
  {
    if IsLatestLabel(s) {
      assert LatestMatch(s, 7, WordSpaceRunEnd(s, 6));
    }
    if exists a, b :: LatestMatch(s, a, b) {
      var a, b :| LatestMatch(s, a, b);
      var j := WordSpaceRunEnd(s, 6);
      assert WordOrSpace(s[6]);
      assert j == b;
    }
  }

  /** The badge text: the reading followed by " => " and the band, unless a
      non-empty label context that is not a "Latest …:" label stands before
      the reading, in which case the reading alone. */
  function DisplayText(reading: string, labelText: string, desc: string): (r: string)
    ensures r == reading + " => " + desc <==> labelText == "" || IsLatestLabel(labelText)
    ensures r == reading <==> labelText != "" && !IsLatestLabel(labelText)
  {
    if labelText != "" then
      (if IsLatestLabel(labelText) then reading + " => " + desc else reading)
    else reading + " => " + desc
  }
}
