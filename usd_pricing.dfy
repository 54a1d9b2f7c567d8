/** The Hetzner console script that writes an estimated US-dollar amount
    under every euro price: it reads the first euro amount of a price
    element, converts it at the fixed rate 1.10, keeps one `.usd-estimate`
    child with the result and puts the price's period label after it. */
module UsdPricing {
  import opened Wrappers
  import opened Text
  import opened Numerals

  // ---------------------------------------------------------------------
  // The price in the text

  const EURO: char := '\U{20AC}'

  /** The amount a match captures (`match[1]`): integer digits and, after a
      point, up to three fraction digits (none when there is no point). */
  datatype Amount = Amount(ip: string, fp: string)

  predicate ValidAmount(a: Amount) {
    |a.ip| >= 1 && AllDigits(a.ip) && AllDigits(a.fp) && |a.fp| <= 3
  }

  /** The captured text itself. */
  function AmountText(a: Amount): string {
    if a.fp == [] then a.ip else a.ip + "." + a.fp
  }

  /** `(?:\.\d{1,3})?` at the start of `s`, greedy: the fraction digits it
      takes (none when there is no point followed by a digit). */
  function FractionPart(s: string): (r: string)
    ensures AllDigits(r) && |r| <= 3
    ensures r != [] ==> "." + r <= s
    ensures r == [] ==> !(|s| >= 2 && s[0] == '.' && IsDigit(s[1]))
    ensures 0 < |r| < 3 ==> !(1 + |r| < |s| && IsDigit(s[1 + |r|]))
  {
    if |s| > 0 && s[0] == '.' then
      var d := LeadingDigits(s[1..]);
      assert "." + d <= s by {
        assert s == "." + s[1..];
      }
      if |d| > 3 then
        assert "." + d[..3] <= s by {
          assert ("." + d)[..4] == "." + d[..3];
        }
        d[..3]
      else d
    else ""
  }

  /** The regular expression `€\s?(\d+(?:\.\d{1,3})?)` tried at index `p`:
      the euro sign, at most one whitespace character, then the capture.
      The only way for `\s?` to match nothing after a whitespace character
      is for `\d` to match that character, which it cannot. */
  function MatchAt(s: string, p: nat): (r: Option<Amount>)
    requires p <= |s|
    ensures r.Some? ==> ValidAmount(r.value) && p < |s| && s[p] == EURO
    ensures r.Some? ==> exists q :: (q == p + 1 || (q == p + 2 && p + 1 < |s| && IsSpace(s[p + 1])))
                                    && q <= |s| && AmountText(r.value) <= s[q..]
    ensures p < |s| && s[p] == EURO && p + 1 < |s| && IsDigit(s[p + 1]) ==> r.Some?
  {
    if p == |s| || s[p] != EURO then None
    else
      var q := if p + 1 < |s| && IsSpace(s[p + 1]) then p + 2 else p + 1;
      Capture(s[q..])
  }

  /** The group `(\d+(?:\.\d{1,3})?)` at the start of `t`: a maximal run of
      digits, then the greedy fraction. */
  function Capture(t: string): (r: Option<Amount>)
    ensures r.Some? ==> ValidAmount(r.value) && AmountText(r.value) <= t
    ensures t != [] && IsDigit(t[0]) ==> r.Some?
  {
    var ip := LeadingDigits(t);
    if ip == [] then None
    else
      var fp := FractionPart(t[|ip|..]);
      AmountTextPrefix(t, ip, fp);
      Some(Amount(ip, fp))
  }

  /** What the group captures: the whole run of digits at the start of `t`
      (the character after it is no digit), then the fraction the greedy
      group takes there. */
  lemma CaptureIsMaximal(t: string)
    requires Capture(t).Some?
    ensures var a := Capture(t).value;
            |a.ip| <= |t| && a.ip == t[..|a.ip|]
            && (|a.ip| == |t| || !IsDigit(t[|a.ip|]))
            && a.fp == FractionPart(t[|a.ip|..])
  {
  }

  /** The digits and the fraction read from `t` spell a prefix of `t`. */
  lemma AmountTextPrefix(t: string, ip: string, fp: string)
    requires ip == LeadingDigits(t) && fp == FractionPart(t[|ip|..])
    ensures AmountText(Amount(ip, fp)) <= t
  {
    assert t == ip + t[|ip|..];
    if fp != [] {
      assert "." + fp <= t[|ip|..];
      assert ip + "." + fp == ip + ("." + fp);
    }
  }

  /** The leftmost match at or after index `p`. */
  function MatchFrom(s: string, p: nat): (r: Option<Amount>)
    requires p <= |s|
    ensures r.Some? ==> ValidAmount(r.value)
    decreases |s| - p
  {
    var m := MatchAt(s, p);
    if m.Some? then m
    else if p == |s| then None
    else MatchFrom(s, p + 1)
  }

  /** `MatchFrom` reports the match at the smallest index `k >= p` where the
      pattern matches; when it matches nowhere from `p` on, `k` is `|s|`,
      where nothing matches, and the result is nothing. */
  lemma {:induction false} MatchFromLeftmost(s: string, p: nat) returns (k: nat)
    requires p <= |s|
    ensures p <= k <= |s| && MatchFrom(s, p) == MatchAt(s, k)
    ensures forall j :: p <= j < k ==> MatchAt(s, j).None?
    ensures MatchFrom(s, p).None? ==> k == |s|
    decreases |s| - p
  {
    if MatchAt(s, p).Some? || p == |s| {
      k := p;
    } else {
      k := MatchFromLeftmost(s, p + 1);
      forall j | p <= j < k ensures MatchAt(s, j).None? {
        if j == p {
        } else {
          assert p + 1 <= j < k;
        }
      }
    }
  }

  /** `priceText.match(...)`: the first match in `s`, if any. */
  function FirstPriceMatch(s: string): (r: Option<Amount>)
    ensures r.Some? ==> ValidAmount(r.value)
  {
    MatchFrom(s, 0)
  }

  /** The fraction digits written after a point are what the greedy
      `(?:\.\d{1,3})?` takes, provided the text after them does not
      continue the number: no further digit unless three were written, and
      no point with a digit after it when none were written. */
  predicate EndsAmount(fp: string, rest: string) {
    (|fp| < 3 ==> rest == [] || !IsDigit(rest[0]))
    && (fp == [] ==> !(|rest| >= 2 && rest[0] == '.' && IsDigit(rest[1])))
  }

  lemma FractionPartOf(fp: string, rest: string)
    requires AllDigits(fp) && |fp| <= 3 && EndsAmount(fp, rest)
    ensures FractionPart(if fp == [] then rest else "." + fp + rest) == fp
  {
    if fp != [] {
      var t := "." + fp + rest;
      assert t[1..] == fp + rest;
      var d := LeadingDigits(fp + rest);
      var n := DigitRun(fp + rest);
      assert (fp + rest)[..|fp|] == fp;
      if |fp| < 3 {
        LeadingDigitsOf(fp, rest);
      } else {
        assert d[..3] == (fp + rest)[..3] == fp;
      }
    } else if |rest| > 0 && rest[0] == '.' {
      assert DigitRun(rest[1..]) == 0;
    }
  }

  lemma DigitNotSpace(c: char)
    requires IsDigit(c)
    ensures !IsSpace(c)
  {
  }

  /** The group captures a written amount that the text after it does not
      continue. */
  lemma CaptureOf(a: Amount, rest: string)
    requires ValidAmount(a) && EndsAmount(a.fp, rest)
    ensures Capture(AmountText(a) + rest) == Some(a)
  {
    var frac := if a.fp == [] then [] else "." + a.fp;
    var tail := frac + rest;
    assert AmountText(a) + rest == a.ip + tail;
    assert tail == [] || !IsDigit(tail[0]) by {
      if frac != [] { assert tail[0] == '.'; }
    }
    LeadingDigitsOf(a.ip, tail);
    assert (a.ip + tail)[|a.ip|..] == tail;
    FractionPartOf(a.fp, rest);
    assert (if a.fp == [] then rest else "." + a.fp + rest) == tail;
  }

  /** A written price reads back: in a text whose first euro sign is
      followed by at most one whitespace character and an amount that the
      text after it does not continue, the match captures exactly that
      amount. */
  lemma PriceWrittenReadsBack(pre: string, ws: string, a: Amount, rest: string)
    requires forall i :: 0 <= i < |pre| ==> pre[i] != EURO
    requires |ws| <= 1 && AllSpace(ws)
    requires ValidAmount(a) && EndsAmount(a.fp, rest)
    ensures FirstPriceMatch(pre + [EURO] + ws + AmountText(a) + rest) == Some(a)
  {
    var t := AmountText(a) + rest;
    var s := pre + [EURO] + ws + t;
    assert pre + [EURO] + ws + AmountText(a) + rest == s;
    MatchAtEuro(pre, ws, t);
    CaptureOf(a, rest);
    assert MatchAt(s, |pre|) == Some(a);
    forall j | 0 <= j < |pre| ensures MatchAt(s, j).None? {
      assert s[j] == pre[j];
    }
    var k := MatchFromLeftmost(s, 0);
    assert k <= |pre|;
    assert k == |pre|;
  }

  /** After the euro sign at `|pre|`, an optional whitespace character and
      a digit, the match is the capture at that digit. */
  lemma MatchAtEuro(pre: string, ws: string, t: string)
    requires |ws| <= 1 && AllSpace(ws) && t != [] && IsDigit(t[0])
    ensures MatchAt(pre + [EURO] + ws + t, |pre|) == Capture(t)
  {
    var s := pre + [EURO] + ws + t;
    var p := |pre|;
    assert s[p] == EURO;
    assert s[p + 1 + |ws|..] == t;
    if ws != [] {
      assert s[p + 1] == ws[0];
      assert IsSpace(s[p + 1]);
    } else {
      assert s[p + 1] == t[0];
      DigitNotSpace(s[p + 1]);
    }
  }

  /** Text without a euro sign holds no price. */
  lemma NoEuroNoMatch(s: string)
    requires forall i :: 0 <= i < |s| ==> s[i] != EURO
    ensures FirstPriceMatch(s).None?
  {
    forall j | 0 <= j <= |s| ensures MatchAt(s, j).None? {
    }
    var k := MatchFromLeftmost(s, 0);
  }

  /** `match[1].includes('.') ? match[1].split('.')[1].length : 0`. */
  function DecimalCount(t: string): nat {
    var parts := Split(t, ".");
    if Contains(t, ".") then
      assert |parts| >= 2;
      |parts[1]|
    else 0
  }

  /** A string of digits holds no point. */
  lemma NoPointIn(ds: string)
    requires AllDigits(ds)
    ensures forall i :: !OccursAt(ds, ".", i)
  {
    forall i ensures !OccursAt(ds, ".", i) {
      if 0 <= i && i + 1 <= |ds| {
        assert ds[i..i + 1][0] == ds[i];
      }
    }
  }

  /** The decimal count is the number of fraction digits captured, so it is
      between 0 and 3. */
  lemma DecimalCountOfAmount(a: Amount)
    requires ValidAmount(a)
    ensures DecimalCount(AmountText(a)) == |a.fp| <= 3
  {
    var t := AmountText(a);
    NoPointIn(a.ip);
    NoPointIn(a.fp);
    if a.fp != [] {
      var n := |a.ip|;
      assert OccursAt(t, ".", n) by {
        assert t[n..n + 1] == ".";
      }
      forall i | 0 <= i < n ensures !OccursAt(t, ".", i) {
        assert t[i] == a.ip[i];
        assert t[i..i + 1][0] == t[i];
      }
      assert IndexOf(t, ".") == Some(n);
      assert t[n + 1..] == a.fp;
      assert SplitOn(a.fp, ".") == [a.fp];
      assert SplitOn(t, ".") == [t[..n]] + SplitOn(a.fp, ".");
    }
  }

  // ---------------------------------------------------------------------
  // The conversion

  /** `parseFloat(match[1])`, held exactly. */
  function EuroAmount(a: Amount): (d: Decimal)
    requires ValidAmount(a)
    ensures d.scale == |a.fp| && d.mantissa >= 0
    ensures d.mantissa == DigitsValue(a.ip) * Pow10(|a.fp|) + DigitsValue(a.fp)
  {
    DigitsValueConcat(a.ip, a.fp);
    ShiftedIs(DigitsValue(a.ip), |a.fp|);
    Decimal(DigitsValue(a.ip + a.fp), |a.fp|)
  }

  function Max(a: nat, b: nat): nat {
    if a >= b then a else b
  }

  /** `formatUSD(euroAmount * 1.10, decimals)`: the dollar amount, with the
      rate 1.10 taken as exactly 11/10, rounded half up to `max(decimals, 2)`
      places and written as `toFixed` writes it. */
  function FormatUsd(euro: Decimal, decimals: nat): string
    requires euro.mantissa >= 0
  {
    var places := Max(decimals, 2);
    FormatFixed(RoundScaled(euro.mantissa * 11, euro.scale + 1, places), places)
  }

  /** The formatted amount has exactly `max(decimals, 2)` fraction digits, and
      the number they spell with the integer digits is the dollar amount
      rounded half up to that many places. */
  lemma FormatUsdShape(euro: Decimal, decimals: nat) returns (ip: string, fp: string)
    requires euro.mantissa >= 0
    ensures FormatUsd(euro, decimals) == ip + "." + fp
    ensures |ip| >= 1 && AllDigits(ip) && AllDigits(fp) && |fp| == Max(decimals, 2)
    ensures AllDigits(ip + fp)
    ensures var n, f, s := DigitsValue(ip + fp), |fp|, euro.scale + 1;
            && 2 * (euro.mantissa * 11 * Pow10(f)) < (2 * n + 1) * Pow10(s)
            && (2 * n - 1) * Pow10(s) <= 2 * (euro.mantissa * 11 * Pow10(f))
  {
    var places := Max(decimals, 2);
    var n := RoundScaled(euro.mantissa * 11, euro.scale + 1, places);
    RoundScaledBounds(euro.mantissa * 11, euro.scale + 1, places);
    ip, fp := FormatFixedShape(n, places);
  }

  /** The text written into the estimate element. */
  function EstimateText(a: Amount): string
    requires ValidAmount(a)
  {
    "~$" + FormatUsd(EuroAmount(a), |a.fp|)
  }

  /** The estimate never holds a euro sign, so it never supplies a price of
      its own. */
  lemma EstimateHasNoEuro(a: Amount)
    requires ValidAmount(a)
    ensures forall i :: 0 <= i < |EstimateText(a)| ==> EstimateText(a)[i] != EURO
  {
    var ip, fp := FormatUsdShape(EuroAmount(a), |a.fp|);
    var t := EstimateText(a);
    assert t == "~$" + ip + "." + fp;
    forall i | 0 <= i < |t| ensures t[i] != EURO {
      if 2 <= i < 2 + |ip| {
        assert t[i] == ip[i - 2];
      } else if 2 + |ip| < i {
        assert t[i] == fp[i - 3 - |ip|];
      }
    }
  }

  /** €4.99 is about $5.49. */
  lemma FormatUsdExample1()
    ensures FormatUsd(Decimal(499, 2), 2) == "5.49"
  {
    assert Shifted(5489, 2) == 548900 by {
      assert Shifted(5489, 1) == 54890;
    }
    assert Pow10(3) == 1000;
    assert Dropped(549400, 3) == 549 by {
      assert Dropped(5494, 1) == 549;
      assert Dropped(54940, 2) == 549;
    }
    assert Dropped(549, 2) == 5 by {
      assert Dropped(54, 1) == 5;
    }
    assert NatDigits(5) == "5";
    assert PadDigits(549, 2) == "49" by {
      assert PadDigits(54, 1) == "4";
    }
    assert RoundScaled(5489, 3, 2) == 549;
    assert FormatFixed(549, 2) == "5.49";
  }

  /** €10 is about $11.00. */
  lemma FormatUsdExample2()
    ensures FormatUsd(Decimal(10, 0), 0) == "11.00"
  {
    assert Shifted(110, 2) == 11000 by {
      assert Shifted(110, 1) == 1100;
    }
    assert Pow10(1) == 10;
    assert Dropped(11005, 1) == 1100;
    assert Dropped(1100, 2) == 11 by {
      assert Dropped(110, 1) == 11;
    }
    assert NatDigits(11) == "11" by {
      assert NatDigits(1) == "1";
    }
    assert PadDigits(1100, 2) == "00" by {
      assert PadDigits(110, 1) == "0";
    }
    assert RoundScaled(110, 1, 2) == 1100;
    assert FormatFixed(1100, 2) == "11.00";
  }

  /** €0.125 is about $0.138: 0.1375 rounded half up. */
  lemma FormatUsdExample3()
    ensures FormatUsd(Decimal(125, 3), 3) == "0.138"
  {
    assert Shifted(1375, 3) == 1375000 by {
      assert Shifted(1375, 1) == 13750;
      assert Shifted(1375, 2) == 137500;
    }
    assert Pow10(4) == 10000 by {
      assert Pow10(2) == 100;
    }
    assert Dropped(1380000, 4) == 138 by {
      assert Dropped(1380, 1) == 138;
      assert Dropped(13800, 2) == 138;
      assert Dropped(138000, 3) == 138;
    }
    assert Dropped(138, 3) == 0 by {
      assert Dropped(1, 1) == 0;
      assert Dropped(13, 2) == 0;
    }
    assert NatDigits(0) == "0";
    assert PadDigits(138, 3) == "138" by {
      assert PadDigits(1, 1) == "1";
      assert PadDigits(13, 2) == "13";
    }
    assert RoundScaled(1375, 4, 3) == 138;
    assert FormatFixed(138, 3) == "0.138";
  }

  // ---------------------------------------------------------------------
  // The price element's children

  /** A child node of a price element: text, or an element with its class
      list, inline style and text. */
  datatype Child =
    | TextChild(data: string)
    | ElemChild(classes: set<string>, style: map<string, string>, text: string)

  function ChildText(c: Child): string {
    match c
    case TextChild(d) => d
    case ElemChild(_, _, t) => t
  }

  /** `textContent` of the price element. */
  function TextOfChildren(cs: seq<Child>): string {
    if cs == [] then "" else ChildText(cs[0]) + TextOfChildren(cs[1..])
  }

  const USD_COLOR := "#B2D9F5"

  predicate IsEstimate(c: Child) {
    c.ElemChild? && "usd-estimate" in c.classes
  }

  /** Matches the selector `.price-period, .price-month-label`. */
  predicate IsPeriod(c: Child) {
    c.ElemChild? && ("price-period" in c.classes || "price-month-label" in c.classes)
  }

  /** The element `document.createElement('div')` gives, once styled. */
  const NEW_ESTIMATE := ElemChild({"usd-estimate"}, map["color" := USD_COLOR, "marginTop" := "2px"], "")

  /** `querySelector` over the children: the first one matching `p`. */
  function FirstWhere(cs: seq<Child>, p: Child -> bool): (r: Option<nat>)
    ensures r.Some? ==> r.value < |cs| && p(cs[r.value]) && forall j :: 0 <= j < r.value ==> !p(cs[j])
    ensures r.None? ==> forall j :: 0 <= j < |cs| ==> !p(cs[j])
  {
    if cs == [] then None
    else if p(cs[0]) then Some(0)
    else match FirstWhere(cs[1..], p)
      case None => None
      case Some(i) => Some(i + 1)
  }

  /** How many children match `p`. */
  function Count(cs: seq<Child>, p: Child -> bool): nat {
    if cs == [] then 0 else (if p(cs[0]) then 1 else 0) + Count(cs[1..], p)
  }

  lemma {:induction false} CountConcat(a: seq<Child>, b: seq<Child>, p: Child -> bool)
    ensures Count(a + b, p) == Count(a, p) + Count(b, p)
  {
    if a == [] {
      assert a + b == b;
    } else {
      assert (a + b)[1..] == a[1..] + b;
      CountConcat(a[1..], b, p);
    }
  }

  /** Replacing one child by one that matches `p` alike keeps the count. */
  lemma CountUpdate(cs: seq<Child>, i: nat, c: Child, p: Child -> bool)
    requires i < |cs| && p(c) == p(cs[i])
    ensures Count(cs[i := c], p) == Count(cs, p)
  {
    assert cs == cs[..i] + [cs[i]] + cs[i + 1..];
    assert cs[i := c] == cs[..i] + [c] + cs[i + 1..];
    CountConcat(cs[..i] + [cs[i]], cs[i + 1..], p);
    CountConcat(cs[..i], [cs[i]], p);
    CountConcat(cs[..i] + [c], cs[i + 1..], p);
    CountConcat(cs[..i], [c], p);
    assert Count([c], p) == Count([cs[i]], p) by {
      assert [c][1..] == [] && [cs[i]][1..] == [];
    }
  }

  /** At most one matching child: any two matching children are one. */
  lemma {:induction false} CountAtMostOne(cs: seq<Child>, i: nat, j: nat, p: Child -> bool)
    requires Count(cs, p) <= 1 && i < |cs| && j < |cs| && p(cs[i]) && p(cs[j])
    ensures i == j
  {
    if i != j {
      var lo, hi := if i < j then i else j, if i < j then j else i;
      assert cs == cs[..lo] + [cs[lo]] + cs[lo + 1..hi] + [cs[hi]] + cs[hi + 1..];
      CountConcat(cs[..lo] + [cs[lo]] + cs[lo + 1..hi] + [cs[hi]], cs[hi + 1..], p);
      CountConcat(cs[..lo] + [cs[lo]] + cs[lo + 1..hi], [cs[hi]], p);
      CountConcat(cs[..lo] + [cs[lo]], cs[lo + 1..hi], p);
      CountConcat(cs[..lo], [cs[lo]], p);
      assert false;
    }
  }

  /** `usdElement.parentNode.insertBefore(periodElement, usdElement.nextSibling)`
      for the children at `q` (the period) and `u` (the estimate): the
      period is taken out and put back right after the estimate. When it is
      the estimate itself, or already follows it, nothing moves. */
  function MoveAfter(cs: seq<Child>, q: nat, u: nat): (r: seq<Child>)
    requires q < |cs| && u < |cs|
    ensures |r| == |cs|
  {
    if q == u then cs
    else
      var rest := cs[..q] + cs[q + 1..];
      var u' := if q < u then u - 1 else u;
      rest[..u' + 1] + [cs[q]] + rest[u' + 1..]
  }

  /** Where things are after a move: the estimate at `k`, the period right
      after it, every child before the estimate one that was before it
      already, and each kind of child as many times as before. */
  lemma MoveAfterSpec(cs: seq<Child>, q: nat, u: nat, p: Child -> bool) returns (k: nat)
    requires q < |cs| && u < |cs| && q != u
    ensures var r := MoveAfter(cs, q, u);
            && k + 1 < |r| && r[k] == cs[u] && r[k + 1] == cs[q]
            && (forall j :: 0 <= j < k ==> exists i :: 0 <= i < u && i != q && r[j] == cs[i])
            && Count(r, p) == Count(cs, p)
  {
    k := MoveAfterKeepsOrder(cs, q, u);
    var r := MoveAfter(cs, q, u);
    var rest := cs[..q] + cs[q + 1..];
    forall j | 0 <= j < k ensures exists i :: 0 <= i < u && i != q && r[j] == cs[i] {
      assert r[j] == (r[..k + 1] + r[k + 2..])[j] == rest[j];
      if j < q {
        assert rest[j] == cs[j];
      } else {
        assert rest[j] == cs[j + 1];
      }
    }
    MoveAfterCount(cs, q, u, p);
  }

  /** Taking one child out of a sequence lowers the count by what it added. */
  lemma {:induction false} CountRemove(cs: seq<Child>, i: nat, p: Child -> bool)
    requires i < |cs|
    ensures Count(cs, p) == Count(cs[..i] + cs[i + 1..], p) + (if p(cs[i]) then 1 else 0)
  {
    if i == 0 {
      assert cs[..0] + cs[1..] == cs[1..];
    } else {
      var t := cs[..i] + cs[i + 1..];
      CountRemove(cs[1..], i - 1, p);
      assert t[0] == cs[0];
      assert t[1..] == cs[1..][..i - 1] + cs[1..][i..];
    }
  }

  /** The move neither adds nor loses a child of any kind. */
  lemma MoveAfterCount(cs: seq<Child>, q: nat, u: nat, p: Child -> bool)
    requires q < |cs| && u < |cs| && q != u
    ensures Count(MoveAfter(cs, q, u), p) == Count(cs, p)
  {
    var k := MoveAfterKeepsOrder(cs, q, u);
    var r := MoveAfter(cs, q, u);
    CountRemove(cs, q, p);
    CountRemove(r, k + 1, p);
  }

  /** `insertBefore` keeps the order of the other children: taking the moved
      child out again from right after the estimate gives the children
      without it, in their old order. */
  lemma MoveAfterKeepsOrder(cs: seq<Child>, q: nat, u: nat) returns (k: nat)
    requires q < |cs| && u < |cs| && q != u
    ensures k == if q < u then u - 1 else u
    ensures var r := MoveAfter(cs, q, u);
            && k + 1 < |r| && r[k] == cs[u] && r[k + 1] == cs[q]
            && r[..k + 1] + r[k + 2..] == cs[..q] + cs[q + 1..]
  {
    var rest := cs[..q] + cs[q + 1..];
    k := if q < u then u - 1 else u;
    var r := MoveAfter(cs, q, u);
    assert r == rest[..k + 1] + [cs[q]] + rest[k + 1..];
    assert r[k] == rest[k] == cs[u];
    assert r[..k + 1] == rest[..k + 1];
    assert r[k + 2..] == rest[k + 1..];
    assert rest == rest[..k + 1] + rest[k + 1..];
  }

  /** Moving the child that already follows the estimate changes nothing. */
  lemma MoveAfterNext(cs: seq<Child>, u: nat)
    requires u + 1 < |cs|
    ensures MoveAfter(cs, u + 1, u) == cs
  {
    var rest := cs[..u + 1] + cs[u + 2..];
    assert rest[..u + 1] == cs[..u + 1];
    assert rest[u + 1..] == cs[u + 2..];
    assert cs == cs[..u + 1] + [cs[u + 1]] + cs[u + 2..];
  }

  /** The children once the estimate holds `text`, and the estimate's index:
      the first `.usd-estimate` child is reused, or a new one is appended. */
  function WithEstimate(cs: seq<Child>, text: string): (r: (seq<Child>, nat))
    ensures r.1 < |r.0| && |cs| <= |r.0|
  {
    match FirstWhere(cs, IsEstimate)
    case None => (cs + [NEW_ESTIMATE.(text := text)], |cs|)
    case Some(u) => (cs[u := cs[u].(text := text)], u)
  }

  /** The estimate step keeps every other child in place, leaves the first
      estimate child (the reused one, or a new one at the end) showing
      `text`, makes sure there is one, and neither adds nor loses a period
      element. */
  lemma WithEstimateSpec(cs: seq<Child>, text: string)
    ensures var r := WithEstimate(cs, text);
            && IsEstimate(r.0[r.1]) && r.0[r.1].text == text
            && FirstWhere(r.0, IsEstimate) == Some(r.1)
            && Count(r.0, IsEstimate) == Max(Count(cs, IsEstimate), 1)
            && Count(r.0, IsPeriod) == Count(cs, IsPeriod)
            && (forall j :: 0 <= j < |r.0| && j != r.1 ==> j < |cs| && r.0[j] == cs[j])
            && (r.1 < |cs| ==> cs[r.1].ElemChild? && r.0[r.1] == cs[r.1].(text := text))
  {
    match FirstWhere(cs, IsEstimate)
    case None =>
      assert Count(cs, IsEstimate) == 0 by {
        CountNone(cs, IsEstimate);
      }
      CountConcat(cs, [NEW_ESTIMATE.(text := text)], IsEstimate);
      CountConcat(cs, [NEW_ESTIMATE.(text := text)], IsPeriod);
      assert [NEW_ESTIMATE.(text := text)][1..] == [];
    case Some(u) =>
      var c := cs[u].(text := text);
      CountUpdate(cs, u, c, IsEstimate);
      CountUpdate(cs, u, c, IsPeriod);
      CountPositive(cs, u, IsEstimate);
  }

  lemma {:induction false} CountNone(cs: seq<Child>, p: Child -> bool)
    requires forall j :: 0 <= j < |cs| ==> !p(cs[j])
    ensures Count(cs, p) == 0
  {
    if cs != [] {
      CountNone(cs[1..], p);
    }
  }

  lemma {:induction false} CountPositive(cs: seq<Child>, i: nat, p: Child -> bool)
    requires i < |cs| && p(cs[i])
    ensures Count(cs, p) >= 1
  {
    if i > 0 {
      CountPositive(cs[1..], i - 1, p);
    }
  }

  /** What `processPrice` does to the children of a price element. */
  function PriceOutcome(cs: seq<Child>): seq<Child> {
    match FirstPriceMatch(Trim(TextOfChildren(cs)))
    case None => cs
    case Some(a) => Estimated(cs, EstimateText(a))
  }

  /** The children once the estimate shows `text`: the estimate is set, then
      the first period element, if any, is moved after it. */
  function Estimated(cs: seq<Child>, text: string): seq<Child> {
    var r := WithEstimate(cs, text);
    PeriodMoved(r.0, r.1)
  }

  /** The period step: the first period element, if any, is moved to follow
      the child at `u`. */
  function PeriodMoved(cs: seq<Child>, u: nat): seq<Child>
    requires u < |cs|
  {
    match FirstWhere(cs, IsPeriod)
    case None => cs
    case Some(q) => MoveAfter(cs, q, u)
  }

  /** A period element already right after `u` stays where it is. */
  lemma PeriodMovedFixed(cs: seq<Child>, u: nat)
    requires u < |cs|
    requires FirstWhere(cs, IsPeriod).None? || FirstWhere(cs, IsPeriod) == Some(u + 1)
    ensures PeriodMoved(cs, u) == cs
  {
    if FirstWhere(cs, IsPeriod).Some? {
      MoveAfterNext(cs, u);
    }
  }

  /** After the estimate step: the first estimate child (index `k`) holds
      the text, there is exactly one estimate child when there was at most
      one, no period element is lost or added, and the first period element,
      unless it is the estimate itself, sits right after the estimate. */
  lemma EstimatedShape(cs: seq<Child>, text: string) returns (k: nat)
    ensures var out := Estimated(cs, text);
            && k < |out| && FirstWhere(out, IsEstimate) == Some(k) && out[k].text == text
            && Count(out, IsEstimate) == Max(Count(cs, IsEstimate), 1)
            && Count(out, IsPeriod) == Count(cs, IsPeriod)
            && (FirstWhere(cs, IsPeriod).Some? && !IsEstimate(cs[FirstWhere(cs, IsPeriod).value]) ==>
                  k + 1 < |out| && out[k + 1] == cs[FirstWhere(cs, IsPeriod).value])
  {
    var (cs', u) := WithEstimate(cs, text);
    WithEstimateSpec(cs, text);
    var first := FirstWhere(cs, IsPeriod);
    if first.Some? && !IsEstimate(cs[first.value]) {
      var q := first.value;
      assert cs'[q] == cs[q];
      forall j | 0 <= j < q ensures !IsPeriod(cs'[j]) {
        assert !IsPeriod(cs[j]);
      }
      assert FirstWhere(cs', IsPeriod) == Some(q);
    }
    match FirstWhere(cs', IsPeriod)
    case None =>
      k := u;
    case Some(q) =>
      if q == u {
        k := u;
      } else {
        k := MovedShape(cs', q, u);
      }
  }

  /** Moving a period element (at `q`) after the first estimate child (at
      `u`): the estimate, now at `k`, is still the first one and the period
      follows it; no child of either kind is lost or added. */
  lemma MovedShape(cs: seq<Child>, q: nat, u: nat) returns (k: nat)
    requires q < |cs| && q != u && FirstWhere(cs, IsEstimate) == Some(u)
    ensures var out := MoveAfter(cs, q, u);
            && k + 1 < |out| && FirstWhere(out, IsEstimate) == Some(k)
            && out[k] == cs[u] && out[k + 1] == cs[q]
            && Count(out, IsEstimate) == Count(cs, IsEstimate)
            && Count(out, IsPeriod) == Count(cs, IsPeriod)
  {
    k := MoveAfterSpec(cs, q, u, IsEstimate);
    var k' := MoveAfterSpec(cs, q, u, IsPeriod);
    var out := MoveAfter(cs, q, u);
    forall j | 0 <= j < k ensures !IsEstimate(out[j]) {
      var i :| 0 <= i < u && i != q && out[j] == cs[i];
    }
  }

  /** Doing the estimate step twice with the same text is doing it once, as
      long as there is at most one period element and no child is both an
      estimate and a period element. */
  lemma EstimatedIdempotent(cs: seq<Child>, text: string, out: seq<Child>)
    requires Count(cs, IsPeriod) <= 1
    requires forall j :: 0 <= j < |cs| ==> !(IsEstimate(cs[j]) && IsPeriod(cs[j]))
    requires out == Estimated(cs, text)
    ensures Estimated(out, text) == out
  {
    var k := EstimatedShape(cs, text);
    PeriodFollows(cs, out, k);
    EstimatedFixed(out, text, k);
  }

  /** With at most one period element in `cs`, none of them an estimate, the
      only period element of `out` is the one at `k + 1`, if any. */
  lemma PeriodFollows(cs: seq<Child>, out: seq<Child>, k: nat)
    requires Count(cs, IsPeriod) <= 1
    requires forall j :: 0 <= j < |cs| ==> !(IsEstimate(cs[j]) && IsPeriod(cs[j]))
    requires Count(out, IsPeriod) == Count(cs, IsPeriod)
    requires FirstWhere(cs, IsPeriod).Some? ==> k + 1 < |out| && out[k + 1] == cs[FirstWhere(cs, IsPeriod).value]
    ensures FirstWhere(out, IsPeriod).None? || FirstWhere(out, IsPeriod) == Some(k + 1)
  {
    var q := FirstWhere(out, IsPeriod);
    if q.Some? {
      var q0 := FirstWhere(cs, IsPeriod);
      if q0.None? {
        CountPositive(out, q.value, IsPeriod);
        CountNone(cs, IsPeriod);
        assert false;
      }
      CountAtMostOne(out, q.value, k + 1, IsPeriod);
    }
  }

  /** Children that already show the estimate first and the period right
      after it are left as they are by the estimate step. */
  lemma EstimatedFixed(out: seq<Child>, text: string, k: nat)
    requires k < |out| && FirstWhere(out, IsEstimate) == Some(k) && out[k].text == text
    requires FirstWhere(out, IsPeriod).None? || FirstWhere(out, IsPeriod) == Some(k + 1)
    ensures Estimated(out, text) == out
  {
    WithEstimateFixed(out, text, k);
    PeriodMovedFixed(out, k);
  }

  /** An estimate that already shows `text` is reused as it is. */
  lemma WithEstimateFixed(out: seq<Child>, text: string, k: nat)
    requires k < |out| && FirstWhere(out, IsEstimate) == Some(k) && out[k].text == text
    ensures WithEstimate(out, text) == (out, k)
  {
    var c := out[k];
    assert c.(text := text) == c;
    assert out[k := c] == out;
  }

  /** Running `processPrice` again on what it produced changes nothing, as
      long as the text still yields the same first match, there is at most
      one period element, and no child is both an estimate and a period
      element. */
  lemma PriceIdempotent(cs: seq<Child>, out: seq<Child>)
    requires out == PriceOutcome(cs)
    requires FirstPriceMatch(Trim(TextOfChildren(out))) == FirstPriceMatch(Trim(TextOfChildren(cs)))
    requires Count(cs, IsPeriod) <= 1
    requires forall j :: 0 <= j < |cs| ==> !(IsEstimate(cs[j]) && IsPeriod(cs[j]))
    ensures PriceOutcome(out) == out
  {
    var m := FirstPriceMatch(Trim(TextOfChildren(cs)));
    if m.None? {
      OutcomeWithoutMatch(cs);
      return;
    }
    var text := EstimateText(m.value);
    OutcomeWithMatch(cs, m.value);
    OutcomeWithMatch(out, m.value);
    EstimatedIdempotent(cs, text, out);
  }

  /** Without a match, `processPrice` leaves the children alone. */
  lemma OutcomeWithoutMatch(cs: seq<Child>)
    requires FirstPriceMatch(Trim(TextOfChildren(cs))).None?
    ensures PriceOutcome(cs) == cs
  {
  }

  /** With a match, the outcome is the estimate step for that match. */
  lemma OutcomeWithMatch(cs: seq<Child>, a: Amount)
    requires FirstPriceMatch(Trim(TextOfChildren(cs))) == Some(a)
    ensures PriceOutcome(cs) == Estimated(cs, EstimateText(a))
  {
  }

  /** A `.price-amount` or `.col--price` element: the only parents whose
      text changes make the script look at them again. */
  predicate WatchedForText(classes: set<string>) {
    "price-amount" in classes || "col--price" in classes
  }

  /** A price element; `processPrice` replaces and reorders its children. */
  class PriceElement {
    const classes: set<string>
    var children: seq<Child>

    constructor (classes: set<string>, children: seq<Child>)
      ensures this.classes == classes && this.children == children
    {
      this.classes := classes;
      this.children := children;
    }

    /** `processPrice(priceElement)`. */
    method ProcessPrice()
      modifies this
      ensures children == PriceOutcome(old(children))
    {
      ghost var cs := children;
      var priceText := Trim(TextOfChildren(children));
      var found := FirstPriceMatch(priceText);
      if found.None? {
        OutcomeWithoutMatch(cs);
        return;
      }
      var amount := found.value;
      var euroAmount := EuroAmount(amount);
      var decimals := DecimalCount(AmountText(amount));
      var formattedUSD := FormatUsd(euroAmount, decimals);
      assert "~$" + formattedUSD == EstimateText(amount) by {
        DecimalCountOfAmount(amount);
      }
      var usdIndex := UpdateEstimate("~$" + formattedUSD);
      MovePeriod(usdIndex, "~$" + formattedUSD);
      OutcomeWithMatch(cs, amount);
    }

    /** Finding or appending the `.usd-estimate` child and setting its text. */
    method UpdateEstimate(text: string) returns (usdIndex: nat)
      modifies this
      ensures (children, usdIndex) == WithEstimate(old(children), text)
      ensures usdIndex < |children| && children[usdIndex].ElemChild? && children[usdIndex].text == text
    {
      var usd := FirstWhere(children, IsEstimate);
      if usd.None? {
        children := children + [NEW_ESTIMATE];
        usdIndex := |children| - 1;
        children := children[usdIndex := children[usdIndex].(text := text)];
        assert children == old(children) + [NEW_ESTIMATE.(text := text)];
      } else {
        usdIndex := usd.value;
        children := children[usdIndex := children[usdIndex].(text := text)];
      }
    }

    /** The period step: the estimate's text is set once more and the first
        period element is moved to follow the estimate. */
    method MovePeriod(usdIndex: nat, text: string)
      requires usdIndex < |children| && children[usdIndex].ElemChild? && children[usdIndex].text == text
      modifies this
      ensures children == PeriodMoved(old(children), usdIndex)
    {
      var period := FirstWhere(children, IsPeriod);
      if period.Some? {
        children := children[usdIndex := children[usdIndex].(text := text)];
        assert children == old(children);
        children := MoveAfter(children, period.value, usdIndex);
      }
    }
  }

  /** The `characterData` branch of the observer: the parent of the changed
      text node is processed again only when it is a watched price element. */
  method OnCharacterData(parent: PriceElement?)
    modifies parent
    ensures parent != null ==>
              parent.children == if WatchedForText(parent.classes) then PriceOutcome(old(parent.children))
                                 else old(parent.children)
  {
    if parent != null && ("price-amount" in parent.classes || "col--price" in parent.classes) {
      parent.ProcessPrice();
    }
  }
}
