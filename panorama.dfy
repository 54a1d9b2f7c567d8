/** The Panorama 11 managed-devices script: on the device summary page it
    finds the grid columns whose header names a device, colours the
    Connected / Disconnected status cells and makes the cells of the chosen
    columns copy their text when clicked. */
module Panorama {
  import opened Wrappers
  import opened Text

  // ---------------------------------------------------------------------
  // The page

  const SUMMARY_HASH := "panorama/managed-devices/summary"

  /** `isRelevantPage`, given `window.location.hash`. */
  predicate IsRelevantPage(hash: string) {
    Contains(hash, SUMMARY_HASH)
  }

  /** The script runs exactly on the hashes that mention the summary page. */
  lemma RelevantPageIff(hash: string)
    ensures IsRelevantPage(hash) <==> exists i :: OccursAt(hash, SUMMARY_HASH, i)
  {
    ContainsIff(hash, SUMMARY_HASH);
  }

  // ---------------------------------------------------------------------
  // Choosing the columns from the header

  /** The keywords every caller passes to `findInterestingColumns`. */
  const HEADER_KEYWORDS: seq<string> := ["Device Name", "Serial Number", "Software Version"]

  /** A header cell whose trimmed text contains one of the keywords. */
  predicate HasKeyword(text: string, keywords: seq<string>) {
    exists k :: 0 <= k < |keywords| && Contains(Trim(text), keywords[k])
  }

  /** The `for (const keyword of headerKeywords)` loop that stops at the
      first keyword the trimmed cell text includes. */
  method CellHasKeyword(text: string, keywords: seq<string>) returns (hit: bool)
    ensures hit <==> HasKeyword(text, keywords)
  {
    var trimmed := Trim(text);
    hit := false;
    var k := 0;
    while k < |keywords|
      invariant 0 <= k <= |keywords|
      invariant forall j :: 0 <= j < k ==> !Contains(trimmed, keywords[j])
    {
      if Contains(trimmed, keywords[k]) {
        hit := true;
        break;
      }
      k := k + 1;
    }
  }

  /** How many cells of one header row have a keyword: `matchCount`. */
  function Hits(cells: seq<string>, keywords: seq<string>): (n: nat)
    ensures n <= |cells|
  {
    if cells == [] then 0
    else Hits(cells[..|cells| - 1], keywords) + (if HasKeyword(cells[|cells| - 1], keywords) then 1 else 0)
  }

  /** The `tds.forEach` pass over one header row that counts its keyword
      cells. */
  method CountHits(tds: seq<string>, keywords: seq<string>) returns (matchCount: nat)
    ensures matchCount == Hits(tds, keywords)
  {
    matchCount := 0;
    for j := 0 to |tds|
      invariant matchCount == Hits(tds[..j], keywords)
    {
      var hit := CellHasKeyword(tds[j], keywords);
      if hit {
        matchCount := matchCount + 1;
      }
      assert tds[..j + 1][..j] == tds[..j];
    }
    assert tds[..|tds|] == tds;
  }

  /** Row `c` is the one the scan settles on: it has hits, no row has more,
      and every earlier row has fewer. */
  predicate IsChosen(rows: seq<seq<string>>, keywords: seq<string>, c: nat) {
    && c < |rows|
    && Hits(rows[c], keywords) > 0
    && (forall j :: 0 <= j < |rows| ==> Hits(rows[j], keywords) <= Hits(rows[c], keywords))
    && (forall j :: 0 <= j < c ==> Hits(rows[j], keywords) < Hits(rows[c], keywords))
  }

  /** The row `chosenRow` names after the first `n` header rows have been
      scanned: a row replaces the current choice only when it has strictly
      more hits, so a tie keeps the earlier row, and a row without hits is
      never chosen. */
  function ChosenAfter(rows: seq<seq<string>>, keywords: seq<string>, n: nat): (r: Option<nat>)
    requires n <= |rows|
    ensures r.None? <==> forall j :: 0 <= j < n ==> Hits(rows[j], keywords) == 0
    ensures r.Some? ==> IsChosen(rows[..n], keywords, r.value)
  {
    if n == 0 then None
    else
      var prev := ChosenAfter(rows, keywords, n - 1);
      var best := if prev.None? then 0 else Hits(rows[prev.value], keywords);
      assert forall j :: 0 <= j < n - 1 ==> rows[..n][j] == rows[..n - 1][j];
      if Hits(rows[n - 1], keywords) > best then Some(n - 1) else prev
  }

  function ChosenRow(rows: seq<seq<string>>, keywords: seq<string>): Option<nat> {
    ChosenAfter(rows, keywords, |rows|)
  }

  /** The choice is fully determined: the chosen row is the only row that
      satisfies `IsChosen`, and there is none exactly when no row has hits. */
  lemma ChosenRowUnique(rows: seq<seq<string>>, keywords: seq<string>, c: nat)
    ensures IsChosen(rows, keywords, c) <==> ChosenRow(rows, keywords) == Some(c)
  {
    assert rows[..|rows|] == rows;
    var r := ChosenRow(rows, keywords);
    if IsChosen(rows, keywords, c) {
      assert r.Some?;
      var d := r.value;
      assert IsChosen(rows, keywords, d);
      assert Hits(rows[c], keywords) == Hits(rows[d], keywords);
    }
  }

  /** The indexes below `n` of the cells that have a keyword. */
  function KeywordIndexes(cells: seq<string>, keywords: seq<string>, n: nat): (r: set<nat>)
    requires n <= |cells|
    ensures forall i: nat :: i in r <==> i < n && HasKeyword(cells[i], keywords)
  {
    if n == 0 then {}
    else KeywordIndexes(cells, keywords, n - 1) + (if HasKeyword(cells[n - 1], keywords) then {n - 1} else {})
  }

  /** What `findInterestingColumns` returns: the indexes of the chosen row's
      cells that have a keyword, and nothing when there is no header row or
      no row has a hit. */
  function InterestingColumns(rows: seq<seq<string>>, keywords: seq<string>): (cols: set<nat>)
    ensures (forall j :: 0 <= j < |rows| ==> Hits(rows[j], keywords) == 0) ==> cols == {}
  {
    match ChosenRow(rows, keywords)
    case None => {}
    case Some(c) => KeywordIndexes(rows[c], keywords, |rows[c]|)
  }

  /** An index is interesting exactly when it is the index of a keyword
      cell in the row with the most hits (the earliest such row). */
  lemma InterestingColumnsIff(rows: seq<seq<string>>, keywords: seq<string>, i: nat)
    ensures i in InterestingColumns(rows, keywords) <==>
            exists c: nat :: IsChosen(rows, keywords, c) && i < |rows[c]| && HasKeyword(rows[c][i], keywords)
  {
    var r := ChosenRow(rows, keywords);
    if r.Some? {
      ChosenRowUnique(rows, keywords, r.value);
    }
    forall c: nat | IsChosen(rows, keywords, c) ensures r == Some(c) {
      ChosenRowUnique(rows, keywords, c);
    }
  }

  /** `findInterestingColumns(grid, headerKeywords)`, given the text of the
      cells of each header row of the grid. */
  method FindInterestingColumns(headerRows: seq<seq<string>>, keywords: seq<string>) returns (colIndexes: set<nat>)
    ensures colIndexes == InterestingColumns(headerRows, keywords)
    ensures headerRows == [] ==> colIndexes == {}
  {
    colIndexes := {};
    if |headerRows| == 0 {
      return;
    }
    var chosenRow := ChooseRow(headerRows, keywords);
    if chosenRow.None? {
      return;
    }
    colIndexes := KeywordCells(headerRows[chosenRow.value], keywords);
  }

  /** The scan over the header rows that keeps the first row with the most
      keyword cells. */
  method ChooseRow(headerRows: seq<seq<string>>, keywords: seq<string>) returns (chosenRow: Option<nat>)
    ensures chosenRow == ChosenRow(headerRows, keywords)
  {
    chosenRow := None;
    var maxMatches := 0;
    for r := 0 to |headerRows|
      invariant chosenRow == ChosenAfter(headerRows, keywords, r)
      invariant maxMatches == if chosenRow.None? then 0 else Hits(headerRows[chosenRow.value], keywords)
    {
      var matchCount := CountHits(headerRows[r], keywords);
      if matchCount > maxMatches {
        maxMatches := matchCount;
        chosenRow := Some(r);
      }
    }
  }

  /** The pass over the chosen row that collects the indexes of its
      keyword cells. */
  method KeywordCells(chosenTds: seq<string>, keywords: seq<string>) returns (colIndexes: set<nat>)
    ensures colIndexes == KeywordIndexes(chosenTds, keywords, |chosenTds|)
  {
    colIndexes := {};
    for i := 0 to |chosenTds|
      invariant colIndexes == KeywordIndexes(chosenTds, keywords, i)
    {
      var hit := CellHasKeyword(chosenTds[i], keywords);
      assert KeywordIndexes(chosenTds, keywords, i + 1)
             == KeywordIndexes(chosenTds, keywords, i) + (if hit then {i as nat} else {});
      if hit {
        colIndexes := colIndexes + {i as nat};
      }
    }
  }

  // ---------------------------------------------------------------------
  // One `div.x-grid3-cell-inner`

  /** What the script reads and writes on a cell's inner div: its text, its
      inline style, its dataset, and how many click listeners it holds. */
  datatype DivState = DivState(text: string, style: map<string, string>,
                               dataset: map<string, string>, clickListeners: nat)

  const DISCONNECTED_COLOR := "#D94949"
  const CONNECTED_COLOR := "#1FAF2C"

  /** The colour `highlightStatus` gives a cell with this text, if any: the
      trimmed text must be exactly one of the two status words. */
  function StatusColor(text: string): Option<string> {
    var t := Trim(text);
    if t == "Disconnected" then Some(DISCONNECTED_COLOR)
    else if t == "Connected" then Some(CONNECTED_COLOR)
    else None
  }

  /** The effect of `highlightStatus`: a status cell gets its colour and a
      bold weight. */
  function Highlighted(s: DivState): DivState {
    match StatusColor(s.text)
    case None => s
    case Some(c) => s.(style := s.style["color" := c]["fontWeight" := "bold"])
  }

  /** Highlighting touches nothing but the style: a status cell gets its
      colour and a bold weight and keeps its other style entries; any other
      cell is left as it was. */
  lemma HighlightedSpec(s: DivState)
    ensures var r := Highlighted(s);
            && r.text == s.text && r.dataset == s.dataset && r.clickListeners == s.clickListeners
            && (StatusColor(s.text).None? ==> r == s)
            && (StatusColor(s.text).Some? ==>
                  && "color" in r.style && r.style["color"] == StatusColor(s.text).value
                  && "fontWeight" in r.style && r.style["fontWeight"] == "bold"
                  && forall k :: k != "color" && k != "fontWeight" ==>
                       (k in r.style <==> k in s.style) && (k in s.style ==> r.style[k] == s.style[k]))
  {
    assert |"color"| != |"fontWeight"|;
  }

  /** Highlighting a cell a second time changes nothing. */
  lemma HighlightIdempotent(s: DivState)
    ensures Highlighted(Highlighted(s)) == Highlighted(s)
  {
    var r := Highlighted(s);
    match StatusColor(s.text)
    case None =>
    case Some(c) =>
      assert r.style == s.style["color" := c]["fontWeight" := "bold"];
      assert Highlighted(r) == r.(style := r.style["color" := c]["fontWeight" := "bold"]);
      assert |"color"| != |"fontWeight"|;
      assert r.style["color" := c]["fontWeight" := "bold"] == r.style;
  }

  /** Whitespace around a status word does not matter, anything else does:
      a padded "Connected" turns green, "Not Connected" stays as it was. */
  lemma StatusWordsExamples(pre: string, post: string)
    requires AllSpace(pre) && AllSpace(post)
    ensures StatusColor(pre + "Connected" + post) == Some(CONNECTED_COLOR)
    ensures StatusColor(pre + "Disconnected" + post) == Some(DISCONNECTED_COLOR)
    ensures StatusColor("Not Connected") == None
  {
    TrimPadded(pre, "Connected", post);
    TrimPadded(pre, "Disconnected", post);
    assert |"Connected"| != |"Disconnected"|;
    var n := "Not Connected";
    assert Trimmed(n) by {
      assert n[0] == 'N' && n[|n| - 1] == 'd';
    }
    assert |n| != |"Connected"| && |n| != |"Disconnected"|;
  }

  const HAS_COPY_KEY := "hasCopy"
  const ORIGINAL_TEXT_KEY := "originalText"

  predicate HasCopy(dataset: map<string, string>) {
    HAS_COPY_KEY in dataset && dataset[HAS_COPY_KEY] == "true"
  }

  /** The effect of `addCopyBehavior`: a cell not yet marked is marked and
      gets the behaviour; a marked cell is left as it was. */
  function WithCopy(s: DivState): DivState {
    if HasCopy(s.dataset) then s
    else
      DivState(s.text, s.style["cursor" := "pointer"],
               s.dataset[HAS_COPY_KEY := "true"][ORIGINAL_TEXT_KEY := Trim(s.text)],
               s.clickListeners + 1)
  }

  /** A cell not yet marked is marked, keeps its trimmed text in the
      dataset, shows a pointer and gets one more click listener; its other
      dataset entries stay; a marked cell is left as it was. */
  lemma WithCopySpec(s: DivState)
    ensures var r := WithCopy(s);
            && (HasCopy(s.dataset) ==> r == s)
            && (!HasCopy(s.dataset) ==>
                  && HasCopy(r.dataset)
                  && ORIGINAL_TEXT_KEY in r.dataset && r.dataset[ORIGINAL_TEXT_KEY] == Trim(s.text)
                  && "cursor" in r.style && r.style["cursor"] == "pointer"
                  && r.clickListeners == s.clickListeners + 1 && r.text == s.text)
            && forall k :: k != HAS_COPY_KEY && k != ORIGINAL_TEXT_KEY && k in s.dataset ==>
                 k in r.dataset && r.dataset[k] == s.dataset[k]
  {
    if !HasCopy(s.dataset) {
      var d := s.dataset[HAS_COPY_KEY := "true"];
      assert WithCopy(s).dataset == d[ORIGINAL_TEXT_KEY := Trim(s.text)];
      assert |HAS_COPY_KEY| != |ORIGINAL_TEXT_KEY|;
      assert HasCopy(d[ORIGINAL_TEXT_KEY := Trim(s.text)]);
    }
  }

  /** What a click on the cell copies: the text kept in the dataset when the
      behaviour was added, nothing when it is missing or empty. */
  function ClickCopies(s: DivState): Option<string> {
    if ORIGINAL_TEXT_KEY in s.dataset && s.dataset[ORIGINAL_TEXT_KEY] != "" then Some(s.dataset[ORIGINAL_TEXT_KEY])
    else None
  }

  /** Adding the copy behaviour twice is adding it once. */
  lemma CopyIdempotent(s: DivState)
    ensures WithCopy(WithCopy(s)) == WithCopy(s)
  {
  }

  /** A click copies the trimmed text the cell had when the behaviour was
      first added, whatever the cell shows afterwards, and an empty cell
      copies nothing. */
  lemma CopiedTextIsCaptured(s: DivState, later: string)
    requires !HasCopy(s.dataset)
    ensures ClickCopies(WithCopy(s)) == (if Trim(s.text) == "" then None else Some(Trim(s.text)))
    ensures ClickCopies(WithCopy(s).(text := later)) == ClickCopies(WithCopy(s))
  {
  }

  /** A cell holds a click listener only once it is marked, and never more
      than one. */
  predicate OneListener(s: DivState) {
    s.clickListeners == 0 || (s.clickListeners == 1 && HasCopy(s.dataset))
  }

  /** What `processRow` and `processCell` do to the inner div of a cell:
      always `highlightStatus`, then `addCopyBehavior` when the column is
      interesting. */
  function Decorated(s: DivState, copy: bool): DivState {
    if copy then WithCopy(Highlighted(s)) else Highlighted(s)
  }

  /** Decorating keeps at most one listener on a cell. */
  lemma DecoratedKeepsOneListener(s: DivState, copy: bool)
    requires OneListener(s)
    ensures OneListener(Decorated(s, copy))
    ensures copy ==> HasCopy(Decorated(s, copy).dataset)
  {
  }

  /** Decorating a cell again adds nothing but what the second pass asks
      for: the copy behaviour is present when either pass asked for it. */
  lemma DecoratedAbsorbs(s: DivState, a: bool, b: bool)
    ensures Decorated(Decorated(s, a), b) == Decorated(s, a || b)
  {
    var h := Highlighted(s);
    HighlightIdempotent(s);
    HighlightedAfterCopy(s);
    CopyIdempotent(h);
    if a {
      assert Decorated(s, a) == WithCopy(h);
      assert Highlighted(WithCopy(h)) == WithCopy(h);
    } else {
      assert Decorated(s, a) == h;
      assert Highlighted(h) == h;
    }
  }

  /** The copy behaviour leaves a highlighted cell highlighted. */
  lemma HighlightedAfterCopy(s: DivState)
    ensures Highlighted(WithCopy(Highlighted(s))) == WithCopy(Highlighted(s))
  {
    var h := Highlighted(s);
    var w := WithCopy(h);
    assert w.text == s.text;
    match StatusColor(s.text)
    case None =>
      assert h == s;
    case Some(c) =>
      if HasCopy(h.dataset) {
        assert w == h;
        HighlightIdempotent(s);
      } else {
        assert h.style == s.style["color" := c]["fontWeight" := "bold"];
        assert w.style == h.style["cursor" := "pointer"];
        assert |"color"| != |"fontWeight"| && |"cursor"| != |"fontWeight"| && |"color"| != |"cursor"|;
        assert w.style["color" := c]["fontWeight" := "bold"] == w.style;
      }
  }

  /** The cell shows its status colour: highlighting it again changes
      nothing. */
  predicate Shown(s: DivState) {
    Highlighted(s) == s
  }

  /** A processed cell: it shows its status colour, and it has the copy
      behaviour when `copy` asked for it. */
  predicate Done(s: DivState, copy: bool) {
    Shown(s) && (copy ==> HasCopy(s.dataset))
  }

  /** What one or more passes of `processRow`/`processCell` leave of a
      div: untouched, or decorated, with or without the copy behaviour. */
  predicate Step(s0: DivState, s1: DivState) {
    s1 == s0 || s1 == Decorated(s0, false) || s1 == Decorated(s0, true)
  }

  /** Decorating a cell processes it. */
  lemma DecoratedDone(s: DivState, copy: bool)
    ensures Done(Decorated(s, copy), copy)
  {
    HighlightIdempotent(s);
    HighlightedAfterCopy(s);
    if copy {
      WithCopySpec(Highlighted(s));
    }
  }

  /** A processed cell stays processed whatever later passes do to it. */
  lemma StepKeepsDone(s0: DivState, s1: DivState, copy: bool)
    requires Done(s0, copy) && Step(s0, s1)
    ensures Done(s1, copy)
  {
    if s1 != s0 {
      DecoratedDone(s0, s1 == Decorated(s0, true));
      assert WithCopy(s0) == s0 || !copy;
    }
  }

  /** Passes compose: two of them are one. */
  lemma StepTrans(s0: DivState, s1: DivState, s2: DivState)
    requires Step(s0, s1) && Step(s1, s2)
    ensures Step(s0, s2)
  {
    if s1 != s0 && s2 != s1 {
      var a := s1 == Decorated(s0, true);
      var b := s2 == Decorated(s1, true);
      assert s1 == Decorated(s0, a) && s2 == Decorated(s1, b);
      DecoratedAbsorbs(s0, a, b);
    }
  }

  // ---------------------------------------------------------------------
  // The page's objects

  /** A `div.x-grid3-cell-inner`; `highlightStatus` and `addCopyBehavior`
      change it in place. */
  class CellDiv {
    var text: string
    var style: map<string, string>
    var dataset: map<string, string>
    var clickListeners: nat

    constructor (text: string)
      ensures State() == DivState(text, map[], map[], 0)
    {
      this.text := text;
      style := map[];
      dataset := map[];
      clickListeners := 0;
    }

    function State(): DivState
      reads this
    {
      DivState(text, style, dataset, clickListeners)
    }

    /** `highlightStatus(cellDiv)`. */
    method HighlightStatus()
      modifies this
      ensures State() == Highlighted(old(State()))
    {
      var t := Trim(text);
      if t == "Disconnected" {
        style := style["color" := DISCONNECTED_COLOR];
        style := style["fontWeight" := "bold"];
      } else if t == "Connected" {
        style := style["color" := CONNECTED_COLOR];
        style := style["fontWeight" := "bold"];
      }
    }

    /** `addCopyBehavior(cellDiv)`; the listener itself is counted, its
        clipboard call is not modelled. */
    method AddCopyBehavior()
      modifies this
      ensures State() == WithCopy(old(State()))
    {
      ghost var s0 := State();
      if HAS_COPY_KEY in dataset && dataset[HAS_COPY_KEY] == "true" {
        assert HasCopy(s0.dataset);
        return;
      }
      assert !HasCopy(s0.dataset);
      dataset := dataset[HAS_COPY_KEY := "true"];
      var originalText := Trim(text);
      dataset := dataset[ORIGINAL_TEXT_KEY := originalText];
      style := style["cursor" := "pointer"];
      clickListeners := clickListeners + 1;
    }
  }

  /** A `td.x-grid3-cell` and what its `querySelector('div.x-grid3-cell-inner')`
      finds. */
  class Td {
    const inner: CellDiv?

    constructor (inner: CellDiv?)
      ensures this.inner == inner
    {
      this.inner := inner;
    }
  }

  /** A `.x-grid3` grid and the cell texts of its header rows, as the page
      currently shows them. */
  class Grid {
    var headerRows: seq<seq<string>>

    constructor (headerRows: seq<seq<string>>)
      ensures this.headerRows == headerRows
    {
      this.headerRows := headerRows;
    }
  }

  /** A `.x-grid3-row`: the grid it lies in (`closest('.x-grid3')`) and its
      `td.x-grid3-cell` cells in document order. */
  class Row {
    const grid: Grid?
    const cells: seq<Td>

    constructor (grid: Grid?, cells: seq<Td>)
      ensures this.grid == grid && this.cells == cells
    {
      this.grid := grid;
      this.cells := cells;
    }
  }

  /** The inner divs of a list of cells. */
  function Divs(tds: seq<Td>): set<CellDiv> {
    set t | t in tds && t.inner != null :: t.inner
  }

  /** The inner divs of the cells of a list of rows. */
  function RowsDivs(rows: seq<Row>): set<CellDiv> {
    set r, t | r in rows && t in r.cells && t.inner != null :: t.inner
  }

  /** The inner divs of a list of loose cells. */
  function CellsDivs(cells: seq<(Td, Row?)>): set<CellDiv> {
    set c | c in cells && c.0.inner != null :: c.0.inner
  }

  /** Some cell below index `n` has `d` as its inner div. */
  predicate SeenBelow(tds: seq<Td>, n: int, d: CellDiv) {
    exists j :: 0 <= j < n && j < |tds| && tds[j].inner == d
  }

  /** Some cell below index `n` whose index is in `cols` has `d` as its
      inner div. */
  predicate CopiedBelow(tds: seq<Td>, n: int, cols: set<nat>, d: CellDiv) {
    exists j: nat :: j < n && j < |tds| && tds[j].inner == d && j in cols
  }

  lemma StepBelow(tds: seq<Td>, n: nat, cols: set<nat>, d: CellDiv)
    requires n < |tds|
    ensures SeenBelow(tds, n + 1, d) <==> SeenBelow(tds, n, d) || tds[n].inner == d
    ensures CopiedBelow(tds, n + 1, cols, d) <==> CopiedBelow(tds, n, cols, d) || (tds[n].inner == d && n in cols)
  {
  }

  /** `tds.indexOf(td)`: `Array.prototype.indexOf` on the row's cells. */
  function IndexOfCell(tds: seq<Td>, td: Td): (r: Option<nat>)
    ensures r.Some? ==> r.value < |tds| && tds[r.value] == td && forall j :: 0 <= j < r.value ==> tds[j] != td
    ensures r.None? ==> td !in tds
  {
    if tds == [] then None
    else if tds[0] == td then Some(0)
    else match IndexOfCell(tds[1..], td)
      case None => None
      case Some(i) => Some(i + 1)
  }

  /** The `cells.forEach((cell, index) => ...)` pass of `processRow`: every
      cell with an inner div is highlighted, and given the copy behaviour
      when its index is in `cols`. A div reached from several cells ends as
      if decorated once, with the copy behaviour when any of them asked for
      it. */
  method DecorateCells(cells: seq<Td>, cols: set<nat>)
    modifies Divs(cells)
    ensures forall d: CellDiv :: d in Divs(cells) ==> d.State() == Decorated(old(d.State()), CopiedBelow(cells, |cells|, cols, d))
  {
    for index := 0 to |cells|
      invariant forall d: CellDiv :: d in Divs(cells) ==>
                  d.State() == if SeenBelow(cells, index, d) then Decorated(old(d.State()), CopiedBelow(cells, index, cols, d))
                               else old(d.State())
    {
      label L:
      var innerDiv := cells[index].inner;
      if innerDiv != null {
        innerDiv.HighlightStatus();
        if index in cols {
          innerDiv.AddCopyBehavior();
        }
      }
      forall d | d in Divs(cells)
        ensures d.State() == if SeenBelow(cells, index + 1, d) then Decorated(old(d.State()), CopiedBelow(cells, index + 1, cols, d))
                             else old(d.State())
      {
        StepBelow(cells, index, cols, d);
        if d == innerDiv {
          assert d.State() == Decorated(old@L(d.State()), index in cols);
          if SeenBelow(cells, index, d) {
            DecoratedAbsorbs(old(d.State()), CopiedBelow(cells, index, cols, d), index in cols);
          }
        } else {
          assert d.State() == old@L(d.State());
        }
      }
    }
    forall d | d in Divs(cells) ensures SeenBelow(cells, |cells|, d) {
      var t :| t in cells && t.inner == d;
      var j :| 0 <= j < |cells| && cells[j] == t;
    }
  }

  /** `gridColIndexesMap` after the lazy initialisation for `grid`. */
  function Cached(m: map<Grid, set<nat>>, grid: Grid): (r: map<Grid, set<nat>>)
    reads grid
    ensures grid in r && forall g :: g in m ==> g in r && r[g] == m[g]
    ensures grid !in m ==> r[grid] == InterestingColumns(grid.headerRows, HEADER_KEYWORDS)
    ensures forall g :: g in r ==> g in m || g == grid
  {
    if grid in m then m else m[grid := InterestingColumns(grid.headerRows, HEADER_KEYWORDS)]
  }

  /** Every cell of a row inside a grid has been processed with the grid's
      column set in `m`. */
  predicate RowDone(row: Row, m: map<Grid, set<nat>>)
    reads Divs(row.cells)
  {
    row.grid != null ==>
      row.grid in m
      && forall j :: 0 <= j < |row.cells| && row.cells[j].inner != null ==>
           Done(row.cells[j].inner.State(), j in m[row.grid])
  }

  /** A loose cell inside a grid's row has been processed for its index
      with the grid's column set in `m`. */
  predicate CellDone(cell: (Td, Row?), m: map<Grid, set<nat>>)
    reads Divs([cell.0])
  {
    var (td, row) := cell;
    row != null && row.grid != null && IndexOfCell(row.cells, td).Some? && td.inner != null ==>
      row.grid in m && Done(td.inner.State(), IndexOfCell(row.cells, td).value in m[row.grid])
  }

  // ---------------------------------------------------------------------
  // The passes over rows and loose cells, on values

  /** Some row among the first `n` lies in grid `g`. */
  predicate RowsGrid(rows: seq<Row>, n: nat, g: Grid) {
    exists k :: 0 <= k < n && k < |rows| && rows[k].grid == g
  }

  /** Some loose cell among the first `n` has a row in grid `g`. */
  predicate CellsGrid(cells: seq<(Td, Row?)>, n: nat, g: Grid) {
    exists k :: 0 <= k < n && k < |cells| && cells[k].1 != null && cells[k].1.grid == g
  }

  /** Some row inside a grid, among the first `n`, has `d` as an inner div:
      `processRow` reaches it. */
  predicate RowSeen(rows: seq<Row>, n: nat, d: CellDiv) {
    exists k :: 0 <= k < n && k < |rows| && rows[k].grid != null && SeenBelow(rows[k].cells, |rows[k].cells|, d)
  }

  /** Some row inside a grid, among the first `n`, has `d` as the inner div
      of a cell whose index is in the grid's column set in `m`. */
  predicate RowCopied(rows: seq<Row>, n: nat, m: map<Grid, set<nat>>, d: CellDiv) {
    exists k :: 0 <= k < n && k < |rows| && rows[k].grid != null && rows[k].grid in m
                && CopiedBelow(rows[k].cells, |rows[k].cells|, m[rows[k].grid], d)
  }

  /** A div after `processRow` on the first `n` rows, with the column sets
      in `m`: decorated once if some row reached it, with the copy behaviour
      when some row reached it at an interesting index; otherwise as it
      was. */
  function RowsAfter(rows: seq<Row>, n: nat, m: map<Grid, set<nat>>, s: DivState, d: CellDiv): DivState {
    if RowSeen(rows, n, d) then Decorated(s, RowCopied(rows, n, m, d)) else s
  }

  /** `processCell` reaches `d` through this loose cell: it has a row in a
      grid, is among that row's cells, and `d` is its inner div. */
  predicate CellHit(cell: (Td, Row?), d: CellDiv) {
    cell.0.inner == d && cell.1 != null && cell.1.grid != null && IndexOfCell(cell.1.cells, cell.0).Some?
  }

  /** ... and gives it the copy behaviour with the column sets in `m`. */
  predicate CellCopies(cell: (Td, Row?), m: map<Grid, set<nat>>, d: CellDiv) {
    CellHit(cell, d) && cell.1.grid in m && IndexOfCell(cell.1.cells, cell.0).value in m[cell.1.grid]
  }

  predicate CellSeen(cells: seq<(Td, Row?)>, n: nat, d: CellDiv) {
    exists k :: 0 <= k < n && k < |cells| && CellHit(cells[k], d)
  }

  predicate CellCopied(cells: seq<(Td, Row?)>, n: nat, m: map<Grid, set<nat>>, d: CellDiv) {
    exists k :: 0 <= k < n && k < |cells| && CellCopies(cells[k], m, d)
  }

  /** A div after `processCell` on the first `n` loose cells. */
  function CellsAfter(cells: seq<(Td, Row?)>, n: nat, m: map<Grid, set<nat>>, s: DivState, d: CellDiv): DivState {
    if CellSeen(cells, n, d) then Decorated(s, CellCopied(cells, n, m, d)) else s
  }

  /** A div after the row pass and the cell pass of
      `processExistingElements`: decorated once if any row or loose cell
      reached it, with the copy behaviour exactly when one of them reached
      it at an index in its grid's column set; otherwise as it was. */
  function PageAfter(rows: seq<Row>, cells: seq<(Td, Row?)>, m: map<Grid, set<nat>>, s: DivState, d: CellDiv): DivState {
    if RowSeen(rows, |rows|, d) || CellSeen(cells, |cells|, d) then
      Decorated(s, RowCopied(rows, |rows|, m, d) || CellCopied(cells, |cells|, m, d))
    else s
  }

  /** `m` is the cache after the passes of `processExistingElements` over
      a cache `m0`: a grid is cached when it was before, has a header found
      by the pass, or is met by a row or a loose cell; a grid with a header
      found by the pass, or first met by the pass, has the set of its
      header, and every other grid keeps the set `m0` held. */
  predicate PageCache(m0: map<Grid, set<nat>>, m: map<Grid, set<nat>>, headerGrids: seq<Grid?>, rows: seq<Row>, cells: seq<(Td, Row?)>)
    reads m.Keys
  {
    forall g :: g in m ==>
      (g in m0 || g in headerGrids || RowsGrid(rows, |rows|, g) || CellsGrid(cells, |cells|, g))
      && m[g] == if g in m0 && g !in headerGrids then m0[g] else InterestingColumns(g.headerRows, HEADER_KEYWORDS)
  }

  /** The cache after the header pass (`m1`) and the row and cell passes
      (`m2`) over `m0`, as those passes leave it, is `PageCache`. */
  lemma PageCacheOf(m0: map<Grid, set<nat>>, m1: map<Grid, set<nat>>, m2: map<Grid, set<nat>>,
                    headerGrids: seq<Grid?>, rows: seq<Row>, cells: seq<(Td, Row?)>)
    requires forall g :: g in m0 ==> g in m1
    requires forall g :: g in m1 ==>
               (g in m0 || g in headerGrids)
               && m1[g] == if g in headerGrids then InterestingColumns(g.headerRows, HEADER_KEYWORDS) else m0[g]
    requires forall g :: g in m1 ==> g in m2 && m2[g] == m1[g]
    requires forall g :: g in m2 && g !in m1 ==>
               (RowsGrid(rows, |rows|, g) || CellsGrid(cells, |cells|, g))
               && m2[g] == InterestingColumns(g.headerRows, HEADER_KEYWORDS)
    ensures forall g :: g in m0 ==> g in m2
    ensures PageCache(m0, m2, headerGrids, rows, cells)
  {
    forall g | g in m2
      ensures (g in m0 || g in headerGrids || RowsGrid(rows, |rows|, g) || CellsGrid(cells, |cells|, g))
              && m2[g] == if g in m0 && g !in headerGrids then m0[g] else InterestingColumns(g.headerRows, HEADER_KEYWORDS)
    {
      if g in m1 {
        assert m2[g] == m1[g];
      }
    }
  }

  /** Every div that a row or a loose cell of the page holds went from its
      state in the old heap to the one `PageAfter` gives. */
  twostate predicate PageDecorated(rows: seq<Row>, cells: seq<(Td, Row?)>, new m: map<Grid, set<nat>>)
    reads RowsDivs(rows) + CellsDivs(cells)
  {
    forall d: CellDiv :: d in RowsDivs(rows) + CellsDivs(cells) ==>
      d.State() == PageAfter(rows, cells, m, old(d.State()), d)
  }

  /** No div in `ds` that had one click listener at most in the old heap
      has more now. */
  twostate predicate NoSecondListener(ds: set<CellDiv>)
    reads ds
  {
    forall d: CellDiv :: d in ds ==> OneListener(old(d.State())) ==> OneListener(d.State())
  }

  lemma DivsSeen(tds: seq<Td>, d: CellDiv)
    ensures d in Divs(tds) <==> SeenBelow(tds, |tds|, d)
  {
    if SeenBelow(tds, |tds|, d) {
      var j :| 0 <= j < |tds| && tds[j].inner == d;
      assert tds[j] in tds;
    }
  }

  /** A div some row reaches is one of the rows' divs. */
  lemma RowSeenIn(rows: seq<Row>, n: nat, d: CellDiv)
    requires RowSeen(rows, n, d)
    ensures d in RowsDivs(rows)
  {
    var k :| 0 <= k < n && k < |rows| && rows[k].grid != null && SeenBelow(rows[k].cells, |rows[k].cells|, d);
    var j :| 0 <= j < |rows[k].cells| && rows[k].cells[j].inner == d;
    assert rows[k] in rows && rows[k].cells[j] in rows[k].cells;
  }

  lemma CellSeenIn(cells: seq<(Td, Row?)>, n: nat, d: CellDiv)
    requires CellSeen(cells, n, d)
    ensures d in CellsDivs(cells)
  {
    var k :| 0 <= k < n && k < |cells| && CellHit(cells[k], d);
    assert cells[k] in cells;
  }

  /** One more row: the pass so far, then `processRow` on row `i` with the
      column sets in `m'`, is the pass over `i + 1` rows. The sets of the
      earlier rows' grids are the same in `m` and `m'`. */
  lemma RowsStep(rows: seq<Row>, i: nat, m: map<Grid, set<nat>>, m': map<Grid, set<nat>>, s0: DivState, d: CellDiv)
    requires i < |rows|
    requires forall k :: 0 <= k < i && rows[k].grid != null ==>
               rows[k].grid in m && rows[k].grid in m' && m'[rows[k].grid] == m[rows[k].grid]
    requires rows[i].grid != null ==> rows[i].grid in m'
    ensures var s1 := RowsAfter(rows, i, m, s0, d);
            (if rows[i].grid != null && d in Divs(rows[i].cells)
             then Decorated(s1, CopiedBelow(rows[i].cells, |rows[i].cells|, m'[rows[i].grid], d))
             else s1)
            == RowsAfter(rows, i + 1, m', s0, d)
  {
    var row := rows[i];
    DivsSeen(row.cells, d);
    var here := row.grid != null && SeenBelow(row.cells, |row.cells|, d);
    assert RowSeen(rows, i + 1, d) <==> RowSeen(rows, i, d) || here;
    assert RowCopied(rows, i, m, d) <==> RowCopied(rows, i, m', d);
    var copyHere := here && CopiedBelow(row.cells, |row.cells|, m'[row.grid], d);
    assert RowCopied(rows, i + 1, m', d) <==> RowCopied(rows, i, m', d) || copyHere;
    if RowSeen(rows, i, d) && here {
      DecoratedAbsorbs(s0, RowCopied(rows, i, m, d), copyHere);
    }
    if !RowSeen(rows, i, d) {
      assert !RowCopied(rows, i, m', d);
    }
  }

  /** One more loose cell, as `RowsStep` for rows. */
  lemma CellsStep(cells: seq<(Td, Row?)>, i: nat, m: map<Grid, set<nat>>, m': map<Grid, set<nat>>, s0: DivState, d: CellDiv)
    requires i < |cells|
    requires forall k :: 0 <= k < i && cells[k].1 != null && cells[k].1.grid != null ==>
               cells[k].1.grid in m && cells[k].1.grid in m' && m'[cells[k].1.grid] == m[cells[k].1.grid]
    requires cells[i].1 != null && cells[i].1.grid != null ==> cells[i].1.grid in m'
    ensures var s1 := CellsAfter(cells, i, m, s0, d);
            (if CellHit(cells[i], d) then Decorated(s1, CellCopies(cells[i], m', d)) else s1)
            == CellsAfter(cells, i + 1, m', s0, d)
  {
    assert CellSeen(cells, i + 1, d) <==> CellSeen(cells, i, d) || CellHit(cells[i], d);
    assert CellCopied(cells, i, m, d) <==> CellCopied(cells, i, m', d);
    assert CellCopied(cells, i + 1, m', d) <==> CellCopied(cells, i, m', d) || CellCopies(cells[i], m', d);
    if CellSeen(cells, i, d) && CellHit(cells[i], d) {
      DecoratedAbsorbs(s0, CellCopied(cells, i, m, d), CellCopies(cells[i], m', d));
    }
    if !CellSeen(cells, i, d) {
      assert !CellCopied(cells, i, m', d);
    }
  }

  /** The row pass followed by the cell pass is `PageAfter`: a div reached
      by both is decorated once, with the copy behaviour when either asked
      for it; a div outside a pass's list keeps its state through it. The
      cell pass only adds column sets for other grids. */
  lemma PageCompose(rows: seq<Row>, cells: seq<(Td, Row?)>, mr: map<Grid, set<nat>>, m: map<Grid, set<nat>>,
                    s0: DivState, s1: DivState, s2: DivState, d: CellDiv)
    requires forall k :: 0 <= k < |rows| && rows[k].grid != null ==>
               rows[k].grid in mr && rows[k].grid in m && m[rows[k].grid] == mr[rows[k].grid]
    requires s1 == if d in RowsDivs(rows) then RowsAfter(rows, |rows|, mr, s0, d) else s0
    requires s2 == if d in CellsDivs(cells) then CellsAfter(cells, |cells|, m, s1, d) else s1
    ensures s2 == PageAfter(rows, cells, m, s0, d)
  {
    if RowSeen(rows, |rows|, d) {
      RowSeenIn(rows, |rows|, d);
    }
    if CellSeen(cells, |cells|, d) {
      CellSeenIn(cells, |cells|, d);
    }
    assert RowCopied(rows, |rows|, mr, d) <==> RowCopied(rows, |rows|, m, d);
    if !RowSeen(rows, |rows|, d) {
      assert !RowCopied(rows, |rows|, m, d);
    }
    if !CellSeen(cells, |cells|, d) {
      assert !CellCopied(cells, |cells|, m, d);
    }
    if RowSeen(rows, |rows|, d) && CellSeen(cells, |cells|, d) {
      DecoratedAbsorbs(s0, RowCopied(rows, |rows|, m, d), CellCopied(cells, |cells|, m, d));
    }
  }

  /** After the passes, a row's cell is processed for its own index. */
  lemma PageRowDone(rows: seq<Row>, cells: seq<(Td, Row?)>, m: map<Grid, set<nat>>, s0: DivState, k: nat, j: nat)
    requires k < |rows| && rows[k].grid != null && rows[k].grid in m
    requires j < |rows[k].cells| && rows[k].cells[j].inner != null
    ensures Done(PageAfter(rows, cells, m, s0, rows[k].cells[j].inner), j in m[rows[k].grid])
  {
    var d := rows[k].cells[j].inner;
    assert SeenBelow(rows[k].cells, |rows[k].cells|, d);
    assert RowSeen(rows, |rows|, d);
    if j in m[rows[k].grid] {
      assert CopiedBelow(rows[k].cells, |rows[k].cells|, m[rows[k].grid], d);
      assert RowCopied(rows, |rows|, m, d);
    }
    DecoratedDone(s0, RowCopied(rows, |rows|, m, d) || CellCopied(cells, |cells|, m, d));
  }

  /** After the passes, a loose cell is processed for its index. */
  lemma PageCellDone(rows: seq<Row>, cells: seq<(Td, Row?)>, m: map<Grid, set<nat>>, s0: DivState, k: nat)
    requires k < |cells| && cells[k].0.inner != null && CellHit(cells[k], cells[k].0.inner) && cells[k].1.grid in m
    ensures Done(PageAfter(rows, cells, m, s0, cells[k].0.inner), IndexOfCell(cells[k].1.cells, cells[k].0).value in m[cells[k].1.grid])
  {
    var d := cells[k].0.inner;
    assert CellSeen(cells, |cells|, d);
    if CellCopies(cells[k], m, d) {
      assert CellCopied(cells, |cells|, m, d);
    }
    DecoratedDone(s0, RowCopied(rows, |rows|, m, d) || CellCopied(cells, |cells|, m, d));
  }

  /** The passes never give a div a second click listener. */
  lemma PageOneListener(rows: seq<Row>, cells: seq<(Td, Row?)>, m: map<Grid, set<nat>>, s0: DivState, d: CellDiv)
    requires OneListener(s0)
    ensures OneListener(PageAfter(rows, cells, m, s0, d))
  {
    DecoratedKeepsOneListener(s0, RowCopied(rows, |rows|, m, d) || CellCopied(cells, |cells|, m, d));
  }

  /** The page-wide state of the script: whether its MutationObserver
      exists, how many observers are connected and how many were ever
      started, and `gridColIndexesMap`. */
  class Script {
    var observer: bool
    var connected: nat
    var started: nat
    var colIndexes: map<Grid, set<nat>>

    /** One observer at most, and only while `observer` is set. */
    predicate Valid()
      reads this
    {
      connected == (if observer then 1 else 0)
    }

    constructor ()
      ensures Valid() && !observer && started == 0 && colIndexes == map[]
    {
      observer := false;
      connected := 0;
      started := 0;
      colIndexes := map[];
    }

    /** The column set `processRow` and `processCell` use for `grid`: the
        cached one, or one computed from the header now and cached. An empty
        set is a Set object, so it counts as cached. */
    method ColumnsFor(grid: Grid) returns (cols: set<nat>)
      modifies this
      ensures observer == old(observer) && connected == old(connected) && started == old(started)
      ensures colIndexes == Cached(old(colIndexes), grid) && cols == colIndexes[grid]
    {
      if grid !in colIndexes {
        var found := FindInterestingColumns(grid.headerRows, HEADER_KEYWORDS);
        colIndexes := colIndexes[grid := found];
      }
      cols := colIndexes[grid];
    }

    /** `processRow(rowEl)`: nothing for a row outside a grid; otherwise the
        grid's column set, then the decoration of every cell. No cell ever
        gets a second click listener. */
    method ProcessRow(row: Row)
      modifies this, Divs(row.cells)
      ensures observer == old(observer) && connected == old(connected) && started == old(started)
      ensures row.grid == null ==> colIndexes == old(colIndexes)
      ensures row.grid != null ==> colIndexes == Cached(old(colIndexes), row.grid)
      ensures forall d: CellDiv :: d in Divs(row.cells) ==>
                d.State() == if row.grid == null then old(d.State())
                             else Decorated(old(d.State()), CopiedBelow(row.cells, |row.cells|, colIndexes[row.grid], d))
      ensures forall d: CellDiv :: d in Divs(row.cells) ==> OneListener(old(d.State())) ==> OneListener(d.State())
      ensures forall d: CellDiv :: d in Divs(row.cells) ==> Step(old(d.State()), d.State())
      ensures RowDone(row, colIndexes)
    {
      var grid := row.grid;
      if grid == null {
        return;
      }
      var cols := ColumnsFor(grid);
      DecorateCells(row.cells, cols);
      forall d | d in Divs(row.cells) ensures OneListener(old(d.State())) ==> OneListener(d.State()) {
        if OneListener(old(d.State())) {
          DecoratedKeepsOneListener(old(d.State()), CopiedBelow(row.cells, |row.cells|, cols, d));
        }
      }
      forall j | 0 <= j < |row.cells| && row.cells[j].inner != null
        ensures Done(row.cells[j].inner.State(), j in cols)
      {
        var d := row.cells[j].inner;
        assert d in Divs(row.cells);
        DecoratedDone(old(d.State()), CopiedBelow(row.cells, |row.cells|, cols, d));
        if j in cols {
          assert CopiedBelow(row.cells, |row.cells|, cols, d);
        }
      }
    }

    /** `processCell(cellEl)`, given the row `closest('.x-grid3-row')` finds:
        nothing without a row or a grid; otherwise the grid's column set,
        then, when the cell is among the row's cells and has an inner div,
        its decoration for its index. */
    method ProcessCell(td: Td, row: Row?)
      modifies this, Divs([td])
      ensures observer == old(observer) && connected == old(connected) && started == old(started)
      ensures row == null || row.grid == null ==> colIndexes == old(colIndexes)
      ensures row != null && row.grid != null ==> colIndexes == Cached(old(colIndexes), row.grid)
      ensures td.inner != null ==>
                td.inner.State() == if row == null || row.grid == null || IndexOfCell(row.cells, td).None? then old(td.inner.State())
                                    else Decorated(old(td.inner.State()), IndexOfCell(row.cells, td).value in colIndexes[row.grid])
      ensures td.inner != null ==> OneListener(old(td.inner.State())) ==> OneListener(td.inner.State())
      ensures td.inner != null ==> Step(old(td.inner.State()), td.inner.State())
      ensures CellDone((td, row), colIndexes)
    {
      if row == null {
        return;
      }
      var grid := row.grid;
      if grid == null {
        return;
      }
      var cols := ColumnsFor(grid);
      var index := IndexOfCell(row.cells, td);
      if index.None? {
        return;
      }
      var innerDiv := td.inner;
      if innerDiv == null {
        return;
      }
      innerDiv.HighlightStatus();
      if index.value in cols {
        innerDiv.AddCopyBehavior();
      }
      if OneListener(old(innerDiv.State())) {
        DecoratedKeepsOneListener(old(innerDiv.State()), index.value in cols);
      }
      DecoratedDone(old(innerDiv.State()), index.value in cols);
    }

    /** The three passes of `processExistingElements(root)`, given what
        the three `querySelectorAll` calls on `root` find: the grid of each
        header (`closest('.x-grid3')`), the rows, and the loose cells with
        their rows. Off the summary page nothing changes. On it, a grid with
        a header found here has its column set recomputed from that header,
        another cached grid keeps its set, and a grid first met by a row or
        a cell gets the set of its header; every div a row or a loose cell
        reaches is decorated as `PageAfter` says, and every other div is
        left alone. */
    method ProcessExistingElements(hash: string, headerGrids: seq<Grid?>, rows: seq<Row>, cells: seq<(Td, Row?)>)
      modifies this, RowsDivs(rows), CellsDivs(cells)
      ensures observer == old(observer) && connected == old(connected) && started == old(started)
      ensures !IsRelevantPage(hash) ==> colIndexes == old(colIndexes)
      ensures IsRelevantPage(hash) ==>
                forall g :: g in headerGrids && g != null ==>
                  g in colIndexes && colIndexes[g] == InterestingColumns(g.headerRows, HEADER_KEYWORDS)
      ensures forall g :: g in old(colIndexes) ==> g in colIndexes
      ensures IsRelevantPage(hash) ==> PageCache(old(colIndexes), colIndexes, headerGrids, rows, cells)
      ensures NoSecondListener(RowsDivs(rows) + CellsDivs(cells))
      ensures IsRelevantPage(hash) ==> forall k :: 0 <= k < |rows| ==> RowDone(rows[k], colIndexes)
      ensures IsRelevantPage(hash) ==> forall k :: 0 <= k < |cells| ==> CellDone(cells[k], colIndexes)
      ensures IsRelevantPage(hash) ==> PageDecorated(rows, cells, colIndexes)
      ensures !IsRelevantPage(hash) ==> unchanged(RowsDivs(rows), CellsDivs(cells))
    {
      if !IsRelevantPage(hash) {
        return;
      }
      ghost var before := map d | d in RowsDivs(rows) + CellsDivs(cells) :: d.State();
      RunPasses(headerGrids, rows, cells);
      PassesDone(rows, cells, before);
    }

    /** The three passes of `processExistingElements` on the summary
        page. */
    method RunPasses(headerGrids: seq<Grid?>, rows: seq<Row>, cells: seq<(Td, Row?)>)
      modifies this, RowsDivs(rows), CellsDivs(cells)
      ensures observer == old(observer) && connected == old(connected) && started == old(started)
      ensures forall g :: g in headerGrids && g != null ==>
                g in colIndexes && colIndexes[g] == InterestingColumns(g.headerRows, HEADER_KEYWORDS)
      ensures forall g :: g in old(colIndexes) ==> g in colIndexes
      ensures PageCache(old(colIndexes), colIndexes, headerGrids, rows, cells)
      ensures PageDecorated(rows, cells, colIndexes)
      ensures forall k :: 0 <= k < |rows| && rows[k].grid != null ==> rows[k].grid in colIndexes
      ensures forall k :: 0 <= k < |cells| && cells[k].1 != null && cells[k].1.grid != null ==> cells[k].1.grid in colIndexes
    {
      RecalcHeaders(headerGrids);
      label R:
      RowAndCellPasses(rows, cells);
      PageCacheOf(old(colIndexes), old@R(colIndexes), colIndexes, headerGrids, rows, cells);
    }

    /** The `.x-grid3-row` pass and then the `.x-grid3-cell` pass: every
        div is left as `PageAfter` says, cached sets are kept, and the grids
        the rows and cells meet first get the set of their header. */
    method RowAndCellPasses(rows: seq<Row>, cells: seq<(Td, Row?)>)
      modifies this, RowsDivs(rows), CellsDivs(cells)
      ensures observer == old(observer) && connected == old(connected) && started == old(started)
      ensures forall g :: g in old(colIndexes) ==> g in colIndexes && colIndexes[g] == old(colIndexes)[g]
      ensures forall g :: g in colIndexes && g !in old(colIndexes) ==>
                (RowsGrid(rows, |rows|, g) || CellsGrid(cells, |cells|, g))
                && colIndexes[g] == InterestingColumns(g.headerRows, HEADER_KEYWORDS)
      ensures PageDecorated(rows, cells, colIndexes)
      ensures forall k :: 0 <= k < |rows| && rows[k].grid != null ==> rows[k].grid in colIndexes
      ensures forall k :: 0 <= k < |cells| && cells[k].1 != null && cells[k].1.grid != null ==> cells[k].1.grid in colIndexes
    {
      ghost var before := map d | d in RowsDivs(rows) + CellsDivs(cells) :: d.State();
      ProcessRows(rows);
      label C:
      ProcessCells(cells);
      forall d | d in RowsDivs(rows) + CellsDivs(cells)
        ensures d.State() == PageAfter(rows, cells, colIndexes, before[d], d)
      {
        PageCompose(rows, cells, old@C(colIndexes), colIndexes, before[d], old@C(d.State()), d.State(), d);
      }
    }

    /** What the passes leave behind, read off the divs' states after them
        (`PageAfter` from the states in `before`): every row and loose cell
        processed, and no div with a second click listener. */
    method PassesDone(rows: seq<Row>, cells: seq<(Td, Row?)>, ghost before: map<CellDiv, DivState>)
      requires forall k :: 0 <= k < |rows| && rows[k].grid != null ==> rows[k].grid in colIndexes
      requires forall k :: 0 <= k < |cells| && cells[k].1 != null && cells[k].1.grid != null ==> cells[k].1.grid in colIndexes
      requires forall d: CellDiv :: d in RowsDivs(rows) + CellsDivs(cells) ==>
                 d in before && d.State() == PageAfter(rows, cells, colIndexes, before[d], d)
      ensures forall d: CellDiv :: d in RowsDivs(rows) + CellsDivs(cells) ==> OneListener(before[d]) ==> OneListener(d.State())
      ensures forall k :: 0 <= k < |rows| ==> RowDone(rows[k], colIndexes)
      ensures forall k :: 0 <= k < |cells| ==> CellDone(cells[k], colIndexes)
    {
      forall d | d in RowsDivs(rows) + CellsDivs(cells) && OneListener(before[d])
        ensures OneListener(d.State())
      {
        PageOneListener(rows, cells, colIndexes, before[d], d);
      }
      forall k, j | 0 <= k < |rows| && rows[k].grid != null && 0 <= j < |rows[k].cells| && rows[k].cells[j].inner != null
        ensures Done(rows[k].cells[j].inner.State(), j in colIndexes[rows[k].grid])
      {
        assert rows[k] in rows && rows[k].cells[j] in rows[k].cells;
        PageRowDone(rows, cells, colIndexes, before[rows[k].cells[j].inner], k, j);
      }
      forall k | 0 <= k < |cells| && cells[k].0.inner != null && CellHit(cells[k], cells[k].0.inner)
        ensures Done(cells[k].0.inner.State(), IndexOfCell(cells[k].1.cells, cells[k].0).value in colIndexes[cells[k].1.grid])
      {
        assert cells[k] in cells;
        PageCellDone(rows, cells, colIndexes, before[cells[k].0.inner], k);
      }
    }

    /** The `.x-grid3-header` pass: each header's grid gets its column set
        recomputed from its header and stored, whatever was cached; every
        other cached set is kept. */
    method RecalcHeaders(headerGrids: seq<Grid?>)
      modifies this
      ensures observer == old(observer) && connected == old(connected) && started == old(started)
      ensures forall g :: g in headerGrids && g != null ==>
                g in colIndexes && colIndexes[g] == InterestingColumns(g.headerRows, HEADER_KEYWORDS)
      ensures forall g :: g in old(colIndexes) ==> g in colIndexes
      ensures forall g :: g in colIndexes ==>
                (g in old(colIndexes) || g in headerGrids)
                && colIndexes[g] == if g in headerGrids then InterestingColumns(g.headerRows, HEADER_KEYWORDS) else old(colIndexes)[g]
    {
      for i := 0 to |headerGrids|
        invariant observer == old(observer) && connected == old(connected) && started == old(started)
        invariant forall g :: g in headerGrids[..i] && g != null ==>
                    g in colIndexes && colIndexes[g] == InterestingColumns(g.headerRows, HEADER_KEYWORDS)
        invariant forall g :: g in old(colIndexes) ==> g in colIndexes
        invariant forall g :: g in colIndexes ==>
                    (g in old(colIndexes) || g in headerGrids[..i])
                    && colIndexes[g] == if g in headerGrids[..i] then InterestingColumns(g.headerRows, HEADER_KEYWORDS) else old(colIndexes)[g]
      {
        assert headerGrids[..i + 1] == headerGrids[..i] + [headerGrids[i]];
        var grid := headerGrids[i];
        if grid != null {
          var cols := FindInterestingColumns(grid.headerRows, HEADER_KEYWORDS);
          colIndexes := colIndexes[grid := cols];
        }
      }
      assert headerGrids[..|headerGrids|] == headerGrids;
    }

    /** The `.x-grid3-row` pass: `processRow` on each row in turn. Every
        div is left as `RowsAfter` says; cached sets are kept, and the grids
        the rows meet first get the set of their header. */
    method ProcessRows(rows: seq<Row>)
      modifies this, RowsDivs(rows)
      ensures observer == old(observer) && connected == old(connected) && started == old(started)
      ensures forall g :: g in old(colIndexes) ==> g in colIndexes && colIndexes[g] == old(colIndexes)[g]
      ensures forall g :: g in colIndexes && g !in old(colIndexes) ==>
                RowsGrid(rows, |rows|, g) && colIndexes[g] == InterestingColumns(g.headerRows, HEADER_KEYWORDS)
      ensures forall k :: 0 <= k < |rows| && rows[k].grid != null ==> rows[k].grid in colIndexes
      ensures forall d: CellDiv :: d in RowsDivs(rows) ==> d.State() == RowsAfter(rows, |rows|, colIndexes, old(d.State()), d)
    {
      ghost var before := map d | d in RowsDivs(rows) :: d.State();
      for i := 0 to |rows|
        invariant observer == old(observer) && connected == old(connected) && started == old(started)
        invariant forall g :: g in old(colIndexes) ==> g in colIndexes && colIndexes[g] == old(colIndexes)[g]
        invariant forall g :: g in colIndexes && g !in old(colIndexes) ==>
                    RowsGrid(rows, i, g) && colIndexes[g] == InterestingColumns(g.headerRows, HEADER_KEYWORDS)
        invariant forall k :: 0 <= k < i && rows[k].grid != null ==> rows[k].grid in colIndexes
        invariant forall d: CellDiv :: d in RowsDivs(rows) ==> d in before && d.State() == RowsAfter(rows, i, colIndexes, before[d], d)
      {
        ProcessRowAt(rows, i, old(colIndexes), before);
      }
    }

    /** `processRow` on the row at `i` of the pass: the pass over the first
        `i` rows, from the states in `before` and the cache `m0`, becomes
        the pass over the first `i + 1`. */
    method ProcessRowAt(rows: seq<Row>, i: nat, ghost m0: map<Grid, set<nat>>, ghost before: map<CellDiv, DivState>)
      requires i < |rows|
      requires forall g :: g in m0 ==> g in colIndexes && colIndexes[g] == m0[g]
      requires forall g :: g in colIndexes && g !in m0 ==>
                 RowsGrid(rows, i, g) && colIndexes[g] == InterestingColumns(g.headerRows, HEADER_KEYWORDS)
      requires forall k :: 0 <= k < i && rows[k].grid != null ==> rows[k].grid in colIndexes
      requires forall d: CellDiv :: d in RowsDivs(rows) ==> d in before && d.State() == RowsAfter(rows, i, colIndexes, before[d], d)
      modifies this, RowsDivs(rows)
      ensures observer == old(observer) && connected == old(connected) && started == old(started)
      ensures forall g :: g in m0 ==> g in colIndexes && colIndexes[g] == m0[g]
      ensures forall g :: g in colIndexes && g !in m0 ==>
                RowsGrid(rows, i + 1, g) && colIndexes[g] == InterestingColumns(g.headerRows, HEADER_KEYWORDS)
      ensures forall k :: 0 <= k < i + 1 && rows[k].grid != null ==> rows[k].grid in colIndexes
      ensures forall d: CellDiv :: d in RowsDivs(rows) ==> d.State() == RowsAfter(rows, i + 1, colIndexes, before[d], d)
    {
      assert Divs(rows[i].cells) <= RowsDivs(rows);
      ProcessRow(rows[i]);
      forall d | d in RowsDivs(rows) ensures d.State() == RowsAfter(rows, i + 1, colIndexes, before[d], d) {
        RowsStep(rows, i, old(colIndexes), colIndexes, before[d], d);
      }
      forall g | g in colIndexes && g !in m0 ensures RowsGrid(rows, i + 1, g) {
        if g !in old(colIndexes) {
          assert rows[i].grid == g;
        }
      }
    }

    /** The `.x-grid3-cell` pass: `processCell` on each loose cell in turn.
        Every div is left as `CellsAfter` says; cached sets are kept, and
        the grids the cells meet first get the set of their header. */
    method ProcessCells(cells: seq<(Td, Row?)>)
      modifies this, CellsDivs(cells)
      ensures observer == old(observer) && connected == old(connected) && started == old(started)
      ensures forall g :: g in old(colIndexes) ==> g in colIndexes && colIndexes[g] == old(colIndexes)[g]
      ensures forall g :: g in colIndexes && g !in old(colIndexes) ==>
                CellsGrid(cells, |cells|, g) && colIndexes[g] == InterestingColumns(g.headerRows, HEADER_KEYWORDS)
      ensures forall k :: 0 <= k < |cells| && cells[k].1 != null && cells[k].1.grid != null ==> cells[k].1.grid in colIndexes
      ensures forall d: CellDiv :: d in CellsDivs(cells) ==> d.State() == CellsAfter(cells, |cells|, colIndexes, old(d.State()), d)
    {
      ghost var before := map d | d in CellsDivs(cells) :: d.State();
      for i := 0 to |cells|
        invariant observer == old(observer) && connected == old(connected) && started == old(started)
        invariant forall g :: g in old(colIndexes) ==> g in colIndexes && colIndexes[g] == old(colIndexes)[g]
        invariant forall g :: g in colIndexes && g !in old(colIndexes) ==>
                    CellsGrid(cells, i, g) && colIndexes[g] == InterestingColumns(g.headerRows, HEADER_KEYWORDS)
        invariant forall k :: 0 <= k < i && cells[k].1 != null && cells[k].1.grid != null ==> cells[k].1.grid in colIndexes
        invariant forall d: CellDiv :: d in CellsDivs(cells) ==> d in before && d.State() == CellsAfter(cells, i, colIndexes, before[d], d)
      {
        ProcessCellAt(cells, i, old(colIndexes), before);
      }
    }

    /** `processCell` on the loose cell at `i` of the pass, as
        `ProcessRowAt` for rows. */
    method ProcessCellAt(cells: seq<(Td, Row?)>, i: nat, ghost m0: map<Grid, set<nat>>, ghost before: map<CellDiv, DivState>)
      requires i < |cells|
      requires forall g :: g in m0 ==> g in colIndexes && colIndexes[g] == m0[g]
      requires forall g :: g in colIndexes && g !in m0 ==>
                 CellsGrid(cells, i, g) && colIndexes[g] == InterestingColumns(g.headerRows, HEADER_KEYWORDS)
      requires forall k :: 0 <= k < i && cells[k].1 != null && cells[k].1.grid != null ==> cells[k].1.grid in colIndexes
      requires forall d: CellDiv :: d in CellsDivs(cells) ==> d in before && d.State() == CellsAfter(cells, i, colIndexes, before[d], d)
      modifies this, CellsDivs(cells)
      ensures observer == old(observer) && connected == old(connected) && started == old(started)
      ensures forall g :: g in m0 ==> g in colIndexes && colIndexes[g] == m0[g]
      ensures forall g :: g in colIndexes && g !in m0 ==>
                CellsGrid(cells, i + 1, g) && colIndexes[g] == InterestingColumns(g.headerRows, HEADER_KEYWORDS)
      ensures forall k :: 0 <= k < i + 1 && cells[k].1 != null && cells[k].1.grid != null ==> cells[k].1.grid in colIndexes
      ensures forall d: CellDiv :: d in CellsDivs(cells) ==> d.State() == CellsAfter(cells, i + 1, colIndexes, before[d], d)
    {
      assert Divs([cells[i].0]) <= CellsDivs(cells);
      ProcessCell(cells[i].0, cells[i].1);
      forall d | d in CellsDivs(cells) ensures d.State() == CellsAfter(cells, i + 1, colIndexes, before[d], d) {
        CellsStep(cells, i, old(colIndexes), colIndexes, before[d], d);
        if d != cells[i].0.inner {
          assert d !in Divs([cells[i].0]);
        }
      }
      forall g | g in colIndexes && g !in m0 ensures CellsGrid(cells, i + 1, g) {
        if g !in old(colIndexes) {
          assert cells[i].1.grid == g;
        }
      }
    }

    /** `startObserving()`: a new MutationObserver on the body. */
    method StartObserving()
      modifies this
      ensures observer && connected == old(connected) + 1 && started == old(started) + 1
      ensures colIndexes == old(colIndexes)
    {
      observer := true;
      connected := connected + 1;
      started := started + 1;
    }

    /** `onHashChange()` for the hash `hash`, with what `document.body`
        holds. On the summary page an observer is started only when there is
        none, then the page is processed; elsewhere the observer, if any, is
        disconnected and dropped. Either way, afterwards an observer exists
        exactly on the summary page, and at most one is connected. */
    method OnHashChange(hash: string, headerGrids: seq<Grid?>, rows: seq<Row>, cells: seq<(Td, Row?)>)
      requires Valid()
      modifies this, RowsDivs(rows), CellsDivs(cells)
      ensures Valid() && connected <= 1
      ensures observer <==> IsRelevantPage(hash)
      ensures started == old(started) + (if IsRelevantPage(hash) && !old(observer) then 1 else 0)
      ensures !IsRelevantPage(hash) ==> colIndexes == old(colIndexes)
      ensures IsRelevantPage(hash) ==>
                forall g :: g in headerGrids && g != null ==>
                  g in colIndexes && colIndexes[g] == InterestingColumns(g.headerRows, HEADER_KEYWORDS)
      ensures forall g :: g in old(colIndexes) ==> g in colIndexes
      ensures IsRelevantPage(hash) ==> PageCache(old(colIndexes), colIndexes, headerGrids, rows, cells)
      ensures NoSecondListener(RowsDivs(rows) + CellsDivs(cells))
      ensures IsRelevantPage(hash) ==> forall k :: 0 <= k < |rows| ==> RowDone(rows[k], colIndexes)
      ensures IsRelevantPage(hash) ==> forall k :: 0 <= k < |cells| ==> CellDone(cells[k], colIndexes)
      ensures IsRelevantPage(hash) ==> PageDecorated(rows, cells, colIndexes)
      ensures !IsRelevantPage(hash) ==> unchanged(RowsDivs(rows), CellsDivs(cells))
    {
      if IsRelevantPage(hash) {
        if !observer {
          StartObserving();
        }
        ProcessExistingElements(hash, headerGrids, rows, cells);
      } else {
        if observer {
          // the observer is disconnected and dropped
          connected := connected - 1;
          observer := false;
        }
      }
    }
  }
}
