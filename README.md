# Userscripts core, modelled in Dafny

This project models the logic of four browser userscripts from the
`tfindleton/userscripts` repository and proves what they promise. The page
(the DOM) is abstracted: each element is a record or a class holding its
text, its dataset, its style and its children. Each regular expression is
written out as a scanner over `seq<char>`.

- **InHand signal levels** (`inhand/inhand-signals.js`), modules `Signals`
  and `SignalCard`:
  - the per-measure threshold tables and `parseValue`;
  - the first-match band lookup `getLabelAndColor`;
  - `buildTooltipText` with its `+=` loop;
  - the badge-text rule with the `^Latest\s+[\w\s]+:` test;
  - `patchSignalCard`, which rewrites one card's `.ant-card-extra` element
    and sets its `signalPatched` flag.
- **Panorama 11 grid annotator** (`palo-alto-networks/panorama-11.js`),
  module `Panorama`:
  - `isRelevantPage`;
  - `findInterestingColumns`, which picks the header row with the most
    keyword cells, the earliest one on a tie;
  - `highlightStatus` and `addCopyBehavior` on a cell's inner div (class
    `CellDiv`);
  - `processRow`, `processCell` and `processExistingElements`, with the
    per-grid column cache;
  - `onHashChange`, which starts and stops the observer (class `Script`).
- **Hetzner euro-to-dollar estimate** (`hetzner/estimated-usd-pricing.js`),
  module `UsdPricing`:
  - the price pattern `€\s?(\d+(?:\.\d{1,3})?)`;
  - the decimal count;
  - `formatUSD`, with the rate 1.10 held exactly;
  - `processPrice` on a price element's children (class `PriceElement`),
    which keeps one `.usd-estimate` child and moves the period element
    after it;
  - the `characterData` filter.
- **InHand dashboard copy buttons** (`inhand/inhand-dashboard.js`), module
  `Dashboard`:
  - the label normalisation;
  - the fixed label list;
  - `modifyValues`, which appends at most one copy button to each content
    element (class `Content`).

Shared modules:
- `Text` models the JavaScript string operations the scripts use:
  - `trim`, with ECMAScript whitespace;
  - `includes` and `indexOf`;
  - `split` with a string separator;
  - `replace` with a string pattern, which replaces only the first
    occurrence.
- `Numerals` models decimal digits, exact decimals `Decimal(mantissa, scale)`,
  round-half-up to a number of places, and the digit layout `toFixed`
  writes.

Two places where the code and the scripts' own comments disagree; the
model follows the code:
- The comments in `inhand/inhand-signals.js` describe the last band of
  RSSI, RSRP, RSRQ and SINR as "everything below". The code gives that band
  the bound -9999. A reading below -9999 therefore gets no band and the card
  is left unpatched (`Signals.SentinelCatchesAll` states the range the
  catch-all really covers).
- `hetzner/estimated-usd-pricing.js` re-runs `processPrice` on every change
  to the price text. Running it again on its own output is not always a
  no-op: a second period element, or a period whose text changes the first
  euro amount, breaks that. `UsdPricing.PriceIdempotent` therefore states
  the no-op under those two hypotheses.

## Model

| member | source | states |
|---|---|---|
| Signals.ConfigsDescending | inhand/inhand-signals.js:145-184 | every threshold table has strictly descending bounds, best band first |
| Signals.Clean | inhand/inhand-signals.js:190 | the cleaned reading is no longer than the input and holds only '-', digits and '.' |
| Signals.CleanConcat | inhand/inhand-signals.js:190 | cleaning works character by character: cleaning a concatenation is concatenating the cleaned parts |
| Signals.CleanExtremes | inhand/inhand-signals.js:190 | a string of kept characters is left as it is; a string with none comes out empty |
| Signals.ReadingTextKept | inhand/inhand-signals.js:190 | a sign, digits and a fraction are all characters the cleaning keeps |
| Signals.NumericPrefixOfReading | inhand/inhand-signals.js:191 | the `parseFloat` prefix of a sign, digits and an optional fraction is exactly the number they spell |
| Signals.ParseWrittenReading | inhand/inhand-signals.js:189-192 | a reading followed by unit text without '-', digits or '.' parses to exactly the number written |
| Signals.ParseNegativeExample | inhand/inhand-signals.js:189-192 | "-81 dBm" parses to -81 |
| Signals.ParseFractionExample | inhand/inhand-signals.js:189-192 | "12.5 dB" parses to 12.5, scale kept |
| Signals.ParseFallbackExamples | inhand/inhand-signals.js:191 | "--", "N/A" and "" have no numeric prefix and fall back to 0 |
| Signals.FirstBandFrom | inhand/inhand-signals.js:198-207 | the result is the first row at or after `i` whose bound the value reaches, and nothing only when it reaches none |
| Signals.LabelAndColor | inhand/inhand-signals.js:194-208 | nothing for an unknown measure; otherwise the desc and colour of the first row in table order with `min <= value`, and nothing exactly when the value is below every bound |
| Signals.GetLabelAndColor | inhand/inhand-signals.js:194-208 | the loop with its early return computes `LabelAndColor` |
| Signals.BandIsInterval | inhand/inhand-signals.js:142-184 | in a descending table, a value lands in row k iff it reaches row k's bound and not row k-1's |
| Signals.LargerReadingNoWorseBand | inhand/inhand-signals.js:198-207 | a larger reading never lands in a later band |
| Signals.RssiBoundaries | inhand/inhand-signals.js:154-159 | RSSI -90 and -81 give "Fair (≥ -90)", -95 gives "Poor (< -90)", -67 gives "Excellent (≥ -67)": bounds are inclusive |
| Signals.SignalStrengthNegative | inhand/inhand-signals.js:147-151 | Signal Strength has no catch-all: any negative reading gets no band |
| Signals.SentinelCatchesAll | inhand/inhand-signals.js:154-183 | for the four other measures every reading at or above -9999 gets a band |
| Signals.BuildTooltipText | inhand/inhand-signals.js:213-216 | the two table lookups followed by the assembly give the tooltip text of the measure |
| Signals.AssembleTooltip | inhand/inhand-signals.js:216-238 | the branches and the `+=` loop over the rows produce `TooltipOf`: the formatted explanation, the "Ranges:" heading, one line per row, trimmed |
| Signals.MarkerFirstAt | inhand/inhand-signals.js:221 | with no marker in the text before it, the first occurrence of "\n\nTo improve:" is right after that text |
| Signals.FormatExplanationOfTip | inhand/inhand-signals.js:219-226 | an explanation `head + marker + tip` becomes `head + "\n\n📈 To improve:" + tip` |
| Signals.FormatExplanationWithoutTip | inhand/inhand-signals.js:219-226 | an explanation without the marker is kept as it is |
| Signals.DescLinesJoined | inhand/inhand-signals.js:235-237 | the per-row `desc + "\n"` lines are the descriptions joined by line breaks, plus a final line break |
| Signals.TooltipLayout | inhand/inhand-signals.js:213-239 | a known measure's tooltip is: the explanation before the tip, the tip under the 📈 heading, "\n\nRanges:\n", then the descs in table order, one per line, with the trailing line break trimmed |
| Signals.TooltipUnknown | inhand/inhand-signals.js:214-216 | a measure with no table and no explanation gets "No thresholds defined." |
| Signals.WordSpaceRunEnd | inhand/inhand-signals.js:289 | the scan stops at the end of the maximal run of `[\w\s]` characters |
| Signals.LatestLabelIsRegex | inhand/inhand-signals.js:289 | the one-pass scan accepts a label iff `^Latest\s+[\w\s]+:` matches it in some way |
| Signals.DisplayText | inhand/inhand-signals.js:286-296 | the badge is `reading => desc` iff the label context is empty or a "Latest …:" label, and the reading alone iff it is any other non-empty text |
| SignalCard.FirstByTag | inhand/inhand-signals.js:258-263 | `querySelector` returns an element with the requested tag |
| SignalCard.FirstTagged | inhand/inhand-signals.js:258-263 | the reference search over a flat list: nothing iff no node has the tag, otherwise the node at the first position that has it |
| SignalCard.FirstByTagInOrder | inhand/inhand-signals.js:258-263 | the recursive search equals the first tagged element of the pre-order (document-order) listing of all elements, so it is nothing iff no element below has the tag |
| SignalCard.FirstTaggedConcat | inhand/inhand-signals.js:258-263 | the first tagged node of two lists in a row is the first list's, or the second's when the first has none |
| SignalCard.CardExtra.Fill | inhand/inhand-signals.js:277-324 | after clearing and the two appends, the extra element holds exactly the badge and the icon, and the flag is set to "yes" |
| SignalCard.ReadExtra | inhand/inhand-signals.js:254-267 | the flag check, the reading div and span, and the label text before the reading compute `ReadExtraOf` |
| SignalCard.PatchSignalCard | inhand/inhand-signals.js:244-325 | no change (and no throw) when the title is missing or unknown, the extra element, reading div or span is missing, the card is already patched or the reading has no band; a TypeError, with the card untouched, exactly when `split` yields no first piece; otherwise the extra element holds the badge and the icon and is flagged |
| SignalCard.PatchIdempotent | inhand/inhand-signals.js:256-324 | patching the result of a rewrite again leaves it alone |
| SignalCard.RewriteShape | inhand/inhand-signals.js:244-324 | a rewrite happens only for a known, unpatched measure whose card reads as some reading and label; the badge shows them with the description of the band the parsed reading falls in and carries that band's colour; the icon's text is "?" then the tooltip |
| SignalCard.IconText | inhand/inhand-signals.js:300-310 | the icon's text is "?" followed by the tooltip text |
| SignalCard.NegativeSignalStrengthUntouched | inhand/inhand-signals.js:147-151 | a negative Signal Strength reading leaves the card unpatched |
| SignalCard.EmptyReadingThrows | inhand/inhand-signals.js:266-270 | an empty reading in an empty div gives `split` no pieces, and the `trim` of the missing piece throws |
| SignalCard.EmptyTextInside | inhand/inhand-signals.js:262 | an element found below nodes without text has no text either |
| Panorama.RelevantPageIff | palo-alto-networks/panorama-11.js:16-18 | the page is relevant iff the hash contains "panorama/managed-devices/summary" |
| Panorama.CellHasKeyword | palo-alto-networks/panorama-11.js:238-244 | the keyword loop with `break` reports whether the trimmed text includes some keyword |
| Panorama.Hits | palo-alto-networks/panorama-11.js:235-245 | a row's hit count is at most its number of cells |
| Panorama.CountHits | palo-alto-networks/panorama-11.js:235-245 | the `tds.forEach` pass computes the row's hit count |
| Panorama.ChosenAfter | palo-alto-networks/panorama-11.js:232-250 | after n rows, there is no choice iff none of them has a hit; otherwise the choice has hits, no row has more, and every earlier row has fewer |
| Panorama.ChosenRowUnique | palo-alto-networks/panorama-11.js:232-250 | the chosen row is the only row with the most hits that no earlier row ties |
| Panorama.KeywordIndexes | palo-alto-networks/panorama-11.js:259-268 | i is collected iff it is below the bound and the cell's trimmed text includes a keyword |
| Panorama.InterestingColumns | palo-alto-networks/panorama-11.js:225-257 | no row with a hit gives the empty set |
| Panorama.InterestingColumnsIff | palo-alto-networks/panorama-11.js:220-271 | i is returned iff it indexes a keyword cell of the chosen row |
| Panorama.FindInterestingColumns | palo-alto-networks/panorama-11.js:220-271 | the function computes `InterestingColumns`, and the empty set when there are no header rows |
| Panorama.ChooseRow | palo-alto-networks/panorama-11.js:232-250 | the scan that replaces the choice only on strictly more hits gives `ChosenRow` |
| Panorama.KeywordCells | palo-alto-networks/panorama-11.js:259-268 | the pass over the chosen row collects exactly its keyword cells |
| Panorama.HighlightedSpec | palo-alto-networks/panorama-11.js:277-289 | "Disconnected" gets #D94949 and bold, "Connected" #1FAF2C and bold, after trimming; other style entries, text and dataset stay; any other text leaves the cell as it was |
| Panorama.HighlightIdempotent | palo-alto-networks/panorama-11.js:277-289 | highlighting twice is highlighting once |
| Panorama.StatusWordsExamples | palo-alto-networks/panorama-11.js:278-288 | padded status words are recognised; "Not Connected" is not |
| Panorama.WithCopySpec | palo-alto-networks/panorama-11.js:295-308 | an unmarked cell is marked, stores its trimmed text, gets a pointer and one more click listener; other dataset entries stay; a marked cell is left as it was |
| Panorama.CopyIdempotent | palo-alto-networks/panorama-11.js:296-301 | adding the copy behaviour twice is adding it once |
| Panorama.CopiedTextIsCaptured | palo-alto-networks/panorama-11.js:304-313 | a click copies the trimmed text captured at the first call, whatever the cell shows later; an empty text copies nothing |
| Panorama.DecoratedKeepsOneListener | palo-alto-networks/panorama-11.js:156-165 | decorating a cell never gives it a second click listener, and a copy column leaves it marked |
| Panorama.DecoratedAbsorbs | palo-alto-networks/panorama-11.js:156-211 | decorating twice is decorating once, with the copy behaviour when either pass asked for it |
| Panorama.HighlightedAfterCopy | palo-alto-networks/panorama-11.js:277-308 | adding the copy behaviour keeps a highlighted cell highlighted |
| Panorama.DecoratedDone | palo-alto-networks/panorama-11.js:156-165 | a decorated div shows its status colour, and has the copy behaviour when it was asked for |
| Panorama.StepKeepsDone | palo-alto-networks/panorama-11.js:156-211 | a processed div stays processed whatever later decorations do to it |
| Panorama.StepTrans | palo-alto-networks/panorama-11.js:156-211 | two rounds of decoration are one round |
| Panorama.CellDiv.HighlightStatus | palo-alto-networks/panorama-11.js:277-289 | the method's new state is `Highlighted` of the old state |
| Panorama.CellDiv.AddCopyBehavior | palo-alto-networks/panorama-11.js:295-322 | the method's new state is `WithCopy` of the old state |
| Panorama.StepBelow | palo-alto-networks/panorama-11.js:156-166 | one more cell extends "seen" and "copied" by exactly that cell |
| Panorama.IndexOfCell | palo-alto-networks/panorama-11.js:195-200 | `indexOf` gives the first position of the cell, and nothing iff it is absent |
| Panorama.DecorateCells | palo-alto-networks/panorama-11.js:154-166 | every inner div reached is decorated once, with the copy behaviour iff some cell holding it has an index in the column set |
| Panorama.Cached | palo-alto-networks/panorama-11.js:140-192 | the cache keeps every entry and adds the grid's column set, computed from its header, only when absent |
| Panorama.Script.ColumnsFor | palo-alto-networks/panorama-11.js:140-152 | the column set used is the cached one, or one computed now and cached |
| Panorama.Script.ProcessRow | palo-alto-networks/panorama-11.js:135-167 | a row outside a grid changes nothing; otherwise every inner div of the row is highlighted and, when its index is in the grid's column set, has the copy behaviour; no cell gets a second listener |
| Panorama.Script.ProcessCell | palo-alto-networks/panorama-11.js:174-212 | a cell without row, grid, index or inner div is left alone; otherwise its inner div is highlighted and, when its index is in the grid's column set, has the copy behaviour |
| Panorama.Script.ProcessExistingElements | palo-alto-networks/panorama-11.js:82-128 | off the summary page nothing changes; on it each header's grid gets the set computed from its header, every other cached grid keeps its set, a grid first met by a row or loose cell gets its header's set, and no other grid is added (`PageCache`); every inner div of the rows and loose cells ends as `PageAfter` says: decorated once iff some row or loose cell in a grid reached it, with the copy behaviour iff one reached it at an index in its grid's column set, otherwise untouched; every row and loose cell ends processed; no cell gets a second listener |
| Panorama.Script.RecalcHeaders | palo-alto-networks/panorama-11.js:88-109 | each header's grid has its column set recomputed and stored, whatever was cached; every other cached set is kept and no other grid is added |
| Panorama.Script.ProcessRows | palo-alto-networks/panorama-11.js:111-117 | rows are processed in turn; cached sets are kept, and a grid is added only when a row lies in it, with its header's set; every div ends as `RowsAfter` says: decorated once iff some row in a grid holds it, with the copy behaviour iff one holds it at an index in the grid's column set, otherwise untouched |
| Panorama.Script.ProcessRowAt | palo-alto-networks/panorama-11.js:115-117 | processing row i turns the divs and the cache left by the pass over the rows before i into those left by the pass over the rows up to i |
| Panorama.Script.ProcessCells | palo-alto-networks/panorama-11.js:119-127 | loose cells are processed in turn; cached sets are kept, and a grid is added only when a cell's row lies in it, with its header's set; every div ends as `CellsAfter` says: decorated once iff some loose cell, found among its grid row's cells, holds it, with the copy behaviour iff one has its index in the grid's column set, otherwise untouched |
| Panorama.Script.ProcessCellAt | palo-alto-networks/panorama-11.js:125-127 | processing cell i turns the divs and the cache left by the pass over the cells before i into those left by the pass over the cells up to i |
| Panorama.Script.RunPasses | palo-alto-networks/panorama-11.js:88-127 | the header, row and cell passes leave the cache as `PageCache` says and every div as `PageAfter` says |
| Panorama.Script.RowAndCellPasses | palo-alto-networks/panorama-11.js:111-127 | the row pass then the cell pass leave every div as `PageAfter` says, keep every cached set, and add only grids met by a row or cell, with their header's set |
| Panorama.Script.PassesDone | palo-alto-networks/panorama-11.js:111-127 | divs left as `PageAfter` says are processed for their own index in every row and loose cell, and none has a second listener |
| Panorama.PageCacheOf | palo-alto-networks/panorama-11.js:88-127 | the cache after the header pass and the row and cell passes is `PageCache` |
| Panorama.PageCompose | palo-alto-networks/panorama-11.js:111-127 | the row pass then the cell pass is `PageAfter`: a div reached by both is decorated once, with the copy behaviour when either asked for it |
| Panorama.RowsStep | palo-alto-networks/panorama-11.js:115-117 | `processRow` on one more row extends `RowsAfter` by exactly that row |
| Panorama.CellsStep | palo-alto-networks/panorama-11.js:125-127 | `processCell` on one more loose cell extends `CellsAfter` by exactly that cell |
| Panorama.PageRowDone | palo-alto-networks/panorama-11.js:156-165 | after the passes a row's inner div is highlighted, and has the copy behaviour when its index is in the grid's set |
| Panorama.PageCellDone | palo-alto-networks/panorama-11.js:202-211 | after the passes a loose cell's inner div is highlighted, and has the copy behaviour when its index is in the grid's set |
| Panorama.PageOneListener | palo-alto-networks/panorama-11.js:111-127 | the passes never give a div a second click listener |
| Panorama.Script.StartObserving | palo-alto-networks/panorama-11.js:56-59 | one more observer is created and connected |
| Panorama.Script.OnHashChange | palo-alto-networks/panorama-11.js:31-54 | afterwards an observer exists iff the page is relevant, at most one is connected, and a new one is started only when none existed; off the page the cache and the divs are unchanged; on it the cache and the divs end as in `ProcessExistingElements` (`PageCache`, `PageAfter`) |
| UsdPricing.FractionPart | hetzner/estimated-usd-pricing.js:28 | `(?:\.\d{1,3})?` takes a point and up to three digits, greedily, or nothing when no digit follows the point |
| UsdPricing.MatchAt | hetzner/estimated-usd-pricing.js:28 | a match at p starts with '€', skips at most one whitespace character and captures a valid amount that the text spells; '€' directly followed by a digit always matches |
| UsdPricing.Capture | hetzner/estimated-usd-pricing.js:28 | the group captures a valid amount spelt at the start of the text, and always does when the text starts with a digit |
| UsdPricing.CaptureIsMaximal | hetzner/estimated-usd-pricing.js:28 | the captured integer digits are the whole run of digits at the start of the text, and the fraction is what the greedy optional group takes right after them |
| UsdPricing.CaptureOf | hetzner/estimated-usd-pricing.js:28 | a written amount followed by text that does not continue it is captured exactly |
| UsdPricing.FractionPartOf | hetzner/estimated-usd-pricing.js:28 | up to three fraction digits after a point, not followed by a further digit when fewer than three, are what the optional group takes |
| UsdPricing.MatchAtEuro | hetzner/estimated-usd-pricing.js:28 | after the euro sign, at most one whitespace character and a digit, the match is the capture at the digit |
| UsdPricing.AmountTextPrefix | hetzner/estimated-usd-pricing.js:28 | the captured digits and fraction are a prefix of the text after the sign |
| UsdPricing.MatchFromLeftmost | hetzner/estimated-usd-pricing.js:28 | the result is the match at the smallest index k where the pattern matches, no index before k matches, and with no match k is the end of the text |
| UsdPricing.PriceWrittenReadsBack | hetzner/estimated-usd-pricing.js:28-29 | in a text whose first '€' is followed by at most one whitespace character and an amount the text does not continue, `match[1]` is exactly that amount |
| UsdPricing.NoEuroNoMatch | hetzner/estimated-usd-pricing.js:28-29 | text without '€' holds no price |
| UsdPricing.DecimalCountOfAmount | hetzner/estimated-usd-pricing.js:32 | the decimal count is the number of captured fraction digits, between 0 and 3 |
| UsdPricing.EuroAmount | hetzner/estimated-usd-pricing.js:31 | the parsed amount is the integer digits' value plus the fraction digits' value over 10^(their count), held exactly with that count as its scale |
| UsdPricing.FormatUsdShape | hetzner/estimated-usd-pricing.js:22-34 | the formatted amount has exactly `max(decimals, 2)` fraction digits, and the digits spell the exact product with 1.10 rounded half up to that many places |
| UsdPricing.EstimateHasNoEuro | hetzner/estimated-usd-pricing.js:48-60 | the estimate text never holds '€' |
| UsdPricing.FormatUsdExample1 | hetzner/estimated-usd-pricing.js:22-24 | €4.99 gives "5.49" |
| UsdPricing.FormatUsdExample2 | hetzner/estimated-usd-pricing.js:22-24 | €10 gives "11.00" |
| UsdPricing.FormatUsdExample3 | hetzner/estimated-usd-pricing.js:22-24 | €0.125 gives "0.138" |
| UsdPricing.FirstWhere | hetzner/estimated-usd-pricing.js:37-51 | `querySelector` gives the first child that matches, and nothing iff none does |
| UsdPricing.MoveAfterSpec | hetzner/estimated-usd-pricing.js:64 | after the move the estimate is at k and the period right after it, the children before it were before it already, and no kind of child is gained or lost |
| UsdPricing.MoveAfterKeepsOrder | hetzner/estimated-usd-pricing.js:64 | taking the moved child out again from right after the estimate gives the other children in their old order |
| UsdPricing.MoveAfterCount | hetzner/estimated-usd-pricing.js:64 | the move neither adds nor loses a child of any kind |
| UsdPricing.MoveAfterNext | hetzner/estimated-usd-pricing.js:64 | moving the child that already follows the estimate changes nothing |
| UsdPricing.WithEstimateSpec | hetzner/estimated-usd-pricing.js:37-48 | the first estimate child is reused or one is appended, it shows the text, it is the only estimate when there was at most one, other children stay, and period elements are neither added nor lost |
| UsdPricing.PeriodMovedFixed | hetzner/estimated-usd-pricing.js:51-64 | a period element already right after the estimate stays put |
| UsdPricing.MovedShape | hetzner/estimated-usd-pricing.js:51-64 | moving a period element keeps the estimate first among estimates, puts the period right after it, and keeps the counts of both kinds |
| UsdPricing.PeriodFollows | hetzner/estimated-usd-pricing.js:51-64 | with at most one period element, once it is right after the estimate it is the first period element |
| UsdPricing.EstimatedFixed | hetzner/estimated-usd-pricing.js:37-64 | an estimate already showing the text, with the period element (if any) after it, is left as it is |
| UsdPricing.EstimatedShape | hetzner/estimated-usd-pricing.js:37-64 | after `processPrice`'s update the first estimate shows the text, the estimate count becomes max(count, 1), period elements are kept, and the first period element, unless it is itself an estimate, sits right after the estimate |
| UsdPricing.EstimatedIdempotent | hetzner/estimated-usd-pricing.js:37-64 | with at most one period element, repeating the update with the same text changes nothing |
| UsdPricing.PriceIdempotent | hetzner/estimated-usd-pricing.js:26-66 | re-running on an annotated element changes nothing, when the first euro amount is unchanged and there is at most one period element |
| UsdPricing.OutcomeWithoutMatch | hetzner/estimated-usd-pricing.js:28-29 | with no match the children are left alone |
| UsdPricing.PriceElement.ProcessPrice | hetzner/estimated-usd-pricing.js:26-66 | the new children are `PriceOutcome` of the old ones |
| UsdPricing.PriceElement.UpdateEstimate | hetzner/estimated-usd-pricing.js:37-48 | the children and the estimate's index are those of `WithEstimate`, and the estimate shows the text |
| UsdPricing.PriceElement.MovePeriod | hetzner/estimated-usd-pricing.js:51-65 | the first period element, if any, is moved to follow the estimate |
| UsdPricing.OnCharacterData | hetzner/estimated-usd-pricing.js:85-89 | a text change re-processes the parent only when it has class `price-amount` or `col--price` |
| Dashboard.NormalizeLabel | inhand/inhand-dashboard.js:29 | the normalised label is trimmed and no longer than the raw one |
| Dashboard.NormalizeLabelPadded | inhand/inhand-dashboard.js:29 | a word, optionally followed by a colon and padded with whitespace, normalises to the word |
| Dashboard.NormalizeLabelDropsOneColon | inhand/inhand-dashboard.js:29 | the colon removed is the first one (none before it), the label is the trimmed text around it, and every other colon stays |
| Dashboard.NormalizeLabelWithoutColon | inhand/inhand-dashboard.js:29 | a label without a colon is only trimmed |
| Dashboard.TrimKeepsColons | inhand/inhand-dashboard.js:29 | `trim` removes no colon |
| Dashboard.CopyLabelsNormalise | inhand/inhand-dashboard.js:19-32 | each of the seven listed labels, bare or followed by a colon, normalises to itself |
| Dashboard.Content.AddCopyButton | inhand/inhand-dashboard.js:34-44 | a button copying the given text is appended only when the content has none; the content's text is unchanged |
| Dashboard.WantedBelowIff | inhand/inhand-dashboard.js:23-32 | a content is wanted iff some item with both parts and a listed label has it as its content |
| Dashboard.Decorated | inhand/inhand-dashboard.js:34-44 | at most one button stays at most one, a wanted content ends with a button, and an existing button is kept |
| Dashboard.DecoratedAgain | inhand/inhand-dashboard.js:30-44 | running again, whatever the text has become, changes nothing: the button keeps the text captured when it was added |
| Dashboard.ModifyValues | inhand/inhand-dashboard.js:22-48 | every content's text is unchanged, and it gains one button copying its trimmed text iff it is wanted and had none |
| Text.TrimStartSpec | inhand/inhand-signals.js:265 | the leading whitespace removed is exactly the whitespace before the first other character |
| Text.TrimEndSpec | inhand/inhand-signals.js:265 | the trailing whitespace removed is exactly the whitespace after the last other character |
| Text.Trim | inhand/inhand-signals.js:265 | the trimmed text has no whitespace at either end, and text already trimmed is unchanged |
| Text.TrimSlice | inhand/inhand-signals.js:265 | `trim` removes whitespace from the two ends only |
| Text.TrimIdempotent | inhand/inhand-signals.js:265 | trimming twice is trimming once |
| Text.TrimPadded | palo-alto-networks/panorama-11.js:278 | whitespace around an untrimmed core is exactly what `trim` removes |
| Text.IndexOf | palo-alto-networks/panorama-11.js:17 | the first occurrence, and nothing iff there is none |
| Text.ContainsIff | palo-alto-networks/panorama-11.js:17 | `includes` holds iff the substring occurs somewhere |
| Text.SplitJoin | hetzner/estimated-usd-pricing.js:32 | joining the pieces of a split with the separator gives back the original |
| Text.SplitPiecesFree | inhand/inhand-signals.js:221 | no piece of a split holds the separator |
| Text.FirstPiece | inhand/inhand-signals.js:269 | `split(sep)[0]` is missing only for an empty string with an empty separator; with a non-empty separator it is the text before the first occurrence (no occurrence starts inside it), or the whole text when there is none; with an empty separator it is the first character |
| Text.ReplaceFirst | inhand/inhand-dashboard.js:29 | the occurrence replaced is the first one (none starts before it) and the rest of the text is kept; with no occurrence the text is unchanged |
| Numerals.RoundScaledBounds | hetzner/estimated-usd-pricing.js:23 | the rounded value is within half a unit of the exact one, rounding halves up |
| Numerals.FormatFixedShape | hetzner/estimated-usd-pricing.js:23 | `toFixed(f)` writes integer digits without a leading zero, a point and exactly f fraction digits that together spell the scaled value |

## Left out

- Observers and timers are not modelled: the `MutationObserver` callbacks, the disconnect/reconnect cycle and the 50 ms debounce in `inhand/inhand-signals.js`, the initial runs, and `mutationCallback` in `palo-alto-networks/panorama-11.js`. The model takes what the DOM queries find as parameters.
- `patchAllSignalCards` and `processPrices` are not modelled. Each only applies the modelled per-element operation to every element a selector finds.
- The tooltip's show/hide positioning (`showTooltip`, `hideTooltip`) is not modelled: it is pixel geometry from `getBoundingClientRect`. The pointer listeners that call them are not modelled either.
- The clipboard calls (`navigator.clipboard.writeText`, `GM_setClipboard`) are not modelled, and neither is the one-second "Copied!" text swap of `showCopiedFeedback`: they are asynchronous browser services. The model records what a click would copy.
- `GM_addStyle` CSS and the debug logging are not modelled: they have no effect on the logic.
- Floating point is not modelled: readings and prices are exact decimals, and `EUR * 1.10` is the exact product with 11/10. `toFixed` is round-half-up on that exact value. Where the binary product lies just below a half (`toFixed` then rounds down), the model's last digit differs. Exponent forms from `parseFloat` cannot arise, because the cleaned text has no 'e'. `toFixed` writes values of 10^21 and above in exponent form (for example "1.1e+21"); `Numerals.FormatFixed` always writes plain digits, so for estimates that large the model's text differs.
- `measureConfigs[name]` and `measureExplanations[name]` are treated as plain lookups. Inherited object-prototype names such as "constructor" are treated as absent.
- Price elements are given as a flat list of children. A `.usd-estimate` or period element nested deeper, which `querySelector` would also find, is not modelled.
- In `patchSignalCard` the title and the `.ant-card-extra` element are inputs, and the card below them is a small node tree. Event listeners on the new icon are not recorded.
- UsdPricing.PriceIdempotent: assumes the first euro amount of the text is unchanged by the update and that there is at most one period element. Without these hypotheses the source's re-run is not a no-op.
- The other scripts of the repository are not part of this model (`inhand/inhand-tunnel-status.js`, the two `unifi` scripts and `palo-alto-networks/panorama-10.js`).
