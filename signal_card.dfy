/** `patchSignalCard` of the InHand signal-level script: the rewrite of one
    measure card's `.ant-card-extra` element into a coloured badge and a
    "?" tooltip icon. */
module SignalCard {
  import opened Wrappers
  import opened Text
  import opened Signals

  /** A DOM node the script reads or creates: a text node, or an element
      with its tag, class list, inline style and children. */
  datatype Node =
    | TextNode(data: string)
    | Element(tag: string, classes: set<string>, style: map<string, string>, kids: seq<Node>)

  /** `textContent` of a list of sibling nodes: the text of every
      descendant text node, in document order. */
  function TextOf(ns: seq<Node>): string
    decreases ns
  {
    if ns == [] then ""
    else
      (match ns[0]
       case TextNode(d) => d
       case Element(_, _, _, kids) => TextOf(kids))
      + TextOf(ns[1..])
  }

  function TextContent(n: Node): string {
    TextOf([n])
  }

  /** `querySelector(tag)` over the descendants held in `ns`: the first
      element with that tag in document order (pre-order). */
  function FirstByTag(ns: seq<Node>, tag: string): (r: Option<Node>)
    ensures r.Some? ==> r.value.Element? && r.value.tag == tag
    decreases ns
  {
    if ns == [] then None
    else match ns[0]
      case TextNode(_) => FirstByTag(ns[1..], tag)
      case Element(t, _, _, kids) =>
        if t == tag then Some(ns[0])
        else match FirstByTag(kids, tag)
          case Some(n) => Some(n)
          case None => FirstByTag(ns[1..], tag)
  }

  predicate HasTag(n: Node, tag: string) {
    n.Element? && n.tag == tag
  }

  /** Every element below `ns`, in document order: each element comes
      before its descendants, and those before its later siblings. */
  function PreOrder(ns: seq<Node>): seq<Node>
    decreases ns
  {
    if ns == [] then []
    else
      (match ns[0]
       case TextNode(_) => []
       case Element(_, _, _, kids) => [ns[0]] + PreOrder(kids))
      + PreOrder(ns[1..])
  }

  /** The first node of a flat list that has the tag. */
  function FirstTagged(es: seq<Node>, tag: string): (r: Option<Node>)
    ensures r.None? <==> forall i :: 0 <= i < |es| ==> !HasTag(es[i], tag)
    ensures r.Some? ==> exists k :: 0 <= k < |es| && es[k] == r.value && HasTag(es[k], tag)
                                    && forall j :: 0 <= j < k ==> !HasTag(es[j], tag)
  {
    if es == [] then None
    else if HasTag(es[0], tag) then Some(es[0])
    else
      var r := FirstTagged(es[1..], tag);
      assert forall i :: 1 <= i < |es| ==> es[i] == es[1..][i - 1];
      r
  }

  lemma {:induction false} FirstTaggedConcat(a: seq<Node>, b: seq<Node>, tag: string)
    ensures FirstTagged(a + b, tag) == if FirstTagged(a, tag).Some? then FirstTagged(a, tag) else FirstTagged(b, tag)
  {
    if a == [] {
      assert a + b == b;
    } else {
      assert (a + b)[1..] == a[1..] + b;
      FirstTaggedConcat(a[1..], b, tag);
    }
  }

  /** `querySelector` finds the first element with the tag in document
      order, and nothing exactly when no element below `ns` has it. */
  lemma {:induction false} FirstByTagInOrder(ns: seq<Node>, tag: string)
    ensures FirstByTag(ns, tag) == FirstTagged(PreOrder(ns), tag)
    decreases ns
  {
    if ns != [] {
      FirstByTagInOrder(ns[1..], tag);
      if ns[0].TextNode? {
        assert PreOrder(ns) == PreOrder(ns[1..]);
      } else {
        FirstByTagInOrder(ns[0].kids, tag);
        ElementInOrder(ns, tag);
      }
    }
  }

  /** The step of `FirstByTagInOrder` at an element: the element itself,
      then its descendants, then its later siblings. */
  lemma ElementInOrder(ns: seq<Node>, tag: string)
    requires ns != [] && ns[0].Element?
    requires FirstByTag(ns[0].kids, tag) == FirstTagged(PreOrder(ns[0].kids), tag)
    requires FirstByTag(ns[1..], tag) == FirstTagged(PreOrder(ns[1..]), tag)
    ensures FirstByTag(ns, tag) == FirstTagged(PreOrder(ns), tag)
  {
    var below := PreOrder(ns[0].kids) + PreOrder(ns[1..]);
    PreOrderAtElement(ns);
    FirstTaggedCons(ns[0], below, tag);
    FirstTaggedConcat(PreOrder(ns[0].kids), PreOrder(ns[1..]), tag);
    FirstByTagAtElement(ns, tag);
  }

  lemma PreOrderAtElement(ns: seq<Node>)
    requires ns != [] && ns[0].Element?
    ensures PreOrder(ns) == [ns[0]] + (PreOrder(ns[0].kids) + PreOrder(ns[1..]))
  {
  }

  lemma FirstByTagAtElement(ns: seq<Node>, tag: string)
    requires ns != [] && ns[0].Element?
    ensures FirstByTag(ns, tag)
            == if HasTag(ns[0], tag) then Some(ns[0])
               else if FirstByTag(ns[0].kids, tag).Some? then FirstByTag(ns[0].kids, tag)
               else FirstByTag(ns[1..], tag)
  {
  }

  lemma FirstTaggedCons(e: Node, es: seq<Node>, tag: string)
    ensures FirstTagged([e] + es, tag) == if HasTag(e, tag) then Some(e) else FirstTagged(es, tag)
  {
    assert ([e] + es)[1..] == es;
  }

  /** The `.ant-card-extra` element: the script clears and refills its
      children and sets a flag in its dataset. */
  class CardExtra {
    var dataset: map<string, string>
    var children: seq<Node>

    constructor (dataset: map<string, string>, children: seq<Node>)
      ensures this.dataset == dataset && this.children == children
    {
      this.dataset := dataset;
      this.children := children;
    }

    /** `innerHTML = ''`, the badge and the icon appended in turn, and the
        patched flag set. */
    method Fill(badge: Node, icon: Node)
      modifies this
      ensures children == [badge, icon] && dataset == old(dataset)[PATCHED_KEY := "yes"]
    {
      children := [];
      children := children + [badge];
      children := children + [icon];
      dataset := dataset[PATCHED_KEY := "yes"];
    }
  }

  /** What `patchSignalCard` does to one card. */
  datatype Patch =
    | Skip                              // returned early, card untouched
    | Throws                            // a TypeError escaped, card untouched
    | Rewrite(badge: Node, tooltip: Node) // the extra element now holds these two

  const PATCHED_KEY := "signalPatched"

  function Badge(text: string, color: string): Node {
    Element("span", {"signal-label-badge"}, map["backgroundColor" := color], [TextNode(text)])
  }

  function TooltipIcon(text: string): Node {
    Element("span", {"signal-tooltip-container"}, map[],
      [TextNode("?"), Element("div", {"signal-tooltip-text"}, map[], [TextNode(text)])])
  }

  predicate AlreadyPatched(dataset: map<string, string>) {
    PATCHED_KEY in dataset && dataset[PATCHED_KEY] == "yes"
  }

  /** What `patchSignalCard` reads from a card before deciding. */
  datatype CardReading =
    | NotApplicable                                           // an early return
    | Unreadable                                              // `split(...)[0]` was undefined
    | Reading(name: string, readingStr: string, labelText: string)

  /** The reads of `patchSignalCard` for a card whose title element is
      `title` (`None` when the card has none) and whose extra element holds
      `dataset` and `children`, with each early return of the source in the
      source's order. */
  function ReadCard(title: Option<Node>, dataset: map<string, string>, children: seq<Node>): CardReading {
    if title.None? then NotApplicable
    else
      var name := Trim(TextContent(title.value));
      if !KnownMeasure(name) then NotApplicable
      else ReadExtraOf(name, dataset, children)
  }

  /** The reads made once the measure is known: the patched flag, the
      reading div and its span, and the label text before the reading. */
  function ReadExtraOf(name: string, dataset: map<string, string>, children: seq<Node>): CardReading {
    if AlreadyPatched(dataset) then NotApplicable
    else match FirstByTag(children, "div")
      case None => NotApplicable
      case Some(div) =>
        match FirstByTag(div.kids, "span")
        case None => NotApplicable
        case Some(span) =>
          var readingStr := Trim(TextContent(span));
          match FirstPiece(TextContent(div), readingStr)
          case None => Unreadable
          case Some(piece) => Reading(name, readingStr, Trim(piece))
  }

  /** The outcome of `patchSignalCard`: a rewrite when the reading falls in a
      band of its measure. */
  function PatchOutcome(title: Option<Node>, dataset: map<string, string>, children: seq<Node>): Patch {
    match ReadCard(title, dataset, children)
    case NotApplicable => Skip
    case Unreadable => Throws
    case Reading(name, readingStr, labelText) =>
      match LabelAndColor(name, ParseValue(readingStr))
      case None => Skip
      case Some(band) =>
        Rewrite(Badge(DisplayText(readingStr, labelText, band.desc), band.color),
                TooltipIcon(TooltipText(name)))
  }

  /** `patchSignalCard(card)`, given what the card's two `querySelector`
      calls find. `threw` reports the TypeError of the source's
      `split(...)[0].trim()`. */
  method PatchSignalCard(title: Option<Node>, extra: CardExtra?) returns (threw: bool)
    modifies extra
    ensures extra == null ==> !threw
    ensures extra != null ==>
      var outcome := PatchOutcome(title, old(extra.dataset), old(extra.children));
      && (threw <==> outcome.Throws?)
      && (outcome.Rewrite? ==> extra.children == [outcome.badge, outcome.tooltip]
                               && extra.dataset == old(extra.dataset)[PATCHED_KEY := "yes"])
      && (!outcome.Rewrite? ==> extra.children == old(extra.children) && extra.dataset == old(extra.dataset))
  {
    threw := false;
    if title.None? {
      return;
    }
    var measureName := Trim(TextContent(title.value));
    if !KnownMeasure(measureName) {
      return;
    }
    if extra == null {
      return;
    }
    var reading := ReadExtra(measureName, extra.dataset, extra.children);
    match reading
    case NotApplicable =>
    case Unreadable =>
      threw := true;
    case Reading(_, readingStr, labelText) =>
      var readingNum := ParseValue(readingStr);
      var result := GetLabelAndColor(measureName, readingNum);
      if result.None? {
        return;
      }
      var displayText := DisplayText(readingStr, labelText, result.value.desc);
      var badge := Badge(displayText, result.value.color);
      var tooltipText := BuildTooltipText(measureName);
      var icon := TooltipIcon(tooltipText);
      RewriteOfReading(title, extra.dataset, extra.children, measureName, readingStr, labelText);
      extra.Fill(badge, icon);
  }

  /** The reads `patchSignalCard` makes once it has a known measure and the
      extra element: the patched flag, the reading div and span, and the
      label text before the reading. */
  method ReadExtra(measureName: string, dataset: map<string, string>, children: seq<Node>) returns (r: CardReading)
    ensures r == ReadExtraOf(measureName, dataset, children)
  {
    if PATCHED_KEY in dataset && dataset[PATCHED_KEY] == "yes" {
      return NotApplicable;
    }
    var readingDiv := FirstByTag(children, "div");
    if readingDiv.None? {
      return NotApplicable;
    }
    var readingSpan := FirstByTag(readingDiv.value.kids, "span");
    if readingSpan.None? {
      return NotApplicable;
    }
    var readingStr := Trim(TextContent(readingSpan.value));
    var piece := FirstPiece(TextContent(readingDiv.value), readingStr);
    if piece.None? {
      return Unreadable;
    }
    var labelText := Trim(piece.value);
    return Reading(measureName, readingStr, labelText);
  }

  lemma RewriteOfReading(title: Option<Node>, dataset: map<string, string>, children: seq<Node>,
                         name: string, readingStr: string, labelText: string)
    requires ReadCard(title, dataset, children) == Reading(name, readingStr, labelText)
    requires LabelAndColor(name, ParseValue(readingStr)).Some?
    ensures var band := LabelAndColor(name, ParseValue(readingStr)).value;
            PatchOutcome(title, dataset, children)
            == Rewrite(Badge(DisplayText(readingStr, labelText, band.desc), band.color), TooltipIcon(TooltipText(name)))
  {
  }

  /** A patched card is left alone: running the patch again on what it
      produced changes nothing. */
  lemma PatchIdempotent(title: Option<Node>, dataset: map<string, string>, children: seq<Node>)
    requires PatchOutcome(title, dataset, children).Rewrite?
    ensures var p := PatchOutcome(title, dataset, children);
            PatchOutcome(title, dataset[PATCHED_KEY := "yes"], [p.badge, p.tooltip]) == Skip
  {
  }

  /** A rewrite happens only for a known measure whose reading falls in one
      of its bands: the card reads as `readingStr` with label `labelText`,
      the badge shows them with the description of the band
      `ParseValue(readingStr)` falls in and carries that band's colour, and
      the icon's text is "?" followed by the measure's tooltip. */
  lemma RewriteShape(title: Option<Node>, dataset: map<string, string>, children: seq<Node>)
    returns (readingStr: string, labelText: string)
    requires PatchOutcome(title, dataset, children).Rewrite?
    ensures title.Some? && !AlreadyPatched(dataset)
    ensures var name := Trim(TextContent(title.value));
            var p := PatchOutcome(title, dataset, children);
            && KnownMeasure(name)
            && ReadCard(title, dataset, children) == Reading(name, readingStr, labelText)
            && LabelAndColor(name, ParseValue(readingStr)).Some?
            && var band := LabelAndColor(name, ParseValue(readingStr)).value;
               && p.badge == Badge(DisplayText(readingStr, labelText, band.desc), band.color)
               && p.badge.style == map["backgroundColor" := band.color]
               && TextContent(p.tooltip) == "?" + TooltipText(name)
  {
    var name := Trim(TextContent(title.value));
    var p := PatchOutcome(title, dataset, children);
    var div := FirstByTag(children, "div").value;
    var span := FirstByTag(div.kids, "span").value;
    readingStr := Trim(TextContent(span));
    var v := ParseValue(readingStr);
    labelText := Trim(FirstPiece(TextContent(div), readingStr).value);
    var band := LabelAndColor(name, v).value;
    assert p == Rewrite(Badge(DisplayText(readingStr, labelText, band.desc), band.color),
                        TooltipIcon(TooltipText(name)));
    IconText(TooltipText(name));
  }

  lemma IconText(tip: string)
    ensures TextContent(TooltipIcon(tip)) == "?" + tip
  {
    var inner := Element("div", {"signal-tooltip-text"}, map[], [TextNode(tip)]);
    TextOfSingle(TextNode(tip));
    TextOfSingle(inner);
    TextOfSingle(TooltipIcon(tip));
    assert [TextNode("?"), inner][1..] == [inner];
    assert TextOf([TextNode("?"), inner]) == "?" + TextOf([inner]);
  }

  /** The text of one node: its data, or the text of its children. */
  lemma TextOfSingle(n: Node)
    ensures TextContent(n) == (if n.TextNode? then n.data else TextOf(n.kids))
  {
    var x := if n.TextNode? then n.data else TextOf(n.kids);
    assert [n][1..] == [];
    assert TextOf([n]) == x + TextOf([]);
    assert x + "" == x;
  }

  /** Signal Strength has no band below zero, so a negative reading leaves
      the card as it was. */
  lemma NegativeSignalStrengthUntouched(title: Option<Node>, dataset: map<string, string>, children: seq<Node>)
    requires title.Some? && Trim(TextContent(title.value)) == "Signal Strength"
    requires var div := FirstByTag(children, "div");
             div.Some? && var span := FirstByTag(div.value.kids, "span");
             span.Some? && ParseValue(Trim(TextContent(span.value))).mantissa < 0
    ensures !PatchOutcome(title, dataset, children).Rewrite?
  {
    var div := FirstByTag(children, "div").value;
    var span := FirstByTag(div.kids, "span").value;
    SignalStrengthNegative(ParseValue(Trim(TextContent(span))));
  }

  /** An empty reading in an empty reading div makes `split` return no
      pieces, and `trim` of the missing first piece throws. */
  lemma EmptyReadingThrows(title: Option<Node>, dataset: map<string, string>, children: seq<Node>)
    requires title.Some? && KnownMeasure(Trim(TextContent(title.value))) && !AlreadyPatched(dataset)
    requires var div := FirstByTag(children, "div");
             div.Some? && TextContent(div.value) == "" && FirstByTag(div.value.kids, "span").Some?
    ensures PatchOutcome(title, dataset, children) == Throws
  {
    var div := FirstByTag(children, "div").value;
    var span := FirstByTag(div.kids, "span").value;
    assert FirstPiece(TextContent(div), Trim(TextContent(span))) == None by {
      TextOfSingle(div);
      EmptyTextInside(div.kids, "span");
    }
  }

  /** An element found below nodes without text has no text either. */
  lemma {:induction false} EmptyTextInside(ns: seq<Node>, tag: string)
    requires TextOf(ns) == "" && FirstByTag(ns, tag).Some?
    ensures TextContent(FirstByTag(ns, tag).value) == ""
    decreases ns
  {
    match ns[0]
    case TextNode(_) =>
      EmptyTextInside(ns[1..], tag);
    case Element(t, _, _, kids) =>
      assert TextOf(ns) == TextOf(kids) + TextOf(ns[1..]);
      TextOfSingle(ns[0]);
      if t != tag {
        if FirstByTag(kids, tag).Some? {
          EmptyTextInside(kids, tag);
        } else {
          EmptyTextInside(ns[1..], tag);
        }
      }
  }
}
