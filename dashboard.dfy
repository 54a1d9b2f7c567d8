/** The InHand device-profile script that puts a copy button into the
    content of every description item whose label is one of a fixed list;
    clicking the button copies the content's text as it was when the button
    was added. */
module Dashboard {
  import opened Wrappers
  import opened Text

  // ---------------------------------------------------------------------
  // Labels

  /** The labels whose values get a copy button. */
  const COPY_LABELS: seq<string> := ["IP", "Phone", "IMSI", "IMEI", "ICCID", "Serial Number", "Online Duration"]

  /** `labelElement.textContent.replace(':', '').trim()`. */
  function NormalizeLabel(s: string): (r: string)
    ensures Trimmed(r) && |r| <= |s|
  {
    Trim(ReplaceFirst(s, ":", ""))
  }

  predicate NoColon(s: string) {
    forall i :: 0 <= i < |s| ==> s[i] != ':'
  }

  /** A label written as a word, optionally followed by a colon, with
      whitespace around it, normalises to the word. */
  lemma NormalizeLabelPadded(pre: string, w: string, colon: bool, post: string)
    requires AllSpace(pre) && AllSpace(post) && Trimmed(w) && w != [] && NoColon(w)
    ensures NormalizeLabel(pre + w + (if colon then ":" else "") + post) == w
  {
    var s := pre + w + (if colon then ":" else "") + post;
    var k := |pre| + |w|;
    forall i | i < k || !colon ensures !OccursAt(s, ":", i) {
      if 0 <= i && i + 1 <= |s| {
        assert s[i..i + 1][0] == s[i];
        if i < |pre| {
          assert s[i] == pre[i];
        } else if i < k {
          assert s[i] == w[i - |pre|];
        } else {
          assert s[i] == post[i - k];
        }
      }
    }
    if colon {
      assert OccursAt(s, ":", k) by {
        assert s[k..k + 1] == [s[k]];
      }
      assert IndexOf(s, ":") == Some(k);
      assert ReplaceFirst(s, ":", "") == pre + w + post by {
        assert s[..k] == pre + w;
        assert s[k + 1..] == post;
      }
    } else {
      assert s == pre + w + post;
      assert IndexOf(s, ":") == None;
    }
    TrimPadded(pre, w, post);
  }

  /** Whitespace holds no colon. */
  lemma {:induction false} SpaceCountsNoColon(s: string)
    requires AllSpace(s)
    ensures CountChar(s, ':') == 0
  {
    if s != [] {
      SpaceCountsNoColon(s[1..]);
    }
  }

  /** Cutting one colon out of a string leaves one colon fewer. */
  lemma CutColon(s: string, k: nat)
    requires k < |s| && s[k] == ':'
    ensures CountChar(s[..k] + s[k + 1..], ':') == CountChar(s, ':') - 1
  {
    assert s == s[..k] + [':'] + s[k + 1..];
    CountCharConcat(s[..k] + [':'], s[k + 1..], ':');
    CountCharConcat(s[..k], [':'], ':');
    CountCharConcat(s[..k], s[k + 1..], ':');
  }

  /** Trimming removes no colon. */
  lemma TrimKeepsColons(s: string)
    ensures CountChar(Trim(s), ':') == CountChar(s, ':')
  {
    TrimStartKeepsColons(s);
    TrimEndKeepsColons(TrimStart(s));
  }

  lemma TrimStartKeepsColons(s: string)
    ensures CountChar(TrimStart(s), ':') == CountChar(s, ':')
  {
    var t := TrimStart(s);
    TrimStartSpec(s);
    var i := |s| - |t|;
    assert s == s[..i] + t;
    CountCharConcat(s[..i], t, ':');
    SpaceCountsNoColon(s[..i]);
  }

  lemma TrimEndKeepsColons(t: string)
    ensures CountChar(TrimEnd(t), ':') == CountChar(t, ':')
  {
    var r := TrimEnd(t);
    TrimEndSpec(t);
    assert t == r + t[|r|..];
    CountCharConcat(r, t[|r|..], ':');
    SpaceCountsNoColon(t[|r|..]);
  }

  /** Only the first colon goes: the label is trimmed after cutting out the
      colon at `k`, the first one, and it keeps every other colon. */
  lemma NormalizeLabelDropsOneColon(s: string) returns (k: nat)
    requires Contains(s, ":")
    ensures k < |s| && s[k] == ':' && NoColon(s[..k])
    ensures NormalizeLabel(s) == Trim(s[..k] + s[k + 1..])
    ensures CountChar(NormalizeLabel(s), ':') == CountChar(s, ':') - 1
  {
    k := IndexOf(s, ":").value;
    assert s[k..k + 1] == ":";
    forall i | 0 <= i < k ensures s[..k][i] != ':' {
      assert !OccursAt(s, ":", i);
      assert s[i..i + 1] == [s[i]];
    }
    assert ReplaceFirst(s, ":", "") == s[..k] + s[k + 1..];
    CutColon(s, k);
    TrimKeepsColons(ReplaceFirst(s, ":", ""));
  }

  /** A label without a colon is only trimmed. */
  lemma NormalizeLabelWithoutColon(s: string)
    requires NoColon(s)
    ensures NormalizeLabel(s) == Trim(s)
  {
    forall i | 0 <= i < |s| ensures !OccursAt(s, ":", i) {
      assert s[i..i + 1][0] == s[i];
    }
  }

  /** `labels.includes(labelText)`. */
  predicate IsCopyLabel(t: string) {
    t in COPY_LABELS
  }

  /** Each listed label, bare or with a colon, normalises to itself. */
  lemma CopyLabelsNormalise(k: nat, colon: bool)
    requires k < |COPY_LABELS|
    ensures NormalizeLabel(COPY_LABELS[k] + (if colon then ":" else "")) == COPY_LABELS[k]
  {
    var w := COPY_LABELS[k];
    assert |w| >= 2 && !IsSpace(w[0]) && !IsSpace(w[|w| - 1]) && NoColon(w);
    assert "" + w + (if colon then ":" else "") + "" == w + (if colon then ":" else "");
    NormalizeLabelPadded("", w, colon, "");
  }

  // ---------------------------------------------------------------------
  // The page

  /** A `.ant-descriptions-item-content` element: its text, and for every
      `.copyButton` inside it the text that button puts on the clipboard.
      A button has no text of its own (its icon comes from a style sheet),
      so adding one leaves the content's text as it is. */
  class Content {
    var text: string
    var copyButtons: seq<string>

    constructor (text: string)
      ensures this.text == text && copyButtons == []
    {
      this.text := text;
      copyButtons := [];
    }

    /** Lines 34-44: a button copying `contentText` is appended unless a
        copy button is already there. */
    method AddCopyButton(contentText: string)
      modifies this
      ensures text == old(text)
      ensures copyButtons == if old(copyButtons) == [] then [contentText] else old(copyButtons)
    {
      if copyButtons == [] {
        copyButtons := copyButtons + [contentText];
      }
    }
  }

  /** A `.ant-descriptions-item`: the text of its label element and its
      content element, each absent when the item has none. */
  datatype Item = Item(labelElement: Option<string>, content: Content?)

  /** The items that get a button: both parts present, and a listed label. */
  predicate Qualifies(item: Item) {
    item.labelElement.Some? && item.content != null && IsCopyLabel(NormalizeLabel(item.labelElement.value))
  }

  /** Some item among the first `n` that passes `q` has `c` as its content. */
  predicate WantedBelow(items: seq<Item>, n: nat, c: Content, q: Item -> bool)
    requires n <= |items|
  {
    n > 0 && (WantedBelow(items, n - 1, c, q) || (q(items[n - 1]) && items[n - 1].content == c))
  }

  lemma {:induction false} WantedBelowIff(items: seq<Item>, n: nat, c: Content, q: Item -> bool)
    requires n <= |items|
    ensures WantedBelow(items, n, c, q) <==> exists i :: 0 <= i < n && q(items[i]) && items[i].content == c
  {
    if n > 0 {
      WantedBelowIff(items, n - 1, c, q);
    }
  }

  /** The content elements of the items. */
  function Contents(items: seq<Item>): set<Content> {
    set i | 0 <= i < |items| && items[i].content != null :: items[i].content
  }

  /** The copy buttons of a content element with text `text` after a run:
      one is added, copying the trimmed text, when the element is wanted
      and has none. */
  function Decorated(buttons: seq<string>, text: string, wanted: bool): (r: seq<string>)
    ensures |buttons| <= 1 ==> |r| <= 1
    ensures wanted ==> r != []
    ensures buttons != [] ==> r == buttons
  {
    if wanted && buttons == [] then [Trim(text)] else buttons
  }

  /** Running again, whatever the text has become, changes nothing more:
      the button keeps the text it captured when it was added. */
  lemma DecoratedAgain(buttons: seq<string>, text: string, text': string, wanted: bool)
    ensures Decorated(Decorated(buttons, text, wanted), text', wanted) == Decorated(buttons, text, wanted)
  {
  }

  /** `modifyValues()` over the items `querySelectorAll` found. */
  method ModifyValues(items: seq<Item>)
    modifies Contents(items)
    ensures forall c :: c in Contents(items) ==>
              c.text == old(c.text) &&
              c.copyButtons == Decorated(old(c.copyButtons), old(c.text), WantedBelow(items, |items|, c, Qualifies))
  {
    for i := 0 to |items|
      invariant forall c :: c in Contents(items) ==>
                  c.text == old(c.text) &&
                  c.copyButtons == Decorated(old(c.copyButtons), old(c.text), WantedBelow(items, i, c, Qualifies))
    {
      var item := items[i];
      if item.labelElement.Some? && item.content != null {
        var contentElement := item.content;
        var labelText := NormalizeLabel(item.labelElement.value);
        var contentText := Trim(contentElement.text);
        if labelText in COPY_LABELS {
          assert contentElement in Contents(items);
          contentElement.AddCopyButton(contentText);
        }
      }
    }
  }
}
