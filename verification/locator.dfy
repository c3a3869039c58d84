/**
 * `findVisibleElement` over the `SELECTORS` lists, and `extractOptionsText`:
 * the first visible match wins, by selector priority and then by document
 * order.
 */
module Locator {
  import opened Wrappers
  import opened Text
  import opened Dom
  import opened Extract

  const QuestionSelectors: seq<Selector> := [
    "#question_only",
    "#div_question #question_only",
    "#div_question",
    "[data-component='question-body']",
    ".question-stem",
    ".question-text",
    "#question-body",
    ".questionBody",
    ".question",
    "main article",
    "[class*='question'] [class*='body']",
    "[data-cy='question-text']",
    "article [class*='prompt']"
  ]

  const OptionListSelectors: seq<Selector> := [
    "#div_question .list-group",
    "#div_question .list-group-item",
    ".list-group",
    "[data-component='answer-options']",
    ".answers-list",
    ".answer-options",
    ".option-list",
    ".options",
    "ul",
    "ol",
    "[data-cy='answer-options']",
    "[class*='choices']"
  ]

  /** The entries of an option list whose text is collected. */
  const OptionEntrySelector: Selector :=
    "a.list-group-item, li, [role='option'], .answer-option, .option, label, a"

  /** `document.querySelectorAll(selector)`, or nothing for an empty selector. */
  function Matches(doc: Document, sel: Selector): seq<Node>
  {
    if sel != "" then QueryAll(doc, Everywhere, sel) else []
  }

  /** The first visible node of `nodes`. */
  function FirstVisibleIn(nodes: seq<Node>): Option<Node>
    decreases |nodes|
  {
    if nodes == [] then None
    else if nodes[0].visible then Some(nodes[0])
    else FirstVisibleIn(nodes[1..])
  }

  /** The value `findVisibleElement(selectors)` returns. */
  function FirstVisible(doc: Document, selectors: seq<Selector>): Option<Node>
    decreases |selectors|
  {
    if selectors == [] then None
    else FirstVisibleIn(Matches(doc, selectors[0])).OrElse(FirstVisible(doc, selectors[1..]))
  }

  /** The `j`-th match of the `i`-th selector exists and is visible. */
  ghost predicate VisibleAt(doc: Document, selectors: seq<Selector>, i: int, j: int)
  {
    && 0 <= i < |selectors|
    && 0 <= j < |Matches(doc, selectors[i])|
    && Matches(doc, selectors[i])[j].visible
  }

  ghost predicate HasVisibleMatch(doc: Document, selectors: seq<Selector>)
  {
    exists i, j :: VisibleAt(doc, selectors, i, j)
  }

  /** Position (`i`, `j`) comes no later than (`i2`, `j2`): selector order, then document order. */
  ghost predicate NoLater(i: int, j: int, i2: int, j2: int)
  {
    i < i2 || (i == i2 && j <= j2)
  }

  lemma {:induction false} FirstVisibleInIsFirst(nodes: seq<Node>)
    ensures FirstVisibleIn(nodes).None? <==> forall j :: 0 <= j < |nodes| ==> !nodes[j].visible
    ensures FirstVisibleIn(nodes).Some? ==>
              exists j :: 0 <= j < |nodes| && nodes[j] == FirstVisibleIn(nodes).value && nodes[j].visible
                          && forall j2 :: 0 <= j2 < j ==> !nodes[j2].visible
    decreases |nodes|
  {
    if nodes != [] && !nodes[0].visible {
      FirstVisibleInIsFirst(nodes[1..]);
      if FirstVisibleIn(nodes).Some? {
        var j :| 0 <= j < |nodes| - 1 && nodes[1..][j] == FirstVisibleIn(nodes).value && nodes[1..][j].visible
                 && forall j2 :: 0 <= j2 < j ==> !nodes[1..][j2].visible;
        assert nodes[j + 1] == nodes[1..][j];
        assert forall j2 :: 0 < j2 < j + 1 ==> nodes[j2] == nodes[1..][j2 - 1];
      }
    }
  }

  /**
   * `findVisibleElement` returns null exactly when no selector has a visible
   * match, and otherwise the visible match that comes first by selector
   * priority and then by document order.
   */
  lemma {:induction false} FirstVisibleIsFirst(doc: Document, selectors: seq<Selector>)
    ensures FirstVisible(doc, selectors).None? <==> !HasVisibleMatch(doc, selectors)
    ensures FirstVisible(doc, selectors).Some? ==>
              exists i, j :: VisibleAt(doc, selectors, i, j)
                             && Matches(doc, selectors[i])[j] == FirstVisible(doc, selectors).value
                             && forall i2, j2 :: VisibleAt(doc, selectors, i2, j2) ==> NoLater(i, j, i2, j2)
    decreases |selectors|
  {
    if selectors != [] {
      var head := Matches(doc, selectors[0]);
      var tail := selectors[1..];
      FirstVisibleInIsFirst(head);
      forall i, j | 0 <= i
        ensures VisibleAt(doc, tail, i, j) <==> VisibleAt(doc, selectors, i + 1, j)
      {
        if i < |tail| {
          assert tail[i] == selectors[i + 1];
        }
      }
      forall i, j | VisibleAt(doc, selectors, i, j) && FirstVisibleIn(head).None?
        ensures i > 0 && VisibleAt(doc, tail, i - 1, j)
      {
      }
      FirstVisibleIsFirst(doc, tail);
      if FirstVisibleIn(head).Some? {
        var j :| 0 <= j < |head| && head[j] == FirstVisibleIn(head).value && head[j].visible
                 && forall j2 :: 0 <= j2 < j ==> !head[j2].visible;
        assert VisibleAt(doc, selectors, 0, j);
        forall i2, j2 | VisibleAt(doc, selectors, i2, j2)
          ensures NoLater(0, j, i2, j2)
        {
        }
      } else if FirstVisible(doc, tail).Some? {
        var i, j :| VisibleAt(doc, tail, i, j)
                    && Matches(doc, tail[i])[j] == FirstVisible(doc, tail).value
                    && forall i2, j2 :: VisibleAt(doc, tail, i2, j2) ==> NoLater(i, j, i2, j2);
        assert VisibleAt(doc, selectors, i + 1, j);
        forall i2, j2 | VisibleAt(doc, selectors, i2, j2)
          ensures NoLater(i + 1, j, i2, j2)
        {
          if i2 > 0 {
            assert VisibleAt(doc, tail, i2 - 1, j2);
          }
        }
      }
    }
  }

  /** Trying two selector lists one after the other is trying their concatenation. */
  lemma {:induction false} FirstVisibleAppend(doc: Document, a: seq<Selector>, b: seq<Selector>)
    ensures FirstVisible(doc, a + b) == FirstVisible(doc, a).OrElse(FirstVisible(doc, b))
    decreases |a|
  {
    if a == [] {
      assert a + b == b;
    } else {
      FirstVisibleAppend(doc, a[1..], b);
      assert (a + b)[1..] == a[1..] + b;
    }
  }

  /**
   * `findVisibleElement(selectors)`: for each selector in turn, its matches in
   * document order; the first visible one is returned, null if there is none.
   */
  method FindVisibleElement(doc: Document, selectors: seq<Selector>) returns (el: Option<Node>)
    ensures el == FirstVisible(doc, selectors)
  {
    for i := 0 to |selectors|
      invariant FirstVisible(doc, selectors) == FirstVisible(doc, selectors[i..])
    {
      assert selectors[i..][1..] == selectors[i + 1..];
      var candidates := if selectors[i] != "" then QueryAll(doc, Everywhere, selectors[i]) else [];
      for j := 0 to |candidates|
        invariant FirstVisibleIn(candidates) == FirstVisibleIn(candidates[j..])
      {
        assert candidates[j..][1..] == candidates[j + 1..];
        if candidates[j].visible {
          return Some(candidates[j]);
        }
      }
    }
    return None;
  }

  /** `nodes.map(extractText)`. */
  function Texts(nodes: seq<Node>): (texts: seq<string>)
    ensures |texts| == |nodes|
    decreases |nodes|
  {
    if nodes == [] then [] else [ExtractText(Some(nodes[0]))] + Texts(nodes[1..])
  }

  /** The `i`-th text is the `i`-th node's text. */
  lemma {:induction false} TextsAt(nodes: seq<Node>, i: nat)
    requires i < |nodes|
    ensures Texts(nodes)[i] == ExtractText(Some(nodes[i]))
    decreases i
  {
    if i > 0 {
      TextsAt(nodes[1..], i - 1);
    }
  }

  /**
   * The lines `extractOptionsText` joins: the distinct non-empty texts of the
   * entries of the first visible option list, in first-occurrence order.
   */
  function OptionLines(doc: Document): (lines: seq<string>)
    ensures Distinct(lines)
    ensures forall t :: t in lines ==> t != ""
    ensures FirstVisible(doc, OptionListSelectors).None? ==> lines == []
    ensures FirstVisible(doc, OptionListSelectors).Some? ==>
              var entries := QueryAll(doc, Under(FirstVisible(doc, OptionListSelectors).value.id), OptionEntrySelector);
              forall t :: t in lines <==> t != "" && t in Texts(entries)
  {
    match FirstVisible(doc, OptionListSelectors)
    case None => []
    case Some(container) =>
      Dedup(NonEmpty(Texts(QueryAll(doc, Under(container.id), OptionEntrySelector))))
  }

  lemma {:induction false} JoinOfNonEmpty(parts: seq<string>, sep: string)
    requires forall p :: p in parts ==> p != ""
    ensures Join(parts, sep) == "" <==> parts == []
    decreases |parts|
  {
    if |parts| > 1 {
      assert parts[0] in parts;
    } else if |parts| == 1 {
      assert parts[0] in parts;
    }
  }

  /**
   * `extractOptionsText()`: "" when no option list is visible; otherwise the
   * option lines joined by newlines, empty exactly when there are none.
   */
  function ExtractOptionsText(doc: Document): (text: string)
    ensures FirstVisible(doc, OptionListSelectors).None? ==> text == ""
    ensures text == "" <==> OptionLines(doc) == []
  {
    JoinOfNonEmpty(OptionLines(doc), "\n");
    Join(OptionLines(doc), "\n")
  }

  /**
   * The option lines come in the order in which each first occurs among the
   * entries' texts.
   */
  lemma OptionLinesInOrder(doc: Document, container: Node)
    requires FirstVisible(doc, OptionListSelectors) == Some(container)
    ensures var texts := Texts(QueryAll(doc, Under(container.id), OptionEntrySelector));
            var lines := OptionLines(doc);
            && (forall t :: t in lines ==> t in texts)
            && forall i, j :: 0 <= i < j < |lines| ==> IndexOf(texts, lines[i]) < IndexOf(texts, lines[j])
  {
    var texts := Texts(QueryAll(doc, Under(container.id), OptionEntrySelector));
    var ne := NonEmpty(texts);
    var lines := OptionLines(doc);
    assert lines == Dedup(ne);
    DedupKeepsFirstOccurrenceOrder(ne);
    forall i, j | 0 <= i < j < |lines|
      ensures IndexOf(texts, lines[i]) < IndexOf(texts, lines[j])
    {
      assert lines[i] in lines && lines[j] in lines;
      NonEmptyKeepsIndexOrder(texts, lines[i], lines[j]);
    }
  }

  /**
   * Every option line occurs in the text, and when no line holds a newline the
   * lines are exactly what splitting the text at newlines gives back.
   */
  lemma ExtractOptionsTextListsLines(doc: Document)
    ensures forall l :: l in OptionLines(doc) ==> Contains(ExtractOptionsText(doc), l)
    ensures OptionLines(doc) != [] && (forall l :: l in OptionLines(doc) ==> '\n' !in l) ==>
              Split(ExtractOptionsText(doc), '\n') == OptionLines(doc)
  {
    var lines := OptionLines(doc);
    var text := ExtractOptionsText(doc);
    assert text == Join(lines, "\n");
    forall l | l in lines
      ensures Contains(text, l)
    {
      var k :| 0 <= k < |lines| && lines[k] == l;
      JoinHasPart(lines, "\n", k);
      ContainsIff(text, l);
    }
    if lines != [] && (forall l :: l in lines ==> '\n' !in l) {
      SplitJoin(lines, '\n');
    }
  }
}
