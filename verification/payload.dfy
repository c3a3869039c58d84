/**
 * `buildNotePayload` and its extractors: turn the answered question on the
 * page into an AnkiConnect `addNote` request. Front is the question HTML, Back the green
 * option's label and the explanation alert joined by a blank line.
 */
module Payload {
  import opened Wrappers
  import opened Text
  import opened Dom
  import opened Extract
  import opened Locator
  import opened AnswerState
  import opened Settings

  const QuestionOnlySelector: Selector := "#question_only"
  const GenericAlertSelectors: seq<Selector> := ["#div_question .alert[role='alert']", ".alert[role='alert']"]
  /** Rating and percentile widgets inside the alert that are not part of the explanation. */
  const AlertExtrasSelectors: seq<Selector> := ["#question_concept_rating_div", "#question_concept_percentile_div", ".rate_question_concept"]
  const GreenOptionSelector: Selector := "a.list-group-item"
  const OptionLabelSelector: Selector := "span"
  const BackSeparator: string := "<br><br>"
  const RequiredTag: string := "passmedicine"
  const AddNoteAction: string := "addNote"
  const AnkiConnectVersion: nat := 6

  datatype NoteFields = NoteFields(front: string, back: string)
  datatype NoteOptions = NoteOptions(allowDuplicate: bool)
  datatype Note = Note(deckName: string, modelName: string, fields: NoteFields, tags: seq<string>, options: NoteOptions)
  datatype NoteRequest = NoteRequest(action: string, version: nat, note: Note)

  /** The alert whose HTML becomes the explanation: success, then danger, then any alert. */
  function ExplanationAlert(doc: Document): Option<Node>
  {
    ResultAlert(doc).OrElse(FirstVisible(doc, GenericAlertSelectors))
  }

  /**
   * The explanation alert is the first visible match over the success, danger
   * and generic alert selectors in that order; when an answer counts as chosen
   * it is the very alert that made it count.
   */
  lemma ExplanationAlertOrder(doc: Document)
    ensures ExplanationAlert(doc) == FirstVisible(doc, SuccessAlertSelectors + DangerAlertSelectors + GenericAlertSelectors)
    ensures GetChosenAnswerState(doc).isChosen ==> ExplanationAlert(doc) == GetChosenAnswerState(doc).alertEl
  {
    FirstVisibleAppend(doc, SuccessAlertSelectors, DangerAlertSelectors);
    FirstVisibleAppend(doc, SuccessAlertSelectors + DangerAlertSelectors, GenericAlertSelectors);
  }

  /**
   * `extractAlertSuccessInfoOnlyHtml()`: "" without an alert; otherwise the
   * alert's trimmed inner HTML with the rating widgets removed.
   */
  function ExtractAlertSuccessInfoOnlyHtml(doc: Document): (html: string)
    ensures ExplanationAlert(doc).None? ==> html == ""
    ensures IsTrimmed(html)
    ensures ExplanationAlert(doc).Some? ==>
              var kept := KeptMarkup(ExplanationAlert(doc).value, AlertExtrasSelectors);
              && StrippedAt(kept, StartOfText(kept, 0), html)
              && (html == "" <==> Blank(kept))
  {
    ExtractCleanHtml(ExplanationAlert(doc), AlertExtrasSelectors)
  }

  /** An option marked as the correct one: a green bar, a solid green border or a success class. */
  predicate IsGreen(option: Node)
  {
    var style := ToLower(option.style);
    || Contains(style, "greenbar.png")
    || Contains(style, "solid green")
    || "bg-success" in option.classes
    || "list-group-item-success" in option.classes
  }

  /** Every option marked green also counts as result-styled for the answer-state check. */
  lemma GreenIsResultStyled(option: Node)
    requires IsGreen(option)
    ensures IsResultStyled(option)
  {
  }

  /** `greenCandidates[0] || null`: the first green option. */
  function FirstGreen(options: seq<Node>): (best: Option<Node>)
    ensures best.None? <==> forall i :: 0 <= i < |options| ==> !IsGreen(options[i])
    ensures best.Some? ==> exists i :: 0 <= i < |options| && options[i] == best.value && IsGreen(options[i])
                                       && forall j :: 0 <= j < i ==> !IsGreen(options[j])
    decreases |options|
  {
    if options == [] then None
    else if IsGreen(options[0]) then Some(options[0])
    else
      var rest := FirstGreen(options[1..]);
      assert forall j :: 1 <= j < |options| ==> options[j] == options[1..][j - 1];
      rest
  }

  /**
   * `extractGreenOptionHtml()`: "" when no option is green; otherwise the
   * trimmed inner HTML of the first green option's first `span`, or of the
   * option itself when it has none.
   */
  function ExtractGreenOptionHtml(doc: Document): (html: string)
    ensures IsTrimmed(html)
    ensures FirstGreen(QueryAll(doc, OptionRoot(doc), GreenOptionSelector)).None? ==> html == ""
    ensures FirstGreen(QueryAll(doc, OptionRoot(doc), GreenOptionSelector)).Some? ==>
              var best := FirstGreen(QueryAll(doc, OptionRoot(doc), GreenOptionSelector)).value;
              var span := QuerySelector(doc, Under(best.id), OptionLabelSelector);
              var inner := InnerHtml(if span.Some? then span.value else best);
              && StrippedAt(inner, StartOfText(inner, 0), html)
              && (html == "" <==> Blank(inner))
  {
    var options := QueryAll(doc, OptionRoot(doc), GreenOptionSelector);
    if options == [] then ""
    else
      match FirstGreen(options)
      case None => ""
      case Some(best) =>
        var labelSpan := QuerySelector(doc, Under(best.id), OptionLabelSelector);
        NormalizeHtml(Some(InnerHtml(if labelSpan.Some? then labelSpan.value else best)))
  }

  /** `normalizeHtml(document.querySelector("#question_only")?.innerHTML)`. */
  function QuestionHtml(doc: Document): (html: string)
    ensures IsTrimmed(html)
    ensures QuerySelector(doc, Everywhere, QuestionOnlySelector).None? ==> html == ""
    ensures QuerySelector(doc, Everywhere, QuestionOnlySelector).Some? ==>
              var inner := InnerHtml(QuerySelector(doc, Everywhere, QuestionOnlySelector).value);
              && StrippedAt(inner, StartOfText(inner, 0), html)
              && (html == "" <==> Blank(inner))
  {
    var questionEl := QuerySelector(doc, Everywhere, QuestionOnlySelector);
    NormalizeHtml(if questionEl.Some? then Some(InnerHtml(questionEl.value)) else None)
  }

  /** `Array.from(new Set([...tags, "passmedicine"]))`. */
  function NoteTags(tagString: string): seq<string>
  {
    Dedup(NormalizeTags(tagString) + [RequiredTag])
  }

  /**
   * When the configured tags are already distinct and lack "passmedicine",
   * the note carries them in order with "passmedicine" appended.
   */
  lemma NoteTagsAppendRequired(tagString: string)
    requires Distinct(NormalizeTags(tagString)) && RequiredTag !in NormalizeTags(tagString)
    ensures NoteTags(tagString) == NormalizeTags(tagString) + [RequiredTag]
  {
    var tags := NormalizeTags(tagString) + [RequiredTag];
    assert Distinct(tags) by {
      forall i, j | 0 <= i < j < |tags|
        ensures tags[i] != tags[j]
      {
        if j == |tags| - 1 {
          assert tags[i] in NormalizeTags(tagString);
        }
      }
    }
    DedupOfDistinct(tags);
  }

  /** When the configured tags already hold "passmedicine" once, the note carries them unchanged. */
  lemma NoteTagsKeepRequired(tagString: string)
    requires Distinct(NormalizeTags(tagString)) && RequiredTag in NormalizeTags(tagString)
    ensures NoteTags(tagString) == NormalizeTags(tagString)
  {
    var tags := NormalizeTags(tagString);
    assert (tags + [RequiredTag])[..|tags|] == tags;
    DedupOfDistinct(tags);
  }

  /**
   * The payload from its three HTML parts: None when the question or the
   * explanation is empty; otherwise Back is the explanation, preceded by the
   * green option's HTML and a blank line when that is non-empty, and the tags
   * are the normalised setting tags plus "passmedicine", each once.
   */
  function AssembleNote(settings: Settings, questionHtml: string, explanationHtml: string, correctHtml: string): (r: Option<NoteRequest>)
    ensures r.None? <==> questionHtml == "" || explanationHtml == ""
    ensures r.Some? ==>
              && r.value.action == AddNoteAction
              && r.value.version == AnkiConnectVersion
              && r.value.note.deckName == settings.deckName
              && r.value.note.modelName == settings.noteType
              && r.value.note.fields.front == questionHtml
              && r.value.note.fields.back == (if correctHtml == "" then explanationHtml else correctHtml + BackSeparator + explanationHtml)
              && !r.value.note.options.allowDuplicate
              && Distinct(r.value.note.tags)
              && RequiredTag in r.value.note.tags
              && (forall t :: t in r.value.note.tags <==> t == RequiredTag || t in NormalizeTags(settings.tags))
    ensures r.Some? ==>
              var all := NormalizeTags(settings.tags) + [RequiredTag];
              forall i, j :: 0 <= i < j < |r.value.note.tags| ==>
                IndexOf(all, r.value.note.tags[i]) < IndexOf(all, r.value.note.tags[j])
  {
    if questionHtml == "" || explanationHtml == "" then None
    else
      DedupKeepsFirstOccurrenceOrder(NormalizeTags(settings.tags) + [RequiredTag]);
      var parts := NonEmpty([correctHtml, explanationHtml]);
      assert [correctHtml, explanationHtml][1..] == [explanationHtml];
      assert NonEmpty([explanationHtml]) == [explanationHtml];
      assert parts == if correctHtml == "" then [explanationHtml] else [correctHtml, explanationHtml];
      var back := Join(parts, BackSeparator);
      assert back == if correctHtml == "" then explanationHtml else correctHtml + BackSeparator + explanationHtml by {
        if correctHtml == "" {
          assert parts == [explanationHtml];
        } else {
          assert parts == [correctHtml, explanationHtml];
          assert parts[1..] == [explanationHtml];
          assert Join(parts[1..], BackSeparator) == explanationHtml;
        }
      }
      Some(NoteRequest(AddNoteAction, AnkiConnectVersion,
        Note(settings.deckName, settings.noteType, NoteFields(questionHtml, back),
             NoteTags(settings.tags), NoteOptions(false))))
  }

  /** `buildNotePayload()` against the current settings. */
  function BuildNotePayload(doc: Document, settings: Settings): Option<NoteRequest>
  {
    AssembleNote(settings, QuestionHtml(doc), ExtractAlertSuccessInfoOnlyHtml(doc), ExtractGreenOptionHtml(doc))
  }

  /**
   * A payload is built exactly when `#question_only` exists with some
   * non-whitespace HTML and an explanation alert exists whose markup without
   * the rating widgets is not all whitespace; its Front is then the question
   * HTML.
   */
  lemma BuildNotePayloadIff(doc: Document, settings: Settings)
    ensures BuildNotePayload(doc, settings).Some? <==> QuestionHtml(doc) != "" && ExtractAlertSuccessInfoOnlyHtml(doc) != ""
    ensures BuildNotePayload(doc, settings).Some? <==>
              && QuerySelector(doc, Everywhere, QuestionOnlySelector).Some?
              && !Blank(InnerHtml(QuerySelector(doc, Everywhere, QuestionOnlySelector).value))
              && ExplanationAlert(doc).Some?
              && !Blank(KeptMarkup(ExplanationAlert(doc).value, AlertExtrasSelectors))
    ensures BuildNotePayload(doc, settings).Some? ==> BuildNotePayload(doc, settings).value.note.fields.front == QuestionHtml(doc)
  {
  }
}
