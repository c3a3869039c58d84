/**
 * `evaluateInjection`, `removeButton`, `scheduleEvaluation` and the `STATE`
 * object: after every page change, decide whether the "Add to Anki" button
 * should be on the page, and keep at most one of it, placed just before the
 * result alert (or at the end of the body when the alert has no parent).
 */
module Trigger {
  import opened Wrappers
  import opened Text
  import opened Dom
  import opened Extract
  import opened Locator
  import opened Heuristic
  import opened AnswerState
  import opened Settings

  const QuestionKeywords: seq<string> := ["question"]
  const MinQuestionChars: nat := 30
  const MaxQuestionChars: nat := 20000
  /** How many characters of each text the question signature keeps. */
  const SignatureLength: nat := 120
  /** Milliseconds between the last page change and the evaluation it triggers. */
  const EvaluationDelay: nat := 250

  /** Where the button was put: just before an element, or at the end of the body. */
  datatype Placement = Before(anchor: NodeId) | AppendedToBody

  /** A button created by `createButton`; `serial` tells one creation from another. */
  datatype Button = Button(serial: nat, placement: Placement)

  /** The part of the script's state that an evaluation reads and writes. */
  datatype View = View(button: Option<Button>, lastSignature: string, created: nat)

  /** `findVisibleElement(SELECTORS.question) || heuristicFindPanel({keywords: ["question"], 30, 20000, body})`. */
  function QuestionElement(doc: Document): Option<Node>
  {
    FirstVisible(doc, QuestionSelectors).OrElse(HeuristicWinner(doc, QuestionKeywords, MinQuestionChars, MaxQuestionChars, Some(Everywhere)))
  }

  /** `${questionText.slice(0, 120)}::${answerText.slice(0, 120)}`. */
  function Signature(questionText: string, answerText: string): string
  {
    Prefix(questionText, SignatureLength) + "::" + Prefix(answerText, SignatureLength)
  }

  /** Texts that agree on their first 120 characters give the same signature. */
  lemma SignatureSeesOnlyPrefixes(q1: string, a1: string, q2: string, a2: string)
    requires Prefix(q1, SignatureLength) == Prefix(q2, SignatureLength)
    requires Prefix(a1, SignatureLength) == Prefix(a2, SignatureLength)
    ensures Signature(q1, a1) == Signature(q2, a2)
  {
  }

  /** Questions of at most 120 characters that differ give different signatures for one answer. */
  lemma SignatureTellsShortQuestionsApart(q1: string, q2: string, a: string)
    requires |q1| <= SignatureLength && |q2| <= SignatureLength && q1 != q2
    ensures Signature(q1, a) != Signature(q2, a)
  {
    var t := "::" + Prefix(a, SignatureLength);
    assert Signature(q1, a) == q1 + t && Signature(q2, a) == q2 + t;
    if |q1| == |q2| {
      var i :| 0 <= i < |q1| && q1[i] != q2[i];
      assert (q1 + t)[i] == q1[i] && (q2 + t)[i] == q2[i];
    } else {
      assert |q1 + t| != |q2 + t|;
    }
  }

  /** `anchor?.parentElement ? insertBefore(anchor) : body.appendChild`. */
  function PlacementFor(anchor: Option<Node>): Placement
  {
    if anchor.Some? && anchor.value.ancestors > 0 then Before(anchor.value.id) else AppendedToBody
  }

  /** What `evaluateInjection` reads off the page before deciding anything. */
  datatype Observation = Observation(questionEl: Option<Node>, chosen: ChosenState, questionText: string, answerText: string)

  function Observe(doc: Document): Observation
  {
    var questionEl := QuestionElement(doc);
    var chosen := GetChosenAnswerState(doc);
    Observation(questionEl, chosen, ExtractText(questionEl), ExtractText(chosen.alertEl))
  }

  /**
   * Whether an evaluation keeps a button: an answer is chosen, its alert has
   * text, and a question with text is found.
   */
  predicate Ready(obs: Observation)
  {
    obs.chosen.isChosen && obs.chosen.alertEl.Some? && obs.answerText != "" && obs.questionText != ""
  }

  /** `evaluateInjection()`'s decision, in the order its checks run. */
  function Step(obs: Observation, v: View): View
  {
    if !obs.chosen.isChosen || obs.chosen.alertEl.None? || obs.answerText == "" then v.(button := None)
    else if obs.questionText == "" then v.(button := None)
    else
      var signature := Signature(obs.questionText, obs.answerText);
      var current := if v.lastSignature != signature then v.(lastSignature := signature, button := None) else v;
      if current.button.Some? then current
      else current.(button := Some(Button(current.created, PlacementFor(obs.chosen.alertEl.OrElse(obs.questionEl)))),
                    created := current.created + 1)
  }

  /** `evaluateInjection()` on a page. */
  function Evaluate(doc: Document, v: View): View
  {
    Step(Observe(doc), v)
  }

  /**
   * A button is on the page after an evaluation exactly when the page is
   * ready, and the remembered signature is then the page's.
   */
  lemma StepShowsButtonIffReady(obs: Observation, v: View)
    ensures Step(obs, v).button.Some? <==> Ready(obs)
    ensures Ready(obs) ==> Step(obs, v).lastSignature == Signature(obs.questionText, obs.answerText)
  {
  }

  /**
   * On a page that is not ready the button is removed and nothing else
   * changes: in particular the signature is not touched, because it is only
   * computed after the answer and question checks have passed.
   */
  lemma StepNotReadyOnlyRemoves(obs: Observation, v: View)
    requires !Ready(obs)
    ensures Step(obs, v) == v.(button := None)
  {
  }

  /**
   * On a ready page, a new signature or a missing button yields a freshly
   * created button placed just before the result alert (or at the end of the
   * body when the alert has no parent); with the signature it already had, an
   * existing button is kept as it is.
   */
  lemma StepReplacesOnlyOnNewSignature(obs: Observation, v: View)
    requires Ready(obs)
    ensures v.lastSignature != Signature(obs.questionText, obs.answerText) || v.button.None? ==>
              && Step(obs, v).button == Some(Button(v.created, PlacementFor(obs.chosen.alertEl)))
              && Step(obs, v).created == v.created + 1
    ensures v.lastSignature == Signature(obs.questionText, obs.answerText) && v.button.Some? ==> Step(obs, v) == v
  {
  }

  /**
   * Evaluating a page a second time changes nothing more, as long as the
   * first evaluation left the page itself unchanged.
   */
  lemma {:induction false} EvaluateIdempotent(doc: Document, v: View)
    ensures Evaluate(doc, Evaluate(doc, v)) == Evaluate(doc, v)
  {
    var obs := Observe(doc);
    if Ready(obs) {
      StepShowsButtonIffReady(obs, v);
      StepReplacesOnlyOnNewSignature(obs, Step(obs, v));
    } else {
      StepNotReadyOnlyRemoves(obs, v);
      StepNotReadyOnlyRemoves(obs, Step(obs, v));
    }
  }

  /** No button is shown before a result alert is visible. */
  lemma NoButtonWithoutAlert(doc: Document, v: View)
    requires !HasVisibleMatch(doc, SuccessAlertSelectors + DangerAlertSelectors)
    ensures Evaluate(doc, v).button.None?
  {
    ResultAlertIsSuccessThenDanger(doc);
    StepShowsButtonIffReady(Observe(doc), v);
  }

  /**
   * The reads at the top of `evaluateInjection()`: the question element by
   * selector, else by the heuristic over the body; the answer state; and both
   * elements' texts.
   */
  method ObservePage(doc: Document) returns (obs: Observation)
    ensures obs == Observe(doc)
  {
    var questionEl := FindVisibleElement(doc, QuestionSelectors);
    if questionEl.None? {
      questionEl := HeuristicFindPanel(doc, QuestionKeywords, MinQuestionChars, MaxQuestionChars, Some(Everywhere));
    }
    var chosenState := GetChosenAnswerState(doc);
    obs := Observation(questionEl, chosenState, ExtractText(questionEl), ExtractText(chosenState.alertEl));
  }

  /** The script's mutable `STATE`, with the timers it arms. */
  class Engine {
    var button: Option<Button>
    var lastQuestionSignature: string
    var buttonsCreated: nat
    var settings: Settings
    var evaluationTimeout: Option<nat>
    /** The armed timers: handle to delay in milliseconds. */
    var pendingTimers: map<nat, nat>
    var nextTimerHandle: nat

    /** The only timer that can be armed is the one `evaluationTimeout` holds; buttons are numbered in creation order. */
    ghost predicate Valid()
      reads this
    {
      && (forall h :: h in pendingTimers ==> evaluationTimeout == Some(h))
      && (evaluationTimeout.Some? ==> evaluationTimeout.value < nextTimerHandle)
      && (button.Some? ==> button.value.serial < buttonsCreated)
    }

    function CurrentView(): View
      reads this
    {
      View(button, lastQuestionSignature, buttonsCreated)
    }

    /** The initial `STATE`. */
    constructor()
      ensures Valid()
      ensures button == None && lastQuestionSignature == "" && buttonsCreated == 0
      ensures settings == DefaultSettings && evaluationTimeout == None && pendingTimers == map[] && nextTimerHandle == 0
    {
      button := None;
      lastQuestionSignature := "";
      buttonsCreated := 0;
      settings := DefaultSettings;
      evaluationTimeout := None;
      pendingTimers := map[];
      nextTimerHandle := 0;
    }

    /**
     * `loadSettings()`: `stored` is what storage returned, None when the
     * storage API is missing, in which case the settings stay as they are.
     */
    method LoadSettings(stored: Option<RawSettings>)
      modifies this
      requires Valid()
      ensures Valid()
      ensures settings == if stored.Some? then NormalizeSettings(stored.value) else old(settings)
      ensures CurrentView() == old(CurrentView())
      ensures evaluationTimeout == old(evaluationTimeout) && pendingTimers == old(pendingTimers) && nextTimerHandle == old(nextTimerHandle)
    {
      if stored.Some? {
        settings := NormalizeSettings(stored.value);
      }
    }

    /** `removeButton()`: takes the button off the page; without a button it does nothing. */
    method RemoveButton()
      modifies this
      requires Valid()
      ensures Valid()
      ensures button == None
      ensures old(button) == None ==> CurrentView() == old(CurrentView())
      ensures lastQuestionSignature == old(lastQuestionSignature) && buttonsCreated == old(buttonsCreated)
      ensures settings == old(settings) && evaluationTimeout == old(evaluationTimeout)
      ensures pendingTimers == old(pendingTimers) && nextTimerHandle == old(nextTimerHandle)
    {
      if button.None? {
        return;
      }
      button := None;
    }

    /**
     * `scheduleEvaluation()`: cancels the armed evaluation and arms a new one
     * 250 ms out, so exactly one evaluation is ever pending.
     */
    method ScheduleEvaluation()
      modifies this
      requires Valid()
      ensures Valid()
      ensures pendingTimers == map[old(nextTimerHandle) := EvaluationDelay]
      ensures evaluationTimeout == Some(old(nextTimerHandle)) && nextTimerHandle == old(nextTimerHandle) + 1
      ensures CurrentView() == old(CurrentView()) && settings == old(settings)
    {
      if evaluationTimeout.Some? {
        pendingTimers := pendingTimers - {evaluationTimeout.value};
      }
      var handle := nextTimerHandle;
      nextTimerHandle := nextTimerHandle + 1;
      pendingTimers := pendingTimers[handle := EvaluationDelay];
      evaluationTimeout := Some(handle);
    }

    /**
     * The body of `evaluateInjection()` after its reads: remove the button when
     * the page is not ready; otherwise remember the signature, dropping the
     * button when it changed, and create a button when there is none.
     */
    method Decide(obs: Observation)
      modifies this
      requires Valid()
      ensures Valid()
      ensures CurrentView() == Step(obs, old(CurrentView()))
      ensures settings == old(settings) && evaluationTimeout == old(evaluationTimeout)
      ensures pendingTimers == old(pendingTimers) && nextTimerHandle == old(nextTimerHandle)
    {
      var questionEl, chosenState, questionText, answerText := obs.questionEl, obs.chosen, obs.questionText, obs.answerText;
      var answerEl := chosenState.alertEl;

      if !chosenState.isChosen || answerEl.None? || answerText == "" {
        RemoveButton();
        return;
      }
      if questionText == "" {
        RemoveButton();
        return;
      }

      var signature := Signature(questionText, answerText);
      if lastQuestionSignature != signature {
        lastQuestionSignature := signature;
        RemoveButton();
      }
      if button.Some? {
        return;
      }
      button := Some(Button(buttonsCreated, PlacementFor(answerEl.OrElse(questionEl))));
      buttonsCreated := buttonsCreated + 1;
    }

    /** `evaluateInjection()` against the page as it is now. */
    method EvaluateInjection(doc: Document)
      modifies this
      requires Valid()
      ensures Valid()
      ensures CurrentView() == Evaluate(doc, old(CurrentView()))
      ensures settings == old(settings) && evaluationTimeout == old(evaluationTimeout)
      ensures pendingTimers == old(pendingTimers) && nextTimerHandle == old(nextTimerHandle)
    {
      var obs := ObservePage(doc);
      Decide(obs);
    }

    /** The armed timer `handle` fires: it is disarmed and the evaluation it was set for runs. */
    method FireTimer(handle: nat, doc: Document)
      modifies this
      requires Valid() && handle in pendingTimers
      ensures Valid()
      ensures pendingTimers == map[]
      ensures CurrentView() == Evaluate(doc, old(CurrentView()))
      ensures settings == old(settings) && evaluationTimeout == old(evaluationTimeout) && nextTimerHandle == old(nextTimerHandle)
    {
      pendingTimers := pendingTimers - {handle};
      EvaluateInjection(doc);
    }
  }
}
