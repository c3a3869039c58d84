/**
 * `getChosenAnswerState`: fuses a visible result alert with three weaker signals
 * (a result-styled option, a popularity or score badge, the submit button
 * having disappeared) into "an answer has been submitted".
 */
module AnswerState {
  import opened Wrappers
  import opened Text
  import opened Dom
  import opened Locator

  const SuccessAlertSelectors: seq<Selector> := ["#div_question .alert.alert-success", ".alert.alert-success"]
  const DangerAlertSelectors: seq<Selector> := ["#div_question .alert.alert-danger", ".alert.alert-danger"]

  const QuestionContainerSelector: Selector := "#div_question"
  const OptionItemSelector: Selector := "a.list-group-item, label.list-group-item"
  const PopularityBadgeSelector: Selector := "[id^='popularity_badge']"
  const ScoreBadgeSelector: Selector := ".score-badge"
  const SubmitButtonSelector: Selector := "#submit_answer"

  datatype ChosenState = ChosenState(
    isChosen: bool,
    alertEl: Option<Node>,
    hasResultStyledOption: bool,
    hasPopularityBadges: bool,
    submitButtonVisible: bool)

  /** `document.querySelector("#div_question") || document.body`, as a query scope. */
  function OptionRoot(doc: Document): Scope
  {
    match QuerySelector(doc, Everywhere, QuestionContainerSelector)
    case Some(container) => Under(container.id)
    case None => Everywhere
  }

  /** An option bearing the green/red bar, a solid border, a left border or a success/danger class. */
  predicate IsResultStyled(option: Node)
  {
    var style := ToLower(option.style);
    || Contains(style, "greenbar.png")
    || Contains(style, "redbar.png")
    || Contains(style, "solid green")
    || Contains(style, "solid red")
    || Contains(style, "border-left")
    || "bg-success" in option.classes
    || "bg-danger" in option.classes
    || "list-group-item-success" in option.classes
    || "list-group-item-danger" in option.classes
  }

  /** The success alert if one is visible, else the danger alert; never a generic alert. */
  function ResultAlert(doc: Document): Option<Node>
  {
    FirstVisible(doc, SuccessAlertSelectors).OrElse(FirstVisible(doc, DangerAlertSelectors))
  }

  /** `getChosenAnswerState()`. */
  function GetChosenAnswerState(doc: Document): ChosenState
  {
    var alertEl := ResultAlert(doc);
    var root := OptionRoot(doc);
    var optionNodes := QueryAll(doc, root, OptionItemSelector);
    var hasResultStyledOption := exists i :: 0 <= i < |optionNodes| && IsResultStyled(optionNodes[i]);
    var hasPopularityBadges :=
      QuerySelector(doc, root, PopularityBadgeSelector).Some? || QuerySelector(doc, root, ScoreBadgeSelector).Some?;
    var submitButtonVisible := IsVisible(QuerySelector(doc, Everywhere, SubmitButtonSelector));
    var isChosen := alertEl.Some? && (hasResultStyledOption || hasPopularityBadges || !submitButtonVisible);
    ChosenState(isChosen, alertEl, hasResultStyledOption, hasPopularityBadges, submitButtonVisible)
  }

  /**
   * The alert is the first visible success alert when there is one, otherwise
   * the first visible danger alert; it is always a visible match of one of
   * those four selectors, and it is missing exactly when none of them has a
   * visible match.
   */
  lemma ResultAlertIsSuccessThenDanger(doc: Document)
    ensures ResultAlert(doc) == FirstVisible(doc, SuccessAlertSelectors + DangerAlertSelectors)
    ensures var a := ResultAlert(doc);
      && (a.None? <==> !HasVisibleMatch(doc, SuccessAlertSelectors + DangerAlertSelectors))
      && (HasVisibleMatch(doc, SuccessAlertSelectors) ==> a == FirstVisible(doc, SuccessAlertSelectors) && a.Some?)
      && (a.Some? ==> a.value.visible
                      && exists i, j :: VisibleAt(doc, SuccessAlertSelectors + DangerAlertSelectors, i, j)
                                        && Matches(doc, (SuccessAlertSelectors + DangerAlertSelectors)[i])[j] == a.value)
  {
    var both := SuccessAlertSelectors + DangerAlertSelectors;
    FirstVisibleAppend(doc, SuccessAlertSelectors, DangerAlertSelectors);
    FirstVisibleIsFirst(doc, SuccessAlertSelectors);
    FirstVisibleIsFirst(doc, both);
  }

  /**
   * The fusion rule in terms of the page: an answer counts as chosen exactly
   * when a success or danger alert is visible and at least one of a
   * result-styled option, a popularity or score badge, or a submit button
   * that is missing or hidden is present.
   */
  lemma ChosenIffAlertAndSignal(doc: Document)
    ensures var root := OptionRoot(doc);
            var options := QueryAll(doc, root, OptionItemSelector);
      GetChosenAnswerState(doc).isChosen <==>
        && HasVisibleMatch(doc, SuccessAlertSelectors + DangerAlertSelectors)
        && (|| (exists i :: 0 <= i < |options| && IsResultStyled(options[i]))
            || QueryAll(doc, root, PopularityBadgeSelector) != []
            || QueryAll(doc, root, ScoreBadgeSelector) != []
            || QueryAll(doc, Everywhere, SubmitButtonSelector) == []
            || !QueryAll(doc, Everywhere, SubmitButtonSelector)[0].visible)
  {
    ResultAlertIsSuccessThenDanger(doc);
  }
}
