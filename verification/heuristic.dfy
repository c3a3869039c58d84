/**
 * `heuristicFindPanel`, `scoreCandidate` and `getDomDepth`: the fallback when no selector matches. Every visible
 * container under a root whose normalised text has an acceptable length and
 * mentions a keyword is scored, deeper nodes first and text near 800
 * characters second; the best score wins, the earliest one on a tie.
 */
module Heuristic {
  import opened Wrappers
  import opened Text
  import opened Dom
  import opened Extract
  import opened Locator

  const PanelSelector: Selector := "section, article, main, aside, details, div"

  /** `getDomDepth` stops counting once the depth exceeds this. */
  const DepthLimit: nat := 80
  /** The text length that carries no penalty. */
  const LengthTarget: nat := 800
  /** Lengths beyond this are penalised as if they were this long. */
  const LengthCap: nat := 2000

  function Min(a: nat, b: nat): nat
  {
    if a <= b then a else b
  }

  /**
   * `getDomDepth(el)`: walks up through `parentElement`, counting the steps,
   * and gives up once the count passes 80.
   */
  method GetDomDepth(el: Node) returns (depth: nat)
    ensures depth == Min(el.ancestors, DepthLimit + 1)
    ensures depth <= DepthLimit + 1
  {
    depth := 0;
    var remaining := el.ancestors;  // parent steps still available above the current node
    while remaining > 0
      invariant depth + remaining == el.ancestors
      invariant depth <= DepthLimit
      decreases remaining
    {
      depth := depth + 1;
      remaining := remaining - 1;
      if depth > DepthLimit {
        break;
      }
    }
  }

  /** `Math.abs(800 - Math.min(length, 2000))`, i.e. 800 times the source's length penalty. */
  function LengthPenalty(length: nat): (p: nat)
    ensures p <= LengthCap - LengthTarget
    ensures p == 0 <==> length == LengthTarget
    ensures length >= LengthCap ==> p == LengthCap - LengthTarget
  {
    var capped := Min(length, LengthCap);
    if capped <= LengthTarget then LengthTarget - capped else capped - LengthTarget
  }

  /**
   * 800 times `scoreCandidate`'s value `depth * 2 - penalty`; the scaling keeps
   * the score an integer without changing how candidates compare.
   */
  function ScaledScore(depth: nat, length: nat): (score: int)
    ensures 2 * LengthTarget * depth - (LengthCap - LengthTarget) <= score <= 2 * LengthTarget * depth
    ensures score == 2 * LengthTarget * depth <==> length == LengthTarget
  {
    2 * LengthTarget * depth - LengthPenalty(length)
  }

  /** One extra level of depth outweighs any difference in text length. */
  lemma DeeperScoresHigher(d1: nat, len1: nat, d2: nat, len2: nat)
    requires d1 > d2
    ensures ScaledScore(d1, len1) > ScaledScore(d2, len2)
  {
  }

  /** At equal depth, lengths below 800 score higher the longer they are... */
  lemma LongerScoresHigherBelowTarget(d: nat, len1: nat, len2: nat)
    requires len1 <= len2 <= LengthTarget
    ensures ScaledScore(d, len1) <= ScaledScore(d, len2)
  {
  }

  /** ...and lengths above 800 score lower the longer they are, until the 2000 cap. */
  lemma LongerScoresLowerAboveTarget(d: nat, len1: nat, len2: nat)
    requires LengthTarget <= len1 <= len2
    ensures ScaledScore(d, len1) >= ScaledScore(d, len2)
    ensures LengthCap <= len1 ==> ScaledScore(d, len1) == ScaledScore(d, len2)
  {
  }

  /** `scoreCandidate(el, text)`, scaled by 800. */
  method ScoreCandidate(el: Node, text: string) returns (score: int)
    ensures score == ScaledScore(Min(el.ancestors, DepthLimit + 1), |text|)
  {
    var depth := GetDomDepth(el);
    var capped := if |text| <= LengthCap then |text| else LengthCap;
    var penalty := if LengthTarget >= capped then LengthTarget - capped else capped - LengthTarget;
    score := depth * 2 * LengthTarget - penalty;
  }

  /** The score a node earns given its normalised text. */
  function ScoreOf(el: Node, text: string): int
  {
    ScaledScore(Min(el.ancestors, DepthLimit + 1), |text|)
  }

  /** The keywords, lower-cased once up front. */
  function Lowered(keywords: seq<string>): seq<string>
  {
    seq(|keywords|, i requires 0 <= i < |keywords| => ToLower(keywords[i]))
  }

  predicate MentionsAny(lower: string, kw: seq<string>)
  {
    exists k :: k in kw && Contains(lower, k)
  }

  /**
   * A node becomes a candidate when it is visible, its normalised text is
   * non-empty with a length in [minChars, maxChars], and, when keywords are
   * given, its lower-cased text contains one of them.
   */
  predicate Qualifies(el: Node, text: string, kw: seq<string>, minChars: nat, maxChars: nat)
  {
    && el.visible
    && text != ""
    && minChars <= |text| <= maxChars
    && (kw == [] || MentionsAny(ToLower(text), kw))
  }

  datatype Candidate = Candidate(el: Node, score: int)

  /**
   * The `candidates` array after the loop has visited `all`, whose normalised
   * texts are `texts`, in order.
   */
  function CandidatesOf(all: seq<Node>, texts: seq<string>, kw: seq<string>, minChars: nat, maxChars: nat): (cs: seq<Candidate>)
    requires |texts| == |all|
    ensures |cs| <= |all|
    decreases |all|
  {
    if all == [] then []
    else
      var n := |all| - 1;
      var rest := CandidatesOf(all[..n], texts[..n], kw, minChars, maxChars);
      if Qualifies(all[n], texts[n], kw, minChars, maxChars) then rest + [Candidate(all[n], ScoreOf(all[n], texts[n]))] else rest
  }

  /**
   * The candidate a stable sort by descending score puts first: the first one
   * with the highest score.
   */
  function TopIndex(cs: seq<Candidate>): (k: nat)
    requires cs != []
    ensures k < |cs|
    ensures forall i :: 0 <= i < |cs| ==> cs[i].score <= cs[k].score
    ensures forall i :: 0 <= i < k ==> cs[i].score < cs[k].score
    decreases |cs|
  {
    if |cs| == 1 then 0
    else
      var k := TopIndex(cs[..|cs| - 1]);
      if cs[|cs| - 1].score > cs[k].score then |cs| - 1 else k
  }

  /**
   * The reference choice, stated on the queried nodes themselves: the position
   * of the first qualifying node with the highest score, or None when no node
   * qualifies.
   */
  function BestIndex(all: seq<Node>, texts: seq<string>, kw: seq<string>, minChars: nat, maxChars: nat): (b: Option<nat>)
    requires |texts| == |all|
    ensures b.None? <==> forall i :: 0 <= i < |all| ==> !Qualifies(all[i], texts[i], kw, minChars, maxChars)
    ensures b.Some? ==>
              && b.value < |all|
              && Qualifies(all[b.value], texts[b.value], kw, minChars, maxChars)
              && (forall i :: 0 <= i < |all| && Qualifies(all[i], texts[i], kw, minChars, maxChars) ==>
                    ScoreOf(all[i], texts[i]) <= ScoreOf(all[b.value], texts[b.value]))
              && (forall i :: 0 <= i < b.value && Qualifies(all[i], texts[i], kw, minChars, maxChars) ==>
                    ScoreOf(all[i], texts[i]) < ScoreOf(all[b.value], texts[b.value]))
    decreases |all|
  {
    if all == [] then None
    else
      var n := |all| - 1;
      var b := BestIndex(all[..n], texts[..n], kw, minChars, maxChars);
      assert forall i :: 0 <= i < n ==> all[..n][i] == all[i] && texts[..n][i] == texts[i];
      if Qualifies(all[n], texts[n], kw, minChars, maxChars) && (b.None? || ScoreOf(all[n], texts[n]) > ScoreOf(all[b.value], texts[b.value])) then Some(n)
      else b
  }

  /** What `heuristicFindPanel` returns: null without a root or without candidates, else the top candidate. */
  function HeuristicWinner(doc: Document, keywords: seq<string>, minChars: nat, maxChars: nat, root: Option<Scope>): Option<Node>
  {
    if root.None? then None
    else
      var all := QueryAll(doc, root.value, PanelSelector);
      WinnerAmong(all, Texts(all), Lowered(keywords), minChars, maxChars)
  }

  /** The top candidate among `all`, whose normalised texts are `texts`, if any. */
  function WinnerAmong(all: seq<Node>, texts: seq<string>, kw: seq<string>, minChars: nat, maxChars: nat): Option<Node>
    requires |texts| == |all|
  {
    var cs := CandidatesOf(all, texts, kw, minChars, maxChars);
    if cs == [] then None else Some(cs[TopIndex(cs)].el)
  }

  /** Visiting one more node appends it, with its score, exactly when it qualifies. */
  lemma CandidatesOfStep(all: seq<Node>, texts: seq<string>, kw: seq<string>, minChars: nat, maxChars: nat, i: nat)
    requires |texts| == |all| && i < |all|
    ensures CandidatesOf(all[..i + 1], texts[..i + 1], kw, minChars, maxChars)
            == CandidatesOf(all[..i], texts[..i], kw, minChars, maxChars)
               + (if Qualifies(all[i], texts[i], kw, minChars, maxChars) then [Candidate(all[i], ScoreOf(all[i], texts[i]))] else [])
  {
    assert all[..i + 1][..i] == all[..i] && texts[..i + 1][..i] == texts[..i];
  }

  /** The sorted-candidates choice and the reference choice agree. */
  lemma {:induction false} TopCandidateIsBest(all: seq<Node>, texts: seq<string>, kw: seq<string>, minChars: nat, maxChars: nat)
    requires |texts| == |all|
    ensures var cs := CandidatesOf(all, texts, kw, minChars, maxChars);
            var b := BestIndex(all, texts, kw, minChars, maxChars);
      && (cs == [] <==> b.None?)
      && (cs != [] ==> cs[TopIndex(cs)] == Candidate(all[b.value], ScoreOf(all[b.value], texts[b.value])))
    decreases |all|
  {
    if all != [] {
      var n := |all| - 1;
      TopCandidateIsBest(all[..n], texts[..n], kw, minChars, maxChars);
      var rest := CandidatesOf(all[..n], texts[..n], kw, minChars, maxChars);
      var b := BestIndex(all[..n], texts[..n], kw, minChars, maxChars);
      if b.Some? {
        assert all[..n][b.value] == all[b.value] && texts[..n][b.value] == texts[b.value];
      }
      if Qualifies(all[n], texts[n], kw, minChars, maxChars) {
        var cs := rest + [Candidate(all[n], ScoreOf(all[n], texts[n]))];
        assert cs[..|cs| - 1] == rest;
      }
    }
  }

  /** The top candidate, stated on the visited nodes and their texts. */
  lemma WinnerAmongIsBest(all: seq<Node>, texts: seq<string>, kw: seq<string>, minChars: nat, maxChars: nat)
    requires |texts| == |all|
    ensures var w := WinnerAmong(all, texts, kw, minChars, maxChars);
      && (w.None? <==> forall i :: 0 <= i < |all| ==> !Qualifies(all[i], texts[i], kw, minChars, maxChars))
      && (w.Some? ==> exists b ::
            && 0 <= b < |all| && all[b] == w.value
            && Qualifies(all[b], texts[b], kw, minChars, maxChars)
            && (forall i :: 0 <= i < |all| && Qualifies(all[i], texts[i], kw, minChars, maxChars) ==>
                  ScoreOf(all[i], texts[i]) <= ScoreOf(all[b], texts[b]))
            && (forall i :: 0 <= i < b && Qualifies(all[i], texts[i], kw, minChars, maxChars) ==>
                  ScoreOf(all[i], texts[i]) < ScoreOf(all[b], texts[b])))
  {
    TopCandidateIsBest(all, texts, kw, minChars, maxChars);
    var b := BestIndex(all, texts, kw, minChars, maxChars);
    if b.Some? {
      assert all[b.value] == WinnerAmong(all, texts, kw, minChars, maxChars).value;
    }
  }

  /**
   * `heuristicFindPanel` returns null when there is no root or no node
   * qualifies; otherwise a qualifying node with the highest score, and no
   * qualifying node before it in document order scores as much.
   */
  lemma HeuristicWinnerIsBest(doc: Document, keywords: seq<string>, minChars: nat, maxChars: nat, root: Option<Scope>)
    ensures var w := HeuristicWinner(doc, keywords, minChars, maxChars, root);
            var all := if root.Some? then QueryAll(doc, root.value, PanelSelector) else [];
            var texts := Texts(all);
            var kw := Lowered(keywords);
      && (w.None? <==> forall i :: 0 <= i < |all| ==> !Qualifies(all[i], texts[i], kw, minChars, maxChars))
      && (w.Some? ==> exists b ::
            && 0 <= b < |all| && all[b] == w.value
            && Qualifies(all[b], texts[b], kw, minChars, maxChars)
            && (forall i :: 0 <= i < |all| && Qualifies(all[i], texts[i], kw, minChars, maxChars) ==>
                  ScoreOf(all[i], texts[i]) <= ScoreOf(all[b], texts[b]))
            && (forall i :: 0 <= i < b && Qualifies(all[i], texts[i], kw, minChars, maxChars) ==>
                  ScoreOf(all[i], texts[i]) < ScoreOf(all[b], texts[b])))
  {
    var all := if root.Some? then QueryAll(doc, root.value, PanelSelector) else [];
    WinnerAmongIsBest(all, Texts(all), Lowered(keywords), minChars, maxChars);
  }

  /**
   * The push loop of `heuristicFindPanel`: visits the queried nodes in
   * document order and pushes each qualifying one with its score.
   */
  method CollectCandidates(all: seq<Node>, kw: seq<string>, minChars: nat, maxChars: nat)
    returns (candidates: seq<Candidate>)
    ensures candidates == CandidatesOf(all, Texts(all), kw, minChars, maxChars)
  {
    ghost var texts := Texts(all);
    candidates := [];
    for i := 0 to |all|
      invariant candidates == CandidatesOf(all[..i], texts[..i], kw, minChars, maxChars)
    {
      CandidatesOfStep(all, texts, kw, minChars, maxChars, i);
      var el := all[i];
      if !el.visible {
        continue;
      }
      var text := ExtractText(Some(el));
      TextsAt(all, i);
      if text == "" {
        continue;
      }
      if |text| < minChars || |text| > maxChars {
        continue;
      }
      var lower := ToLower(text);
      if |kw| > 0 && !MentionsAny(lower, kw) {
        continue;
      }
      var score := ScoreCandidate(el, text);
      candidates := candidates + [Candidate(el, score)];
    }
    assert all[..|all|] == all && texts[..|texts|] == texts;
  }

  /** The head of the stable descending sort, found by one scan. */
  method TopOf(candidates: seq<Candidate>) returns (top: nat)
    requires candidates != []
    ensures top == TopIndex(candidates)
  {
    top := 0;
    for k := 1 to |candidates|
      invariant top == TopIndex(candidates[..k])
    {
      assert candidates[..k + 1][..k] == candidates[..k];
      if candidates[k].score > candidates[top].score {
        top := k;
      }
    }
    assert candidates[..|candidates|] == candidates;
  }

  /**
   * `heuristicFindPanel({keywords, minChars, maxChars, root})`: collects the
   * qualifying candidates with their scores, then takes the one a stable
   * descending sort puts first.
   */
  method HeuristicFindPanel(doc: Document, keywords: seq<string>, minChars: nat, maxChars: nat, root: Option<Scope>)
    returns (winner: Option<Node>)
    ensures winner == HeuristicWinner(doc, keywords, minChars, maxChars, root)
  {
    if root.None? {
      return None;
    }
    var kw := Lowered(keywords);
    var all := QueryAll(doc, root.value, PanelSelector);
    var candidates := CollectCandidates(all, kw, minChars, maxChars);
    if candidates == [] {
      return None;
    }
    var top := TopOf(candidates);
    winner := Some(candidates[top].el);
  }
}
