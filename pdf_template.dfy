/**
 * The facts the report template derives from a submission before it fills
 * in its HTML: the titled score list, the highest and lowest scores, the
 * areas at each, one score card per competency, and the static legend of
 * the interpretation tiers. The HTML text, the logo file and the date are
 * not part of this model.
 */
module PdfTemplate {
  import opened Competency

  /** The label and hex colour the report attaches to a score. */
  datatype Interpretation = Interpretation(text: string, color: string)

  const StrengthWording: Interpretation := Interpretation("Area of Strength", "#27AE60")
  const AttentionWording: Interpretation := Interpretation("Needs More Consistent Attention", "#F39C12")
  const PriorityWording: Interpretation := Interpretation("Needs Improvement", "#B31B1B")

  function Wording(t: Tier): Interpretation
  {
    match t
    case Strength => StrengthWording
    case Attention => AttentionWording
    case Priority => PriorityWording
  }

  /** `getInterpretation` of the report template. */
  function Interpret(score: int): (r: Interpretation)
    ensures r == Wording(TierOf(score))
  {
    if score >= 35 then StrengthWording
    else if score >= 18 then AttentionWording
    else PriorityWording
  }

  /** Distinct tiers have distinct labels and distinct colours. */
  lemma WordingInjective(t: Tier, u: Tier)
    ensures Wording(t).text == Wording(u).text ==> t == u
    ensures Wording(t).color == Wording(u).color ==> t == u
  {
    // The labels differ in their first or seventh character, the colours in their second.
    assert StrengthWording.text[0] == 'A' && AttentionWording.text[0] == 'N' && PriorityWording.text[0] == 'N';
    assert AttentionWording.text[6] == 'M' && PriorityWording.text[6] == 'I';
    assert StrengthWording.color[1] == '2' && AttentionWording.color[1] == 'F' && PriorityWording.color[1] == 'B';
  }

  /** The label alone, or the colour alone, tells which tier a score is in. */
  lemma InterpretIdentifiesTier(score: int, t: Tier)
    ensures Interpret(score).text == Wording(t).text <==> TierOf(score) == t
    ensures Interpret(score).color == Wording(t).color <==> TierOf(score) == t
  {
    WordingInjective(TierOf(score), t);
  }

  // ---------------------------------------------------------------------
  // The legend page.
  // ---------------------------------------------------------------------

  /** One card of "Understanding Your Scores": label, colour and score range. */
  datatype LegendEntry = LegendEntry(caption: string, color: string, low: int, high: int)

  const Legend: seq<LegendEntry> := [
    LegendEntry("Area of Strength", "#27AE60", 35, 50),
    LegendEntry("Needs More Consistent Attention", "#F39C12", 18, 34),
    LegendEntry("Needs Improvement", "#B31B1B", 10, 17)
  ]

  /** The lowest and highest score a complete submission can reach. */
  const MinimumTotal: int := 10
  const MaximumTotal: int := 50

  /**
   * Over the scores a submission can reach, every score falls in exactly
   * one legend range, and that range's label and colour are the ones the
   * score cards show for it.
   */
  lemma LegendAgreesWithInterpret(score: int)
    requires MinimumTotal <= score <= MaximumTotal
    ensures exists k :: 0 <= k < |Legend| && Legend[k].low <= score <= Legend[k].high
    ensures forall k, k' ::
              (0 <= k < |Legend| && 0 <= k' < |Legend| &&
               Legend[k].low <= score <= Legend[k].high && Legend[k'].low <= score <= Legend[k'].high) ==> k == k'
    ensures forall k :: 0 <= k < |Legend| && Legend[k].low <= score <= Legend[k].high ==>
              Legend[k].caption == Interpret(score).text && Legend[k].color == Interpret(score).color
  {
    var k := if score >= 35 then 0 else if score >= 18 then 1 else 2;
    assert Legend[k].low <= score <= Legend[k].high;
  }

  /** The legend ranges tile the reachable scores with no gap and no overlap. */
  lemma LegendTilesRange()
    ensures Legend[|Legend| - 1].low == MinimumTotal && Legend[0].high == MaximumTotal
    ensures forall k :: 0 < k < |Legend| ==> Legend[k].high + 1 == Legend[k - 1].low
    ensures forall k :: 0 <= k < |Legend| ==> Legend[k].low <= Legend[k].high
  {
  }

  // ---------------------------------------------------------------------
  // Score cards and the derived report content.
  // ---------------------------------------------------------------------

  /** A score card: title, score, border colour and label. */
  datatype ScoreCard = ScoreCard(title: string, score: int, borderColor: string, caption: string)

  /**
   * One score card per entry of `sections`: the border colour and the label
   * come from two separate calls of `getInterpretation` on the same score.
   */
  function ScoreCards(sections: seq<TitledScore>): (r: seq<ScoreCard>)
    ensures |r| == |sections|
    ensures forall k :: 0 <= k < |r| ==> r[k].title == sections[k].title && r[k].score == sections[k].score
  {
    seq(|sections|, k requires 0 <= k < |sections| =>
      ScoreCard(sections[k].title, sections[k].score,
                Interpret(sections[k].score).color, Interpret(sections[k].score).text))
  }

  /** Each card's colour and label are those of one and the same tier, the tier of its score. */
  lemma ScoreCardsConsistent(sections: seq<TitledScore>, k: int)
    requires 0 <= k < |sections|
    ensures var card := ScoreCards(sections)[k];
            var t := TierOf(card.score);
            card.borderColor == Wording(t).color && card.caption == Wording(t).text
  {
  }

  /** What `getPdfHtml` computes before it writes the HTML. */
  datatype Report = Report(
    name: string,
    organization: string,
    sections: seq<TitledScore>,
    maxScore: int,
    minScore: int,
    strengthAreas: seq<string>,
    improvementAreas: seq<string>,
    cards: seq<ScoreCard>)

  function BuildReport(name: string, organization: string, scores: ScoreVector): (r: Report)
    ensures r.name == name && r.organization == organization
    ensures |r.sections| == |KeyOrder|
    ensures forall k :: 0 <= k < |r.sections| ==>
              r.sections[k] == TitledScore(Title(KeyOrder[k]), scores.Get(KeyOrder[k]))
    ensures forall k :: 0 <= k < |r.sections| ==> r.minScore <= r.sections[k].score <= r.maxScore
    ensures exists k :: 0 <= k < |r.sections| && r.sections[k].score == r.maxScore
    ensures exists k :: 0 <= k < |r.sections| && r.sections[k].score == r.minScore
  {
    ReportOfSections(name, organization, WithTitles(scores))
  }

  /** The derivations of the report from a non-empty `sections` list. */
  function ReportOfSections(name: string, organization: string, sections: seq<TitledScore>): (r: Report)
    requires |sections| > 0
    ensures r.name == name && r.organization == organization && r.sections == sections
    ensures forall k :: 0 <= k < |sections| ==> r.minScore <= sections[k].score <= r.maxScore
    ensures exists k :: 0 <= k < |sections| && sections[k].score == r.maxScore
    ensures exists k :: 0 <= k < |sections| && sections[k].score == r.minScore
  {
    var maxScore := MaxScore(sections);
    var minScore := MinScore(sections);
    Report(name, organization, sections, maxScore, minScore,
           TitlesScoring(sections, maxScore), TitlesScoring(sections, minScore),
           ScoreCards(sections))
  }

  /** `maxScore` is the highest score of any code and `minScore` the lowest. */
  lemma ReportExtremesOfCodes(name: string, organization: string, scores: ScoreVector)
    ensures var r := BuildReport(name, organization, scores);
            (forall c: Category :: r.minScore <= scores.Get(c) <= r.maxScore) &&
            (exists c: Category :: scores.Get(c) == r.maxScore) &&
            (exists c: Category :: scores.Get(c) == r.minScore)
  {
    CodeExtremes(scores);
  }

  /**
   * `strengthAreas` lists exactly the titles of the codes at the highest
   * score, `improvementAreas` those at the lowest; neither is empty.
   */
  lemma ReportAreasExact(name: string, organization: string, scores: ScoreVector, c: Category)
    ensures var r := BuildReport(name, organization, scores);
            (Title(c) in r.strengthAreas <==> scores.Get(c) == r.maxScore) &&
            (Title(c) in r.improvementAreas <==> scores.Get(c) == r.minScore) &&
            |r.strengthAreas| > 0 && |r.improvementAreas| > 0
  {
    var r := BuildReport(name, organization, scores);
    var xs := WithTitles(scores);
    assert r.strengthAreas == TitlesScoring(xs, r.maxScore) && r.improvementAreas == TitlesScoring(xs, r.minScore);
    TitleFilteredIff(scores, c, r.maxScore);
    TitleFilteredIff(scores, c, r.minScore);
    ExtremesNonEmpty(xs);
  }

  /** The areas keep the order of `sections`, ties included. */
  lemma ReportAreasInOrder(name: string, organization: string, scores: ScoreVector)
    ensures var r := BuildReport(name, organization, scores);
            var p := Positions(r.sections, r.maxScore);
            var q := Positions(r.sections, r.minScore);
            |r.strengthAreas| == |p| && (forall k :: 0 <= k < |p| ==> r.strengthAreas[k] == r.sections[p[k]].title) &&
            |r.improvementAreas| == |q| && (forall k :: 0 <= k < |q| ==> r.improvementAreas[k] == r.sections[q[k]].title)
  {
    var r := BuildReport(name, organization, scores);
    TitlesScoringIsExactFilter(r.sections, r.maxScore);
    TitlesScoringIsExactFilter(r.sections, r.minScore);
  }

  /** When all five scores are equal, both area lists are all five titles in order. */
  lemma ReportAreasWhenAllEqual(name: string, organization: string, scores: ScoreVector)
    requires forall c: Category :: scores.Get(c) == scores.sa
    ensures BuildReport(name, organization, scores).strengthAreas == AllTitles
    ensures BuildReport(name, organization, scores).improvementAreas == AllTitles
  {
    AllEqualScoresListEveryTitle(scores);
  }
}
