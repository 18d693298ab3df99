/**
 * What the results view derives from the submitted score object: the
 * interpretation shown beside each score, the radar chart's data in its own
 * display order, the "highest" and "lowest" lists, and the name of the
 * downloaded report file.
 */
module ResultsView {
  import opened Competency
  import opened QuestionBank
  import opened Scoring

  /** The wording and theme colour the results view attaches to a score. */
  datatype Interpretation = Interpretation(text: string, color: string)

  const StrengthWording: Interpretation := Interpretation("This area is a strength for you.", "primary.main")
  const AttentionWording: Interpretation := Interpretation("Giving attention here will pay dividends.", "warning.dark")
  const PriorityWording: Interpretation := Interpretation("Make this area a development priority.", "secondary.main")

  function Wording(t: Tier): Interpretation
  {
    match t
    case Strength => StrengthWording
    case Attention => AttentionWording
    case Priority => PriorityWording
  }

  /** `getInterpretation` of the results view. */
  function Interpret(score: int): (r: Interpretation)
    ensures r == Wording(TierOf(score))
  {
    if score >= 35 then StrengthWording
    else if score >= 18 then AttentionWording
    else PriorityWording
  }

  /** Distinct tiers have distinct wordings, so the text shown identifies the tier. */
  lemma InterpretIdentifiesTier(score: int, t: Tier)
    ensures Interpret(score) == Wording(t) <==> TierOf(score) == t
  {
    WordingInjective(TierOf(score), t);
  }

  lemma WordingInjective(t: Tier, u: Tier)
    ensures Wording(t) == Wording(u) ==> t == u
  {
    // The three colours start with 'p', 'w' and 's'.
    assert StrengthWording.color[0] == 'p';
    assert AttentionWording.color[0] == 'w';
    assert PriorityWording.color[0] == 's';
  }

  /** The boundary values: 35 and 18 are the lowest scores of their tiers. */
  lemma InterpretBoundaries()
    ensures Interpret(35) == Wording(Strength) && Interpret(34) == Wording(Attention)
    ensures Interpret(18) == Wording(Attention) && Interpret(17) == Wording(Priority)
  {
  }

  // ---------------------------------------------------------------------
  // The radar chart.
  // ---------------------------------------------------------------------

  /** `chartOrder` of the results view. */
  const ChartOrder: seq<Category> := [SA, E, MO, ME, SS]

  /** The chart order lists each of the five codes exactly once. */
  lemma ChartOrderIsPermutation()
    ensures |ChartOrder| == |KeyOrder|
    ensures forall i, j :: 0 <= i < j < |ChartOrder| ==> ChartOrder[i] != ChartOrder[j]
    ensures forall c: Category :: c in ChartOrder
  {
    forall c: Category ensures c in ChartOrder {
      assert ChartOrder[ChartIndex(c)] == c;
    }
  }

  /** The position of a code in the chart order. */
  function ChartIndex(c: Category): (k: nat)
    ensures k < |ChartOrder| && ChartOrder[k] == c
  {
    match c
    case SA => 0
    case E => 1
    case MO => 2
    case ME => 3
    case SS => 4
  }

  /** `reorderedScores`: the radar chart's values, one score per code in chart order. */
  function ChartScores(results: ScoreVector): (r: seq<int>)
    ensures |r| == |ChartOrder|
    ensures forall k :: 0 <= k < |r| ==> r[k] == results.Get(ChartOrder[k])
    ensures forall c: Category :: r[ChartIndex(c)] == results.Get(c)
  {
    seq(|ChartOrder|, k requires 0 <= k < |ChartOrder| => results.Get(ChartOrder[k]))
  }

  /**
   * String `replace` with a one-character string pattern: only the first
   * occurrence is replaced.
   */
  function ReplaceFirst(s: string, from: char, to: char): (r: string)
    ensures |r| == |s|
  {
    if s == [] then []
    else if s[0] == from then [to] + s[1..]
    else [s[0]] + ReplaceFirst(s[1..], from, to)
  }

  /**
   * Position k of the result holds `to` iff position k of `s` holds the
   * pattern and no earlier position does; every other position is copied.
   */
  lemma {:induction false} ReplaceFirstChangesOnlyFirst(s: string, from: char, to: char)
    ensures forall k :: 0 <= k < |s| ==>
              ReplaceFirst(s, from, to)[k] == (if s[k] == from && from !in s[..k] then to else s[k])
  {
    if s != [] && s[0] != from {
      var t, rest := s[1..], ReplaceFirst(s[1..], from, to);
      ReplaceFirstChangesOnlyFirst(t, from, to);
      forall k | 1 <= k < |s|
        ensures ReplaceFirst(s, from, to)[k] == (if s[k] == from && from !in s[..k] then to else s[k])
      {
        assert s[..k] == [s[0]] + t[..k - 1];
        assert ReplaceFirst(s, from, to)[k] == rest[k - 1];
        assert t[k - 1] == s[k];
      }
    }
  }

  /** The radar chart's labels: each title in chart order, its first space made a line break. */
  function ChartLabels(): (r: seq<string>)
    ensures |r| == |ChartOrder|
    ensures forall k :: 0 <= k < |r| ==> r[k] == ReplaceFirst(Title(ChartOrder[k]), ' ', '\n')
  {
    seq(|ChartOrder|, k requires 0 <= k < |ChartOrder| => ReplaceFirst(Title(ChartOrder[k]), ' ', '\n'))
  }

  // ---------------------------------------------------------------------
  // The "highest" and "lowest" lists and the detailed breakdown.
  // ---------------------------------------------------------------------

  /** `scoresWithTitles` */
  function ScoresWithTitles(results: ScoreVector): seq<TitledScore>
  {
    WithTitles(results)
  }

  /** "Your highest score is in:" */
  function Strongest(results: ScoreVector): seq<string>
  {
    Highest(ScoresWithTitles(results))
  }

  /** "An area with potential for growth is:" */
  function Weakest(results: ScoreVector): seq<string>
  {
    Lowest(ScoresWithTitles(results))
  }

  /**
   * A competency is listed as strongest iff no competency scores higher,
   * and as weakest iff none scores lower; both lists are non-empty.
   */
  lemma DisplayedExtremesAreExact(v: ScoreVector, c: Category)
    ensures Title(c) in Strongest(v) <==> AtMaximum(v, c)
    ensures Title(c) in Weakest(v) <==> AtMinimum(v, c)
    ensures |Strongest(v)| > 0 && |Weakest(v)| > 0
  {
    ExtremeTitlesAreExact(v, c);
  }

  /** A score object with two codes tied at the top. */
  const Tied: ScoreVector := ScoreVector(40, 40, 30, 20, 25)

  lemma TiedExtremes()
    ensures MaxScore(WithTitles(Tied)) == 40 && MinScore(WithTitles(Tied)) == 20
  {
    var xs := WithTitles(Tied);
    assert MaxScore(xs[4..]) == 25 && MinScore(xs[4..]) == 25;
    assert xs[3..][1..] == xs[4..];
    assert MaxScore(xs[3..]) == 25 && MinScore(xs[3..]) == 20;
    assert xs[2..][1..] == xs[3..];
    assert MaxScore(xs[2..]) == 30 && MinScore(xs[2..]) == 20;
    assert xs[1..][1..] == xs[2..];
    assert MaxScore(xs[1..]) == 40 && MinScore(xs[1..]) == 20;
  }

  lemma TiedFilters()
    ensures TitlesScoring(WithTitles(Tied), 40) == ["Self-Awareness", "Managing Emotions"]
    ensures TitlesScoring(WithTitles(Tied), 20) == ["Empathy"]
  {
    var xs := WithTitles(Tied);
    assert xs[3..][1..] == xs[4..] && xs[2..][1..] == xs[3..] && xs[1..][1..] == xs[2..] && xs[4..][1..] == [];
    assert TitlesScoring(xs[4..], 40) == [] && TitlesScoring(xs[4..], 20) == [];
    assert TitlesScoring(xs[3..], 40) == [] && TitlesScoring(xs[3..], 20) == ["Empathy"];
    assert TitlesScoring(xs[2..], 40) == [] && TitlesScoring(xs[2..], 20) == ["Empathy"];
    assert TitlesScoring(xs[1..], 40) == ["Managing Emotions"] && TitlesScoring(xs[1..], 20) == ["Empathy"];
  }

  /** Both codes tied at the top are listed, in key order, not one chosen winner. */
  lemma TieExample()
    ensures Strongest(Tied) == ["Self-Awareness", "Managing Emotions"]
    ensures Weakest(Tied) == ["Empathy"]
  {
    TiedExtremes();
    TiedFilters();
  }

  /**
   * Answering every question with 3 ("Half the time") scores 30 in every
   * competency, so all five titles are both the strongest and the weakest
   * and every interpretation is the middle one.
   */
  lemma AllThreesShowEveryTitle(r: Responses)
    requires forall id :: id in QuestionIds ==> id in r && r[id] == 3
    ensures Strongest(ScoresOf(r)) == AllTitles && Weakest(ScoresOf(r)) == AllTitles
    ensures forall c: Category :: Interpret(ScoresOf(r).Get(c)) == Wording(Attention)
  {
    AllThreesScoreThirty(r);
    AllEqualScoresListEveryTitle(ScoresOf(r));
  }

  /** One row of the detailed breakdown: title, score and interpretation. */
  datatype Breakdown = Breakdown(title: string, score: int, interpretation: Interpretation)

  function DetailedBreakdown(results: ScoreVector): (r: seq<Breakdown>)
    ensures |r| == |KeyOrder|
    ensures forall k :: 0 <= k < |r| ==>
              r[k].title == Title(KeyOrder[k]) && r[k].score == results.Get(KeyOrder[k]) &&
              r[k].interpretation == Wording(TierOf(r[k].score))
  {
    var xs := ScoresWithTitles(results);
    seq(|xs|, k requires 0 <= k < |xs| => Breakdown(xs[k].title, xs[k].score, Interpret(xs[k].score)))
  }

  // ---------------------------------------------------------------------
  // The download file name: the name with its whitespace hyphenated, framed as a PDF file name.
  // ---------------------------------------------------------------------

  /** A character matched by `\s` in a JavaScript regular expression. */
  predicate IsSpace(ch: char)
  {
    var n := ch as int;
    n == 0x09 || n == 0x0A || n == 0x0B || n == 0x0C || n == 0x0D || n == 0x20 ||
    n == 0xA0 || n == 0x1680 || (0x2000 <= n <= 0x200A) || n == 0x2028 || n == 0x2029 ||
    n == 0x202F || n == 0x205F || n == 0x3000 || n == 0xFEFF
  }

  ghost predicate NoSpace(s: string)
  {
    forall k :: 0 <= k < |s| ==> !IsSpace(s[k])
  }

  ghost predicate AllSpace(s: string)
  {
    forall k :: 0 <= k < |s| ==> IsSpace(s[k])
  }

  /** The length of the run of whitespace that starts `s`. */
  function SpaceRunLength(s: string): (n: nat)
    ensures n <= |s|
    ensures forall k :: 0 <= k < n ==> IsSpace(s[k])
    ensures n < |s| ==> !IsSpace(s[n])
  {
    if s != [] && IsSpace(s[0]) then 1 + SpaceRunLength(s[1..]) else 0
  }

  /** The name as the download slug: each maximal run of whitespace becomes one hyphen. */
  function Hyphenate(s: string): string
    decreases |s|
  {
    if s == [] then []
    else if IsSpace(s[0]) then "-" + Hyphenate(s[SpaceRunLength(s)..])
    else [s[0]] + Hyphenate(s[1..])
  }

  lemma {:induction false} HyphenateHasNoSpace(s: string)
    ensures NoSpace(Hyphenate(s))
    decreases |s|
  {
    if s == [] {
    } else if IsSpace(s[0]) {
      HyphenateHasNoSpace(s[SpaceRunLength(s)..]);
    } else {
      HyphenateHasNoSpace(s[1..]);
    }
  }

  /** A name without whitespace is kept as it is. */
  lemma {:induction false} HyphenateKeepsWord(w: string)
    requires NoSpace(w)
    ensures Hyphenate(w) == w
  {
    if w != [] {
      HyphenateKeepsWord(w[1..]);
    }
  }

  lemma {:induction false} SpaceRunOfJoin(run: string, rest: string)
    requires AllSpace(run)
    requires rest == [] || !IsSpace(rest[0])
    ensures SpaceRunLength(run + rest) == |run|
  {
    if run != [] {
      assert (run + rest)[1..] == run[1..] + rest;
      SpaceRunOfJoin(run[1..], rest);
    }
  }

  /**
   * A word, then a maximal non-empty run of whitespace, then the rest:
   * the word is copied, the whole run becomes a single hyphen.
   */
  lemma {:induction false} HyphenateRun(w: string, run: string, rest: string)
    requires NoSpace(w)
    requires |run| > 0 && AllSpace(run)
    requires rest == [] || !IsSpace(rest[0])
    ensures Hyphenate(w + run + rest) == w + "-" + Hyphenate(rest)
  {
    if w == [] {
      assert w + run + rest == run + rest;
      SpaceRunOfJoin(run, rest);
      assert (run + rest)[|run|..] == rest;
    } else {
      assert (w + run + rest)[1..] == w[1..] + run + rest;
      HyphenateRun(w[1..], run, rest);
    }
  }

  /** The download's file name: `EI-Report-`, the slug of the name, then `.pdf`. */
  function ReportFileName(name: string): string
  {
    "EI-Report-" + Hyphenate(name) + ".pdf"
  }

  /** The file name wraps the hyphenated name and contains no whitespace. */
  lemma ReportFileNameShape(name: string)
    ensures var f := ReportFileName(name);
            f[..10] == "EI-Report-" && f[|f| - 4..] == ".pdf" &&
            f[10..|f| - 4] == Hyphenate(name) && NoSpace(f)
  {
    HyphenateHasNoSpace(name);
    var f := ReportFileName(name);
    forall k | 0 <= k < |f| ensures !IsSpace(f[k]) {
      if 10 <= k < |f| - 4 {
        assert f[k] == Hyphenate(name)[k - 10];
      }
    }
  }
}
