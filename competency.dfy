/**
 * The vocabulary shared by the questionnaire front end and the report
 * template: the five competency codes, their display titles, the score
 * object keyed by code, the three interpretation tiers, and the
 * `{ title, score }` lists both files derive from a score object together
 * with the "highest" and "lowest" filters applied to them.
 */
module Competency {

  /** The five competency codes used as keys of the score object. */
  datatype Category = SA | ME | MO | E | SS

  /**
   * The order in which `calculateScores` inserts the keys of its result,
   * hence the order `Object.keys` enumerates them on both sides.
   */
  const KeyOrder: seq<Category> := [SA, ME, MO, E, SS]

  /** `competencyMap`: the display title of each code. */
  function Title(c: Category): string
  {
    match c
    case SA => "Self-Awareness"
    case ME => "Managing Emotions"
    case MO => "Motivating Oneself"
    case E => "Empathy"
    case SS => "Social Skill"
  }

  /** The five titles in key order. */
  const AllTitles: seq<string> := seq(|KeyOrder|, k requires 0 <= k < |KeyOrder| => Title(KeyOrder[k]))

  /** The position of a code in the key order. */
  function KeyIndex(c: Category): (k: nat)
    ensures k < |KeyOrder| && KeyOrder[k] == c
  {
    match c
    case SA => 0
    case ME => 1
    case MO => 2
    case E => 3
    case SS => 4
  }

  lemma KeyOrderListsEveryCategoryOnce()
    ensures |KeyOrder| == 5
    ensures forall c: Category :: c in KeyOrder
    ensures forall i, j :: 0 <= i < j < |KeyOrder| ==> KeyOrder[i] != KeyOrder[j]
  {
    forall c: Category ensures c in KeyOrder {
      var k := KeyIndex(c);
    }
  }

  lemma TitlesAreDistinct(c: Category, d: Category)
    ensures Title(c) == Title(d) <==> c == d
  {
    if c != d {
      // The titles differ in their first or second character.
      assert Title(c)[0] != Title(d)[0] || Title(c)[1] != Title(d)[1];
    }
  }

  /** The score object `{ SA, ME, MO, E, SS }`, one integer total per code. */
  datatype ScoreVector = ScoreVector(sa: int, me: int, mo: int, e: int, ss: int)
  {
    /** `scores[c]` */
    function Get(c: Category): int
    {
      match c
      case SA => sa
      case ME => me
      case MO => mo
      case E => e
      case SS => ss
    }

    /** The score object with d added to the total of code c. */
    function Add(c: Category, d: int): (r: ScoreVector)
      ensures r.Get(c) == Get(c) + d
      ensures forall c' :: c' != c ==> r.Get(c') == Get(c')
    {
      match c
      case SA => this.(sa := sa + d)
      case ME => this.(me := me + d)
      case MO => this.(mo := mo + d)
      case E => this.(e := e + d)
      case SS => this.(ss := ss + d)
    }
  }

  /** The score object before any answer is added: every total 0. */
  const Zero: ScoreVector := ScoreVector(0, 0, 0, 0, 0)

  // ---------------------------------------------------------------------
  // Interpretation tiers. Both files interpret a score with the same two
  // inclusive lower bounds; each attaches its own wording and colour.
  // ---------------------------------------------------------------------

  const StrengthFloor: int := 35
  const AttentionFloor: int := 18

  datatype Tier = Strength | Attention | Priority

  /** The tier a score falls in: `>= 35`, then `>= 18`, else the lowest. */
  function TierOf(score: int): (t: Tier)
    ensures t == Strength <==> score >= StrengthFloor
    ensures t == Attention <==> AttentionFloor <= score < StrengthFloor
    ensures t == Priority <==> score < AttentionFloor
  {
    if score >= StrengthFloor then Strength
    else if score >= AttentionFloor then Attention
    else Priority
  }

  /** Tiers are ordered by score: a higher score never lands in a lower tier. */
  function Rank(t: Tier): nat
  {
    match t
    case Priority => 0
    case Attention => 1
    case Strength => 2
  }

  lemma TierMonotonic(s: int, s': int)
    requires s <= s'
    ensures Rank(TierOf(s)) <= Rank(TierOf(s'))
  {
  }

  // ---------------------------------------------------------------------
  // `{ title, score }` lists and the highest / lowest filters.
  // ---------------------------------------------------------------------

  datatype TitledScore = TitledScore(title: string, score: int)

  /**
   * The `{ title, score }` list of a score object: one entry per key, in
   * key order, holding the key's title from `competencyMap` and its score.
   */
  function WithTitles(v: ScoreVector): (r: seq<TitledScore>)
    ensures |r| == |KeyOrder|
    ensures forall k :: 0 <= k < |r| ==>
              r[k].title == Title(KeyOrder[k]) && r[k].score == v.Get(KeyOrder[k])
  {
    [ TitledScore(Title(SA), v.sa), TitledScore(Title(ME), v.me), TitledScore(Title(MO), v.mo),
      TitledScore(Title(E), v.e), TitledScore(Title(SS), v.ss) ]
  }

  /** The titles of a `{ title, score }` list, in list order. */
  function Titles(xs: seq<TitledScore>): (r: seq<string>)
    ensures |r| == |xs| && forall k :: 0 <= k < |xs| ==> r[k] == xs[k].title
  {
    seq(|xs|, k requires 0 <= k < |xs| => xs[k].title)
  }

  /** The largest score of a non-empty `{ title, score }` list. */
  function MaxScore(xs: seq<TitledScore>): (m: int)
    requires |xs| > 0
    ensures forall k :: 0 <= k < |xs| ==> xs[k].score <= m
    ensures exists k :: 0 <= k < |xs| && xs[k].score == m
  {
    if |xs| == 1 then xs[0].score
    else
      var rest := MaxScore(xs[1..]);
      assert forall k :: 1 <= k < |xs| ==> xs[k] == xs[1..][k - 1];
      if xs[0].score >= rest then xs[0].score else rest
  }

  /** The smallest score of a non-empty `{ title, score }` list. */
  function MinScore(xs: seq<TitledScore>): (m: int)
    requires |xs| > 0
    ensures forall k :: 0 <= k < |xs| ==> m <= xs[k].score
    ensures exists k :: 0 <= k < |xs| && xs[k].score == m
  {
    if |xs| == 1 then xs[0].score
    else
      var rest := MinScore(xs[1..]);
      assert forall k :: 1 <= k < |xs| ==> xs[k] == xs[1..][k - 1];
      if xs[0].score <= rest then xs[0].score else rest
  }

  /** The titles of the entries whose score is `target`, in list order. */
  function TitlesScoring(xs: seq<TitledScore>, target: int): seq<string>
  {
    if xs == [] then []
    else (if xs[0].score == target then [xs[0].title] else []) + TitlesScoring(xs[1..], target)
  }

  /** The titles at the highest score: the "highest score is in" list. */
  function Highest(xs: seq<TitledScore>): seq<string>
  {
    if xs == [] then [] else TitlesScoring(xs, MaxScore(xs))
  }

  /** The titles at the lowest score: the "lowest score" list. */
  function Lowest(xs: seq<TitledScore>): seq<string>
  {
    if xs == [] then [] else TitlesScoring(xs, MinScore(xs))
  }

  // ---------------------------------------------------------------------
  // An independent account of the filter: the ascending list of positions
  // whose score equals the target.
  // ---------------------------------------------------------------------

  ghost predicate StrictlyIncreasing(p: seq<int>)
  {
    forall a, b :: 0 <= a < b < |p| ==> p[a] < p[b]
  }

  /** The positions in `xs`, at or after `from`, whose score is `target`, ascending. */
  ghost function PositionsFrom(xs: seq<TitledScore>, target: int, from: nat): (p: seq<int>)
    requires from <= |xs|
    ensures forall k :: 0 <= k < |p| ==> from <= p[k] < |xs| && xs[p[k]].score == target
    ensures forall i :: from <= i < |xs| && xs[i].score == target ==> i in p
    ensures StrictlyIncreasing(p)
    decreases |xs| - from
  {
    if from == |xs| then []
    else
      var rest := PositionsFrom(xs, target, from + 1);
      if xs[from].score == target then
        var p := [from] + rest;
        assert forall k :: 0 < k < |p| ==> p[k] == rest[k - 1];
        p
      else rest
  }

  ghost function Positions(xs: seq<TitledScore>, target: int): seq<int>
  {
    PositionsFrom(xs, target, 0)
  }

  lemma {:induction false} TitlesScoringFrom(xs: seq<TitledScore>, target: int, from: nat)
    requires from <= |xs|
    ensures var p := PositionsFrom(xs, target, from);
            var r := TitlesScoring(xs[from..], target);
            |r| == |p| && forall k :: 0 <= k < |p| ==> r[k] == xs[p[k]].title
    decreases |xs| - from
  {
    if from < |xs| {
      TitlesScoringFrom(xs, target, from + 1);
      var p, r := PositionsFrom(xs, target, from + 1), TitlesScoring(xs[from + 1..], target);
      var head := if xs[from].score == target then [xs[from].title] else [];
      assert TitlesScoring(xs[from..], target) == head + r by {
        assert xs[from..][1..] == xs[from + 1..];
      }
      if xs[from].score == target {
        var p', r' := [from] + p, [xs[from].title] + r;
        assert PositionsFrom(xs, target, from) == p';
        forall k | 0 < k < |p'| ensures r'[k] == xs[p'[k]].title {
          assert p'[k] == p[k - 1] && r'[k] == r[k - 1];
        }
      } else {
        assert PositionsFrom(xs, target, from) == p;
      }
    }
  }

  /**
   * The filter keeps exactly the titles whose score equals the target, in
   * list order, ties included: its k-th title is the title at the k-th
   * matching position.
   */
  lemma TitlesScoringIsExactFilter(xs: seq<TitledScore>, target: int)
    ensures var p := Positions(xs, target);
            var r := TitlesScoring(xs, target);
            |r| == |p| && forall k :: 0 <= k < |p| ==> r[k] == xs[p[k]].title
  {
    TitlesScoringFrom(xs, target, 0);
    assert xs[0..] == xs;
  }

  lemma {:induction false} TitlesScoringNonEmpty(xs: seq<TitledScore>, target: int, i: int)
    requires 0 <= i < |xs| && xs[i].score == target
    ensures |TitlesScoring(xs, target)| > 0
  {
    if i > 0 {
      TitlesScoringNonEmpty(xs[1..], target, i - 1);
    }
  }

  lemma {:induction false} TitlesScoringAll(xs: seq<TitledScore>, target: int)
    requires forall k :: 0 <= k < |xs| ==> xs[k].score == target
    ensures TitlesScoring(xs, target) == Titles(xs)
  {
    if xs != [] {
      TitlesScoringAll(xs[1..], target);
      assert Titles(xs) == [xs[0].title] + Titles(xs[1..]);
    }
  }

  /** A title appears in the filter iff some entry with that title has the target score. */
  lemma {:induction false} TitlesScoringMembership(xs: seq<TitledScore>, target: int, t: string)
    ensures t in TitlesScoring(xs, target) <==>
            exists k :: 0 <= k < |xs| && xs[k].title == t && xs[k].score == target
  {
    if xs != [] {
      TitlesScoringMembership(xs[1..], target, t);
      if exists k :: 0 <= k < |xs[1..]| && xs[1..][k].title == t && xs[1..][k].score == target {
        var k :| 0 <= k < |xs[1..]| && xs[1..][k].title == t && xs[1..][k].score == target;
        assert xs[k + 1] == xs[1..][k];
      }
      if exists k :: 0 <= k < |xs| && xs[k].title == t && xs[k].score == target {
        var k :| 0 <= k < |xs| && xs[k].title == t && xs[k].score == target;
        if k > 0 {
          assert xs[1..][k - 1] == xs[k];
        }
      }
    }
  }

  /** Highest and Lowest are never empty on a non-empty list. */
  lemma ExtremesNonEmpty(xs: seq<TitledScore>)
    requires |xs| > 0
    ensures |Highest(xs)| > 0 && |Lowest(xs)| > 0
  {
    var i :| 0 <= i < |xs| && xs[i].score == MaxScore(xs);
    TitlesScoringNonEmpty(xs, MaxScore(xs), i);
    var j :| 0 <= j < |xs| && xs[j].score == MinScore(xs);
    TitlesScoringNonEmpty(xs, MinScore(xs), j);
  }

  /** When every score is the same, both lists are every title, in order. */
  lemma ExtremesWhenAllTied(xs: seq<TitledScore>)
    requires |xs| > 0
    requires forall k :: 0 <= k < |xs| ==> xs[k].score == xs[0].score
    ensures Highest(xs) == Titles(xs) && Lowest(xs) == Titles(xs)
  {
    TitlesScoringAll(xs, MaxScore(xs));
    TitlesScoringAll(xs, MinScore(xs));
  }

  // ---------------------------------------------------------------------
  // The same filters stated per code of a score object.
  // ---------------------------------------------------------------------

  ghost predicate AtMaximum(v: ScoreVector, c: Category)
  {
    forall d: Category :: v.Get(d) <= v.Get(c)
  }

  ghost predicate AtMinimum(v: ScoreVector, c: Category)
  {
    forall d: Category :: v.Get(c) <= v.Get(d)
  }

  lemma TitledScoresOfCodes(v: ScoreVector, d: Category) returns (k: int)
    ensures 0 <= k < |WithTitles(v)| && WithTitles(v)[k] == TitledScore(Title(d), v.Get(d))
  {
    k := KeyIndex(d);
  }

  /** An entry of the list of a score object that carries a code's title carries that code's score. */
  lemma TitleCarriesScore(v: ScoreVector, c: Category, k: int)
    requires 0 <= k < |WithTitles(v)| && WithTitles(v)[k].title == Title(c)
    ensures WithTitles(v)[k].score == v.Get(c)
  {
    TitlesAreDistinct(KeyOrder[k], c);
  }

  /** The maximum and minimum of the list of a score object are the largest and smallest score of any code. */
  lemma CodeExtremes(v: ScoreVector)
    ensures forall d: Category :: v.Get(d) <= MaxScore(WithTitles(v))
    ensures forall d: Category :: MinScore(WithTitles(v)) <= v.Get(d)
    ensures exists d: Category :: v.Get(d) == MaxScore(WithTitles(v))
    ensures exists d: Category :: v.Get(d) == MinScore(WithTitles(v))
  {
    var xs := WithTitles(v);
    var hi, lo := MaxScore(xs), MinScore(xs);
    forall d: Category ensures v.Get(d) <= hi && lo <= v.Get(d) {
      var kd := TitledScoresOfCodes(v, d);
    }
    var khi :| 0 <= khi < |xs| && xs[khi].score == hi;
    var klo :| 0 <= klo < |xs| && xs[klo].score == lo;
    assert v.Get(KeyOrder[khi]) == hi;
    assert v.Get(KeyOrder[klo]) == lo;
  }

  /** A code's title is in the filter for `target` iff the code scores `target`. */
  lemma TitleFilteredIff(v: ScoreVector, c: Category, target: int)
    ensures Title(c) in TitlesScoring(WithTitles(v), target) <==> v.Get(c) == target
  {
    var xs := WithTitles(v);
    TitlesScoringMembership(xs, target, Title(c));
    var kc := TitledScoresOfCodes(v, c);
    if Title(c) in TitlesScoring(xs, target) {
      var k :| 0 <= k < |xs| && xs[k].title == Title(c) && xs[k].score == target;
      TitleCarriesScore(v, c, k);
    }
  }

  /**
   * On the list of a score object, a code's title is at the highest score
   * iff no code scores higher, and at the lowest iff none scores lower.
   */
  lemma ExtremeTitlesAreExact(v: ScoreVector, c: Category)
    ensures Title(c) in Highest(WithTitles(v)) <==> AtMaximum(v, c)
    ensures Title(c) in Lowest(WithTitles(v)) <==> AtMinimum(v, c)
    ensures |Highest(WithTitles(v))| > 0 && |Lowest(WithTitles(v))| > 0
  {
    var xs := WithTitles(v);
    ExtremesNonEmpty(xs);
    CodeExtremes(v);
    TitleFilteredIff(v, c, MaxScore(xs));
    TitleFilteredIff(v, c, MinScore(xs));
  }

  /** The titles of the list of a score object are the five titles in key order. */
  lemma TitlesInKeyOrder(v: ScoreVector)
    ensures Titles(WithTitles(v)) == AllTitles
  {
    var t := Titles(WithTitles(v));
    assert t[0] == AllTitles[0] && t[1] == AllTitles[1] && t[2] == AllTitles[2];
    assert t[3] == AllTitles[3] && t[4] == AllTitles[4];
  }

  /** With all five scores equal, both lists are all five titles in key order. */
  lemma AllEqualScoresListEveryTitle(v: ScoreVector)
    requires forall c: Category :: v.Get(c) == v.sa
    ensures Highest(WithTitles(v)) == AllTitles && Lowest(WithTitles(v)) == AllTitles
  {
    var xs := WithTitles(v);
    forall k | 0 <= k < |xs| ensures xs[k].score == xs[0].score {
      assert xs[k].score == v.Get(KeyOrder[k]);
    }
    ExtremesWhenAllTied(xs);
    TitlesInKeyOrder(v);
  }
}
