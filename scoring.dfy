/**
 * The response set and what `calculateScores` computes from it. An answer
 * is the value of one of the five radio options, '1' to '5', read as the
 * integer `parseInt` gives; a question id is a key of the response map
 * only once its question has been answered.
 */
module Scoring {
  import opened Competency
  import opened QuestionBank

  /** A Likert answer, 1 ("Not at all") to 5 ("Always"). */
  type Answer = x: int | 1 <= x <= 5 witness 1

  /** `responses`: question id to answer. */
  type Responses = map<int, Answer>

  /** What one question adds to its category: its answer, or 0 when unanswered. */
  function Contribution(r: Responses, id: int): (n: int)
    ensures id in r ==> 1 <= n <= 5
    ensures id !in r ==> n == 0
  {
    if id in r then r[id] else 0
  }

  /** The sum of the contributions of the given questions. */
  function SumAnswers(ids: seq<int>, r: Responses): (n: int)
    ensures 0 <= n <= 5 * |ids|
  {
    if ids == [] then 0 else SumAnswers(ids[..|ids| - 1], r) + Contribution(r, ids[|ids| - 1])
  }

  /** The total of section k. */
  function SectionTotal(r: Responses, k: int): int
    requires 0 <= k < SectionCount
  {
    SumAnswers(Sections[k].questionIds, r)
  }

  /**
   * The score object `calculateScores` returns: each code carries the sum
   * of the answers to the questions of its own section.
   */
  function ScoresOf(r: Responses): ScoreVector
  {
    ScoreVector(SectionTotal(r, 0), SectionTotal(r, 1), SectionTotal(r, 2), SectionTotal(r, 3), SectionTotal(r, 4))
  }

  lemma ScoresOfIsSectionTotal(r: Responses, c: Category)
    ensures ScoresOf(r).Get(c) == SectionTotal(r, SectionIndex(c))
  {
  }

  /** A score object whose k-th key carries the total of section k is the one computed from r. */
  lemma ScoresOfBySection(v: ScoreVector, r: Responses)
    requires forall k :: 0 <= k < SectionCount ==> v.Get(KeyOrder[k]) == SectionTotal(r, k)
    ensures v == ScoresOf(r)
  {
    assert v.Get(KeyOrder[0]) == SectionTotal(r, 0) && v.Get(KeyOrder[1]) == SectionTotal(r, 1);
    assert v.Get(KeyOrder[2]) == SectionTotal(r, 2) && v.Get(KeyOrder[3]) == SectionTotal(r, 3);
    assert v.Get(KeyOrder[4]) == SectionTotal(r, 4);
  }

  /**
   * `validateCurrentSection`: every question of section k has an answer.
   * By the interleaving of ids this is: every id in 1..50 congruent to
   * k + 1 modulo 5 is answered.
   */
  function SectionComplete(r: Responses, k: int): (b: bool)
    requires 0 <= k < SectionCount
    ensures b <==> forall id :: 1 <= id <= 50 && id % 5 == (k + 1) % 5 ==> id in r
  {
    var ids := Sections[k].questionIds;
    var b := forall id :: id in ids ==> id in r;
    assert b <==> forall id :: 1 <= id <= 50 && id % 5 == (k + 1) % 5 ==> id in r by {
      forall id | 1 <= id <= 50 && id % 5 == (k + 1) % 5 ensures id in ids {
        IdsBySectionResidue(k, id);
      }
      forall id | id in ids ensures 1 <= id <= 50 && id % 5 == (k + 1) % 5 {
        IdsBySectionResidue(k, id);
      }
    }
    b
  }

  /** A section is incomplete as soon as one of its questions is unanswered. */
  lemma MissingAnswerBlocksSection(r: Responses, k: int, j: int)
    requires 0 <= k < SectionCount && 0 <= j < |Sections[k].questionIds|
    requires Sections[k].questionIds[j] !in r
    ensures !SectionComplete(r, k)
  {
    IdsBySectionResidue(k, Sections[k].questionIds[j]);
  }

  // ---------------------------------------------------------------------
  // Sums over a list of question ids.
  // ---------------------------------------------------------------------

  ghost predicate AllAnswered(ids: seq<int>, r: Responses)
  {
    forall j :: 0 <= j < |ids| ==> ids[j] in r
  }

  ghost predicate Distinct(ids: seq<int>)
  {
    forall a, b :: 0 <= a < b < |ids| ==> ids[a] != ids[b]
  }

  /** When every question is answered, the sum lies between |ids| and 5 |ids|. */
  lemma {:induction false} SumBounds(ids: seq<int>, r: Responses)
    requires AllAnswered(ids, r)
    ensures |ids| <= SumAnswers(ids, r) <= 5 * |ids|
  {
    if ids != [] {
      SumBounds(ids[..|ids| - 1], r);
    }
  }

  /** Unanswered questions contribute nothing. */
  lemma {:induction false} SumUnanswered(ids: seq<int>, r: Responses)
    requires forall j :: 0 <= j < |ids| ==> ids[j] !in r
    ensures SumAnswers(ids, r) == 0
  {
    if ids != [] {
      SumUnanswered(ids[..|ids| - 1], r);
    }
  }

  /** When every question carries answer a, the sum is a times |ids|. */
  lemma {:induction false} SumConstant(ids: seq<int>, r: Responses, a: Answer)
    requires forall j :: 0 <= j < |ids| ==> ids[j] in r && r[ids[j]] == a
    ensures SumAnswers(ids, r) == a * |ids|
  {
    if ids != [] {
      SumConstant(ids[..|ids| - 1], r, a);
    }
  }

  /**
   * Answering question `id` with v changes the sum of a list of distinct
   * ids only if `id` is in the list, and then by exactly v minus what the
   * question contributed before: the answer is overwritten, not added.
   */
  lemma {:induction false} SumUpdate(ids: seq<int>, r: Responses, id: int, v: Answer)
    requires Distinct(ids)
    ensures SumAnswers(ids, r[id := v]) ==
            SumAnswers(ids, r) + (if id in ids then v - Contribution(r, id) else 0)
  {
    if ids != [] {
      var init := ids[..|ids| - 1];
      assert Distinct(init);
      SumUpdate(init, r, id, v);
      assert id in ids <==> id in init || id == ids[|ids| - 1];
      assert ids[|ids| - 1] !in init;
    }
  }

  // ---------------------------------------------------------------------
  // Properties of the score object.
  // ---------------------------------------------------------------------

  /** The ids of each section are distinct. */
  lemma SectionIdsDistinct(k: int)
    requires 0 <= k < SectionCount
    ensures Distinct(Sections[k].questionIds)
  {
    var ids := Sections[k].questionIds;
    forall a, b | 0 <= a < b < |ids| ensures ids[a] != ids[b] {
      IdAt(k, a);
      IdAt(k, b);
    }
  }

  /**
   * Answering a question changes only the total of the question's own
   * section, and that total by the difference between the new and the old
   * contribution.
   */
  lemma AnswerAffectsOwnCategoryOnly(r: Responses, id: int, v: Answer, c: Category)
    ensures var k := SectionIndex(c);
            ScoresOf(r[id := v]).Get(c) ==
            ScoresOf(r).Get(c) + (if id in Sections[k].questionIds then v - Contribution(r, id) else 0)
  {
    var k := SectionIndex(c);
    SectionIdsDistinct(k);
    SumUpdate(Sections[k].questionIds, r, id, v);
    ScoresOfIsSectionTotal(r, c);
    ScoresOfIsSectionTotal(r[id := v], c);
  }

  /** With nothing answered every total is 0. */
  lemma NoAnswersScoreZero()
    ensures ScoresOf(map[]) == Zero
  {
    forall k | 0 <= k < SectionCount ensures SectionTotal(map[], k) == 0 {
      SumUnanswered(Sections[k].questionIds, map[]);
    }
  }

  /** Once section k is complete its total lies in [10, 50]. */
  lemma CompleteSectionInRange(r: Responses, k: int)
    requires 0 <= k < SectionCount && SectionComplete(r, k)
    ensures 10 <= SectionTotal(r, k) <= 50
  {
    var ids := Sections[k].questionIds;
    forall j | 0 <= j < |ids| ensures ids[j] in r {
      IdsBySectionResidue(k, ids[j]);
    }
    SumBounds(ids, r);
  }

  /** Every answered bank question makes every category total lie in [10, 50]. */
  lemma CompleteScoresInRange(r: Responses)
    requires QuestionIds <= r.Keys
    ensures forall c: Category :: 10 <= ScoresOf(r).Get(c) <= 50
  {
    forall c: Category ensures 10 <= ScoresOf(r).Get(c) <= 50 {
      var k := SectionIndex(c);
      CompleteSectionInRange(r, k);
      ScoresOfIsSectionTotal(r, c);
    }
  }

  /** Answering every question with 3 ("Half the time") gives 30 everywhere. */
  lemma AllThreesScoreThirty(r: Responses)
    requires forall id :: id in QuestionIds ==> id in r && r[id] == 3
    ensures ScoresOf(r) == ScoreVector(30, 30, 30, 30, 30)
  {
    forall k | 0 <= k < SectionCount ensures SectionTotal(r, k) == 30 {
      var ids := Sections[k].questionIds;
      forall j | 0 <= j < |ids| ensures ids[j] in r && r[ids[j]] == 3 {
        IdsBySectionResidue(k, ids[j]);
      }
      IdAt(k, 0);
      SumConstant(ids, r, 3);
    }
  }

  // ---------------------------------------------------------------------
  // The submission gate: the number of answered keys against completeness.
  // ---------------------------------------------------------------------

  /** A list of distinct ids has as many elements as its set. */
  lemma {:induction false} DistinctSetSize(ids: seq<int>)
    requires Distinct(ids)
    ensures |set id | id in ids| == |ids|
  {
    if ids != [] {
      var init, last := ids[..|ids| - 1], ids[|ids| - 1];
      assert Distinct(init);
      DistinctSetSize(init);
      assert (set id | id in ids) == (set id | id in init) + {last};
      assert last !in (set id | id in init);
    }
  }

  /** The bank has 50 distinct ids. */
  lemma QuestionIdsSize()
    ensures |QuestionIds| == 50
  {
    var ids := AllQuestionIds();
    AllQuestionIdsDistinct();
    IdsCoverBank();
    assert Distinct(ids);
    DistinctSetSize(ids);
    assert (set id | id in ids) == QuestionIds;
  }

  /**
   * When every key of the response map is a bank id, the map has exactly
   * 50 keys iff every section is complete, iff every bank id is answered.
   */
  lemma CountGateMeansComplete(r: Responses)
    requires r.Keys <= QuestionIds
    ensures |r| <= 50
    ensures |r| == 50 <==> QuestionIds <= r.Keys
    ensures |r| == 50 <==> forall k :: 0 <= k < SectionCount ==> SectionComplete(r, k)
  {
    QuestionIdsSize();
    SubsetSize(r.Keys, QuestionIds);
    assert |r| == |r.Keys|;
    if forall k :: 0 <= k < SectionCount ==> SectionComplete(r, k) {
      forall id | id in QuestionIds ensures id in r {
        var k := (id - 1) % 5;
        assert id % 5 == (k + 1) % 5;
        assert SectionComplete(r, k);
      }
    }
    if |r| == 50 {
      assert r.Keys == QuestionIds;
    }
    if QuestionIds <= r.Keys {
      assert r.Keys == QuestionIds;
      assert |r| == |QuestionIds|;
      forall k | 0 <= k < SectionCount ensures SectionComplete(r, k) {
        forall id | 1 <= id <= 50 && id % 5 == (k + 1) % 5 ensures id in r {
          assert id in QuestionIds;
        }
      }
    }
  }

  /** A subset is no larger, and only as large when it is the whole set. */
  lemma SubsetSize(a: set<int>, b: set<int>)
    requires a <= b
    ensures |a| <= |b|
    ensures |a| == |b| ==> a == b
  {
    var rest := b - a;
    assert b == a + rest && a !! rest;
    assert |b| == |a| + |rest|;
    if |a| == |b| {
      assert |rest| == 0;
      assert rest == {};
    }
  }
}
