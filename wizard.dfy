/**
 * The state of the questionnaire page and the handlers that change it:
 * the wizard moves from the welcome form through the five sections to the
 * results view. Each handler of the page becomes a method of one object
 * whose fields are the page's state variables.
 */
module Wizard {
  import opened Competency
  import opened QuestionBank
  import opened Scoring

  datatype Option<T> = None | Some(value: T)

  /** `step`: 'welcome', 'assessment' or 'results'. */
  datatype Step = Welcome | Assessment | Results

  const StartError: string := "Please fill out both your name and organization."
  const SubmitError: string := "Please answer all questions before submitting."
  const SectionError: string := "Please answer all questions in this section to continue."

  class Questionnaire {
    var step: Step
    var name: string
    var organization: string
    var sectionIndex: int
    var responses: Responses
    /** `results`, null until a submission succeeds. */
    var results: Option<ScoreVector>
    var error: string

    /** The section index stays on a section, and the results view always has scores. */
    ghost predicate Valid()
      reads this
    {
      0 <= sectionIndex < SectionCount && (step == Results ==> results.Some?)
    }

    /** Every key of the response map is a bank question id. */
    ghost predicate AnswersFromBank()
      reads this
    {
      responses.Keys <= QuestionIds
    }

    /** The initial state of every `useState`. */
    constructor ()
      ensures Valid() && AnswersFromBank()
      ensures step == Welcome && name == "" && organization == ""
      ensures sectionIndex == 0 && responses == map[] && results == None && error == ""
    {
      step := Welcome;
      name, organization := "", "";
      sectionIndex := 0;
      responses := map[];
      results := None;
      error := "";
    }

    /** Typing into the name field. */
    method EditName(v: string)
      requires Valid()
      modifies this`name
      ensures Valid()
      ensures name == v
    {
      name := v;
    }

    /** Typing into the organization field. */
    method EditOrganization(v: string)
      requires Valid()
      modifies this`organization
      ensures Valid()
      ensures organization == v
    {
      organization := v;
    }

    /** `handleStart`: the assessment opens only once both fields are non-empty. */
    method Start()
      requires Valid()
      modifies this`step, this`error
      ensures Valid()
      ensures name != "" && organization != "" ==> step == Assessment && error == ""
      ensures name == "" || organization == "" ==> step == old(step) && error == StartError
    {
      if name != "" && organization != "" {
        error := "";
        step := Assessment;
      } else {
        error := StartError;
      }
    }

    /** `handleResponseChange`: the answer to `id` is set to v, overwriting any earlier one. */
    method RecordAnswer(id: int, v: Answer)
      requires Valid()
      modifies this`responses
      ensures Valid()
      ensures responses == old(responses)[id := v]
      ensures forall other :: other != id ==>
                (other in responses <==> other in old(responses)) &&
                (other in responses ==> responses[other] == old(responses)[other])
      ensures old(AnswersFromBank()) && id in QuestionIds ==> AnswersFromBank()
    {
      responses := responses[id := v];
    }

    /** `Object.keys(responses).length`, shown as "n of 50 questions answered". */
    function AnsweredCount(): (n: nat)
      reads this
      ensures AnswersFromBank() ==> n <= |AllQuestionIds()|
    {
      assert AnswersFromBank() ==> |responses| <= 50 by {
        if AnswersFromBank() {
          CountGateMeansComplete(responses);
        }
      }
      |responses|
    }

    /** `calculateScores`: accumulate every answer into its section's code. */
    method CalculateScores() returns (scores: ScoreVector)
      ensures scores == ScoresOf(responses)
    {
      scores := Zero;
      for i := 0 to |Sections|
        invariant forall k :: 0 <= k < i ==> scores.Get(KeyOrder[k]) == SectionTotal(responses, k)
        invariant forall k :: i <= k < SectionCount ==> scores.Get(KeyOrder[k]) == 0
      {
        var section := Sections[i];
        assert section.category == KeyOrder[i] by {
          SectionCategories();
        }
        assert forall k :: 0 <= k < SectionCount && k != i ==> KeyOrder[k] != section.category by {
          KeyOrderListsEveryCategoryOnce();
        }
        ghost var before := scores;
        for j := 0 to |section.questionIds|
          invariant scores.Get(section.category) == SumAnswers(section.questionIds[..j], responses)
          invariant forall c :: c != section.category ==> scores.Get(c) == before.Get(c)
        {
          var id := section.questionIds[j];
          if id in responses {
            scores := scores.Add(section.category, responses[id]);
          }
          assert section.questionIds[..j + 1][..j] == section.questionIds[..j];
        }
        assert section.questionIds[..|section.questionIds|] == section.questionIds;
      }
      ScoresOfBySection(scores, responses);
    }

    /** `validateCurrentSection`: every question of the current section has an answer. */
    function ValidateCurrentSection(): (b: bool)
      reads this
      requires Valid()
      ensures b <==> forall j :: 0 <= j < |Sections[sectionIndex].questionIds| ==>
                       Sections[sectionIndex].questionIds[j] in responses
    {
      SectionComplete(responses, sectionIndex)
    }

    /**
     * `handleNextSection`: a complete section clears the error and moves on
     * unless it is the last one; an incomplete one stays put with a message.
     */
    method NextSection()
      requires Valid()
      modifies this`sectionIndex, this`error
      ensures Valid()
      ensures responses == old(responses)
      ensures old(ValidateCurrentSection()) ==>
                error == "" &&
                sectionIndex == (if old(sectionIndex) < SectionCount - 1 then old(sectionIndex) + 1 else old(sectionIndex))
      ensures !old(ValidateCurrentSection()) ==> error == SectionError && sectionIndex == old(sectionIndex)
    {
      if ValidateCurrentSection() {
        error := "";
        if sectionIndex < |Sections| - 1 {
          sectionIndex := sectionIndex + 1;
        }
      } else {
        error := SectionError;
      }
    }

    /** `handlePreviousSection`: always allowed, never below the first section, keeps every answer. */
    method PreviousSection()
      requires Valid()
      modifies this`sectionIndex, this`error
      ensures Valid()
      ensures responses == old(responses)
      ensures error == ""
      ensures sectionIndex == if old(sectionIndex) > 0 then old(sectionIndex) - 1 else old(sectionIndex)
    {
      error := "";
      if sectionIndex > 0 {
        sectionIndex := sectionIndex - 1;
      }
    }

    /**
     * `handleSubmit`: refused with a message unless the response map has as
     * many keys as the bank has questions; otherwise the scores are computed
     * and the results view opens. The save request that follows is
     * fire-and-forget and changes no state.
     */
    method Submit()
      requires Valid()
      modifies this`step, this`error, this`results
      ensures Valid()
      ensures responses == old(responses)
      ensures |responses| != |AllQuestionIds()| ==>
                step == old(step) && results == old(results) && error == SubmitError
      ensures |responses| == |AllQuestionIds()| ==>
                step == Results && results == Some(ScoresOf(responses)) && error == ""
      ensures AnswersFromBank() && |responses| == |AllQuestionIds()| ==>
                forall c: Category :: 10 <= results.value.Get(c) <= 50
    {
      if |responses| != |AllQuestionIds()| {
        error := SubmitError;
        return;
      }
      error := "";
      var calculated := CalculateScores();
      results := Some(calculated);
      step := Results;
      if AnswersFromBank() {
        CountGateMeansComplete(responses);
        CompleteScoresInRange(responses);
      }
    }
  }
}
