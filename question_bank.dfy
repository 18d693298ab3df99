/**
 * The constant question bank: five sections of ten questions, one section
 * per competency. Question ids 1..50 are interleaved across the sections,
 * so section k holds the ids congruent to k + 1 modulo 5. The wording of
 * each question is display copy and is not part of this model; a question
 * is represented by its id.
 */
module QuestionBank {
  import opened Competency

  datatype Section = Section(title: string, category: Category, questionIds: seq<int>)

  /** `sections`, in display order. */
  const Sections: seq<Section> := [
    Section("Self-Awareness", SA, [1, 6, 11, 16, 21, 26, 31, 36, 41, 46]),
    Section("Managing Emotions", ME, [2, 7, 12, 17, 22, 27, 32, 37, 42, 47]),
    Section("Motivating Oneself", MO, [3, 8, 13, 18, 23, 28, 33, 38, 43, 48]),
    Section("Empathy", E, [4, 9, 14, 19, 24, 29, 34, 39, 44, 49]),
    Section("Social Skill", SS, [5, 10, 15, 20, 25, 30, 35, 40, 45, 50])
  ]

  /** `sections.length` */
  const SectionCount: nat := |Sections|

  /** `allQuestions`: the ids of every section's questions, section after section. */
  function AllQuestionIds(): (ids: seq<int>)
    ensures |ids| == 50
    ensures forall n :: 0 <= n < |ids| ==> ids[n] == Sections[n / 10].questionIds[n % 10]
  {
    FlattenIndex(Sections);
    Flatten(Sections)
  }

  function Flatten(ss: seq<Section>): seq<int>
  {
    if ss == [] then [] else ss[0].questionIds + Flatten(ss[1..])
  }

  /** Every section of the list has ten questions. */
  ghost predicate TenEach(ss: seq<Section>)
  {
    forall i :: 0 <= i < |ss| ==> |ss[i].questionIds| == 10
  }

  /** Flattening sections of ten puts question j of section i at position 10i + j. */
  lemma {:induction false} FlattenIndex(ss: seq<Section>)
    requires TenEach(ss)
    ensures |Flatten(ss)| == 10 * |ss|
    ensures forall n :: 0 <= n < 10 * |ss| ==> Flatten(ss)[n] == ss[n / 10].questionIds[n % 10]
  {
    if ss != [] {
      var rest := ss[1..];
      assert TenEach(rest) by {
        forall i | 0 <= i < |rest| ensures |rest[i].questionIds| == 10 {
          assert rest[i] == ss[i + 1];
        }
      }
      FlattenIndex(rest);
      var f := Flatten(ss);
      assert f == ss[0].questionIds + Flatten(rest);
      forall n | 0 <= n < 10 * |ss| ensures f[n] == ss[n / 10].questionIds[n % 10] {
        if n >= 10 {
          assert f[n] == Flatten(rest)[n - 10];
          assert (n - 10) / 10 == n / 10 - 1 && (n - 10) % 10 == n % 10;
          assert rest[n / 10 - 1] == ss[n / 10];
        }
      }
    }
  }

  /** The ids of the bank as a set: `{1, ..., 50}`. */
  ghost const QuestionIds: set<int> := set id | 1 <= id <= 50

  lemma BankShape()
    ensures SectionCount == 5
    ensures forall k :: 0 <= k < SectionCount ==> |Sections[k].questionIds| == 10
  {
  }

  /** Section k is the k-th code of the score object, and carries its title. */
  lemma SectionCategories()
    ensures forall k :: 0 <= k < SectionCount ==>
              Sections[k].category == KeyOrder[k] && Sections[k].title == Title(KeyOrder[k])
  {
  }

  /** The j-th question of section k has id 5j + k + 1. */
  lemma IdsInterleaved()
    ensures forall k, j :: 0 <= k < SectionCount && 0 <= j < 10 ==>
              Sections[k].questionIds[j] == 5 * j + k + 1
  {
  }

  /** One slot of the interleaving. */
  lemma IdAt(k: int, j: int)
    requires 0 <= k < SectionCount && 0 <= j < 10
    ensures |Sections[k].questionIds| == 10 && Sections[k].questionIds[j] == 5 * j + k + 1
  {
    IdsInterleaved();
  }

  /** Every id of section k is congruent to k + 1 modulo 5. */
  lemma IdsBySectionResidue(k: int, id: int)
    requires 0 <= k < SectionCount
    ensures id in Sections[k].questionIds <==> 1 <= id <= 50 && id % 5 == (k + 1) % 5
  {
    var ids := Sections[k].questionIds;
    IdAt(k, 0);
    if id in ids {
      var j :| 0 <= j < |ids| && ids[j] == id;
      IdAt(k, j);
      SlotResidue(k, j);
    }
    if 1 <= id <= 50 && id % 5 == (k + 1) % 5 {
      var j := ResidueSlot(k, id);
      IdAt(k, j);
      assert ids[j] == id;
    }
  }

  /** The id 5j + k + 1 of a slot is in 1..50 and congruent to k + 1. */
  lemma SlotResidue(k: int, j: int)
    requires 0 <= k < 5 && 0 <= j < 10
    ensures 1 <= 5 * j + k + 1 <= 50 && (5 * j + k + 1) % 5 == (k + 1) % 5
  {
  }

  /** An id in 1..50 congruent to k + 1 is the id of slot j of section k. */
  lemma ResidueSlot(k: int, id: int) returns (j: int)
    requires 0 <= k < 5 && 1 <= id <= 50 && id % 5 == (k + 1) % 5
    ensures 0 <= j < 10 && id == 5 * j + k + 1
  {
    j := (id - 1) / 5;
    assert (id - 1) % 5 == k;
  }

  /** Ids are unique across the bank: equal ids name the same slot. */
  lemma IdsUnique(k: int, j: int, k': int, j': int)
    requires 0 <= k < SectionCount && 0 <= j < 10
    requires 0 <= k' < SectionCount && 0 <= j' < 10
    requires Sections[k].questionIds[j] == Sections[k'].questionIds[j']
    ensures k == k' && j == j'
  {
    IdAt(k, j);
    IdAt(k', j');
    assert 5 * j + k == 5 * j' + k';
  }

  /** The ids of all sections together are exactly 1..50. */
  lemma IdsCoverBank()
    ensures forall id :: id in AllQuestionIds() <==> id in QuestionIds
  {
    forall id | id in QuestionIds ensures id in AllQuestionIds() {
      BankIdListed(id);
    }
    forall id | id in AllQuestionIds() ensures id in QuestionIds {
      ListedIdInBank(id);
    }
  }

  lemma BankIdListed(id: int)
    requires 1 <= id <= 50
    ensures id in AllQuestionIds()
  {
    var ids := AllQuestionIds();
    var k := (id - 1) % 5;
    var j := ResidueSlot(k, id);
    IdAt(k, j);
    var n := 10 * k + j;
    assert n / 10 == k && n % 10 == j;
    assert ids[n] == id;
  }

  lemma ListedIdInBank(id: int)
    requires id in AllQuestionIds()
    ensures 1 <= id <= 50
  {
    var ids := AllQuestionIds();
    var n :| 0 <= n < |ids| && ids[n] == id;
    var k, j := Slot(n);
    IdAt(k, j);
    SlotResidue(k, j);
  }

  /** `allQuestions.length` is 50, with no id repeated. */
  lemma AllQuestionIdsDistinct()
    ensures |AllQuestionIds()| == 50
    ensures forall a, b :: 0 <= a < b < |AllQuestionIds()| ==> AllQuestionIds()[a] != AllQuestionIds()[b]
  {
    var ids := AllQuestionIds();
    forall a, b | 0 <= a < b < |ids| ensures ids[a] != ids[b] {
      var k, j := Slot(a);
      var k', j' := Slot(b);
      if ids[a] == ids[b] {
        IdsUnique(k, j, k', j');
      }
    }
  }

  /** Position n of `allQuestions` is question j of section k. */
  lemma Slot(n: int) returns (k: int, j: int)
    requires 0 <= n < 50
    ensures 0 <= k < SectionCount && 0 <= j < 10 && n == 10 * k + j
    ensures AllQuestionIds()[n] == Sections[k].questionIds[j]
  {
    k, j := n / 10, n % 10;
  }

  /** The section that holds a given category's questions. */
  function SectionIndex(c: Category): (k: nat)
    ensures k < SectionCount && Sections[k].category == c
  {
    match c
    case SA => 0
    case ME => 1
    case MO => 2
    case E => 3
    case SS => 4
  }

  /**
   * `questionOffset`: the number of questions in the sections before
   * section i, added to a question's position to give its display number.
   */
  function QuestionOffset(i: nat): nat
    requires i <= SectionCount
  {
    QuestionCount(Sections[..i])
  }

  function QuestionCount(ss: seq<Section>): nat
  {
    if ss == [] then 0 else QuestionCount(ss[..|ss| - 1]) + |ss[|ss| - 1].questionIds|
  }

  /** The offset of section i is ten times i, so the numbers shown run 1..50. */
  lemma {:induction false} QuestionOffsetIsTenTimes(i: nat)
    requires i <= SectionCount
    ensures QuestionOffset(i) == 10 * i
    ensures i < SectionCount ==> 1 <= QuestionOffset(i) + 1 && QuestionOffset(i) + 10 <= 50
  {
    if i > 0 {
      QuestionOffsetIsTenTimes(i - 1);
      assert Sections[..i][..i - 1] == Sections[..i - 1];
    }
  }
}
