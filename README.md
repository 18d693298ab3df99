# Emotional-intelligence self-assessment: scoring and report content

This project models the core of a web questionnaire for self-assessing
emotional intelligence. The bank holds fifty Likert questions in five
sections, one section per competency code: SA (Self-Awareness), ME
(Managing Emotions), MO (Motivating Oneself), E (Empathy) and SS (Social
Skill).

A wizard moves the respondent from a welcome form through the five
sections to a results view. Submission is refused until fifty answers are
recorded. Each code then scores the sum of its section's answers, and each
score gets one of three interpretations, with floors at 35 and 18. The
results view and the PDF report list the competencies at the highest and
the lowest score. The report adds one score card per competency and a
legend of the three score ranges.

Modules, one per file:

- `Competency` (`competency.dfy`): what the front end and the report share.
  It holds the codes and their titles, the score object, the three tiers,
  the `{ title, score }` lists and the highest/lowest filters. Each filter
  is proved equal to an independent account: the ascending list of the
  positions that match.
- `QuestionBank` (`question_bank.dfy`): the constant bank, its
  id layout and the question-number offset of each section.
- `Scoring` (`scoring.dfy`): the response map, the score object computed
  from it as a specification function, section completeness and the
  submission gate.
- `Wizard` (`wizard.dfy`): the page state as a class whose methods are the
  page's handlers. `CalculateScores` is the nested loop of the source,
  proved against `Scoring.ScoresOf`.
- `ResultsView` (`results_view.dfy`): the results page's interpretation,
  radar-chart order and labels, highest/lowest lists, detailed breakdown
  and download file name.
- `PdfTemplate` (`pdf_template.dfy`): what the report template derives
  before it writes HTML.

The source is JavaScript. In the model:

- An answer is the integer 1..5 that `parseInt` reads from the radio value.
- The score object is a record with the five codes in the order
  `calculateScores` inserts them. `Object.keys` therefore lists them
  SA, ME, MO, E, SS on both sides.
- Whitespace is the character class `\s` of JavaScript regular expressions.

## Model

| member | source | states |
|---|---|---|
| Competency.KeyIndex | frontend/src/App.js:186 | every code has a position in the key order of the score object, and that position holds it |
| Competency.KeyOrderListsEveryCategoryOnce | frontend/src/App.js:186 | the score object's keys are the five codes, each exactly once |
| Competency.Title | frontend/src/App.js:371 | `competencyMap`; specified by `TitlesAreDistinct`: different codes get different titles |
| Competency.TitlesAreDistinct | frontend/src/App.js:371 | `competencyMap` gives different codes different titles |
| Competency.ScoreVector.Add | frontend/src/App.js:191 | adding to one code's total changes that total by exactly the amount and no other total |
| Competency.TierOf | frontend/src/App.js:422-426 | a score is a strength iff it is at least 35, needs attention iff it is in 18..34, and is a priority iff it is below 18 |
| Competency.TierMonotonic | frontend/src/App.js:422-426 | a higher score never falls in a lower tier |
| Competency.WithTitles | frontend/src/App.js:377-380 | one entry per key, in key order, holding the code's title and its score unchanged |
| Competency.Titles | backend/pdf-template.js:35 | `map(s => s.title)` keeps the length and takes each entry's title |
| Competency.MaxScore | backend/pdf-template.js:33 | the maximum is at least every score and equals some score |
| Competency.MinScore | backend/pdf-template.js:34 | the minimum is at most every score and equals some score |
| Competency.TitlesScoring | backend/pdf-template.js:35-36 | `filter(score === target).map(title)`; specified by `TitlesScoringIsExactFilter`: exactly the titles at the matching positions, in order, and by `TitlesScoringMembership` |
| Competency.Highest | frontend/src/App.js:447 | the titles at the maximum; specified by `ExtremesNonEmpty`, `ExtremesWhenAllTied` and `ExtremeTitlesAreExact`: a code is listed iff no code scores higher, and the list is non-empty |
| Competency.Lowest | frontend/src/App.js:451 | the titles at the minimum; specified by `ExtremesNonEmpty`, `ExtremesWhenAllTied` and `ExtremeTitlesAreExact`: a code is listed iff no code scores lower, and the list is non-empty |
| Competency.PositionsFrom | backend/pdf-template.js:35-36 | reference account of the filter: the matching positions, each in range and matching, all of them, in increasing order |
| Competency.TitlesScoringFrom | backend/pdf-template.js:35-36 | the filter of a suffix lists the titles at the matching positions of that suffix, in order |
| Competency.TitlesScoringIsExactFilter | backend/pdf-template.js:35-36 | `filter(score === target).map(title)` lists exactly the titles at the matching positions, in list order, ties included |
| Competency.TitlesScoringNonEmpty | backend/pdf-template.js:35-36 | the filter is non-empty once one entry matches |
| Competency.TitlesScoringAll | backend/pdf-template.js:35-36 | when every entry matches, the filter lists every title |
| Competency.TitlesScoringMembership | frontend/src/App.js:447 | a title is listed iff some entry carries that title and the target score |
| Competency.ExtremesNonEmpty | frontend/src/App.js:447-451 | on a non-empty list, the highest and the lowest lists are both non-empty |
| Competency.ExtremesWhenAllTied | backend/pdf-template.js:33-36 | when all scores are equal, both lists are every title in order |
| Competency.TitledScoresOfCodes | frontend/src/App.js:377-380 | every code has an entry in the titled list carrying its title and score |
| Competency.TitleCarriesScore | frontend/src/App.js:377-380 | an entry carrying a code's title carries that code's score |
| Competency.CodeExtremes | frontend/src/App.js:447-451 | the maximum of the titled list is the largest score of any code and is attained by one; likewise the minimum |
| Competency.TitleFilteredIff | frontend/src/App.js:447-451 | a code's title passes the filter for a target iff the code scores the target |
| Competency.ExtremeTitlesAreExact | frontend/src/App.js:447-451 | a code's title is in the highest list iff no code scores higher, and in the lowest list iff none scores lower; both lists are non-empty |
| Competency.TitlesInKeyOrder | backend/pdf-template.js:27-31 | the titles of the list are the five titles in key order |
| Competency.AllEqualScoresListEveryTitle | backend/pdf-template.js:33-36 | five equal scores put all five titles, in key order, in both lists |
| QuestionBank.AllQuestionIds | frontend/src/App.js:156 | `allQuestions` has 50 entries: position n holds question n mod 10 of section n div 10 |
| QuestionBank.FlattenIndex | frontend/src/App.js:156 | `flatMap` over sections of ten questions puts question j of section i at position 10i + j |
| QuestionBank.Flatten | frontend/src/App.js:156 | `flatMap` of the sections' questions; specified by `FlattenIndex` |
| QuestionBank.BankShape | frontend/src/App.js:73-154 | the constant `Sections` has five sections of ten questions each |
| QuestionBank.SectionCategories | frontend/src/App.js:73-154 | section k carries the k-th code of the score object and that code's title |
| QuestionBank.IdsInterleaved | frontend/src/App.js:73-154 | the j-th question of section k has id 5j + k + 1 |
| QuestionBank.IdAt | frontend/src/App.js:73-154 | one slot of the interleaving: section k has ten ids and its j-th is 5j + k + 1 |
| QuestionBank.SlotResidue | frontend/src/App.js:73-154 | a slot's id is in 1..50 and congruent to k + 1 modulo 5 |
| QuestionBank.ResidueSlot | frontend/src/App.js:73-154 | every id in 1..50 congruent to k + 1 is the id of a slot of section k |
| QuestionBank.IdsBySectionResidue | frontend/src/App.js:73-154 | an id belongs to section k iff it is in 1..50 and congruent to k + 1 modulo 5 |
| QuestionBank.IdsUnique | frontend/src/App.js:73-154 | equal ids name the same section and position |
| QuestionBank.IdsCoverBank | frontend/src/App.js:156 | the ids of all sections together are exactly 1..50 |
| QuestionBank.BankIdListed | frontend/src/App.js:156 | every id in 1..50 is in `allQuestions` |
| QuestionBank.ListedIdInBank | frontend/src/App.js:156 | every id in `allQuestions` is in 1..50 |
| QuestionBank.AllQuestionIdsDistinct | frontend/src/App.js:156 | no id appears twice in `allQuestions` |
| QuestionBank.Slot | frontend/src/App.js:156 | every position of `allQuestions` holds question j of section k, at 10k + j |
| QuestionBank.SectionIndex | frontend/src/App.js:187-188 | each code has the section that holds its questions |
| QuestionBank.QuestionOffset | frontend/src/App.js:311 | `questionOffset`; specified by `QuestionOffsetIsTenTimes` |
| QuestionBank.QuestionCount | frontend/src/App.js:311 | the `reduce` summing section lengths; specified by `QuestionOffsetIsTenTimes` |
| QuestionBank.QuestionOffsetIsTenTimes | frontend/src/App.js:311 | the sum of the lengths of the sections before section i is 10i; on a section, the first displayed number is at least 1 and the tenth at most 50 |
| Scoring.Contribution | frontend/src/App.js:189-192 | an answered question adds its answer (1..5); an unanswered one adds 0 |
| Scoring.SumAnswers | frontend/src/App.js:187-193 | the sum over a list of questions lies in 0..5 per question; also specified by `SumBounds`, `SumUnanswered`, `SumConstant` and `SumUpdate` |
| Scoring.SectionTotal | frontend/src/App.js:187-193 | one section's sum; specified by `CompleteSectionInRange` and `AnswerAffectsOwnCategoryOnly` |
| Scoring.ScoresOf | frontend/src/App.js:185-196 | the score object of `calculateScores`; specified by `ScoresOfIsSectionTotal`, `CompleteScoresInRange` and `NoAnswersScoreZero` |
| Scoring.ScoresOfIsSectionTotal | frontend/src/App.js:185-196 | each code's score is the sum over its own section |
| Scoring.ScoresOfBySection | frontend/src/App.js:185-196 | a score object whose k-th key carries section k's total is the computed score object |
| Scoring.SectionComplete | frontend/src/App.js:223-226 | a section is complete iff every id congruent to k + 1 modulo 5 in 1..50 is answered |
| Scoring.MissingAnswerBlocksSection | frontend/src/App.js:225 | one unanswered question makes its section incomplete |
| Scoring.SumBounds | frontend/src/App.js:185-196 | with every listed question answered, the sum lies between the count and five times the count |
| Scoring.SumUnanswered | frontend/src/App.js:189-190 | unanswered questions sum to 0 |
| Scoring.SumConstant | frontend/src/App.js:185-196 | n questions all answered a sum to a·n |
| Scoring.SumUpdate | frontend/src/App.js:181-183 | re-answering a question overwrites it: the sum changes by the new answer minus the old contribution, and only if the question is listed |
| Scoring.SectionIdsDistinct | frontend/src/App.js:73-154 | no id repeats within a section |
| Scoring.AnswerAffectsOwnCategoryOnly | frontend/src/App.js:181-196 | an answer changes only its own section's score, by the difference between the new and old contribution |
| Scoring.NoAnswersScoreZero | frontend/src/App.js:186 | with no answers every score is 0 |
| Scoring.CompleteSectionInRange | frontend/src/App.js:185-196 | a complete section scores in [10, 50] |
| Scoring.CompleteScoresInRange | frontend/src/App.js:185-196 | with every bank question answered, every score lies in [10, 50] |
| Scoring.AllThreesScoreThirty | frontend/src/App.js:185-196 | answering every question 3 scores 30 everywhere |
| Scoring.DistinctSetSize | frontend/src/App.js:156 | a list of distinct ids has as many elements as its set |
| Scoring.QuestionIdsSize | frontend/src/App.js:156 | the bank has 50 distinct ids |
| Scoring.CountGateMeansComplete | frontend/src/App.js:199 | when all keys are bank ids, there are at most 50, and exactly 50 iff every bank id is answered iff every section is complete |
| Scoring.SubsetSize | frontend/src/App.js:199 | a subset is no larger than its superset, and equally large only when equal |
| Wizard.Questionnaire.constructor | frontend/src/App.js:159-164 | the initial state: welcome step, empty fields, first section, no answers, no results, no error |
| Wizard.Questionnaire.EditName | frontend/src/App.js:290 | the name field takes the typed value; the page invariant is kept |
| Wizard.Questionnaire.EditOrganization | frontend/src/App.js:291 | the organization field takes the typed value; the page invariant is kept |
| Wizard.Questionnaire.Start | frontend/src/App.js:172-179 | the assessment opens with the error cleared iff both fields are non-empty; otherwise the step stays and the error is set |
| Wizard.Questionnaire.RecordAnswer | frontend/src/App.js:181-183 | the map becomes the old map with `id` set to v; every other key keeps its presence and value |
| Wizard.Questionnaire.AnsweredCount | frontend/src/App.js:318 | the answered count is at most the bank size while every key is a bank id |
| Wizard.Questionnaire.CalculateScores | frontend/src/App.js:185-196 | the nested loops return exactly `ScoresOf(responses)` |
| Wizard.Questionnaire.ValidateCurrentSection | frontend/src/App.js:223-226 | true iff every question of the current section has an answer; `SectionComplete` gives the equivalent form by id residue |
| Wizard.Questionnaire.NextSection | frontend/src/App.js:228-237 | complete section: error cleared, index up by one unless on the last section; incomplete: index kept, error set; answers kept; index stays in 0..4 |
| Wizard.Questionnaire.PreviousSection | frontend/src/App.js:239-244 | error cleared, index down by one unless at 0, answers kept, index stays in 0..4 |
| Wizard.Questionnaire.Submit | frontend/src/App.js:198-207 | fewer or more than 50 keys: step and results kept, error set; exactly 50: results are the scores, step is results, error cleared; with bank keys each score is in [10, 50] |
| ResultsView.Interpret | frontend/src/App.js:422-426 | the wording and colour are those of the score's tier |
| ResultsView.Wording | frontend/src/App.js:422-426 | the wording and colour of each tier; specified by `WordingInjective` |
| ResultsView.InterpretIdentifiesTier | frontend/src/App.js:422-426 | the interpretation shown is a tier's wording iff the score is in that tier |
| ResultsView.WordingInjective | frontend/src/App.js:423-425 | the three wordings are distinct |
| ResultsView.InterpretBoundaries | frontend/src/App.js:423-424 | 35 and 18 are inclusive floors: 35 and 34, 18 and 17 fall on different sides |
| ResultsView.ChartIndex | frontend/src/App.js:373 | every code has a position in `chartOrder` |
| ResultsView.ChartOrderIsPermutation | frontend/src/App.js:373 | `chartOrder` is as long as the key order, has no repeats and holds every code: it is a permutation of the five codes |
| ResultsView.ChartScores | frontend/src/App.js:374 | the k-th chart value is the score of the k-th code in chart order, so each code's score sits at that code's chart position |
| ResultsView.ReplaceFirst | frontend/src/App.js:383 | replacing one character by one keeps the length |
| ResultsView.ReplaceFirstChangesOnlyFirst | frontend/src/App.js:383 | string `replace` with a string pattern changes only the first occurrence: position k changes iff it holds the pattern and no earlier position does |
| ResultsView.ChartLabels | frontend/src/App.js:373-383 | the k-th chart label is the k-th title in chart order with its first space made a line break |
| ResultsView.ScoresWithTitles | frontend/src/App.js:377-380 | `scoresWithTitles`; specified by `WithTitles`: one entry per key, in key order, with its title and score |
| ResultsView.Strongest | frontend/src/App.js:447 | "Your highest score is in"; specified by `DisplayedExtremesAreExact` and `TieExample` |
| ResultsView.Weakest | frontend/src/App.js:451 | "An area with potential for growth is"; specified by `DisplayedExtremesAreExact` and `TieExample` |
| ResultsView.DisplayedExtremesAreExact | frontend/src/App.js:447-451 | a competency is shown as highest iff no competency scores higher, as the growth area iff none scores lower; both lists are non-empty |
| ResultsView.TiedExtremes | frontend/src/App.js:447-451 | for the score object 40, 40, 30, 20, 25 the maximum of its titled list is 40 and the minimum 20 |
| ResultsView.TiedFilters | frontend/src/App.js:447-451 | for those scores the filters give the two tied titles at 40 and the one title at 20 |
| ResultsView.TieExample | frontend/src/App.js:447-451 | a tie at the top lists both tied competencies, in key order |
| ResultsView.AllThreesShowEveryTitle | frontend/src/App.js:185-196 | all answers 3: every title is both highest and lowest, and every interpretation is the middle one |
| ResultsView.DetailedBreakdown | frontend/src/App.js:459-464 | one row per code in key order with its title, its score and its tier's wording |
| ResultsView.IsSpace | frontend/src/App.js:267 | the `\s` class of JavaScript regular expressions; specified by `HyphenateHasNoSpace` |
| ResultsView.Hyphenate | frontend/src/App.js:267 | `replace(/\s+/g, '-')`; specified by `HyphenateHasNoSpace`, `HyphenateKeepsWord` and `HyphenateRun` |
| ResultsView.ReportFileName | frontend/src/App.js:267 | the download file name; specified by `ReportFileNameShape` |
| ResultsView.SpaceRunLength | frontend/src/App.js:267 | the measured prefix is whitespace and maximal |
| ResultsView.HyphenateHasNoSpace | frontend/src/App.js:267 | the slug contains no whitespace |
| ResultsView.HyphenateKeepsWord | frontend/src/App.js:267 | a name without whitespace is kept unchanged |
| ResultsView.SpaceRunOfJoin | frontend/src/App.js:267 | a run of whitespace followed by a non-space is measured as exactly that run |
| ResultsView.HyphenateRun | frontend/src/App.js:267 | a word followed by a maximal whitespace run becomes the word and a single hyphen |
| ResultsView.ReportFileNameShape | frontend/src/App.js:267 | the file name is `EI-Report-`, the slug and `.pdf`, and holds no whitespace |
| PdfTemplate.Interpret | backend/pdf-template.js:21-25 | the label and colour are those of the score's tier |
| PdfTemplate.Wording | backend/pdf-template.js:21-25 | the label and colour of each tier; specified by `WordingInjective` |
| PdfTemplate.WordingInjective | backend/pdf-template.js:22-24 | the three labels are distinct, and so are the three colours |
| PdfTemplate.InterpretIdentifiesTier | backend/pdf-template.js:21-25 | the label alone, and the colour alone, identify the score's tier |
| PdfTemplate.LegendAgreesWithInterpret | backend/pdf-template.js:115-124 | each score in 10..50 is in exactly one legend range, whose label and colour are those `getInterpretation` gives it |
| PdfTemplate.LegendTilesRange | backend/pdf-template.js:116-124 | the ranges of the constant `Legend` run from 10 to 50 with no gap and no overlap |
| PdfTemplate.ScoreCards | backend/pdf-template.js:103-107 | one card per entry, in order, with its title and score |
| PdfTemplate.ScoreCardsConsistent | backend/pdf-template.js:104-106 | the colour and label on each card come from the same tier, the tier of the card's score |
| PdfTemplate.BuildReport | backend/pdf-template.js:27-34 | sections in key order with titles and unchanged scores; `maxScore` bounds every section's score from above and equals one, `minScore` from below and equals one |
| PdfTemplate.ReportOfSections | backend/pdf-template.js:33-34 | on any non-empty `sections` list, `maxScore` and `minScore` bound every score and are attained |
| PdfTemplate.ReportExtremesOfCodes | backend/pdf-template.js:33-34 | `maxScore` is the highest score of any code and `minScore` the lowest |
| PdfTemplate.ReportAreasExact | backend/pdf-template.js:35-36 | a title is a strength area iff its score is the maximum, and an improvement area iff it is the minimum; neither list is empty |
| PdfTemplate.ReportAreasInOrder | backend/pdf-template.js:35-36 | both area lists keep the order of `sections`, ties included |
| PdfTemplate.ReportAreasWhenAllEqual | backend/pdf-template.js:33-36 | five equal scores make both area lists all five titles in order |

## Left out

- Question texts and radio labels: display copy. A question is its id.
- JSX, the MUI theme and styles, icons and scroll-to-top: user interface only.
- The two `axios` requests, the Blob and link download, and the console logging: network and browser I/O. Only the file name of the download is modelled. The download error message and the `isDownloading` flag belong to that I/O and are left out as well.
- The progress bar's percentage: a floating-point value. The model gives the integer answered count instead.
- `backend/server.js`: HTTP routing, PDF rendering, spreadsheet calls.
- `backend/generateChart.js`: chart rendering through a library, and no caller uses it. Its chart order is MO, E, SA, ME, SS. The results view's order is SA, E, MO, ME, SS. The model follows the results view.
- The logo file, the formatted date, the chart image and the HTML text of the report: file and clock I/O, and fixed copy.
- Score objects whose keys are not the five codes in insertion order: both sides receive the object `calculateScores` builds. The model therefore never covers `Math.max()` of an empty list.
- Wizard.Questionnaire.RecordAnswer: radio values are strings. The model takes the integer 1..5 that `parseInt` reads from one, and its callers pass a bank id. `AnswersFromBank` records that invariant and is the hypothesis of the [10, 50] bound of `Submit`.
- Wizard.Questionnaire.AnsweredCount: the bound holds only while every key is a bank id. The source counts keys, and the submit gate compares this count, not a completeness check, with 50.
- ResultsView.Hyphenate: this follows the code, where `/\s+/g` turns each run of whitespace into one hyphen. A whitespace-only or padded name therefore yields leading or trailing hyphens.
