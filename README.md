# Subheading topic coverage (yoastseo `matchKeywordInSubheadings`)

This project models the yoastseo research that checks whether a text's
top-level subheadings reflect the topic. The topic is the keyphrase or one of
its synonyms.

The research works in these steps:

- It strips non-text tags from the paper's text.
- It extracts the contents of the top-level subheadings.
- For each subheading, it asks the word-form matcher for its word-match
  percentage against the topic forms. The keyphrase's forms come from the
  researcher's "morphology" research, and synonyms are always included. How
  the matcher computes that percentage is not part of this model.
- It counts a subheading as reflecting the topic when that percentage passes a
  threshold that depends on the locale:
  - Without a function-word list for the language, the percentage must be
    exactly 100 (the strict rule).
  - With a function-word list, it must be strictly above 50 (the majority rule).
- It returns a record `{count, matches, percentReflectingTopic}`. The record is
  all zeros when there are no subheadings. Otherwise it holds the number of
  subheadings, the number that reflect the topic, and that share as a
  percentage.

Files:

- `collaborators.dfy` (module `Collaborators`) declares the paper and the
  researcher. It also declares the three helpers the research calls but whose
  code is not part of this model: `stripSomeTags`,
  `getSubheadingContentsTopLevel` and `findTopicFormsInString`. Each helper is
  a total function value in a `Helpers` record, so every statement here holds
  for any total, deterministic behaviour of those helpers. The "morphology"
  research is an opaque value of a type parameter `F`.
- `match_keyword_in_subheadings.dfy` (module `MatchKeywordInSubheadings`)
  holds the rest:
  - the threshold (`Reflects`, `ReflectsTopic`);
  - the filter and its length (`SubheadingsReflectingTopic`,
    `NumberOfSubheadingsReflectingTopic`);
  - the percentage (`Percent`);
  - the result record as a function of the subheadings (`Coverage`);
  - the entry point as a method that fills in a zeroed record field by field,
    as the source does (`MatchKeywordInSubheadings`);
  - the lemmas that relate these members.

## Model

| member | source | states |
|---|---|---|
| MatchKeywordInSubheadings.Reflects | packages/yoastseo/src/languageProcessing/researches/base/matchKeywordInSubheadings.js:21-24 | a percentage counts exactly when it is 100 without a function-word list, and exactly when it is strictly above 50 with one; under either rule a counted percentage is above 50 and 100 always counts |
| MatchKeywordInSubheadings.ReflectsTopic | packages/yoastseo/src/languageProcessing/researches/base/matchKeywordInSubheadings.js:19-24 | a subheading reflects the topic exactly when the matcher's `percentWordMatches` for it, with the given synonyms setting and locale, passes `Reflects`; the percentage of such a subheading is above 50 |
| MatchKeywordInSubheadings.SubheadingsReflectingTopic | packages/yoastseo/src/languageProcessing/researches/base/matchKeywordInSubheadings.js:18-25 | the filter keeps no more subheadings than it is given, and every subheading it keeps reflects the topic under the locale's threshold |
| MatchKeywordInSubheadings.FilterMultiset | packages/yoastseo/src/languageProcessing/researches/base/matchKeywordInSubheadings.js:18-25 | the filter keeps each subheading exactly as many times as it occurs if it reflects the topic, and drops it otherwise |
| MatchKeywordInSubheadings.NumberOfSubheadingsReflectingTopic | packages/yoastseo/src/languageProcessing/researches/base/matchKeywordInSubheadings.js:16-26 | the number of subheadings reflecting the topic is between 0 and the number of subheadings |
| MatchKeywordInSubheadings.StrictImpliesMajority | packages/yoastseo/src/languageProcessing/researches/base/matchKeywordInSubheadings.js:21-24 | a word-match percentage that passes the strict rule (exactly 100) also passes the majority rule (above 50) |
| MatchKeywordInSubheadings.ThresholdBoundaries | packages/yoastseo/src/languageProcessing/researches/base/matchKeywordInSubheadings.js:21-24 | without function words, 80 does not count and 100 does; with function words, 80 and 100 count and 50 does not |
| MatchKeywordInSubheadings.FilterAppend | packages/yoastseo/src/languageProcessing/researches/base/matchKeywordInSubheadings.js:18-25 | filtering two concatenated lists of subheadings gives the concatenation of the two filtered lists |
| MatchKeywordInSubheadings.CountAppend | packages/yoastseo/src/languageProcessing/researches/base/matchKeywordInSubheadings.js:18-25 | the count for two concatenated lists of subheadings is the sum of their counts |
| MatchKeywordInSubheadings.CountPermutation | packages/yoastseo/src/languageProcessing/researches/base/matchKeywordInSubheadings.js:18-25 | reordering the subheadings does not change the count |
| MatchKeywordInSubheadings.MajorityCountsAtLeastStrict | packages/yoastseo/src/languageProcessing/researches/base/matchKeywordInSubheadings.js:21-24 | for the same subheadings, the majority rule counts at least as many as the strict rule |
| MatchKeywordInSubheadings.CountZeroIff | packages/yoastseo/src/languageProcessing/researches/base/matchKeywordInSubheadings.js:18-25 | the count is 0 if and only if no subheading reflects the topic |
| MatchKeywordInSubheadings.CountAllIff | packages/yoastseo/src/languageProcessing/researches/base/matchKeywordInSubheadings.js:18-25 | the count equals the number of subheadings if and only if every subheading reflects the topic |
| MatchKeywordInSubheadings.Percent | packages/yoastseo/src/languageProcessing/researches/base/matchKeywordInSubheadings.js:48 | `matches / count * 100` multiplied by the count gives `matches * 100`; it is never negative, and it is at most 100 when `matches <= count` |
| MatchKeywordInSubheadings.PercentFull | packages/yoastseo/src/languageProcessing/researches/base/matchKeywordInSubheadings.js:48 | the percentage is 100 if and only if the matches equal the count |
| MatchKeywordInSubheadings.PercentZero | packages/yoastseo/src/languageProcessing/researches/base/matchKeywordInSubheadings.js:48 | the percentage is 0 if and only if there are no matches |
| MatchKeywordInSubheadings.PercentMonotonic | packages/yoastseo/src/languageProcessing/researches/base/matchKeywordInSubheadings.js:48 | more matches out of the same number of subheadings never give a lower percentage |
| MatchKeywordInSubheadings.Coverage | packages/yoastseo/src/languageProcessing/researches/base/matchKeywordInSubheadings.js:41-51 | count is the number of subheadings; `matches` is `NumberOfSubheadingsReflectingTopic` of those subheadings, so `matches <= count`; no subheadings give exactly `{0, 0, 0}`; otherwise `percentReflectingTopic * count == matches * 100`; the percentage is always in [0, 100] |
| MatchKeywordInSubheadings.MatchKeywordInSubheadings | packages/yoastseo/src/languageProcessing/researches/base/matchKeywordInSubheadings.js:37-52 | the record built field by field equals `Coverage` of the top-level subheadings of the tag-stripped text, with synonyms on and the paper's locale |
| MatchKeywordInSubheadings.CoverageFull | packages/yoastseo/src/languageProcessing/researches/base/matchKeywordInSubheadings.js:45-49 | `percentReflectingTopic` is 100 if and only if there is at least one subheading and every subheading reflects the topic |
| MatchKeywordInSubheadings.CoverageNone | packages/yoastseo/src/languageProcessing/researches/base/matchKeywordInSubheadings.js:41-49 | `percentReflectingTopic` is 0 if and only if no subheading reflects the topic, including when there are none |
| MatchKeywordInSubheadings.CoverageMajorityAtLeastStrict | packages/yoastseo/src/languageProcessing/researches/base/matchKeywordInSubheadings.js:21-48 | the percentage under the majority rule is at least the percentage under the strict rule |
| MatchKeywordInSubheadings.TwoSubheadingsExample | packages/yoastseo/src/languageProcessing/researches/base/matchKeywordInSubheadings.js:37-52 | example, in the form of the entry point's contract: a text whose two top-level subheadings get word-match percentages of 200/3 and 0 gives `{2, 1, 50}` with a function-word list and `{2, 0, 0}` without one |

## Left out

- The helper bodies are not part of this model: subheading extraction
  (`getSubheadingContentsTopLevel`), tag stripping (`stripSomeTags`), the
  "morphology" research, and word-form matching (`findTopicFormsInString`).
  Each is a parameter, so the properties hold whatever those helpers return.
  Nothing is assumed about them, not even that percentages lie in [0, 100].
- The paper and researcher objects are reduced to what the research reads:
  `getText()`, `getLocale()` and `getResearch("morphology")`. The researcher's
  caching of researches is not modelled.
- Percent: the percentage is computed in exact real arithmetic. JavaScript
  computes `matches / count * 100` in IEEE double precision, and its rounding
  (for example 1/3 * 100) is not modelled.
- No error path is modelled for an unsupported locale. The code has no
  error branch: whatever the morphology research returns is used as is. The model
  follows the code.
- The React collapsible panel and the text-area input are left out. They are
  presentational components that show results and hold no analysis logic.
