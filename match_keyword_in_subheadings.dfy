/**
 * The subheading research: how many of a text's top-level subheadings reflect
 * the topic (the keyphrase or one of its synonyms), and what percentage of the
 * subheadings that is.
 *
 * A subheading reflects the topic when the word-form matcher's word-match
 * percentage for it passes a threshold that depends on the locale: when the
 * language has no function-word list, the percentage must be exactly 100;
 * when it has one, it must be strictly above 50.
 */
module MatchKeywordInSubheadings {
  import opened Collaborators

  /** The result record: number of subheadings, how many reflect the topic, and that share as a percentage. */
  datatype SubheadingsResult = SubheadingsResult(count: nat, matches: nat, percentReflectingTopic: real)

  /** The record the research starts from and returns when there are no subheadings. */
  const NoSubheadings := SubheadingsResult(0, 0, 0.0)

  /**
   * The locale-dependent threshold on one subheading's word-match percentage.
   * Whatever the rule, a percentage of 50 or less never reflects the topic,
   * and a percentage of exactly 100 always does.
   */
  function Reflects(percentWordMatches: real, hasFunctionWords: bool): (r: bool)
    ensures r ==> percentWordMatches > 50.0
    ensures percentWordMatches == 100.0 ==> r
    ensures !hasFunctionWords ==> (r <==> percentWordMatches == 100.0)
    ensures hasFunctionWords ==> (r <==> percentWordMatches > 50.0)
  {
    if !hasFunctionWords then percentWordMatches == 100.0 else percentWordMatches > 50.0
  }

  /** Whether one subheading reflects the topic, as the filter callback decides it. */
  function ReflectsTopic<F>(helpers: Helpers<F>, topicForms: F, subheading: string, useSynonyms: bool,
                            locale: string, hasFunctionWords: bool): (r: bool)
    ensures r <==> Reflects(helpers.findTopicFormsInString(topicForms, subheading, useSynonyms, locale).percentWordMatches,
                            hasFunctionWords)
    ensures r ==> helpers.findTopicFormsInString(topicForms, subheading, useSynonyms, locale).percentWordMatches > 50.0
  {
    var matchedTopicForms := helpers.findTopicFormsInString(topicForms, subheading, useSynonyms, locale);
    Reflects(matchedTopicForms.percentWordMatches, hasFunctionWords)
  }

  /**
   * The subheadings that pass the filter, in their original order: no more
   * than there were, and each of them reflects the topic (FilterMultiset says
   * that every one that reflects the topic is kept).
   */
  function SubheadingsReflectingTopic<F>(helpers: Helpers<F>, topicForms: F, subheadings: seq<string>,
                                         useSynonyms: bool, locale: string, hasFunctionWords: bool): (r: seq<string>)
    ensures |r| <= |subheadings|
    ensures forall i :: 0 <= i < |r| ==> ReflectsTopic(helpers, topicForms, r[i], useSynonyms, locale, hasFunctionWords)
  {
    if subheadings == [] then []
    else
      var first := subheadings[0];
      var rest := SubheadingsReflectingTopic(helpers, topicForms, subheadings[1..], useSynonyms, locale, hasFunctionWords);
      if ReflectsTopic(helpers, topicForms, first, useSynonyms, locale, hasFunctionWords)
      then [first] + rest
      else rest
  }

  /** The number of subheadings reflecting the topic: the length of the filter. */
  function NumberOfSubheadingsReflectingTopic<F>(helpers: Helpers<F>, topicForms: F, subheadings: seq<string>,
                                                 useSynonyms: bool, locale: string, hasFunctionWords: bool): (n: nat)
    ensures n <= |subheadings|
  {
    |SubheadingsReflectingTopic(helpers, topicForms, subheadings, useSynonyms, locale, hasFunctionWords)|
  }

  /**
   * The share of `matches` out of `count` subheadings as a percentage, in
   * exact arithmetic: it cross-multiplies back to the counts and stays within
   * [0, 100] while the matches do not exceed the subheadings.
   */
  function Percent(matches: nat, count: nat): (p: real)
    requires count > 0
    ensures p * count as real == matches as real * 100.0
    ensures 0.0 <= p
    ensures matches <= count ==> p <= 100.0
  {
    var q := matches as real / count as real;
    assert q * count as real == matches as real;
    assert matches <= count ==> q <= 1.0;
    q * 100.0
  }

  /** The percentage is 100 exactly when every subheading matches. */
  lemma PercentFull(matches: nat, count: nat)
    requires count > 0
    ensures Percent(matches, count) == 100.0 <==> matches == count
  {
  }

  /** The percentage is 0 exactly when no subheading matches. */
  lemma PercentZero(matches: nat, count: nat)
    requires count > 0
    ensures Percent(matches, count) == 0.0 <==> matches == 0
  {
  }

  /** More matches out of the same subheadings give a percentage at least as high. */
  lemma PercentMonotonic(fewer: nat, more: nat, count: nat)
    requires count > 0 && fewer <= more
    ensures Percent(fewer, count) <= Percent(more, count)
  {
  }

  /**
   * The result record for a given list of subheadings: no subheadings give the
   * zero record; otherwise the matches are counted and the percentage is their
   * share of the subheadings.
   */
  function Coverage<F>(helpers: Helpers<F>, topicForms: F, subheadings: seq<string>,
                       useSynonyms: bool, locale: string, hasFunctionWords: bool): (r: SubheadingsResult)
    ensures r.count == |subheadings|
    ensures r.matches == NumberOfSubheadingsReflectingTopic(helpers, topicForms, subheadings, useSynonyms, locale, hasFunctionWords)
    ensures r.matches <= r.count
    ensures r.count == 0 ==> r == NoSubheadings
    ensures r.count > 0 ==> r.percentReflectingTopic * r.count as real == r.matches as real * 100.0
    ensures 0.0 <= r.percentReflectingTopic <= 100.0
  {
    if |subheadings| == 0 then NoSubheadings
    else
      var matches := NumberOfSubheadingsReflectingTopic(helpers, topicForms, subheadings, useSynonyms, locale, hasFunctionWords);
      var percent := Percent(matches, |subheadings|);
      SubheadingsResult(|subheadings|, matches, percent)
  }

  /**
   * The research itself: strips the paper's tags, extracts its top-level
   * subheadings, and fills in the zeroed result record when there are any,
   * always matching with synonyms.
   */
  method MatchKeywordInSubheadings<F>(paper: Paper, researcher: Researcher<F>, hasFunctionWords: bool,
                                      helpers: Helpers<F>) returns (result: SubheadingsResult)
    ensures result == Coverage(helpers, researcher.morphology,
                               helpers.getSubheadingContentsTopLevel(helpers.stripSomeTags(paper.text)),
                               true, paper.locale, hasFunctionWords)
  {
    var text := helpers.stripSomeTags(paper.text);
    var topicForms := researcher.morphology;
    var locale := paper.locale;
    result := NoSubheadings;
    var useSynonyms := true;
    var subheadings := helpers.getSubheadingContentsTopLevel(text);

    if |subheadings| != 0 {
      result := result.(count := |subheadings|);
      result := result.(matches := NumberOfSubheadingsReflectingTopic(helpers, topicForms, subheadings,
                                                                      useSynonyms, locale, hasFunctionWords));
      result := result.(percentReflectingTopic := Percent(result.matches, result.count));
    }
  }

  // ---------------------------------------------------------------------------
  // Properties of the threshold

  /** Every subheading that passes the strict rule passes the majority rule. */
  lemma StrictImpliesMajority(percentWordMatches: real)
    ensures Reflects(percentWordMatches, false) ==> Reflects(percentWordMatches, true)
  {
  }

  /** The boundaries of the two rules: 80 fails the strict rule and passes the majority rule; 50 fails it. */
  lemma ThresholdBoundaries()
    ensures !Reflects(80.0, false) && Reflects(100.0, false)
    ensures Reflects(80.0, true) && !Reflects(50.0, true) && Reflects(100.0, true)
  {
  }

  // ---------------------------------------------------------------------------
  // Properties of the count

  /**
   * The filter keeps each subheading exactly as often as it occurs when it
   * reflects the topic, and drops it otherwise.
   */
  lemma {:induction false} FilterMultiset<F>(helpers: Helpers<F>, topicForms: F, subheadings: seq<string>,
                                             useSynonyms: bool, locale: string, hasFunctionWords: bool)
    ensures var r := SubheadingsReflectingTopic(helpers, topicForms, subheadings, useSynonyms, locale, hasFunctionWords);
            forall s :: multiset(r)[s] ==
                          (if ReflectsTopic(helpers, topicForms, s, useSynonyms, locale, hasFunctionWords)
                           then multiset(subheadings)[s] else 0)
  {
    if subheadings != [] {
      FilterMultiset(helpers, topicForms, subheadings[1..], useSynonyms, locale, hasFunctionWords);
      assert subheadings == [subheadings[0]] + subheadings[1..];
    }
  }

  /** Filtering a concatenation filters each part. */
  lemma {:induction false} FilterAppend<F>(helpers: Helpers<F>, topicForms: F, a: seq<string>, b: seq<string>,
                                           useSynonyms: bool, locale: string, hasFunctionWords: bool)
    ensures SubheadingsReflectingTopic(helpers, topicForms, a + b, useSynonyms, locale, hasFunctionWords)
         == SubheadingsReflectingTopic(helpers, topicForms, a, useSynonyms, locale, hasFunctionWords)
          + SubheadingsReflectingTopic(helpers, topicForms, b, useSynonyms, locale, hasFunctionWords)
  {
    if a == [] {
      assert a + b == b;
    } else {
      assert (a + b)[0] == a[0];
      assert (a + b)[1..] == a[1..] + b;
      FilterAppend(helpers, topicForms, a[1..], b, useSynonyms, locale, hasFunctionWords);
    }
  }

  /** Each subheading is classified on its own: the count of a concatenation is the sum of the counts. */
  lemma CountAppend<F>(helpers: Helpers<F>, topicForms: F, a: seq<string>, b: seq<string>,
                       useSynonyms: bool, locale: string, hasFunctionWords: bool)
    ensures NumberOfSubheadingsReflectingTopic(helpers, topicForms, a + b, useSynonyms, locale, hasFunctionWords)
         == NumberOfSubheadingsReflectingTopic(helpers, topicForms, a, useSynonyms, locale, hasFunctionWords)
          + NumberOfSubheadingsReflectingTopic(helpers, topicForms, b, useSynonyms, locale, hasFunctionWords)
  {
    FilterAppend(helpers, topicForms, a, b, useSynonyms, locale, hasFunctionWords);
  }

  /** The order of the subheadings does not matter: a permutation has the same count. */
  lemma CountPermutation<F>(helpers: Helpers<F>, topicForms: F, a: seq<string>, b: seq<string>,
                            useSynonyms: bool, locale: string, hasFunctionWords: bool)
    requires multiset(a) == multiset(b)
    ensures NumberOfSubheadingsReflectingTopic(helpers, topicForms, a, useSynonyms, locale, hasFunctionWords)
         == NumberOfSubheadingsReflectingTopic(helpers, topicForms, b, useSynonyms, locale, hasFunctionWords)
  {
    var ra := SubheadingsReflectingTopic(helpers, topicForms, a, useSynonyms, locale, hasFunctionWords);
    var rb := SubheadingsReflectingTopic(helpers, topicForms, b, useSynonyms, locale, hasFunctionWords);
    FilterMultiset(helpers, topicForms, a, useSynonyms, locale, hasFunctionWords);
    FilterMultiset(helpers, topicForms, b, useSynonyms, locale, hasFunctionWords);
    assert multiset(ra) == multiset(rb);
    assert |ra| == |multiset(ra)| == |multiset(rb)| == |rb|;
  }

  /** The majority rule counts at least as many subheadings as the strict rule. */
  lemma {:induction false} MajorityCountsAtLeastStrict<F>(helpers: Helpers<F>, topicForms: F, subheadings: seq<string>,
                                                          useSynonyms: bool, locale: string)
    ensures NumberOfSubheadingsReflectingTopic(helpers, topicForms, subheadings, useSynonyms, locale, false)
         <= NumberOfSubheadingsReflectingTopic(helpers, topicForms, subheadings, useSynonyms, locale, true)
  {
    if subheadings != [] {
      var matched := helpers.findTopicFormsInString(topicForms, subheadings[0], useSynonyms, locale);
      StrictImpliesMajority(matched.percentWordMatches);
      MajorityCountsAtLeastStrict(helpers, topicForms, subheadings[1..], useSynonyms, locale);
    }
  }

  /** No subheading is counted exactly when none reflects the topic. */
  lemma {:induction false} CountZeroIff<F>(helpers: Helpers<F>, topicForms: F, subheadings: seq<string>,
                                           useSynonyms: bool, locale: string, hasFunctionWords: bool)
    ensures NumberOfSubheadingsReflectingTopic(helpers, topicForms, subheadings, useSynonyms, locale, hasFunctionWords) == 0
        <==> forall i :: 0 <= i < |subheadings| ==>
               !ReflectsTopic(helpers, topicForms, subheadings[i], useSynonyms, locale, hasFunctionWords)
  {
    if subheadings != [] {
      CountZeroIff(helpers, topicForms, subheadings[1..], useSynonyms, locale, hasFunctionWords);
      assert forall i :: 1 <= i < |subheadings| ==> subheadings[i] == subheadings[1..][i - 1];
    }
  }

  /** Every subheading is counted exactly when every one reflects the topic. */
  lemma {:induction false} CountAllIff<F>(helpers: Helpers<F>, topicForms: F, subheadings: seq<string>,
                                          useSynonyms: bool, locale: string, hasFunctionWords: bool)
    ensures NumberOfSubheadingsReflectingTopic(helpers, topicForms, subheadings, useSynonyms, locale, hasFunctionWords)
            == |subheadings|
        <==> forall i :: 0 <= i < |subheadings| ==>
               ReflectsTopic(helpers, topicForms, subheadings[i], useSynonyms, locale, hasFunctionWords)
  {
    if subheadings != [] {
      CountAllIff(helpers, topicForms, subheadings[1..], useSynonyms, locale, hasFunctionWords);
      assert forall i :: 1 <= i < |subheadings| ==> subheadings[i] == subheadings[1..][i - 1];
    }
  }

  // ---------------------------------------------------------------------------
  // Properties of the result record

  /** The percentage is 100 exactly when there are subheadings and every one reflects the topic. */
  lemma CoverageFull<F>(helpers: Helpers<F>, topicForms: F, subheadings: seq<string>,
                        useSynonyms: bool, locale: string, hasFunctionWords: bool)
    ensures Coverage(helpers, topicForms, subheadings, useSynonyms, locale, hasFunctionWords).percentReflectingTopic == 100.0
        <==> |subheadings| > 0 && forall i :: 0 <= i < |subheadings| ==>
               ReflectsTopic(helpers, topicForms, subheadings[i], useSynonyms, locale, hasFunctionWords)
  {
    var r := Coverage(helpers, topicForms, subheadings, useSynonyms, locale, hasFunctionWords);
    CountAllIff(helpers, topicForms, subheadings, useSynonyms, locale, hasFunctionWords);
    if r.count > 0 {
      PercentFull(r.matches, r.count);
    }
  }

  /** The percentage is 0 exactly when no subheading reflects the topic (including when there are none). */
  lemma CoverageNone<F>(helpers: Helpers<F>, topicForms: F, subheadings: seq<string>,
                        useSynonyms: bool, locale: string, hasFunctionWords: bool)
    ensures Coverage(helpers, topicForms, subheadings, useSynonyms, locale, hasFunctionWords).percentReflectingTopic == 0.0
        <==> forall i :: 0 <= i < |subheadings| ==>
               !ReflectsTopic(helpers, topicForms, subheadings[i], useSynonyms, locale, hasFunctionWords)
  {
    var r := Coverage(helpers, topicForms, subheadings, useSynonyms, locale, hasFunctionWords);
    CountZeroIff(helpers, topicForms, subheadings, useSynonyms, locale, hasFunctionWords);
    if r.count > 0 {
      PercentZero(r.matches, r.count);
    }
  }

  /** Under the majority rule the percentage is at least the one under the strict rule. */
  lemma CoverageMajorityAtLeastStrict<F>(helpers: Helpers<F>, topicForms: F, subheadings: seq<string>,
                                         useSynonyms: bool, locale: string)
    ensures Coverage(helpers, topicForms, subheadings, useSynonyms, locale, false).percentReflectingTopic
         <= Coverage(helpers, topicForms, subheadings, useSynonyms, locale, true).percentReflectingTopic
  {
    MajorityCountsAtLeastStrict(helpers, topicForms, subheadings, useSynonyms, locale);
    if |subheadings| > 0 {
      PercentMonotonic(NumberOfSubheadingsReflectingTopic(helpers, topicForms, subheadings, useSynonyms, locale, false),
                       NumberOfSubheadingsReflectingTopic(helpers, topicForms, subheadings, useSynonyms, locale, true),
                       |subheadings|);
    }
  }

  // ---------------------------------------------------------------------------
  // A worked example

  /** The text of the example: two second-level subheadings. */
  const ExampleText := "<h2>The cat sat</h2><h2>A dog ran</h2>"

  /**
   * Helpers for the example: tag stripping leaves the text as it is, the
   * example text has two top-level subheadings, and the matcher gives the
   * first a word-match percentage of 200/3 and the second 0.
   */
  function ExampleHelpers<F>(): Helpers<F>
  {
    Helpers(
      s => s,
      s => if s == ExampleText then ["The cat sat", "A dog ran"] else [],
      (f, s, syn, loc) => TopicFormsMatch(if s == "The cat sat" then 200.0 / 3.0 else 0.0))
  }

  /**
   * The research on the example text, in the form the entry point's contract
   * gives: with a function-word list one of the two subheadings reflects the
   * topic (50 percent); without one, none does.
   */
  lemma TwoSubheadingsExample<F>(topicForms: F)
    ensures var h := ExampleHelpers<F>();
            Coverage(h, topicForms, h.getSubheadingContentsTopLevel(h.stripSomeTags(ExampleText)), true, "en_US", true)
            == SubheadingsResult(2, 1, 50.0)
    ensures var h := ExampleHelpers<F>();
            Coverage(h, topicForms, h.getSubheadingContentsTopLevel(h.stripSomeTags(ExampleText)), true, "en_US", false)
            == SubheadingsResult(2, 0, 0.0)
  {
    var h := ExampleHelpers<F>();
    var subheadings := h.getSubheadingContentsTopLevel(h.stripSomeTags(ExampleText));
    assert subheadings == ["The cat sat", "A dog ran"];
    assert subheadings[1..] == ["A dog ran"];
    assert "A dog ran" != "The cat sat";
    assert ["A dog ran"][1..] == [];
    var withList := SubheadingsReflectingTopic(h, topicForms, subheadings, true, "en_US", true);
    var withoutList := SubheadingsReflectingTopic(h, topicForms, subheadings, true, "en_US", false);
    assert ReflectsTopic(h, topicForms, "The cat sat", true, "en_US", true);
    assert !ReflectsTopic(h, topicForms, "A dog ran", true, "en_US", true);
    assert SubheadingsReflectingTopic(h, topicForms, ["A dog ran"], true, "en_US", true) == [];
    assert withList == ["The cat sat"];
    assert 200.0 / 3.0 != 100.0;
    assert !ReflectsTopic(h, topicForms, "The cat sat", true, "en_US", false);
    assert !ReflectsTopic(h, topicForms, "A dog ran", true, "en_US", false);
    assert SubheadingsReflectingTopic(h, topicForms, ["A dog ran"], true, "en_US", false) == [];
    assert withoutList == [];
  }
}
