/**
 * The collaborators of the subheading research, known only at their interface.
 *
 * The research reads the paper's text and locale, asks the researcher for the
 * "morphology" research (the keyphrase and synonym forms), and calls three
 * helpers whose bodies are not part of this model: tag stripping, top-level
 * subheading extraction and word-form matching. Each helper is a total function
 * value, so the model holds for every total, deterministic behaviour of those
 * helpers.
 */
module Collaborators {

  /** The paper under analysis: its marked-up text and its locale. */
  datatype Paper = Paper(text: string, locale: string)

  /**
   * The researcher, reduced to the one research the subheading analysis asks
   * for. `F` is the opaque value of the "morphology" research: the keyphrase
   * and synonym forms to look for.
   */
  datatype Researcher<F> = Researcher(morphology: F)

  /**
   * What the word-form matcher reports about one string. The analysis reads
   * only its word-match percentage; how the matcher computes it is not part
   * of this model.
   */
  datatype TopicFormsMatch = TopicFormsMatch(percentWordMatches: real)

  /**
   * The helper functions the research calls:
   * - stripSomeTags removes non-text markup from the paper's text;
   * - getSubheadingContentsTopLevel gives the contents of the top-level
   *   subheadings, in document order;
   * - findTopicFormsInString matches the topic forms against one string,
   *   given whether synonyms count and the locale.
   */
  datatype Helpers<!F> = Helpers(
    stripSomeTags: string -> string,
    getSubheadingContentsTopLevel: string -> seq<string>,
    findTopicFormsInString: (F, string, bool, string) -> TopicFormsMatch)
}
