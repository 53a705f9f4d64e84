/**
 * The extractor's declared data channels: the themes it reads before it
 * runs and the two themes it writes.
 */
module ConteXtThemes {

  /** A named data channel; its identity is its name. */
  datatype Theme = Theme(name: string, description: string)

  /** The keyphrase facts for the X in SPOTLX. */
  const ConteXtFacts := Theme("conteXtFacts",
    "Keyphrases for the X in SPOTLX - gathered from (internal and external) link anchors, citations and category names")

  /** The provenance strings paired with those facts. */
  const ConteXtSources := Theme("conteXtSources", "Source information for the extracted keyphrases")

  /**
   * A theme the extractor names: one of the three produced by other
   * extractors (context patterns, title patterns, WordNet words), or one of
   * its own.
   */
  datatype ThemeRef = ContextPatterns | TitlePatterns | WordnetWords | Own(theme: Theme)

  /** The themes read: the context patterns, the title patterns and the WordNet words, none of them its own. */
  function Input(): (r: set<ThemeRef>)
    ensures |r| == 3
    ensures forall t | t in r :: !t.Own?
  {
    {ContextPatterns, TitlePatterns, WordnetWords}
  }

  /** The themes written: the facts theme and the sources theme, two distinct names. */
  function Output(): (r: set<ThemeRef>)
    ensures |r| == 2
    ensures forall t | t in r :: t.Own?
    ensures forall t, u | t in r && u in r && t.theme.name == u.theme.name :: t == u
  {
    {Own(ConteXtFacts), Own(ConteXtSources)}
  }

  /** The extractor never reads a theme it writes. */
  lemma InputOutputDisjoint()
    ensures Input() !! Output()
  {
  }
}
