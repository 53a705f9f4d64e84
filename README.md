# ConteXt extractor: normalisation and extraction loop

This project models the core of YAGO3's `ConteXtExtractor`. The extractor
scans a Wikipedia XML dump one page at a time. For each page it resolves
the `<title>` to an entity. It reads the page body between `<text` and
`</text>` and collapses every run of whitespace and control characters
into one space. It then runs the context fact templates over that text
with the entity bound. Every non-null fact the templates yield goes to the
`conteXtFacts` output. Its evidence span, tagged `"ConteXtExtractor from: "`,
goes to the `conteXtSources` output.

The project has four modules:

- `TextNormalization` (`normalization.dfy`) is the `replaceAll` of the page
  body. `Normalize` is a recursive function over `string`. The lemmas next
  to it prove these facts about it:
  - it has a normal shape: the only blank it contains is the space, and no
    two blanks are adjacent;
  - its fixed points are exactly the strings of that shape, so it is
    idempotent;
  - it keeps the non-blank characters in their order;
  - it agrees with an independent position-by-position definition, in
    which each maximal run of blanks gives exactly one space.
- `ConteXtExtraction` (`extraction.dfy`) is the `extract` loop.
  - The corpus is the sequence of pages that successive `<title>` searches
    find.
  - Each page carries the resolver's answer and its body text.
  - The template extractor is a function parameter.
  - `Extract` is a method with the source's `while (true)` loop and its
    inner `for` loop (`WritePage`). It appends to a facts sequence and a sources
    sequence. It is proved against `Run`, a specification function over
    the whole corpus, and lemmas state what `Run` promises.
- `ConteXtThemes` (`themes.dfy`) holds the declared input and output
  themes.
- `Wrappers` (`wrappers.dfy`) holds `Option`, the model of Java's `null`.

The blank class `[\s\x00-\x1F]` is exactly U+0000..U+0020, because Java's
default `\s` is `[ \t\n\x0B\f\r]`.

The definitions that carry the model of the source are these:

- `TextNormalization.IsBlank` is the regex class `[\s\x00-\x1F]` of line 82.
- `ConteXtExtraction.PageEmissions` is the handling of one page, lines 76-87. A null entity writes nothing. A resolved page with no readable body aborts the run. Otherwise the page writes `Emit` of the templates' pairs over the normalised body.
- `ConteXtExtraction.Run` is the whole loop of lines 70-89, page after page, until the end of input or an abort.

Two points of the code's behaviour shape the model:

- **Unresolved pages.** The code does not read the body of a page whose
  title does not resolve. It continues with the next `<title>` search
  (line 79). On the page abstraction, the page is skipped.
- **Closing the reader.** The code closes the reader only when the search
  returns -1 (line 74). There is no `finally`, so an aborted run leaves the
  reader open. `Extract` returns `Exhausted` exactly on the -1 path.

## Model

| member | source | states |
|---|---|---|
| `TextNormalization.Normalize` | src/extractors/ConteXtExtractor.java:82 | The normalised text is never longer than the page. It is empty exactly when the page is empty. It starts with a space exactly when the page starts with a blank, and otherwise with the page's first character. |
| `TextNormalization.NormalizeIsNormal` | src/extractors/ConteXtExtractor.java:82 | In normalised text, the only blank character is the space, so no character in U+0000..U+001F is left. No two blanks are adjacent. |
| `TextNormalization.NormalIsFixedPoint` | src/extractors/ConteXtExtractor.java:82 | Normalisation leaves a text of that normal shape unchanged. |
| `TextNormalization.FixedPointIffNormal` | src/extractors/ConteXtExtractor.java:82 | A text is left unchanged by normalisation if and only if it has the normal shape. |
| `TextNormalization.NormalizeIdempotent` | src/extractors/ConteXtExtractor.java:82 | Normalising a normalised text returns it unchanged. |
| `TextNormalization.NormalizeKeepsNonBlanks` | src/extractors/ConteXtExtractor.java:82 | Normalisation keeps every character above U+0020, in its original order, and adds no other such character. |
| `TextNormalization.NormalizeSnoc` | src/extractors/ConteXtExtractor.java:82 | Appending one character to the page extends the normalised text by that character's contribution: the character itself if it is not blank, a space if it starts a blank run, nothing if it continues one. |
| `TextNormalization.NormalizeByPosition` | src/extractors/ConteXtExtractor.java:82 | Normalisation equals an independent position-by-position definition. Every non-blank character is copied through, and each maximal run of blanks gives exactly one space. |
| `ConteXtExtraction.Extract` | src/extractors/ConteXtExtractor.java:69-89 | The loop's outcome is the outcome of `Run` on the corpus. The facts and sources it appends have the same length as what `Run` emits. Position k of each holds the fact and the source string of emission k. |
| `ConteXtExtraction.WritePage` | src/extractors/ConteXtExtractor.java:84-87 | The inner `for` loop over the pairs of one page. The facts and sources it appends correspond position by position to the page's emissions: the non-null facts with their tagged spans. |
| `ConteXtExtraction.Emit` | src/extractors/ConteXtExtractor.java:84-87 | A page never emits more pairs than the template extractor yields. |
| `ConteXtExtraction.FactPositionsExact` | src/extractors/ConteXtExtractor.java:84-85 | The positions that are emitted are exactly the yielded pairs with a non-null fact. Each appears once, in strictly increasing order. |
| `ConteXtExtraction.EmitFiltersInOrder` | src/extractors/ConteXtExtractor.java:84-87 | The k-th emission of a page is the k-th non-null fact in the order the template extractor yields it. Its source is exactly `"ConteXtExtractor from: "` followed by that pair's span. |
| `ConteXtExtraction.RunAppend` | src/extractors/ConteXtExtractor.java:70-89 | A run over two stretches of corpus is the run over the first, followed by the run over the second. If the first aborts, the run ends there. No state carries from one page to the next. |
| `ConteXtExtraction.UnresolvedPageIgnored` | src/extractors/ConteXtExtractor.java:77-79 | A page whose title resolves to null contributes no facts and no sources, and it does not change how the run ends. The run is the same as if the page were absent. |
| `ConteXtExtraction.NoEntitiesNoOutput` | src/extractors/ConteXtExtractor.java:71-79 | A corpus where no title resolves emits nothing and ends at the end of input. This includes a corpus with no `<title>` at all. |
| `ConteXtExtraction.ExhaustedIffWellFormed` | src/extractors/ConteXtExtractor.java:71-82 | A run ends at the end of input (the -1 case, where the reader is closed) exactly when every resolved page has a readable body. |
| `ConteXtExtraction.SourcesTagged` | src/extractors/ConteXtExtractor.java:86 | Every source string a run emits begins with `"ConteXtExtractor from: "`. |
| `ConteXtThemes.Input` | src/extractors/ConteXtExtractor.java:35-37 | The extractor reads three themes: context patterns, title patterns and WordNet words. None of them is one of its own output themes. |
| `ConteXtThemes.Output` | src/extractors/ConteXtExtractor.java:41-51 | The extractor writes two themes, `conteXtFacts` and `conteXtSources`, and their names are distinct. |
| `ConteXtThemes.InputOutputDisjoint` | src/extractors/ConteXtExtractor.java:35-51 | The extractor never reads a theme it writes. The proof is immediate: external themes are referred to by their own constructors, never by `Own`. |

## Left out

- File and stream reading (`FileUtils.getBufferedUTF8Reader`, `FileLines.findIgnoreCase`, `FileLines.readBetween`, lines 58, 71 and 81) is not modelled.
  - The corpus is the sequence of pages the `<title>` searches find, and `FindTitle` stands for the search's 0/-1 answer.
  - Character positions, case-insensitive matching and the markup grammar are not part of this model.
- Unreadable page bodies are modelled on an assumption. `readBetween` is not part of this model, and the model assumes it yields null when it cannot find the body. The code does not check for that, so the `replaceAll` at line 82 throws and the run aborts. The model records this as `MalformedPage`, and it keeps the records written before the abort.
- `TitleExtractor.getTitleEntity` (line 77) is not modelled. Each page record carries its answer as an `Option`.
- `FactTemplateExtractor.extractWithProvenance` and `FactCollection` (lines 61-64 and 84) are not modelled. The template extractor is an arbitrary function parameter from (normalised text, entity) to a finite sequence of (fact or null, span) pairs.
- `Extractor.write` and `FactWriter` serialisation (line 86) are not modelled. Only the two appended sequences are modelled. Whatever `write` records about `titleEntity` is left out.
- `Announce` logging, exception propagation other than the aborted run, and closing the reader are not modelled. Closing the reader is represented only by the `Exhausted` outcome.
- The input themes belong to other extractors whose files are not part of this model. They are referred to by name only (`ContextPatterns`, `TitlePatterns`, `WordnetWords`).
- `Fact` is a plain subject-relation-object record. Fact identifiers and the other fields of the repository's fact class are not part of this model.
- Java strings are sequences of UTF-16 code units and the model uses Unicode characters. The difference does not matter here, because every character above U+0020 is simply copied.
