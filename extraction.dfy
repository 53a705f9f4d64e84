/**
 * The per-page extraction loop of the ConteXt extractor: scan the corpus
 * page by page, resolve each page's title to an entity, normalise the page
 * body, run the context templates over it and emit every non-null fact
 * together with its provenance string.
 *
 * The corpus is abstracted as the sequence of pages that successive
 * `<title>` searches find; the title resolver's answer and the body text
 * are part of each page record, and the template extractor is a function
 * parameter.
 */
module ConteXtExtraction {

  import opened Wrappers
  import opened TextNormalization

  /** The tag put before every evidence span in the sources output. */
  const SourcePrefix: string := "ConteXtExtractor from: "

  /** A subject-relation-object fact produced by template substitution. */
  datatype Fact = Fact(subject: string, relation: string, obj: string)

  /** One pair the template extractor yields: a fact, or null when the candidate was rejected, and the matched span. */
  datatype Candidate = Candidate(fact: Option<Fact>, span: string)

  /**
   * One page found by a `<title>` search: the entity its title resolves to
   * (None when the resolver returns null), and the text between `<text` and
   * `</text>` (None when no such body can be read).
   */
  datatype Page = Page(entity: Option<string>, body: Option<string>)

  /** One write to the two outputs: the fact and its source string. */
  datatype Emission = Emission(fact: Fact, source: string)

  /** How a run ends: the title search reported end of input, or a resolved page had no readable body. */
  datatype Outcome = Exhausted | MalformedPage

  datatype RunResult = RunResult(emitted: seq<Emission>, outcome: Outcome)

  /** The template extractor: (normalised text, entity) to the pairs it yields, in order. */
  type TemplateExtractor = (string, string) -> seq<Candidate>

  /** The `<title>` search on the page abstraction: 0 when a further page exists, -1 at end of input. */
  function FindTitle(corpus: seq<Page>, pos: nat): int
    requires pos <= |corpus|
  {
    if pos == |corpus| then -1 else 0
  }

  /** What one candidate writes: nothing for a null fact, otherwise the fact and its tagged span. */
  function EmitOne(c: Candidate): seq<Emission> {
    if c.fact.Some? then [Emission(c.fact.value, SourcePrefix + c.span)] else []
  }

  /** What the candidates of one page write, in the order they are yielded. */
  function Emit(cands: seq<Candidate>): (es: seq<Emission>)
    ensures |es| <= |cands|
  {
    if cands == [] then []
    else Emit(cands[..|cands| - 1]) + EmitOne(cands[|cands| - 1])
  }

  /** The positions of the candidates that carry a fact, in increasing order. */
  function FactPositions(cands: seq<Candidate>): seq<nat>
  {
    if cands == [] then []
    else
      var n := |cands| - 1;
      FactPositions(cands[..n]) + (if cands[n].fact.Some? then [n] else [])
  }

  /** What one page writes, or None when the run aborts on it. */
  function PageEmissions(p: Page, templates: TemplateExtractor): Option<seq<Emission>> {
    match p.entity
    case None => Some([])
    case Some(e) =>
      match p.body
      case None => None
      case Some(b) => Some(Emit(templates(Normalize(b), e)))
  }

  /** Puts `es` before what a run writes. */
  function Then(es: seq<Emission>, r: RunResult): RunResult {
    RunResult(es + r.emitted, r.outcome)
  }

  /** The specification of a whole run over `corpus`: what it writes and how it ends. */
  function Run(corpus: seq<Page>, templates: TemplateExtractor): RunResult {
    if corpus == [] then RunResult([], Exhausted)
    else
      match PageEmissions(corpus[0], templates)
      case None => RunResult([], MalformedPage)
      case Some(es) => Then(es, Run(corpus[1..], templates))
  }

  /** The two outputs hold the facts and the sources of `emitted`, position by position. */
  ghost predicate Paired(facts: seq<Fact>, sources: seq<string>, emitted: seq<Emission>) {
    |facts| == |emitted| && |sources| == |emitted| &&
    forall k | 0 <= k < |emitted| :: facts[k] == emitted[k].fact && sources[k] == emitted[k].source
  }

  /**
   * The extraction loop. `facts` and `sources` are what is appended to the
   * facts writer and the sources writer; `outcome` says whether the run
   * ended at the end of input (where the reader is closed) or aborted.
   */
  method Extract(corpus: seq<Page>, templates: TemplateExtractor)
    returns (facts: seq<Fact>, sources: seq<string>, outcome: Outcome)
    ensures outcome == Run(corpus, templates).outcome
    ensures Paired(facts, sources, Run(corpus, templates).emitted)
  {
    facts, sources := [], [];
    ghost var emitted: seq<Emission> := [];
    var i := 0;
    while true
      invariant i <= |corpus|
      invariant Paired(facts, sources, emitted)
      invariant Run(corpus, templates) == Then(emitted, Run(corpus[i..], templates))
      decreases |corpus| - i
    {
      if FindTitle(corpus, i) == -1 {
        assert corpus[i..] == [];
        outcome := Exhausted;
        return;
      }
      var page := corpus[i];
      if page.entity == None {
        RunAdvance(corpus, i, templates, emitted, []);
        assert emitted + [] == emitted;
        i := i + 1;
        continue;
      }
      if page.body == None {
        RunAbort(corpus, i, templates, emitted);
        outcome := MalformedPage;
        return;
      }
      var normalizedPage := Normalize(page.body.value);
      var pageFacts, pageSources := WritePage(templates(normalizedPage, page.entity.value));
      ghost var es := Emit(templates(normalizedPage, page.entity.value));
      RunAdvance(corpus, i, templates, emitted, es);
      PairedAppend(facts, sources, emitted, pageFacts, pageSources, es);
      facts, sources := facts + pageFacts, sources + pageSources;
      emitted := emitted + es;
      i := i + 1;
    }
  }

  /**
   * The inner loop of one page: every pair the template extractor yields
   * with a non-null fact writes that fact and its tagged span.
   */
  method WritePage(cands: seq<Candidate>) returns (facts: seq<Fact>, sources: seq<string>)
    ensures Paired(facts, sources, Emit(cands))
  {
    facts, sources := [], [];
    for j := 0 to |cands|
      invariant Paired(facts, sources, Emit(cands[..j]))
    {
      assert cands[..j + 1][..j] == cands[..j];
      var c := cands[j];
      if c.fact != None {
        facts := facts + [c.fact.value];
        sources := sources + [SourcePrefix + c.span];
      }
    }
    assert cands[..|cands|] == cands;
  }

  /** One step of the run over the rest of the corpus. */
  lemma RunStep(corpus: seq<Page>, i: nat, templates: TemplateExtractor)
    requires i < |corpus|
    ensures Run(corpus[i..], templates) ==
      match PageEmissions(corpus[i], templates)
      case None => RunResult([], MalformedPage)
      case Some(es) => Then(es, Run(corpus[i + 1..], templates))
  {
    assert corpus[i..][0] == corpus[i];
    assert corpus[i..][1..] == corpus[i + 1..];
  }

  /** A page that writes `es` moves the loop's view of the run one page on. */
  lemma RunAdvance(corpus: seq<Page>, i: nat, templates: TemplateExtractor, emitted: seq<Emission>, es: seq<Emission>)
    requires i < |corpus| && PageEmissions(corpus[i], templates) == Some(es)
    requires Run(corpus, templates) == Then(emitted, Run(corpus[i..], templates))
    ensures Run(corpus, templates) == Then(emitted + es, Run(corpus[i + 1..], templates))
  {
    RunStep(corpus, i, templates);
    ThenAssoc(emitted, es, Run(corpus[i + 1..], templates));
  }

  /** A page on which the run aborts ends it with what was written before. */
  lemma RunAbort(corpus: seq<Page>, i: nat, templates: TemplateExtractor, emitted: seq<Emission>)
    requires i < |corpus| && PageEmissions(corpus[i], templates) == None
    requires Run(corpus, templates) == Then(emitted, Run(corpus[i..], templates))
    ensures Run(corpus, templates) == RunResult(emitted, MalformedPage)
  {
    RunStep(corpus, i, templates);
    assert emitted + [] == emitted;
  }

  lemma ThenAssoc(a: seq<Emission>, b: seq<Emission>, r: RunResult)
    ensures Then(a, Then(b, r)) == Then(a + b, r)
  {
    assert a + (b + r.emitted) == (a + b) + r.emitted;
  }

  lemma PairedAppend(f1: seq<Fact>, s1: seq<string>, e1: seq<Emission>,
                     f2: seq<Fact>, s2: seq<string>, e2: seq<Emission>)
    requires Paired(f1, s1, e1) && Paired(f2, s2, e2)
    ensures Paired(f1 + f2, s1 + s2, e1 + e2)
  {
  }

  /** Every candidate with a fact is emitted exactly once and in order, and no other candidate is. */
  lemma {:induction false} FactPositionsExact(cands: seq<Candidate>)
    ensures forall k | 0 <= k < |FactPositions(cands)| ::
      FactPositions(cands)[k] < |cands| && cands[FactPositions(cands)[k]].fact.Some?
    ensures forall k, l | 0 <= k < l < |FactPositions(cands)| :: FactPositions(cands)[k] < FactPositions(cands)[l]
    ensures forall j | 0 <= j < |cands| && cands[j].fact.Some? :: j in FactPositions(cands)
  {
    if cands != [] {
      var n := |cands| - 1;
      FactPositionsExact(cands[..n]);
    }
  }

  /**
   * The emissions of one page are the non-null facts of its candidates, in
   * the order the template extractor yields them, each with the source text
   * "ConteXtExtractor from: " followed by its span.
   */
  lemma {:induction false} EmitFiltersInOrder(cands: seq<Candidate>)
    ensures |Emit(cands)| == |FactPositions(cands)|
    ensures forall k | 0 <= k < |Emit(cands)| ::
      FactPositions(cands)[k] < |cands| && cands[FactPositions(cands)[k]].fact.Some? &&
      Emit(cands)[k] == Emission(cands[FactPositions(cands)[k]].fact.value,
                                 SourcePrefix + cands[FactPositions(cands)[k]].span)
  {
    FactPositionsExact(cands);
    if cands != [] {
      var n := |cands| - 1;
      EmitFiltersInOrder(cands[..n]);
    }
  }

  /** A run over two stretches of corpus is the run over the first, followed by the run over the second unless the first aborted. */
  lemma {:induction false} RunAppend(a: seq<Page>, b: seq<Page>, templates: TemplateExtractor)
    ensures Run(a + b, templates) ==
      if Run(a, templates).outcome == Exhausted then Then(Run(a, templates).emitted, Run(b, templates))
      else Run(a, templates)
  {
    if a == [] {
      assert a + b == b;
    } else {
      assert (a + b)[0] == a[0];
      assert (a + b)[1..] == a[1..] + b;
      match PageEmissions(a[0], templates)
      case None =>
      case Some(es) =>
        RunAppend(a[1..], b, templates);
        if Run(a[1..], templates).outcome == Exhausted {
          ThenAssoc(es, Run(a[1..], templates).emitted, Run(b, templates));
        }
    }
  }

  /** A page whose title does not resolve changes nothing: the run is as if the page were absent. */
  lemma UnresolvedPageIgnored(a: seq<Page>, p: Page, b: seq<Page>, templates: TemplateExtractor)
    requires p.entity == None
    ensures Run(a + [p] + b, templates) == Run(a + b, templates)
  {
    RunAppend(a, [p] + b, templates);
    RunAppend(a, b, templates);
    assert ([p] + b)[1..] == b;
    assert a + [p] + b == a + ([p] + b);
  }

  /** A corpus in which no title resolves writes nothing and ends at the end of input. */
  lemma {:induction false} NoEntitiesNoOutput(corpus: seq<Page>, templates: TemplateExtractor)
    requires forall i | 0 <= i < |corpus| :: corpus[i].entity == None
    ensures Run(corpus, templates) == RunResult([], Exhausted)
  {
    if corpus != [] {
      NoEntitiesNoOutput(corpus[1..], templates);
    }
  }

  /** A run ends at the end of input exactly when every page whose title resolves has a readable body. */
  lemma {:induction false} ExhaustedIffWellFormed(corpus: seq<Page>, templates: TemplateExtractor)
    ensures Run(corpus, templates).outcome == Exhausted <==>
      forall i | 0 <= i < |corpus| :: corpus[i].entity.Some? ==> corpus[i].body.Some?
  {
    if corpus != [] {
      ExhaustedIffWellFormed(corpus[1..], templates);
      assert forall i | 1 <= i < |corpus| :: corpus[i] == corpus[1..][i - 1];
    }
  }

  /** Every source string a run writes begins with the tag. */
  lemma {:induction false} SourcesTagged(corpus: seq<Page>, templates: TemplateExtractor)
    ensures forall e | e in Run(corpus, templates).emitted ::
      |e.source| >= |SourcePrefix| && e.source[..|SourcePrefix|] == SourcePrefix
  {
    if corpus != [] {
      SourcesTagged(corpus[1..], templates);
      var p := corpus[0];
      if p.entity.Some? && p.body.Some? {
        var cands := templates(Normalize(p.body.value), p.entity.value);
        EmitFiltersInOrder(cands);
        forall e | e in Emit(cands)
          ensures |e.source| >= |SourcePrefix| && e.source[..|SourcePrefix|] == SourcePrefix
        {
          var k :| 0 <= k < |Emit(cands)| && Emit(cands)[k] == e;
        }
      }
    }
  }
}
