/**
 * Answer generation: the retrieved passages are packed into a context under a
 * word budget, the language model answers from that context, and the names of
 * the files the first passages came from are appended to the answer.
 */
module GenererReponse {
  import opened PyText
  import opened PySorted
  import opened Documents

  const LimiteTokensParDefaut := 6000
  const Separateur := "\n\n---\n\n"
  const AucunDocument := "Aucun document pertinent trouvé pour répondre à votre question."
  const PasExploitable := "Les documents trouvés ne contiennent pas d'information exploitable."
  const ErreurTechnique := "Erreur technique lors de la génération de la réponse. Veuillez réessayer."
  const PhraseInsuffisante := "ne contiennent pas d'information suffisante"
  const EnteteSources := "\n\n📄 Sources consultées : "
  const DocumentsCites := 5

  /** What is sent to the model: the question and the packed context. */
  datatype GenerationPrompt = GenerationPrompt(question: string, contexte: string)

  // ---------------------------------------------------------- context packing

  /** The passage text as packed: stripped. */
  function Contenu(doc: Document): string {
    Strip(doc.pageContent)
  }

  /** The token estimate: the number of whitespace-separated words. */
  function WordCount(doc: Document): nat {
    |Words(Contenu(doc))|
  }

  /** The token estimates of the passages, in order. */
  function WordCounts(documents: seq<Document>): (counts: seq<nat>)
    ensures |counts| == |documents|
  {
    seq(|documents|, i requires 0 <= i < |documents| => WordCount(documents[i]))
  }

  function Sum(counts: seq<nat>): nat {
    if counts == [] then 0 else counts[0] + Sum(counts[1..])
  }

  function Contenus(documents: seq<Document>): seq<string> {
    seq(|documents|, i requires 0 <= i < |documents| => Contenu(documents[i]))
  }

  /** How many passages the packing takes, given their estimates: passages are
      taken in order while they fit in what is left of the budget; the first
      that does not fit ends the packing. */
  function Fitting(counts: seq<nat>, budget: int): (k: nat)
    ensures k <= |counts|
  {
    if counts == [] || counts[0] > budget then 0
    else 1 + Fitting(counts[1..], budget - counts[0])
  }

  function IncludedCount(documents: seq<Document>, limiteTokens: int): (k: nat)
    ensures k <= |documents|
  {
    Fitting(WordCounts(documents), limiteTokens)
  }

  /** The context `preparer_contexte` returns. */
  function Contexte(documents: seq<Document>, limiteTokens: int): string {
    Join(Separateur, Contenus(documents)[..IncludedCount(documents, limiteTokens)])
  }

  /** `preparer_contexte`: a greedy prefix of the passages under the word budget. */
  method PreparerContexte(documents: seq<Document>, limiteTokens: int) returns (contexte: string)
    ensures contexte == Contexte(documents, limiteTokens)
  {
    var contexteParts: seq<string> := [];
    var tokensActuels := 0;
    var i := 0;
    ghost var counts := WordCounts(documents);
    ghost var contenus := Contenus(documents);
    while i < |documents|
      invariant 0 <= i <= |documents|
      invariant contexteParts == contenus[..i]
      invariant Fitting(counts, limiteTokens) == i + Fitting(counts[i..], limiteTokens - tokensActuels)
    {
      var contenu := Contenu(documents[i]);
      var tokensEstimation := WordCount(documents[i]);
      FittingStep(counts, i, limiteTokens - tokensActuels);
      if tokensActuels + tokensEstimation > limiteTokens {
        break;
      }
      PrefixStep(contenus, i);
      contexteParts := contexteParts + [contenu];
      tokensActuels := tokensActuels + tokensEstimation;
      i := i + 1;
    }
    assert Fitting(counts, limiteTokens) == i;
    contexte := Join(Separateur, contexteParts);
  }

  /** One step of the packing, seen from passage `i`. */
  lemma FittingStep(counts: seq<nat>, i: nat, budget: int)
    requires i < |counts|
    ensures Fitting(counts[i..], budget) ==
      if counts[i] > budget then 0 else 1 + Fitting(counts[i + 1..], budget - counts[i])
  {
    assert counts[i..][1..] == counts[i + 1..];
  }

  lemma PrefixStep(s: seq<string>, i: nat)
    requires i < |s|
    ensures s[..i + 1] == s[..i] + [s[i]]
  {
  }

  lemma {:induction false} SumAppend(a: seq<nat>, b: seq<nat>)
    ensures Sum(a + b) == Sum(a) + Sum(b)
  {
    if a != [] {
      assert (a + b)[1..] == a[1..] + b;
      SumAppend(a[1..], b);
    } else {
      assert a + b == b;
    }
  }

  lemma SumMonotone(counts: seq<nat>, i: nat, j: nat)
    requires i <= j <= |counts|
    ensures Sum(counts[..i]) <= Sum(counts[..j])
  {
    assert counts[..j] == counts[..i] + counts[i..j];
    SumAppend(counts[..i], counts[i..j]);
  }

  /** The packed passages fit in the budget (trivially so when none is packed). */
  lemma {:induction false} FittingWithinBudget(counts: seq<nat>, budget: int)
    ensures var k := Fitting(counts, budget);
      Sum(counts[..k]) <= budget || (k == 0 && budget < 0)
  {
    var k := Fitting(counts, budget);
    if k > 0 {
      FittingWithinBudget(counts[1..], budget - counts[0]);
      assert counts[..k][1..] == counts[1..][..k - 1];
    }
  }

  /** The packing stops at the first passage that would overflow the budget. */
  lemma {:induction false} StopsAtFirstOverflow(counts: seq<nat>, budget: int)
    requires Fitting(counts, budget) < |counts|
    ensures var k := Fitting(counts, budget);
      Sum(counts[..k + 1]) > budget
  {
    var k := Fitting(counts, budget);
    if k > 0 {
      StopsAtFirstOverflow(counts[1..], budget - counts[0]);
      assert counts[..k + 1][1..] == counts[1..][..k];
    } else {
      assert counts[..1][1..] == [];
    }
  }

  /** Those two facts determine the number packed: it is the only count that fits
      and whose next passage would overflow. */
  lemma FittingUnique(counts: seq<nat>, budget: int, j: nat)
    requires j <= |counts|
    requires j == 0 || Sum(counts[..j]) <= budget
    requires j == |counts| || Sum(counts[..j + 1]) > budget
    ensures j == Fitting(counts, budget)
  {
    var k := Fitting(counts, budget);
    FittingWithinBudget(counts, budget);
    if j < k {
      SumMonotone(counts, j + 1, k);
    } else if j > k {
      StopsAtFirstOverflow(counts, budget);
      SumMonotone(counts, k + 1, j);
    }
  }

  /** A first passage over the budget leaves the context empty, even when a later,
      shorter passage would fit: the packing breaks, it does not skip. */
  lemma FirstOverflowLeavesNothing(documents: seq<Document>, limiteTokens: int)
    requires documents != [] && WordCount(documents[0]) > limiteTokens
    ensures Contexte(documents, limiteTokens) == ""
  {
    assert WordCounts(documents)[0] == WordCount(documents[0]);
  }

  /** The context is blank exactly when nothing was packed or when the only packed
      passage is blank: with two passages or more the separator's dashes remain. */
  lemma BlankContextIff(documents: seq<Document>, limiteTokens: int)
    ensures var k := IncludedCount(documents, limiteTokens);
      Strip(Contexte(documents, limiteTokens)) == [] <==>
      k == 0 || (k == 1 && Contenu(documents[0]) == [])
  {
    var k := IncludedCount(documents, limiteTokens);
    var parts := Contenus(documents)[..k];
    var c := Contexte(documents, limiteTokens);
    StripEmptyIff(c);
    if k == 1 {
      assert c == Contenu(documents[0]);
      StripStripped(c);
    } else if k >= 2 {
      assert c == parts[0] + Separateur + Join(Separateur, parts[1..]);
      assert c[|parts[0]| + 2] == '-';
    }
  }

  // ------------------------------------------------------------ the answer

  /** The prompt `generer_reponse` sends, or None when it answers without the model. */
  function GenerationRequest(question: string, documents: seq<Document>): Option<GenerationPrompt> {
    if documents == [] then None
    else
      var contexte := Contexte(documents, LimiteTokensParDefaut);
      if Strip(contexte) == [] then None
      else Some(GenerationPrompt(question, contexte))
  }

  /** `generer_reponse`: `reply` is what the model answered to `GenerationRequest(question, documents)`. */
  function GenererReponse(question: string, documents: seq<Document>, reply: Reply<string>): (r: string)
    // without a usable context the model is not consulted and a fixed message is returned
    ensures documents == [] ==> r == AucunDocument
    ensures documents != [] && GenerationRequest(question, documents).None? ==> r == PasExploitable
    // otherwise a failed call gives the fixed error message ...
    ensures GenerationRequest(question, documents).Some? && reply.CallFailed? ==> r == ErreurTechnique
    // ... and an answer is the model's text with its surrounding whitespace removed
    ensures GenerationRequest(question, documents).Some? && reply.Answered? ==>
      r == Strip(reply.content) && Infix(r, reply.content)
  {
    if documents == [] then AucunDocument
    else
      var contexte := Contexte(documents, LimiteTokensParDefaut);
      if Strip(contexte) == [] then PasExploitable
      else
        match reply
        case CallFailed => ErreurTechnique
        case Answered(texte) =>
          StripInfix(texte);
          Strip(texte)
  }

  /** A first passage longer than the budget makes the answer the fixed
      "no exploitable information" message, whatever follows it. */
  lemma OverlongFirstPassageUnusable(question: string, documents: seq<Document>, reply: Reply<string>)
    requires documents != [] && WordCount(documents[0]) > LimiteTokensParDefaut
    ensures GenerationRequest(question, documents).None?
    ensures GenererReponse(question, documents, reply) == PasExploitable
  {
    FirstOverflowLeavesNothing(documents, LimiteTokensParDefaut);
  }

  /** Two blank passages still reach the model: their context is the bare separator. */
  lemma TwoBlankPassagesReachModel(question: string, a: Document, b: Document)
    requires AllSpace(a.pageContent) && AllSpace(b.pageContent)
    ensures GenerationRequest(question, [a, b]) == Some(GenerationPrompt(question, Separateur))
  {
    BlankPassagesPacked(a, b);
    BlankContextIff([a, b], LimiteTokensParDefaut);
  }

  lemma BlankPassagesPacked(a: Document, b: Document)
    requires AllSpace(a.pageContent) && AllSpace(b.pageContent)
    ensures IncludedCount([a, b], LimiteTokensParDefaut) == 2
    ensures Contexte([a, b], LimiteTokensParDefaut) == Separateur
  {
    BlankPassage(a);
    BlankPassage(b);
    var docs := [a, b];
    var counts := WordCounts(docs);
    assert counts == [0, 0];
    assert counts[1..] == [0] && counts[1..][1..] == [];
    assert Fitting(counts[1..], LimiteTokensParDefaut) == 1;
    assert Contenus(docs)[..2] == ["", ""];
    assert ["", ""][1..] == [""];
  }

  lemma BlankPassage(doc: Document)
    requires AllSpace(doc.pageContent)
    ensures Contenu(doc) == "" && WordCount(doc) == 0
  {
    StripEmptyIff(doc.pageContent);
    assert Words([]) == [];
  }

  // --------------------------------------------------------------- sources

  /** The file name of a passage's `source`, if it has one. */
  function SourceOf(doc: Document): set<string> {
    if "source" in doc.metadata then {LastSegment(doc.metadata["source"], '/')} else {}
  }

  /** The `i`-th passage has a `source` whose file name is `name`. */
  predicate CitesAt(documents: seq<Document>, i: int, name: string) {
    0 <= i < |documents| && "source" in documents[i].metadata &&
    name == LastSegment(documents[i].metadata["source"], '/')
  }

  function SourceNames(documents: seq<Document>): set<string> {
    if documents == [] then {} else SourceOf(documents[0]) + SourceNames(documents[1..])
  }

  /** The answer `generer_reponse_avec_source` returns, given the answer `reponse`
      of `generer_reponse`. */
  ghost function AvecSources(reponse: string, documents: seq<Document>): string {
    var sources := SourceNames(SliceTo(documents, DocumentsCites));
    if documents != [] && !Contains(reponse, PhraseInsuffisante) && sources != {} then
      reponse + EnteteSources + Join(", ", SortedList(sources))
    else
      reponse
  }

  /** `generer_reponse_avec_source`: the answer, then the sorted file names of the
      first five passages unless the answer admits insufficient information. */
  method GenererReponseAvecSource(question: string, documents: seq<Document>, reply: Reply<string>)
    returns (reponse: string)
    ensures reponse == AvecSources(GenererReponse(question, documents, reply), documents)
  {
    var reponsePrincipale := GenererReponse(question, documents, reply);
    reponse := AjouterSources(reponsePrincipale, documents);
  }

  /** The second half of `generer_reponse_avec_source`: collecting the file names
      of the first five passages and appending them, sorted, to the answer. */
  method AjouterSources(reponse: string, documents: seq<Document>) returns (reponsePrincipale: string)
    ensures reponsePrincipale == AvecSources(reponse, documents)
  {
    reponsePrincipale := reponse;
    if documents != [] && !Contains(reponsePrincipale, PhraseInsuffisante) {
      var sources: set<string> := {};
      var premiers := SliceTo(documents, DocumentsCites);
      for i := 0 to |premiers|
        invariant SourceNames(premiers) == sources + SourceNames(premiers[i..])
      {
        SourceNamesStep(premiers, i);
        var doc := premiers[i];
        if "source" in doc.metadata {
          var nomFichier := LastSegment(doc.metadata["source"], '/');
          sources := sources + {nomFichier};
        }
      }
      if sources != {} {
        var sourcesTriees := Sorted(sources);
        reponsePrincipale := reponsePrincipale + EnteteSources + Join(", ", sourcesTriees);
      }
    }
  }

  lemma SourceNamesStep(documents: seq<Document>, i: nat)
    requires i < |documents|
    ensures SourceNames(documents[i..]) == SourceOf(documents[i]) + SourceNames(documents[i + 1..])
  {
    assert documents[i..][1..] == documents[i + 1..];
  }

  /** A name is cited exactly when it ends the `source` path of one of the passages. */
  lemma {:induction false} SourceNamesSpec(documents: seq<Document>, name: string)
    ensures name in SourceNames(documents) <==> exists i :: CitesAt(documents, i, name)
  {
    if documents != [] {
      SourceNamesSpec(documents[1..], name);
      if name in SourceNames(documents[1..]) {
        var i :| CitesAt(documents[1..], i, name);
        assert documents[1..][i] == documents[i + 1];
        assert CitesAt(documents, i + 1, name);
      } else if name in SourceOf(documents[0]) {
        assert CitesAt(documents, 0, name);
      }
      if exists i :: CitesAt(documents, i, name) {
        var i :| CitesAt(documents, i, name);
        if i > 0 {
          assert documents[1..][i - 1] == documents[i];
          assert CitesAt(documents[1..], i - 1, name);
        }
      }
    }
  }

  /** The sources suffix is added exactly when there are passages, the answer does not
      admit insufficient information, and one of the first five passages has a source. */
  lemma SourcesAddedIff(reponse: string, documents: seq<Document>)
    ensures AvecSources(reponse, documents) != reponse <==>
      documents != [] && !Contains(reponse, PhraseInsuffisante) &&
      SourceNames(SliceTo(documents, DocumentsCites)) != {}
  {
    assert |EnteteSources| > 0;
  }

  /** What the suffix lists: each file name of the first five passages once, in
      increasing order, each free of '/' and ending the path it came from. */
  lemma CitedSources(reponse: string, documents: seq<Document>)
    requires AvecSources(reponse, documents) != reponse
    ensures var sources := SourceNames(SliceTo(documents, DocumentsCites));
      var listed := SortedList(sources);
      && AvecSources(reponse, documents) == reponse + EnteteSources + Join(", ", listed)
      && StrictlySorted(listed)
      && Elements(listed) == sources
      && forall name | name in listed ::
           '/' !in name && exists i | 0 <= i < DocumentsCites :: CitesAt(documents, i, name)
  {
    var premiers := SliceTo(documents, DocumentsCites);
    var sources := SourceNames(premiers);
    SortedListSpec(sources);
    forall name | name in SortedList(sources)
      ensures '/' !in name
      ensures exists i | 0 <= i < DocumentsCites :: CitesAt(documents, i, name)
    {
      assert name in Elements(SortedList(sources));
      SourceNamesSpec(premiers, name);
      var i :| CitesAt(premiers, i, name);
      assert premiers[i] == documents[i];
      assert CitesAt(documents, i, name);
      LastSegmentSpec(premiers[i].metadata["source"], '/');
    }
  }

  /** Passages after the fifth never change the answer. */
  lemma LaterPassagesNotCited(reponse: string, documents: seq<Document>, extra: seq<Document>)
    requires |documents| >= DocumentsCites
    ensures AvecSources(reponse, documents + extra) == AvecSources(reponse, documents)
  {
    assert SliceTo(documents + extra, DocumentsCites) == SliceTo(documents, DocumentsCites);
  }
}
