/**
 * The relevance judge of the corrective-retrieval assistant (class `EvaluateurCRAG`):
 * it shows the language model the first five retrieved passages, reads back a
 * score, a verdict and a reason, and maps the verdict onto the assistant's
 * decision vocabulary together with the passages to keep.
 */
module Evaluateur {
  import opened PyText
  import opened Documents

  /** The decision labels. The first four are the vocabulary the retrieval loop
      branches on; `Ambigu` is the judge's raw verdict, which the call-failure
      path returns without mapping it. */
  datatype Label = Utiliser | UtiliserPartiel | Reformuler | ChercherPlus | Ambigu {
    predicate InVocabulary() { !Ambigu? }
  }

  /** The dictionary `evaluer_pertinence` returns. */
  datatype Evaluation = Evaluation(
    scoreGlobal: real,
    decision: Label,
    documentsPertinents: seq<Document>,
    raison: string)

  /** What the `SCORE:` pattern captured: nothing, digits and dots that `float()`
      reads as a number, or digits and dots it rejects (such as `1.2.3` or `.`). */
  datatype ScoreCapture = NoScore | Score(value: real) | Unparseable

  /** The three captures taken from the judge's reply: the score, the word after
      `DECISION:` and the rest of the line after `RAISON:`. */
  datatype Captures = Captures(score: ScoreCapture, decision: Option<string>, reason: Option<string>)

  /** What is sent to the judge: the question and the formatted passages. */
  datatype EvaluationPrompt = EvaluationPrompt(question: string, context: string)

  const ShownDocuments := 5
  const ExcerptLength := 300
  const PartialUseThreshold: real := 0.6
  const NeutralScore: real := 0.5

  const NoDocuments := Evaluation(0.0, ChercherPlus, [], "Aucun document trouvé")
  const CallFailedReason := "Erreur évaluation"
  const DefaultReason := "Évaluation automatique"
  const ParseFailedReason := "Évaluation par défaut"

  // ------------------------------------------------------- the judge's input

  /** The entry for the passage of rank `rank` (counted from 1). */
  function Entry(rank: nat, doc: Document): string {
    "DOC" + NatToString(rank) + ": " + SliceTo(doc.pageContent, ExcerptLength) + "..."
  }

  function Entries(documents: seq<Document>): seq<string> {
    seq(|documents|, k requires 0 <= k < |documents| => Entry(k + 1, documents[k]))
  }

  /** The text `_preparer_contexte_evaluation` builds: the entries separated by blank lines. */
  function EvaluationContext(documents: seq<Document>): string {
    Join("\n\n", Entries(documents))
  }

  /** `_preparer_contexte_evaluation`: one entry per passage, in order. */
  method PreparerContexteEvaluation(documents: seq<Document>) returns (contexte: string)
    ensures contexte == EvaluationContext(documents)
  {
    var contexteParts: seq<string> := [];
    for i := 0 to |documents|
      invariant contexteParts == Entries(documents)[..i]
    {
      var contenu := SliceTo(documents[i].pageContent, ExcerptLength);
      contexteParts := contexteParts + ["DOC" + NatToString(i + 1) + ": " + contenu + "..."];
    }
    assert Entries(documents)[..|documents|] == Entries(documents);
    contexte := Join("\n\n", contexteParts);
  }

  /** The prompt `evaluer_pertinence` sends, or None when it does not call the judge. */
  function EvaluationRequest(question: string, documents: seq<Document>): (r: Option<EvaluationPrompt>)
    ensures r.None? <==> documents == []
  {
    if documents == [] then None
    else Some(EvaluationPrompt(question, EvaluationContext(SliceTo(documents, ShownDocuments))))
  }

  // --------------------------------------------------- reading the verdict

  /** `_parser_evaluation`: the decision table from the judge's verdict to a label
      and a prefix of the passages. */
  function ParserEvaluation(captures: Captures, documents: seq<Document>): (r: Evaluation)
    ensures r.decision.InVocabulary()
    ensures r.documentsPertinents <= documents
    // a `float()` failure falls back to partial use of the first three passages
    ensures captures.score.Unparseable? ==>
      r == Evaluation(NeutralScore, UtiliserPartiel, documents[..Min(3, |documents|)], ParseFailedReason)
  {
    if captures.score.Unparseable? then
      Evaluation(NeutralScore, UtiliserPartiel, SliceTo(documents, 3), ParseFailedReason)
    else
      var score := if captures.score.Score? then captures.score.value else NeutralScore;
      var decisionBrute := if captures.decision.Some? then captures.decision.value else "AMBIGU";
      var raison := if captures.reason.Some? then Strip(captures.reason.value) else DefaultReason;
      if decisionBrute == "CORRECT" then
        Evaluation(score, Utiliser, documents, raison)
      else if decisionBrute == "AMBIGU" then
        var decision := if score < PartialUseThreshold then Reformuler else UtiliserPartiel;
        Evaluation(score, decision, SliceTo(documents, Max(2, |documents| / 2)), raison)
      else
        Evaluation(score, ChercherPlus, [], raison)
  }

  /** A readable score is taken as read, without clamping, and 0.5 when absent;
      the reason is the captured text stripped, or a fixed default. */
  lemma ParsedScoreAndReason(captures: Captures, documents: seq<Document>)
    requires !captures.score.Unparseable?
    ensures var r := ParserEvaluation(captures, documents);
      && (captures.score.Score? ==> r.scoreGlobal == captures.score.value)
      && (captures.score.NoScore? ==> r.scoreGlobal == NeutralScore)
      && r.raison == (if captures.reason.Some? then Strip(captures.reason.value) else DefaultReason)
  {
  }

  /** The decision table for a readable score: CORRECT keeps every passage, including
      those the judge was not shown; AMBIGU (also when no verdict was found) splits on
      the 0.6 threshold and keeps about half; any other verdict asks for a broader
      search and keeps nothing. */
  lemma ParsedDecision(captures: Captures, documents: seq<Document>)
    requires !captures.score.Unparseable?
    ensures var r := ParserEvaluation(captures, documents);
      var ambigu := captures.decision.None? || captures.decision == Some("AMBIGU");
      && (r.decision == Utiliser <==> captures.decision == Some("CORRECT"))
      && (r.decision == Utiliser ==> r.documentsPertinents == documents)
      && (r.decision == Reformuler <==> ambigu && r.scoreGlobal < PartialUseThreshold)
      && (r.decision == UtiliserPartiel <==> ambigu && r.scoreGlobal >= PartialUseThreshold)
      && (ambigu ==> |r.documentsPertinents| == Min(|documents|, Max(2, |documents| / 2)))
      && (r.decision == ChercherPlus <==>
            captures.decision.Some? && captures.decision.value != "CORRECT" && captures.decision.value != "AMBIGU")
      && (r.decision == ChercherPlus ==> r.documentsPertinents == [])
  {
  }

  /** `evaluer_pertinence`: `reply` is what the judge answered to
      `EvaluationRequest(question, documents)`, already reduced to its captures. */
  function EvaluerPertinence(question: string, documents: seq<Document>, reply: Reply<Captures>): (r: Evaluation)
    ensures r.documentsPertinents <= documents
    ensures documents == [] ==> r == NoDocuments
    ensures r.decision.InVocabulary() <==> documents == [] || reply.Answered?
    ensures documents != [] && reply.CallFailed? ==>
      r == Evaluation(NeutralScore, Ambigu, documents[..Min(3, |documents|)], CallFailedReason)
    ensures documents != [] && reply.Answered? ==> r == ParserEvaluation(reply.content, documents)
  {
    if documents == [] then NoDocuments
    else
      match reply
      case CallFailed =>
        Evaluation(NeutralScore, Ambigu, SliceTo(documents, 3), CallFailedReason)
      case Answered(captures) =>
        ParserEvaluation(captures, documents)
  }

  // ------------------------------------------------------------ properties

  /** With no passages the judge is not consulted: the outcome is the same whatever it would answer. */
  lemma NoDocumentsIgnoresJudge(question: string, reply: Reply<Captures>)
    ensures EvaluationRequest(question, []) == None
    ensures EvaluerPertinence(question, [], reply) == NoDocuments
  {
  }

  /** A reply with none of the three fields reads as AMBIGU with score 0.5, which is
      below the threshold: reformulate, keeping about half the passages. */
  lemma EmptyReplyReformulates(documents: seq<Document>)
    requires documents != []
    ensures var r := EvaluerPertinence([], documents, Answered(Captures(NoScore, None, None)));
      r == Evaluation(NeutralScore, Reformuler, documents[..Min(|documents|, Max(2, |documents| / 2))], DefaultReason)
  {
  }

  /** The judge sees at most five passages, but a CORRECT verdict keeps all of them. */
  lemma {:induction false} CorrectKeepsUnshownPassages(question: string, documents: seq<Document>, score: ScoreCapture, reason: Option<string>)
    requires |documents| > ShownDocuments && !score.Unparseable?
    ensures EvaluationRequest(question, documents).Some?
    ensures EvaluationRequest(question, documents).value.context == EvaluationContext(documents[..ShownDocuments])
    ensures EvaluerPertinence(question, documents, Answered(Captures(score, Some("CORRECT"), reason))).documentsPertinents == documents
  {
  }

  /** The score is not clamped to [0, 1]: a reply `SCORE: 7` is kept as 7. */
  lemma ScoreNotClamped(documents: seq<Document>, verdict: Option<string>)
    requires documents != []
    ensures EvaluerPertinence([], documents, Answered(Captures(Score(7.0), verdict, None))).scoreGlobal == 7.0
  {
  }

  /** What the judge is shown depends only on the first 300 characters of the first five passages. */
  lemma {:induction false} JudgeSeesOnlyExcerpts(question: string, a: seq<Document>, b: seq<Document>)
    requires (a == []) == (b == [])
    requires Min(ShownDocuments, |a|) == Min(ShownDocuments, |b|)
    requires forall k | 0 <= k < Min(ShownDocuments, |a|) ::
      SliceTo(a[k].pageContent, ExcerptLength) == SliceTo(b[k].pageContent, ExcerptLength)
    ensures EvaluationRequest(question, a) == EvaluationRequest(question, b)
  {
    if a != [] {
      var sa, sb := SliceTo(a, ShownDocuments), SliceTo(b, ShownDocuments);
      assert Entries(sa) == Entries(sb) by {
        forall k | 0 <= k < |sa| ensures Entries(sa)[k] == Entries(sb)[k] {
          assert sa[k] == a[k] && sb[k] == b[k];
        }
      }
    }
  }

  /** However many and however long the passages, the context shown to the judge
      has at most 5 entries of at most 309 characters: 1553 characters in all. */
  lemma {:induction false} EvaluationContextBounded(question: string, documents: seq<Document>)
    requires documents != []
    ensures |EvaluationRequest(question, documents).value.context| <= 1553
  {
    var shown := SliceTo(documents, ShownDocuments);
    var entries := Entries(shown);
    forall k | 0 <= k < |entries| ensures |entries[k]| <= 309 {
      assert |NatToString(k + 1)| == 1;
    }
    TotalLengthBound(entries, 309);
    JoinLength("\n\n", entries);
  }

  lemma {:induction false} TotalLengthBound(parts: seq<string>, bound: nat)
    requires forall k | 0 <= k < |parts| :: |parts[k]| <= bound
    ensures TotalLength(parts) <= bound * |parts|
  {
    if parts != [] {
      TotalLengthBound(parts[1..], bound);
    }
  }
}

/**
 * The query rewriter (class `ReformulateursRequete`): the language model is asked
 * for alternative phrasings or for keywords, and its free text is cut into a list.
 */
module Reformulateurs {
  import opened PyText
  import opened Documents

  const NombreVariantesParDefaut := 3
  const MotsClesDeSecours := 5

  /** `[x.strip() for x in parts]`. */
  function StripAll(parts: seq<string>): seq<string> {
    seq(|parts|, i requires 0 <= i < |parts| => Strip(parts[i]))
  }

  lemma StripAllAppend(a: seq<string>, b: seq<string>)
    ensures StripAll(a + b) == StripAll(a) + StripAll(b)
  {
    assert forall i | 0 <= i < |a + b| :: StripAll(a + b)[i] == (StripAll(a) + StripAll(b))[i];
  }

  /** `[v for v in xs if v]`: the non-empty items, in order. */
  function NonBlank(xs: seq<string>): (r: seq<string>)
    ensures |r| <= |xs|
    ensures forall v | v in r :: v in xs && v != []
    ensures forall v | v in xs && v != [] :: v in r
  {
    if xs == [] then []
    else (if xs[0] == [] then [] else [xs[0]]) + NonBlank(xs[1..])
  }

  /** The filter keeps order: it works on each part of a list independently. */
  lemma {:induction false} NonBlankAppend(a: seq<string>, b: seq<string>)
    ensures NonBlank(a + b) == NonBlank(a) + NonBlank(b)
  {
    if a == [] {
      assert a + b == b;
    } else {
      var head := if a[0] != [] then [a[0]] else [];
      assert (a + b)[0] == a[0] && (a + b)[1..] == a[1..] + b;
      assert NonBlank(a + b) == head + NonBlank(a[1..] + b);
      NonBlankAppend(a[1..], b);
      assert NonBlank(a) == head + NonBlank(a[1..]);
    }
  }

  /** The test `m and len(m) > 2`. */
  predicate IsLongTerm(m: string) {
    m != [] && |m| > 2
  }

  /** `[m for m in xs if m and len(m) > 2]`: the items longer than two characters, in order. */
  function LongTerms(xs: seq<string>): (r: seq<string>)
    ensures |r| <= |xs|
    ensures forall m | m in r :: m in xs && IsLongTerm(m)
    ensures forall m | m in xs && IsLongTerm(m) :: m in r
  {
    if xs == [] then []
    else (if IsLongTerm(xs[0]) then [xs[0]] else []) + LongTerms(xs[1..])
  }

  /** The filter keeps order: it works on each part of a list independently. */
  lemma {:induction false} LongTermsAppend(a: seq<string>, b: seq<string>)
    ensures LongTerms(a + b) == LongTerms(a) + LongTerms(b)
  {
    if a == [] {
      assert a + b == b;
    } else {
      var head := if IsLongTerm(a[0]) then [a[0]] else [];
      calc {
        LongTerms(a + b);
        { assert a + b == [a[0]] + (a[1..] + b); }
        LongTerms([a[0]] + (a[1..] + b));
        { LongTermsCons(a[0], a[1..] + b); }
        head + LongTerms(a[1..] + b);
        { LongTermsAppend(a[1..], b); }
        head + (LongTerms(a[1..]) + LongTerms(b));
        (head + LongTerms(a[1..])) + LongTerms(b);
        { LongTermsCons(a[0], a[1..]); assert [a[0]] + a[1..] == a; }
        LongTerms(a) + LongTerms(b);
      }
    }
  }

  lemma LongTermsCons(x: string, xs: seq<string>)
    ensures LongTerms([x] + xs) == (if IsLongTerm(x) then [x] else []) + LongTerms(xs)
  {
    assert ([x] + xs)[1..] == xs;
  }

  /** `generer_variantes`: the non-blank lines of the reply, stripped, at most
      `nbVariantes` of them; the original question alone if the call fails. */
  function GenererVariantes(questionOriginale: string, nbVariantes: int, reply: Reply<string>): (r: seq<string>)
    ensures reply.CallFailed? ==> r == [questionOriginale]
    ensures reply.Answered? ==> forall v | v in r :: v != [] && IsStripped(v)
    ensures reply.Answered? && nbVariantes >= 0 ==> |r| <= nbVariantes
    ensures reply.Answered? ==>
      var variantes := NonBlank(StripAll(SplitOn(reply.content, '\n')));
      r <= variantes &&
      |r| == (if nbVariantes >= 0 then Min(nbVariantes, |variantes|) else Max(0, |variantes| + nbVariantes))
  {
    match reply
    case CallFailed => [questionOriginale]
    case Answered(texte) =>
      var variantes := NonBlank(StripAll(SplitOn(texte, '\n')));
      var r := SliceTo(variantes, nbVariantes);
      assert forall v | v in r :: v in variantes;
      r
  }

  /** `extraire_mots_cles_juridiques`: the comma-separated terms of the reply,
      stripped, longer than two characters; the first five words of the question,
      unfiltered, if the call fails. */
  function ExtraireMotsCles(question: string, reply: Reply<string>): (r: seq<string>)
    ensures reply.Answered? ==> forall m | m in r :: |m| > 2 && IsStripped(m)
    ensures reply.Answered? ==>
      forall j | 0 <= j < |SplitOn(reply.content, ',')| && |Strip(SplitOn(reply.content, ',')[j])| > 2 ::
        Strip(SplitOn(reply.content, ',')[j]) in r
    ensures reply.CallFailed? ==> r <= Words(question) && |r| == Min(MotsClesDeSecours, |Words(question)|)
    ensures reply.CallFailed? ==> forall m | m in r :: m != [] && NoSpace(m)
  {
    match reply
    case CallFailed =>
      var r := SliceTo(Words(question), MotsClesDeSecours);
      assert forall m | m in r :: m in Words(question);
      r
    case Answered(texte) =>
      LongStrippedTerms(SplitOn(texte, ','));
      LongTerms(StripAll(SplitOn(texte, ',')))
  }

  /** The long terms of a stripped list are stripped, and every long stripped item is among them. */
  lemma LongStrippedTerms(pieces: seq<string>)
    ensures forall m | m in LongTerms(StripAll(pieces)) :: |m| > 2 && IsStripped(m)
    ensures forall j | 0 <= j < |pieces| && |Strip(pieces[j])| > 2 :: Strip(pieces[j]) in LongTerms(StripAll(pieces))
  {
    var termes := StripAll(pieces);
    forall m | m in LongTerms(termes) ensures |m| > 2 && IsStripped(m) {
      var j :| 0 <= j < |termes| && termes[j] == m;
    }
    forall j | 0 <= j < |pieces| && |Strip(pieces[j])| > 2 ensures Strip(pieces[j]) in LongTerms(termes) {
      assert termes[j] in termes;
    }
  }

  // ------------------------------------------------------------ properties

  lemma InfixExcludes(sub: string, s: string, c: char)
    requires Infix(sub, s) && c !in s
    ensures c !in sub
  {
    var i :| OccursAt(sub, s, i);
  }

  /** A piece of `texte.split(sep)`, stripped, occurs in the text and holds no separator. */
  lemma StrippedPieceOfText(texte: string, sep: char, j: nat)
    requires j < |SplitOn(texte, sep)|
    ensures Infix(Strip(SplitOn(texte, sep)[j]), texte)
    ensures sep !in Strip(SplitOn(texte, sep)[j])
  {
    var pieces := SplitOn(texte, sep);
    assert pieces[j] in pieces;
    StripInfix(pieces[j]);
    JoinInfix([sep], pieces, j);
    JoinSplitOn(texte, sep);
    InfixTransitive(Strip(pieces[j]), pieces[j], texte);
    InfixExcludes(Strip(pieces[j]), pieces[j], sep);
  }

  /** Every variant is one line of the model's reply, verbatim up to surrounding whitespace. */
  lemma VariantsAreReplyLines(questionOriginale: string, nbVariantes: int, texte: string, k: nat)
    requires k < |GenererVariantes(questionOriginale, nbVariantes, Answered(texte))|
    ensures var v := GenererVariantes(questionOriginale, nbVariantes, Answered(texte))[k];
      Infix(v, texte) && '\n' !in v &&
      exists j | 0 <= j < |SplitOn(texte, '\n')| :: v == Strip(SplitOn(texte, '\n')[j])
  {
    var lines := SplitOn(texte, '\n');
    var v := GenererVariantes(questionOriginale, nbVariantes, Answered(texte))[k];
    assert v in NonBlank(StripAll(lines));
    var j :| 0 <= j < |lines| && StripAll(lines)[j] == v;
    StrippedPieceOfText(texte, '\n', j);
  }

  /** Read line by line, the reply yields its non-blank lines as variants in order:
      whenever the first `i` lines hold no more than `nbVariantes` non-blank ones,
      those lines, stripped and in their order, begin the list of variants. */
  lemma VariantsFollowLines(questionOriginale: string, nbVariantes: int, texte: string, i: nat)
    requires i <= |SplitOn(texte, '\n')|
    requires |NonBlank(StripAll(SplitOn(texte, '\n')[..i]))| <= nbVariantes
    ensures NonBlank(StripAll(SplitOn(texte, '\n')[..i])) <= GenererVariantes(questionOriginale, nbVariantes, Answered(texte))
  {
    var lines := SplitOn(texte, '\n');
    assert lines == lines[..i] + lines[i..];
    StripAllAppend(lines[..i], lines[i..]);
    NonBlankAppend(StripAll(lines[..i]), StripAll(lines[i..]));
  }

  /** A reply whose first line is not blank gives that line, stripped, as the first variant. */
  lemma FirstLineFirstVariant(questionOriginale: string, nbVariantes: int, texte: string)
    requires nbVariantes >= 1
    requires Strip(SplitOn(texte, '\n')[0]) != []
    ensures GenererVariantes(questionOriginale, nbVariantes, Answered(texte))[0] == Strip(SplitOn(texte, '\n')[0])
  {
    var lines := SplitOn(texte, '\n');
    assert lines[..1] == [lines[0]];
    assert StripAll(lines[..1]) == [Strip(lines[0])];
    VariantsFollowLines(questionOriginale, nbVariantes, texte, 1);
  }

  /** When the reply has enough non-blank lines, exactly `nbVariantes` variants come back. */
  lemma VariantCountReached(questionOriginale: string, nbVariantes: nat, texte: string)
    requires |NonBlank(StripAll(SplitOn(texte, '\n')))| >= nbVariantes
    ensures |GenererVariantes(questionOriginale, nbVariantes, Answered(texte))| == nbVariantes
  {
  }

  /** Called with its default count, a reply of three or more non-blank lines gives three variants. */
  lemma DefaultVariantCount(questionOriginale: string, texte: string)
    requires |NonBlank(StripAll(SplitOn(texte, '\n')))| >= NombreVariantesParDefaut
    ensures |GenererVariantes(questionOriginale, NombreVariantesParDefaut, Answered(texte))| == 3
  {
    VariantCountReached(questionOriginale, NombreVariantesParDefaut, texte);
  }

  /** The fallback ignores `nbVariantes`: asking for no variant still yields one. */
  lemma FallbackIgnoresCount(questionOriginale: string, nbVariantes: int)
    ensures |GenererVariantes(questionOriginale, nbVariantes, CallFailed)| == 1
  {
  }

  /** Every keyword is a comma-separated term of the model's reply, found verbatim in it. */
  lemma KeywordsAreReplyTerms(question: string, texte: string, k: nat)
    requires k < |ExtraireMotsCles(question, Answered(texte))|
    ensures var m := ExtraireMotsCles(question, Answered(texte))[k];
      Infix(m, texte) && ',' !in m &&
      exists j | 0 <= j < |SplitOn(texte, ',')| :: m == Strip(SplitOn(texte, ',')[j])
  {
    var pieces := SplitOn(texte, ',');
    var m := ExtraireMotsCles(question, Answered(texte))[k];
    assert m in LongTerms(StripAll(pieces));
    var j :| 0 <= j < |pieces| && StripAll(pieces)[j] == m;
    StrippedPieceOfText(texte, ',', j);
  }

  /** The keywords keep the order of the reply: the long terms among the first `i`
      comma-separated pieces come first, followed by those of the rest. */
  lemma KeywordsFollowTerms(question: string, texte: string, i: nat)
    requires i <= |SplitOn(texte, ',')|
    ensures ExtraireMotsCles(question, Answered(texte))
      == LongTerms(StripAll(SplitOn(texte, ',')[..i])) + LongTerms(StripAll(SplitOn(texte, ',')[i..]))
  {
    var pieces := SplitOn(texte, ',');
    assert pieces == pieces[..i] + pieces[i..];
    StripAllAppend(pieces[..i], pieces[i..]);
    LongTermsAppend(StripAll(pieces[..i]), StripAll(pieces[i..]));
  }

  /** The fallback keywords are words of the question, but their length is not checked:
      whatever the first word is, however short, it comes back first. */
  lemma FallbackKeepsShortWords(question: string)
    requires Words(question) != []
    ensures ExtraireMotsCles(question, CallFailed)[0] == Words(question)[0]
    ensures Infix(ExtraireMotsCles(question, CallFailed)[0], question)
  {
    WordsInfix(question, 0);
  }
}
