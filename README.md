# Corrective retrieval and answer generation of the labour-law assistant

This project models, in Dafny, the decision logic of a question-answering assistant
for Ivorian labour law. Passages retrieved from the law texts are judged by a
language model (the relevance judge of `EvaluateurCRAG`). The judge's verdict
becomes a decision: use the passages, use part of them, rephrase the question, or
search further. The question rewriter (`ReformulateursRequete`) asks the model for
alternative phrasings and keywords and cuts its free text into lists. Finally the
answer generator packs the passages into a context under a word budget. It asks the
model for an answer and appends the names of the source files.

The language model is not modelled. Each call is a parameter `reply` of type
`Reply<T>`: either `CallFailed` (the call raised) or `Answered(content)`. Whether
the model is called, and with what, is stated by the request functions
(`Evaluateur.EvaluationRequest`, `GenererReponse.GenerationRequest`). They return
`None` exactly when the code answers without calling the model.

Files:

- `documents.dfy` holds the retrieved passage (`Document`: text plus metadata),
  `Option` and `Reply`.
- `pytext.dfy` models the Python string built-ins the code relies on. These are
  `isspace`, `strip`, `split()`, `split(sep)`, `join`, `in`, `s[:k]`,
  `split('/')[-1]` and `str(n)`. Each comes with lemmas giving its meaning.
- `pysorted.dfy` models `sorted()` on a set of strings, in code-point order. The
  method `Sorted` is proved equal to the least-first specification `SortedList`.
- `evaluateur.dfy` holds the relevance judge (module `Evaluateur`) and the query
  rewriter (module `Reformulateurs`).
- `generer_reponse.dfy` holds context packing, answer generation and source citation
  (module `GenererReponse`).

## Behaviour worth knowing

These facts hold of the code as written. Each is proved about the model.

- The judge's score is used as read. It is not clamped to [0, 1] (`Evaluateur.ScoreNotClamped`).
- When the judge call fails, the decision is `AMBIGU`. That is the judge's raw
  verdict, not one of the four decisions the retrieval loop acts on.
- A CORRECT verdict keeps every passage, including those beyond the five the judge was shown.
- When the keyword call fails, the fallback returns the first five words of the
  question. They are not filtered by length, unlike the model's keywords.
- When the rephrasing call fails, the original question comes back alone, even if
  zero variants were asked for.
- Context packing stops at the first passage that does not fit. If the first passage
  alone exceeds 6000 words, the answer is the "no exploitable information" message,
  even when later passages would fit.
- Two blank passages still reach the model. Their context is the bare separator
  `\n\n---\n\n`, which is not blank.

## Where the code departs from its evident intent

The model follows the code in each case.

- The judge is asked for `SCORE: [0.0 à 1.0]` (`evaluateur.py` line 40), so the
  score is evidently meant to lie in [0, 1]. The parser takes `float()` of the
  capture as is (line 75), so a judge answering 7 yields a score of 7.
- The parser maps every verdict onto one of the four decisions the retrieval loop
  acts on (lines 79-87). On a failed call the code returns `'AMBIGU'` instead
  (line 57). That is a verdict word of the judge's prompt (line 41), not a decision.
- The model's keywords are filtered to terms longer than two characters (line 139).
  On a failed call the fallback returns the first five words of the question
  unfiltered (line 142).

## Model

| member | source | states |
|---|---|---|
| PyText.Strip | PROJET_ASSISTANT_JURIDIQUE/generer_reponse.py:22 | `strip()` returns a text with no whitespace at either end, no longer than its input |
| PyText.StripCuts | PROJET_ASSISTANT_JURIDIQUE/generer_reponse.py:22 | `strip()` returns a contiguous block of the text, and only whitespace lies before and after it |
| PyText.StripEmptyIff | PROJET_ASSISTANT_JURIDIQUE/generer_reponse.py:40 | `not s.strip()` holds exactly when every character of `s` is whitespace |
| PyText.StripStripped | PROJET_ASSISTANT_JURIDIQUE/generer_reponse.py:40 | stripping an already stripped text leaves it unchanged |
| PyText.StripInfix | PROJET_ASSISTANT_JURIDIQUE/generer_reponse.py:60 | the stripped text occurs verbatim in the original |
| PyText.TrimStartSpec | PROJET_ASSISTANT_JURIDIQUE/generer_reponse.py:22 | the leading trim removes a whitespace prefix and stops at a non-whitespace character |
| PyText.TrimEndSpec | PROJET_ASSISTANT_JURIDIQUE/generer_reponse.py:22 | the trailing trim removes a whitespace suffix and stops at a non-whitespace character |
| PyText.SplitOn | PROJET_ASSISTANT_JURIDIQUE/evaluateur.py:123 | `split(sep)` yields at least one piece, and no piece contains the separator |
| PyText.JoinSplitOn | PROJET_ASSISTANT_JURIDIQUE/evaluateur.py:123 | joining the pieces of `split(sep)` with `sep` gives back the text |
| PyText.SplitOnJoin | PROJET_ASSISTANT_JURIDIQUE/evaluateur.py:138 | splitting a join of separator-free pieces gives back the pieces |
| PyText.JoinInfix | PROJET_ASSISTANT_JURIDIQUE/generer_reponse.py:31 | every part of a join occurs verbatim in the joined text |
| PyText.JoinLength | PROJET_ASSISTANT_JURIDIQUE/evaluateur.py:67 | a join is as long as its parts plus one separator between each two |
| PyText.JoinSnoc | PROJET_ASSISTANT_JURIDIQUE/generer_reponse.py:73 | a join of two or more parts ends with the separator and the last part |
| PyText.Words | PROJET_ASSISTANT_JURIDIQUE/generer_reponse.py:23 | `split()` yields non-empty words free of whitespace |
| PyText.WordsEmptyIff | PROJET_ASSISTANT_JURIDIQUE/generer_reponse.py:23 | `split()` yields no word exactly for a blank text |
| PyText.WordsSingle | PROJET_ASSISTANT_JURIDIQUE/evaluateur.py:142 | a non-empty text without whitespace is one word |
| PyText.WordsSplitAt | PROJET_ASSISTANT_JURIDIQUE/evaluateur.py:142 | a whitespace character splits the text in two: the words are those before it followed by those after it |
| PyText.WordsInfix | PROJET_ASSISTANT_JURIDIQUE/evaluateur.py:142 | every word of `split()` occurs verbatim in the text |
| PyText.ContainsIff | PROJET_ASSISTANT_JURIDIQUE/generer_reponse.py:69 | `sub in s` holds exactly when `sub` occurs in `s` as a contiguous block |
| PyText.LastSegmentSpec | PROJET_ASSISTANT_JURIDIQUE/generer_reponse.py:73 | `split('/')[-1]` has no '/', ends the path, and is the whole path exactly when the path has no '/'; otherwise a '/' precedes it |
| PyText.SliceTo | PROJET_ASSISTANT_JURIDIQUE/evaluateur.py:58 | `s[:k]` is a prefix of length `min(k, len)` for `k >= 0`, and drops `-k` items from the end for `k < 0` |
| PyText.NatToString | PROJET_ASSISTANT_JURIDIQUE/evaluateur.py:66 | `str(n)` is a non-empty run of decimal digits, one digit for `n < 10`, with no leading zero for `n > 0` |
| PyText.NatToStringValue | PROJET_ASSISTANT_JURIDIQUE/evaluateur.py:66 | the digits of `str(n)` denote `n` |
| PySorted.BelowTotal | PROJET_ASSISTANT_JURIDIQUE/generer_reponse.py:77 | string order is total: any two different strings are ordered |
| PySorted.BelowTransitive | PROJET_ASSISTANT_JURIDIQUE/generer_reponse.py:77 | string order is transitive |
| PySorted.SortedListSpec | PROJET_ASSISTANT_JURIDIQUE/generer_reponse.py:77 | `sorted(set)` is strictly increasing and holds exactly the set's elements |
| PySorted.SortedUnique | PROJET_ASSISTANT_JURIDIQUE/generer_reponse.py:77 | a strictly increasing list is determined by its elements |
| PySorted.Least | PROJET_ASSISTANT_JURIDIQUE/generer_reponse.py:77 | finds the least element of a non-empty set |
| PySorted.Sorted | PROJET_ASSISTANT_JURIDIQUE/generer_reponse.py:77 | the selection loop returns exactly `sorted(set)` |
| Evaluateur.PreparerContexteEvaluation | PROJET_ASSISTANT_JURIDIQUE/evaluateur.py:62-67 | the loop builds `DOC<k>: ` plus the first 300 characters plus `...` for each passage in order, joined by blank lines |
| Evaluateur.EvaluationRequest | PROJET_ASSISTANT_JURIDIQUE/evaluateur.py:19-52 | the judge is consulted exactly when there is at least one passage |
| Evaluateur.ParserEvaluation | PROJET_ASSISTANT_JURIDIQUE/evaluateur.py:69-102 | the decision is one of the four the retrieval loop acts on, and the kept passages are a prefix of the input; an unreadable score gives partial use of the first three passages with score 0.5 |
| Evaluateur.ParsedScoreAndReason | PROJET_ASSISTANT_JURIDIQUE/evaluateur.py:71-77 | the score is the captured number unclamped, or 0.5 when absent; the reason is the captured text stripped, or the fixed default |
| Evaluateur.ParsedDecision | PROJET_ASSISTANT_JURIDIQUE/evaluateur.py:79-87 | UTILISER iff CORRECT, keeping every passage; for AMBIGU or no verdict, REFORMULER iff score < 0.6 and UTILISER_PARTIEL iff score >= 0.6, keeping `min(n, max(2, n // 2))` passages; CHERCHER_PLUS iff any other verdict, keeping none |
| Evaluateur.EvaluerPertinence | PROJET_ASSISTANT_JURIDIQUE/evaluateur.py:19-60 | no passages gives the fixed CHERCHER_PLUS result; a failed call gives score 0.5, AMBIGU, the first three passages and "Erreur évaluation"; an answer is read by `_parser_evaluation` over all the passages; the decision is in the loop's vocabulary iff there were no passages or the judge answered |
| Evaluateur.NoDocumentsIgnoresJudge | PROJET_ASSISTANT_JURIDIQUE/evaluateur.py:20-26 | with no passages the judge is not called, and the result is the same whatever it would answer |
| Evaluateur.EmptyReplyReformulates | PROJET_ASSISTANT_JURIDIQUE/evaluateur.py:71-84 | a reply with no SCORE, DECISION or RAISON reads as AMBIGU at 0.5: reformulate, keeping about half the passages |
| Evaluateur.CorrectKeepsUnshownPassages | PROJET_ASSISTANT_JURIDIQUE/evaluateur.py:28 | the judge is shown the first five passages only, yet CORRECT keeps all of them |
| Evaluateur.ScoreNotClamped | PROJET_ASSISTANT_JURIDIQUE/evaluateur.py:75 | a score of 7 is returned as 7 |
| Evaluateur.JudgeSeesOnlyExcerpts | PROJET_ASSISTANT_JURIDIQUE/evaluateur.py:28 | two passage lists that agree on the first 300 characters of their first five passages give the judge the same prompt |
| Evaluateur.EvaluationContextBounded | PROJET_ASSISTANT_JURIDIQUE/evaluateur.py:62-67 | the judge's context never exceeds 1553 characters, however many and long the passages |
| Reformulateurs.NonBlank | PROJET_ASSISTANT_JURIDIQUE/evaluateur.py:123 | keeps exactly the non-empty items |
| Reformulateurs.NonBlankAppend | PROJET_ASSISTANT_JURIDIQUE/evaluateur.py:123 | the filter keeps order: filtering a concatenation concatenates the filtered parts |
| Reformulateurs.LongTerms | PROJET_ASSISTANT_JURIDIQUE/evaluateur.py:139 | keeps exactly the items longer than two characters |
| Reformulateurs.LongTermsAppend | PROJET_ASSISTANT_JURIDIQUE/evaluateur.py:139 | the filter keeps order: filtering a concatenation concatenates the filtered parts |
| Reformulateurs.StripAllAppend | PROJET_ASSISTANT_JURIDIQUE/evaluateur.py:123 | stripping each item of a concatenation concatenates the stripped parts |
| Reformulateurs.GenererVariantes | PROJET_ASSISTANT_JURIDIQUE/evaluateur.py:121-127 | the variants are a prefix of the reply's non-blank stripped lines, of length `min(nb_variantes, count)` (or `count + nb_variantes` floored at 0 for a negative count), each non-empty and stripped; a failed call gives the question alone |
| Reformulateurs.ExtraireMotsCles | PROJET_ASSISTANT_JURIDIQUE/evaluateur.py:136-142 | the keywords are stripped terms longer than two characters, and every comma-separated piece longer than two characters once stripped is among them; a failed call gives the first `min(5, words)` words of the question |
| Reformulateurs.LongStrippedTerms | PROJET_ASSISTANT_JURIDIQUE/evaluateur.py:138-139 | the long terms of stripped pieces are stripped, and every piece that is long once stripped is among them |
| Reformulateurs.StrippedPieceOfText | PROJET_ASSISTANT_JURIDIQUE/evaluateur.py:123 | a stripped piece of `split(sep)` occurs verbatim in the text and holds no separator |
| Reformulateurs.VariantsAreReplyLines | PROJET_ASSISTANT_JURIDIQUE/evaluateur.py:123-124 | every variant is one line of the model's reply, stripped, and occurs verbatim in the reply |
| Reformulateurs.VariantsFollowLines | PROJET_ASSISTANT_JURIDIQUE/evaluateur.py:123-124 | the non-blank lines among the first `i` lines, stripped and in order, begin the variants whenever there are at most `nb_variantes` of them |
| Reformulateurs.FirstLineFirstVariant | PROJET_ASSISTANT_JURIDIQUE/evaluateur.py:123-124 | a non-blank first line of the reply, stripped, is the first variant |
| Reformulateurs.VariantCountReached | PROJET_ASSISTANT_JURIDIQUE/evaluateur.py:124 | when the reply has enough non-blank lines, exactly `nb_variantes` variants come back |
| Reformulateurs.DefaultVariantCount | PROJET_ASSISTANT_JURIDIQUE/evaluateur.py:109-124 | with the default count, a reply of three or more non-blank lines gives three variants |
| Reformulateurs.FallbackIgnoresCount | PROJET_ASSISTANT_JURIDIQUE/evaluateur.py:125-127 | a failed call yields one variant whatever count was asked |
| Reformulateurs.KeywordsAreReplyTerms | PROJET_ASSISTANT_JURIDIQUE/evaluateur.py:138-139 | every keyword is one comma-separated piece of the model's reply, stripped; it occurs verbatim in the reply and holds no comma |
| Reformulateurs.KeywordsFollowTerms | PROJET_ASSISTANT_JURIDIQUE/evaluateur.py:138-139 | the keywords keep the reply's order: those from the first `i` pieces come before those from the rest |
| Reformulateurs.FallbackKeepsShortWords | PROJET_ASSISTANT_JURIDIQUE/evaluateur.py:140-142 | the fallback returns the question's first word however short, and it occurs in the question |
| GenererReponse.PreparerContexte | PROJET_ASSISTANT_JURIDIQUE/generer_reponse.py:17-31 | the loop with `break` returns the stripped passages of the greedy prefix, joined by the separator |
| GenererReponse.SumAppend | PROJET_ASSISTANT_JURIDIQUE/generer_reponse.py:29 | the running word total is additive over consecutive passages |
| GenererReponse.FittingWithinBudget | PROJET_ASSISTANT_JURIDIQUE/generer_reponse.py:25-29 | the packed passages hold at most `limite_tokens` words |
| GenererReponse.StopsAtFirstOverflow | PROJET_ASSISTANT_JURIDIQUE/generer_reponse.py:25-26 | when a passage is left out, adding it would exceed the budget |
| GenererReponse.FittingUnique | PROJET_ASSISTANT_JURIDIQUE/generer_reponse.py:21-29 | the packed count is the only one that fits the budget and whose next passage overflows it |
| GenererReponse.FirstOverflowLeavesNothing | PROJET_ASSISTANT_JURIDIQUE/generer_reponse.py:25-26 | a first passage over the budget gives an empty context, even if later passages would fit |
| GenererReponse.BlankContextIff | PROJET_ASSISTANT_JURIDIQUE/generer_reponse.py:31 | the context is blank iff nothing was packed, or only one passage was packed and it is blank |
| GenererReponse.GenererReponse | PROJET_ASSISTANT_JURIDIQUE/generer_reponse.py:33-64 | no passages gives the "no document" message, a blank context the "no exploitable information" message, a failed call the "technical error" message, and an answer exactly `reponse.text.strip()`, which occurs in that text |
| GenererReponse.OverlongFirstPassageUnusable | PROJET_ASSISTANT_JURIDIQUE/generer_reponse.py:38-41 | a first passage over 6000 words means the model is not called and the answer is the "no exploitable information" message |
| GenererReponse.TwoBlankPassagesReachModel | PROJET_ASSISTANT_JURIDIQUE/generer_reponse.py:38-46 | two blank passages make the model be called with the bare separator as context |
| GenererReponse.BlankPassagesPacked | PROJET_ASSISTANT_JURIDIQUE/generer_reponse.py:21-31 | two blank passages are both packed and give the bare separator |
| GenererReponse.BlankPassage | PROJET_ASSISTANT_JURIDIQUE/generer_reponse.py:22-23 | a blank passage strips to nothing and counts zero words |
| GenererReponse.SourceNamesSpec | PROJET_ASSISTANT_JURIDIQUE/generer_reponse.py:71-74 | a name is collected iff it is the file name of the `source` of one of the passages |
| GenererReponse.AjouterSources | PROJET_ASSISTANT_JURIDIQUE/generer_reponse.py:69-80 | the loop collects the file names and appends them sorted, as the sources specification says |
| GenererReponse.GenererReponseAvecSource | PROJET_ASSISTANT_JURIDIQUE/generer_reponse.py:66-80 | returns the answer of `generer_reponse` with the sources suffix as specified |
| GenererReponse.SourcesAddedIff | PROJET_ASSISTANT_JURIDIQUE/generer_reponse.py:69-78 | the suffix is added iff there are passages, the answer lacks the "insufficient information" phrase, and one of the first five passages has a source |
| GenererReponse.CitedSources | PROJET_ASSISTANT_JURIDIQUE/generer_reponse.py:70-78 | the suffix lists each file name of the first five passages once, in increasing order, each free of '/' and ending its path |
| GenererReponse.LaterPassagesNotCited | PROJET_ASSISTANT_JURIDIQUE/generer_reponse.py:71 | passages after the fifth never change the sources suffix added to a given answer |

## Left out

- The model client setup (API key, model name, temperature, output limit) in
  `evaluateur.py` lines 9-17 and 105-107 and in `generer_reponse.py` lines 1-15 is
  configuration only, and is left out.
- The model calls are parameters. `generate_content` is not modelled, and neither is
  the fixed wording of the prompts around the question and the context. The prompts
  appear as `EvaluationPrompt`, `GenerationPrompt` and, for the rewriter, not at all.
  The rewriter's prompt does not affect its post-processing.
- Logging (`logger.error`) has no effect on results and is left out.
- Regular-expression matching in `_parser_evaluation` is not modelled. The reply
  enters already reduced to its three captures (`Captures`).
- `float()` is not modelled. A readable score is an exact real. IEEE rounding near
  the 0.6 threshold is not captured. Text `float()` rejects is `Unparseable`.
- Evaluateur.ParserEvaluation: the `except` branch is modelled for a `float()`
  failure only. No other exception can arise in that block once captures are given.
- GenererReponse.GenererReponse: the `try` block is modelled as failing only in the
  model call. `preparer_contexte` and the prompt formatting raise nothing on string
  passages.
- `hasattr(doc, 'metadata')` is taken as always true. Metadata values are taken to be
  strings.
- Each `documents` list is a finite sequence of `Document` values. Passages are never
  mutated, so aliasing is not modelled.
- `creer_vecteurs.py` and the notebook checkpoints are not part of this model. The
  retrieval loop that calls the judge and the rewriter is not part of this model.
- It is not proved that the fixed "no exploitable information" and "technical error"
  messages lack the phrase "ne contiennent pas d'information suffisante". By their
  wording they do, so those messages also get the sources suffix.
