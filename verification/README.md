# Dropshipping product descriptions: text post-processing

The application asks a language model for a short product description. It
then post-processes the text in two steps, and this project models both.

- `generar_descripcion_base` builds a prompt from the product, the tone and
  the SEO keywords, and passes it to the generator. It removes the echoed
  prompt from the answer and strips surrounding whitespace. It then cuts the
  text after its last period. If nothing is left it returns a fixed fallback
  message, and if the generator raised it returns a second fixed message.
  This is modelled in `generation.dfy` (module `Generation`) as pure
  functions. The generator's answer is a parameter.
- `insertar_frases` splices the user's phrases into that description. Each
  phrase has a position: `inicio` (start), `medio` (middle), `cierre` (end),
  or anything else, which means automatic. The loop keeps three parts
  (start text, body, end text) and a list of sentences, split once from the
  base on `". "`. When it is done it strips the concatenation and makes sure
  the result ends with a period. This is modelled in `composer.dfy` (module
  `Composer`):
  - the method `InsertPhrases` has the source's loop, and its loop
    invariant ties the four variables to the specification function
    `Process`;
  - the lemmas state what the result then looks like.
- The Python string built-ins these use are modelled in `text.dfy` (module
  `Text`), each with the properties the two operations rely on: `strip`,
  `rfind`, `split`, `join`, `replace`, `endswith` and `list.insert`.

The phrase dictionary is a Python dict read in insertion order. Here it is a
sequence of `(phrase, position)` pairs whose phrases are distinct
(`Composer.PhraseMap`).

The result does not always contain every phrase, and the model follows the
code:
- a later start phrase replaces an earlier one, and so does a later end
  phrase;
- a middle insertion rebuilds the body from the sentence list and drops the
  automatic appends made before it (`Composer.AppendLostToLaterMiddle`).

## Model

| member | source | states |
|---|---|---|
| Text.Strip | app.py:24 | `strip()`: the result is empty exactly when the input is all whitespace; otherwise it neither starts nor ends with whitespace, and it is the infix of the input that only whitespace surrounds |
| Text.RFind | app.py:25 | `rfind(c)`: -1 exactly when `c` does not occur; otherwise the index holds `c` and no `c` follows it |
| Text.EndsWith | app.py:48 | no contract; `s.endswith(suffix)`, characterized by `Composer.WithPeriod` and `Composer.WithPeriodKeepsEnding` |
| Text.Split | app.py:36 | `split(sep)` yields at least one part, and the first part is a prefix of the text; characterized by `JoinSplit`, `SplitPartsFree` and `SplitManyIffContains` |
| Text.Join | app.py:42 | no contract; `sep.join(parts)`, characterized by `JoinSplit` |
| Text.Replace | app.py:24 | no contract; `replace(pat, rep)` as join of the split, characterized by `ReplaceAbsent` and `RemoveLeading` |
| Text.InsertAt | app.py:41 | `list.insert(i, x)`: one element longer, `x` at index `i`, the elements before `i` unchanged, those from `i` on shifted up by one, and the multiset grows by `x` alone |
| Text.JoinSplit | app.py:36 | joining the parts of `split(sep)` with `sep` gives the input back, so the split loses and reorders nothing; with `SplitPartsFree` this fixes where the text is cut, and hence the number of sentences |
| Text.SplitPartsFree | app.py:36 | no part of `split(sep)` contains `sep`: the text is cut at every occurrence |
| Text.SplitManyIffContains | app.py:40 | `split(sep)` gives more than one part if and only if `sep` occurs in the text |
| Text.SplitNoSep | app.py:36 | a text without the separator's first character splits into itself alone |
| Text.ReplaceAbsent | app.py:24 | `replace` of a pattern that does not occur leaves the text unchanged |
| Text.RemoveLeading | app.py:24 | removing a pattern from a text that starts with it removes that leading copy and treats the rest on its own |
| Text.StripUnchanged | app.py:47 | `strip` leaves alone a non-empty text with no whitespace at either end |
| Text.StripKeepsPrefix | app.py:47 | `strip` keeps a leading fragment that has no whitespace at its ends |
| Text.StripKeepsSuffix | app.py:47 | `strip` keeps a trailing fragment that has no whitespace at its ends |
| Generation.Prompt | app.py:20-21 | the prompt starts with the fixed opening instruction and ends with the call-to-action instruction |
| Generation.Clean | app.py:24 | after removing the prompt and stripping, the text is empty or has no whitespace at either end |
| Generation.TrimToLastSentence | app.py:25-28 | with a period, the result is the prefix up to and including the last period, and the tail it drops holds no period; without one, a non-empty text is returned unchanged; an empty text becomes "No se pudo generar una descripción válida."; the result is never empty |
| Generation.BaseDescription | app.py:19-31 | the base description is never empty; if it contains a period it ends with one; if the generator raised, it is "Error al generar la descripción." |
| Generation.TrimIdempotent | app.py:25-28 | trimming an already trimmed text changes nothing |
| Generation.EchoedPromptRemoved | app.py:20-28 | when the generator echoes the prompt before a continuation that does not repeat it, the base description is the trimmed, stripped continuation alone |
| Generation.TrimDropsIncompleteTail | app.py:25-27 | "Bueno. Barato. Y algo" is cut to "Bueno. Barato." |
| Composer.PositionOf | app.py:38-45 | no contract; "inicio", "medio" and "cierre" select their branch and any other label the automatic one, characterized through `Step` by the Composer lemmas |
| Composer.Initial | app.py:35-36 | no contract; empty start and end texts, the base as body and its ". " split as the sentence list, characterized by `DescriptionBody` and `NoPlacements` |
| Composer.Step | app.py:38-46 | no contract; one loop iteration, branch for branch, characterized by `StepMiddle` and `StepAppends` |
| Composer.Process | app.py:37-46 | no contract; the loop over the entries in order, characterized by `LastStartWins`, `LastEndWins`, `SentencesGrow`, `SingleSentenceAppends`, `BodyAfterLastMiddle` and `DescriptionBody` |
| Composer.InsertPhrases | app.py:34-50 | the loop over the placements computes `Description(base, placements)`, and the result ends with "." |
| Composer.Description | app.py:34-50 | whatever the placements, the description ends with "." |
| Composer.WithPeriod | app.py:48-49 | the result ends with "."; it extends the text by at most that one period; a text already ending with "." is returned as is |
| Composer.WithPeriodKeepsEnding | app.py:48-49 | a text ending with a fragment still ends with it after the period rule, followed by "." unless the fragment already ends with one |
| Composer.Finish | app.py:47-49 | the stripped concatenation of start text, body and end text, once finished, ends with "." |
| Composer.FinishTrimmed | app.py:47-49 | when the concatenation has no whitespace at its ends, only the period rule applies to it |
| Composer.StepMiddle | app.py:40-42 | the one-step form of `SentencesGrow`: a middle entry with several sentences inserts the phrase at index `len // 2` of the list as it stands, keeps the other sentences in order, and sets the body to exactly the list joined with ". " |
| Composer.StepAppends | app.py:45-46 | the one-step form of `SingleSentenceAppends`: an automatic entry, or a middle entry with at most one sentence, appends " phrase" to the body and changes nothing else |
| Composer.LastStartWins | app.py:38-39 | the start text is the last start phrase followed by a space, and earlier start phrases are overwritten |
| Composer.NoStartKeepsPrefix | app.py:35-39 | without a start entry the start text stays empty |
| Composer.LastEndWins | app.py:43-44 | the end text is a space followed by the last end phrase, and earlier end phrases are overwritten |
| Composer.NoEndKeepsSuffix | app.py:43-44 | without an end entry the end text stays empty |
| Composer.SentencesGrow | app.py:40-42 | with several sentences the list grows by one per middle entry, and as a multiset it is the original sentences plus the middle phrases |
| Composer.SingleSentenceAppends | app.py:40-46 | with at most one sentence the list never changes, and every entry that is neither start nor end, middle ones included, is appended to the body in order |
| Composer.BodyAfterLastMiddle | app.py:40-46 | with several sentences the body is the last rebuilt sentence list (or the base when there was no middle entry), followed only by the automatic appends made after the last middle entry |
| Composer.DescriptionBody | app.py:35-46 | a base without ". " keeps a single sentence and receives every non-start, non-end phrase; a base with ". " ends with the rejoined grown list followed by the appends after the last middle entry |
| Composer.NoPlacements | app.py:35-49 | with no placements the result is the stripped base, with "." appended when it is missing |
| Composer.StartPhraseLeads | app.py:38-47 | the last start phrase, when it has no whitespace at its ends, begins the result |
| Composer.FinishKeepsStart | app.py:47 | a start text made of a phrase without surrounding whitespace and a space leaves the phrase at the front of the result |
| Composer.EndPhraseCloses | app.py:43-49 | the last end phrase, when it has no whitespace at its ends, closes the result just before the final period, or is the final text itself when it ends with "." |
| Composer.EndPhraseExample | app.py:43-49 | "A. B" with end phrase "C!" gives "A. B C!." |
| Composer.LaterStartOverwrites | app.py:38-39 | of the start phrases "x" then "Y" on "B.", only "Y" remains: "Y B." |
| Composer.MiddleOnSingleSentence | app.py:40-46 | a middle phrase on the single sentence "Ok" is appended: "Ok ya." |
| Composer.AppendThenMiddle | app.py:40-46 | an automatic entry then a middle entry on "A. B" leave the body "A. y. B" and the sentences "A", "y", "B" |
| Composer.MiddleAppendsOnOk | app.py:40-46 | the single middle entry "ya" on "Ok" leaves the body "Ok ya" and the sentence list "Ok" |
| Composer.InsertAndRejoin | app.py:41-42 | "y" inserted at index 1 of "A", "B" gives "A", "y", "B", which rejoins as "A. y. B" |
| Composer.AppendOnTwoSentences | app.py:45-46 | an automatic entry on "A. B" keeps the sentence list "A", "B" |
| Composer.MiddleRebuild | app.py:41-42 | a middle entry "y" on the sentences "A", "B" sets the body to "A. y. B", whatever it held before |
| Composer.AppendLostToLaterMiddle | app.py:40-46 | the phrase "x", appended before the middle entry "y", is missing from the result "A. y. B." |

## Left out

- The Streamlit interface is not modelled, being presentation only (app.py:53-75). This covers the inputs, the keyword splitting at line 56, the button, the spinner and the error display.
- How the phrase dictionary is filled (app.py:60-65) is not modelled. A phrase entered twice keeps its first place with the later position, so only the finished dictionary is modelled.
- Loading and caching the language model and halting when it fails (app.py:5-16) are not modelled: they are a foreign library call.
- The generator call (app.py:23) is not modelled. Its answer, or the fact that it raised, is the `GeneratorOutcome` parameter of `Generation.BaseDescription`. Sampling parameters, truncation and `max_length` have no counterpart.
- The error message shown on the page when generation fails (app.py:30) is not modelled, being output only. The returned fallback text is modelled.
- Text.IsSpace: whitespace is the fixed set of code points for which Python 3's `str.isspace` holds, written out in the model. Unicode database updates are not followed.
- Text.Replace: only a non-empty pattern is modelled. This is the only case the program uses, since the prompt is never empty.
- Generation.BaseDescription: does not state that an exception raised by the post-processing itself is caught. That code cannot raise on string inputs, so only the generator's failure leads to the error message.
