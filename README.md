# Confidence pipeline of the ASR service

This project models the part of `ASRService.transcribe` (in `app/asr_service.py`) that runs after the
speech model has answered. The model returns a raw text and a raw list of confidences, and
post-processing returns the final text. From these three values the service builds the report
`{"text", "sentences", "raw_prob"}`. It does so in four stages:

1. **Normalisation** (module `Normalizer`). Each element of `raw_prob` becomes one number. The element
   may be a number, a dict probed for the keys `prob`, `confidence`, `score`, `p` and `probability`
   (with a second level for a nested dict and a mean for a list), or anything else, which gets
   `float(el)` or `0.0`.
2. **Length reconciliation** (module `Reconciler`). The normalised list is indexed over the raw text,
   and is aligned to the final text by one of three policies:
   - a direct copy;
   - a proportional index remap, `min(int(i * n / max(1, m)), n - 1)`;
   - the mean of the list broadcast to every position, or `0.9` when the list is empty.
3. **Sentence segmentation** (module `Segmenter`, which is `_split_sentences`). The text is split on runs
   of `。！？!?`, which are captured. Each text part is glued to the run after it and stripped, and blank
   sentences are dropped. A non-blank trailing remainder becomes a last sentence. When no sentence is
   left, the result is `[text]`.
4. **Aggregation** (module `Aggregator`). A character cursor walks the aligned list sentence by
   sentence. Each sentence's confidence is the mean (`_avg_conf`, module `Averages`) of its window,
   clamped at the end of the list. Inside the window a word cursor walks the words of `str.split()`,
   advancing by the word's length plus one.

Module `AsrService` wires these stages together as `Transcribe`, a method proved equal to the function
`Transcribed`. The lemmas beside it state what the report promises. Module `PyStr` models the Python
string builtins involved (`str.isspace`, `str.strip()` and `str.split()`), plus `Concat`, which is
`"".join`. The service never calls `"".join`; `Concat` serves to state what the sentences and words
keep of a text. `Wrappers` holds `Option`, `Min` and `Max`.

The methods follow the source's loops:
- the key searches of the normaliser;
- the normalisation loop;
- the remap loop;
- the stride-two loop over the split parts;
- the sentence loop and the word loop.

Each method is proved against a specification function, and the properties are proved as lemmas about
that function. `re.split`, `str.strip` and `str.split` are builtins, so they are modelled as functions.

In these places the code does not do what its own comments, or the rest of its output, lead one to
expect. The model follows the code:
- A comment (`app/asr_service.py:97`) promises a per-character list made safe for a text of another
  length, so one expects one confidence per character of the final text. When `raw_prob` normalises
  to nothing and the raw text is empty but the final text is not, the list stays empty instead
  (`AlignedLength`).
- A comment (`app/asr_service.py:139`) describes the alignment as truncating or padding with the last
  value. The code (`app/asr_service.py:143-148`) remaps indices proportionally instead, and so does
  `Reconcile`.
- A comment (`app/asr_service.py:134`) says an all-zero converted list leaves the numeric list empty.
  Line 135 keeps the converted list whatever it holds, and so does `Normalize`.
- A comment (`app/asr_service.py:164`) speaks of each sentence's character range, so one expects each
  sentence's window to start at the sentence's offset in the text. The cursor advances by the length
  of each stripped sentence instead (`app/asr_service.py:180`). It never looks up the real offset, so
  after whitespace that stripping removed, later sentences read windows shifted left by that much
  (`SentenceStartJoined`).
- Every other text yields stripped, non-empty sentences. An empty or blank text yields one sentence
  that breaks this: the text itself, unstripped, which is empty or all whitespace (`SegmentShape`,
  `SegmentEmpty`). It is never zero sentences.
- A comment (`app/asr_service.py:155`) says the branch at lines 154-157 averages the raw `raw_prob`
  when it cannot be parsed as numbers. That branch cannot be reached: normalisation returns one
  number per element, so a non-empty `raw_prob` never normalises to an empty list. `Reconcile` marks
  the branch with `assert false`.
- One might expect malformed confidences to be rejected with an error. No modelled input is: every
  function here is total, and every malformed confidence the model can represent becomes a number.
  The one error path of the source that the model does not have is listed under "Left out".
- The docstring of `_avg_conf` (`app/asr_service.py:64-68`) says it extracts fields from dict
  elements and skips elements it cannot parse. The body (`app/asr_service.py:69-71`) does neither:
  it is `sum(probs) / len(probs)`, or `0.0` for an empty list. `Averages.AvgConf` follows the body.
  Dict elements are handled earlier, by normalisation.

## Model

| member | source | states |
|---|---|---|
| Averages.AvgConf | app/asr_service.py:63-71 | An empty list averages to 0.0. Otherwise the mean times the length is the sum. A list of values in [0, 1] has its mean in [0, 1]. |
| Averages.AvgConfWithin | app/asr_service.py:63-71 | The mean of a non-empty list whose values lie in any interval [lo, hi] lies in [lo, hi]. |
| Averages.AvgConfFill | app/asr_service.py:150-153 | A value broadcast to a non-empty list averages back to that value. |
| Normalizer.FirstKeyFrom | app/asr_service.py:109-113 | Finds the first probed key present in the dict, in priority order: no earlier key is present, and none at all when it reports the end. |
| Normalizer.FirstNumericFrom | app/asr_service.py:120-124 | Finds the first probed key whose value is a number in a nested dict: every earlier key is absent or not a number. |
| Normalizer.NumericItems | app/asr_service.py:117 | Keeps only numbers of the list, never more than it has, each one drawn from it. It is empty exactly when the list holds no number. |
| Normalizer.NumericItemsAppend | app/asr_service.py:117 | Filtering a concatenation is concatenating the filtered parts, so every number is kept, in order and with repeats. |
| Normalizer.NumericItemsSingle | app/asr_service.py:117 | One element contributes its number when it is a number, and nothing otherwise. |
| Normalizer.ConvertUnit | app/asr_service.py:104-132 | One element becomes the number defined by the element-shape cases (number, dict with its first present key, list, other coercible object). |
| Normalizer.Normalize | app/asr_service.py:100-135 | One number per element of `raw_prob`, in order, each the normalised value of that element. |
| Normalizer.LaterKeysIgnored | app/asr_service.py:109-113 | Once a probed key is present, changing a later or unprobed key never changes the result, even when the deciding value is unusable. |
| Normalizer.NoKeyIsZero | app/asr_service.py:107-127 | A dict with none of the probed keys normalises to 0.0. |
| Normalizer.NestedFirstNumeric | app/asr_service.py:119-125 | A nested dict gives its first numeric probed entry, skipping earlier non-numeric ones. |
| Normalizer.DictExamples | app/asr_service.py:107-127 | `{"confidence": 0.55}` gives 0.55, `{"foo": 1}` gives 0.0, and `{"prob": None, "score": 0.7}` gives 0.0 because the first present key decides. |
| Reconciler.Reconcile | app/asr_service.py:137-159 | The aligned list is the one the three policies define. |
| Reconciler.RemapNoClamp | app/asr_service.py:145-147 | For a position inside the final text, the proportional index already lies below the list length, so the `min` never clamps. |
| Reconciler.RemapMonotone | app/asr_service.py:145-147 | The remap is monotone: a later position never reads an earlier source entry. |
| Reconciler.AlignedDirectCopy | app/asr_service.py:137-141 | With equal lengths throughout, the normalised list is used unchanged. |
| Reconciler.AlignedRemap | app/asr_service.py:142-148 | On a length change, there is one entry per character of the final text. Each entry is read from a valid source index, and the indices never decrease. |
| Reconciler.AlignedFallback | app/asr_service.py:149-159 | On a raw length mismatch, every position gets the mean of the normalised list, or 0.9 when it is empty. |
| Reconciler.AlignedLength | app/asr_service.py:137-159 | The aligned list has the final text's length, except exactly when nothing normalises, the raw text is empty and the final text is not. In that case the list is empty. |
| Reconciler.AlignedWithin | app/asr_service.py:137-159 | Normalised values in [0, 1] give aligned values in [0, 1]. |
| PyStr.Strip | app/asr_service.py:55-60 | `strip()` is never longer than its input and has no whitespace at either end. It is empty exactly when the input is all whitespace. |
| PyStr.StripInfix | app/asr_service.py:55-60 | `strip()` removes only the two ends. Its result is the contiguous piece of the input that starts right after the leading whitespace, and only whitespace follows it. |
| PyStr.NonSpaceStrip | app/asr_service.py:55-60 | Stripping loses no character other than whitespace. |
| PyStr.Split | app/asr_service.py:174 | `split()` yields non-empty words that contain no whitespace. |
| PyStr.SplitCoversNonSpace | app/asr_service.py:174 | The words, joined, are exactly the non-whitespace characters of the input, in order. |
| PyStr.SplitJoinLength | app/asr_service.py:174-178 | The words joined with one separator each are never longer than the input. |
| PyStr.SplitNoSpace | app/asr_service.py:174 | A non-empty word without whitespace splits into itself alone. |
| PyStr.SplitWordFirst | app/asr_service.py:174 | Words are maximal runs. A word followed by whitespace, or by nothing, comes out whole as the first word, and the rest is split on its own. |
| PyStr.SplitSpaceFirst | app/asr_service.py:174 | Leading whitespace never yields a word: the split of whitespace followed by `t` is the split of `t`. |
| PyStr.SplitTwoWords | app/asr_service.py:174 | Two words separated by any non-empty run of whitespace split into exactly those two words. |
| Segmenter.SplitTerminal | app/asr_service.py:52 | The split has at least one part, and its parts joined give back the text. |
| Segmenter.SplitTerminalShape | app/asr_service.py:52 | The split has an odd number of parts. Text without terminals alternates with non-empty runs of terminals, and every inner text part is non-empty. |
| Segmenter.TextSplit | app/asr_service.py:52 | Text without terminals joins the first part of what follows it. |
| Segmenter.RunSplit | app/asr_service.py:52 | A maximal run of terminals at the front is captured whole, as a part of its own after an empty text part. |
| Segmenter.SplitSentences | app/asr_service.py:50-61 | The stride-two loop and the remainder rule produce the segmentation defined by the split. |
| Segmenter.SegmentCoverage | app/asr_service.py:50-61 | The sentences joined hold exactly the non-whitespace characters of the text, in order: nothing is lost, added or reordered. |
| Segmenter.SegmentShape | app/asr_service.py:50-61 | There is always at least one sentence. A blank text comes back whole. Otherwise every sentence is non-empty and stripped. |
| Segmenter.SegmentTotalLength | app/asr_service.py:50-61 | The sentences together are never longer than the text. |
| Segmenter.PieceSpaced | app/asr_service.py:55-60 | A stripped piece, when it is not blank, is a contiguous piece of its source with only whitespace around it. |
| Segmenter.SpacedAppend | app/asr_service.py:53-60 | Sentences laid out in one text, followed by sentences laid out in the next, are laid out in the two texts joined. |
| Segmenter.SegmentSpaced | app/asr_service.py:50-61 | For a text that is not blank, the sentences are contiguous pieces of the text, in order, with only whitespace before, between and after them. |
| Segmenter.PairsClosed | app/asr_service.py:53-57 | Each text part glued to the run after it yields exactly one sentence, so there are as many sentences as pairs. Each of them ends in terminal punctuation, and its terminals form only that final run. |
| Segmenter.SegmentBoundaries | app/asr_service.py:50-61 | Sentences break at every run of terminal punctuation: in each sentence the terminals form only its final run, and every sentence but the last ends in one. |
| Segmenter.SentencesFirst | app/asr_service.py:52-60 | A maximal run of terminals stays whole: text without terminals followed by such a run gives the first sentence (stripped, and dropped when blank), then the sentences of the rest. |
| Segmenter.SentencesNoTerminal | app/asr_service.py:52-60 | Text without terminals gives its stripped self as the only sentence, or none when blank. With `SentencesFirst` this fixes the sentences of every text. |
| Segmenter.RunStaysWhole | app/asr_service.py:50-61 | Two words around a run of several terminals give exactly two sentences, the first keeping the whole run. |
| Segmenter.TwoSentences | app/asr_service.py:50-61 | Two words closed by `。` and `！` give exactly the two sentences with their punctuation kept. |
| Segmenter.SegmentEmpty | app/asr_service.py:61 | The empty text gives the single sentence `""`. |
| Segmenter.SegmentSingle | app/asr_service.py:50-61 | A stripped text without terminals is its own single sentence. |
| Aggregator.Window | app/asr_service.py:169 | The slice is never longer than asked. It is exact when it fits, and otherwise it takes the clamped tail. |
| Aggregator.AggregateWords | app/asr_service.py:172-178 | The word loop gives, for each word of `split()` in order, the mean of its window at the word cursor. |
| Aggregator.Aggregate | app/asr_service.py:162-181 | The sentence loop gives, for each sentence in order, its mean at the sentence cursor and its word list. |
| Aggregator.AggregatedWithin | app/asr_service.py:166-180 | Per-character confidences in [lo, hi] give every sentence and word confidence in [0, hi]. |
| Aggregator.WindowMeanWithin | app/asr_service.py:169-170 | A window of values in [lo, hi] stays in [lo, hi], and its mean lies in [0, hi]. |
| Aggregator.SentenceStartJoined | app/asr_service.py:166-180 | The sentence cursor before a sentence is the joined length of the earlier sentences. |
| Aggregator.WordStartJoined | app/asr_service.py:173-178 | The word cursor before a word is the joined length of the earlier words plus one per word. |
| Aggregator.WordWindowsExact | app/asr_service.py:173-178 | When the sentence has a confidence per character, no word window is ever clamped. |
| Aggregator.SentenceWindowsExact | app/asr_service.py:165-169 | When the text has a confidence per character, no sentence window is ever clamped. |
| Aggregator.ConstantWindowMean | app/asr_service.py:169-170 | A non-empty window of a constant list averages to that constant. |
| Aggregator.UniformConfidences | app/asr_service.py:166-180 | With the same confidence for every character, every non-empty sentence and every word gets that confidence. |
| Aggregator.ExactSentenceConfidences | app/asr_service.py:166-170 | When the sentences together fit in the list, each sentence's confidence is the mean of exactly its own stretch, starting at its cursor. |
| AsrService.Transcribe | app/asr_service.py:93-182 | The whole stage, with a missing `prob` taken as `[]`, produces the report defined by normalisation, reconciliation, segmentation and aggregation. |
| AsrService.TranscribedShape | app/asr_service.py:161-182 | The report echoes `text` and `raw_prob` and has at least one sentence. Its sentences are the segmentation's, in order, and together keep every non-whitespace character. |
| AsrService.TranscribedWithin | app/asr_service.py:97-182 | When each element normalises into [0, 1], every reported confidence lies in [0, 1]. |
| AsrService.TranscribedCursorFits | app/asr_service.py:137-169 | Outside the empty-list case, the aligned list has the text's length and the sentences fit inside it. |
| AsrService.TranscribedFallback | app/asr_service.py:149-180 | On a raw length mismatch, every non-empty sentence and every word gets the normalised mean, or 0.9 when nothing was given. |
| AsrService.OneWordDirect | app/asr_service.py:137-180 | One word, unchanged by post-processing and with one confidence per character, gives one sentence and one word, both with the mean. |
| AsrService.ThreeCharacterMean | app/asr_service.py:137-170 | The confidences 0.9, 0.8 and 0.7 average to 0.8. |

## Left out

- Model loading, device selection and the inference call (`app/asr_service.py:13-41`, `82-91`) are
  I/O. The raw text and the raw `prob` value are parameters of `Transcribe`.
- `_postprocess_text` (`app/asr_service.py:43-48`) calls into a library that is not part of this
  model. The post-processed text is a parameter, independent of the raw text.
- `round(..., 4)` on the reported confidences is left out, because it is floating-point formatting.
  Confidences are exact reals, and the bounds are stated on the unrounded means.
- Floating point is replaced by exact reals. `Reconciler.Reconcile` computes `int(i * scale)` as the
  exact floor `i * n / max(1, m)`. Where a float product lands just below an integer, the source can
  read the entry before.
- `bool` elements of `raw_prob` behave as numbers in the source, and the model folds them into `Num`.
  `float(el)` for other objects is represented by its outcome, a number or `None` when it raises. The
  conversion rules of Python's `float()` are not modelled.
- A `raw_prob` value that is not a list (truthy but not iterable, or a non-list iterable) is not
  modelled. `Transcribe` takes an optional list, and a missing or falsy value becomes `[]`.
- A `raw_text` missing from the model's answer becomes `""` (`app/asr_service.py:93`) before this
  stage, and that defaulting is not modelled. `text` is the result of post-processing
  (`app/asr_service.py:95`), and it is a parameter.
- `float()` of a Python `int` too large for a float raises `OverflowError`. That happens at
  `app/asr_service.py:106`, `115`, `117` and `123`, which lie outside the `try` of lines 129-132, so
  `transcribe` fails there. Numbers are exact reals in the model (`Num(real)`), so this error path is
  not modelled.
- `app/main.py`, the HTTP layer and the frontend are not part of this model.
- The transcript comparison engine (similarity and error rates) is not part of this model, because
  none of the modelled files implements it.
