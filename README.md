# bert_toxic verdict logic in Dafny

This project models the `BertToxic` validator (registered as `guardrails/bert_toxic`).
The validator classifies text as toxic or not and answers with a pass or fail verdict.
It works in one of two validation methods:

- `sentence`: it splits the value into sentences and scores each non-empty one.
  Toxic sentences are listed in the error message.
  The fix value is the remaining sentences joined with newlines.
- `full`: it scores the whole value once.
  A fail has the message `"The generated text was found to be:\n"` followed by the comma-joined labels, and an empty fix value.

A unit of text is toxic when it is non-empty and its score is strictly above the threshold.

Two collaborators sit outside the model and become parameters of the operations:

- `tokenize: string -> seq<string>` stands for the sentence tokenizer.
- `score: string -> real` stands for the remote scoring service.

Both are total functions, so the model's scorer gives one answer per text.
The source sends a new scoring request for every sentence occurrence (validator/main.py:84-86), so it gives no such guarantee; see "## Left out".

Files:

- `text.dfy` (module `Text`) holds `Join` (Python's `sep.join`) and `Split` (Python's `s.split(c)` for one character).
  It also holds `Prefixed` and `IsSubsequence` ("keeps relative order"), with their lemmas.
- `validator.dfy` (module `Validator`) holds the `Metadata` type and the datatypes `Verdict`, `ValueError`, `Result` and `Option`.
  It holds the specification functions `Labels`, `Partition`, `SentenceMessage`, `SentenceVerdict`, `FullVerdict` and `Validation`.
  It holds the lemmas about them and the class `BertToxic`.
  The class has immutable fields `threshold` and `validationMethod`.
  Its methods are `Create` (the checked construction), `GetToxicity`, `ValidateEachSentence` (the loop that builds the two sentence lists), `ValidateFullText` and `Validate`.

Facts about the code that the model keeps:

- The fix value is the supported sentences joined with `"\n"` (validator/main.py:101).
- A full-text pass is `PassResult()` and carries no metadata (validator/main.py:119); a sentence-mode pass carries it (validator/main.py:103).
- The test fixture's expected message `"Failure toxic validator"` and fix value `"fails"` contradict the code (tests/test_validator.py:25-26).
  The model follows validator/main.py:93-101.
- A kept sentence may contain a toxic sentence's text, so "the fix value holds no toxic sentence" is stated line by line.
  The model proves that no toxic sentence is a line of the fix value when the non-toxic sentences hold no newline.

## Model

| member | source | states |
|---|---|---|
| `Validator.BertToxic.constructor` | validator/main.py:32-42 | a validator only exists with method "sentence" or "full"; it keeps the threshold and the method it was given |
| `Validator.BertToxic.Create` | validator/main.py:39-42 | construction fails with the invalid-method ValueError exactly when the method is neither "sentence" nor "full"; otherwise it yields a fresh valid validator holding the given threshold and method; the error carries the message of validator/main.py:41 |
| `Validator.BertToxic.GetToxicity` | validator/main.py:56-73 | at most one label, and it is "Toxic"; a label is returned exactly when the text is non-empty and its score is strictly above the threshold; the empty string yields no label whatever the scorer says |
| `Validator.PartitionSound` | validator/main.py:84-90 | every sentence in the toxic list is toxic; every sentence in the supported list is non-empty and not toxic |
| `Validator.PartitionCovers` | validator/main.py:84-90 | the two lists together hold exactly the non-empty sentences of the tokenizer, each as often as it was produced; empty sentences are in neither |
| `Validator.PartitionOrdered` | validator/main.py:83-90 | each list is a subsequence of the tokenizer's output, so it keeps its relative order |
| `Validator.PartitionMembership` | validator/main.py:84-90 | a string is in the toxic list iff it is a toxic sentence of the input, and in the supported list iff it is a non-empty, non-toxic sentence of the input |
| `Validator.BertToxic.ValidateEachSentence` | validator/main.py:75-103 | the loop builds the two lists of the partition and returns the sentence-mode verdict; it fails iff some sentence is toxic |
| `Validator.SentenceFailsIffToxic` | validator/main.py:92-103 | sentence mode fails exactly when some sentence is toxic; a pass is `PassResult(metadata)` and a fail carries the metadata |
| `Validator.FixValueLines` | validator/main.py:101 | when no non-toxic sentence holds a newline, the fix value splits at newlines into exactly the supported sentences in order (it is empty when none are left); a non-empty string is a line of it iff it is a non-toxic sentence of the input |
| `Validator.FixValueHasNoToxicLine` | validator/main.py:101 | when no non-toxic sentence holds a newline, no toxic sentence is a line of the fix value |
| `Validator.SentenceMessageShape` | validator/main.py:92-100 | for a non-empty list of toxic sentences, the sentence-mode message is the header, an empty line and one "- " line per toxic sentence, joined by newlines (no condition on the sentences) |
| `Validator.SentenceMessageLines` | validator/main.py:93-100 | when no toxic sentence holds a newline, the sentence-mode message splits at newlines into the header, an empty line and one "- " line per toxic sentence, in order |
| `Validator.MessageLines` | validator/main.py:92-100 | when no toxic sentence holds a newline, for a sentence-mode fail the bullet lines of the message are exactly the toxic sentences in tokenizer order |
| `Validator.BertToxic.ValidateFullText` | validator/main.py:105-119 | full mode fails iff the whole value is toxic; the fail is exactly `"The generated text was found to be:\nToxic"` with empty fix value and the metadata; a pass carries no metadata |
| `Validator.BertToxic.Validate` | validator/main.py:121-130 | an empty value gives the empty-value ValueError whatever the method; a constructed validator never gives the invalid-method ValueError on a non-empty value; an unknown method does; each error carries the source's message text (validator/main.py:124, :130) |
| `Validator.FailExactlyWhenSomeUnitToxic` | validator/main.py:121-130 | with a valid method and a non-empty value, `validate` returns a verdict, and it is a fail exactly when some scored unit (a sentence, or the whole value) is toxic |
| `Text.SplitJoin` | validator/main.py:101 | for a non-empty list whose parts do not hold the separator, splitting at the separator undoes `"\n".join`; the empty list is excluded because `"".split("\n")` is `[""]`, and main.py:101 yields `""` when every sentence is toxic |
| `Text.JoinPrefixed` | validator/main.py:93 | for a non-empty list (main.py:92 guarantees it), `"- " + "\n- ".join(xs)` is the list of `"- " + x` joined with newlines |

## Left out

- The HTTP request to the scoring service is not modelled (validator/main.py:58-70). This covers the URL, bearer header, JSON body and response parsing. It becomes the `score` parameter. Transport or parse faults propagate in the source and are not modelled. The unused `label` read is dropped.
- The sentence tokenizer is the `tokenize` parameter. Its splitting rules belong to an outside library and are not part of this model.
- Floating point is not modelled: the threshold and the scores are `real`, and `float(threshold)` is the identity.
- The host framework is not modelled: the base class, the registration decorator, the `on_fail` policy and the `super().__init__` call.
- The default arguments are not modelled: threshold 0.5, method "sentence", metadata `{}`. Callers pass every argument.
- `validate` accepts any value in the source; the model takes strings only. For a string, "falsy" means empty.
- The metadata dictionary maps strings to anything in the source; the model maps strings to strings. It is passed through unchanged.
- Validator.FixValueLines, Validator.FixValueHasNoToxicLine, Validator.SentenceMessageLines, Validator.MessageLines: these require that the sentences being joined contain no newline. For the fix value those are the non-toxic sentences; for the message they are the toxic ones. A sentence tokenizer can keep a newline inside a sentence, and then a line of the joined text is not a sentence. Validator.SentenceMessageShape states the message format without this condition.
- Validator.PartitionMembership, Validator.FixValueLines, Validator.FixValueHasNoToxicLine: these rely on the scorer giving one answer per text, because `score` is a function. The source sends a new request to the scoring service for every sentence occurrence (validator/main.py:84-86, :58-70), and the answers may differ. With tokenizer output `["X.", "X."]` the source can then put "X." in both lists, and the fix value contains a flagged sentence. Validator.PartitionSound, Validator.PartitionCovers and Validator.PartitionOrdered count occurrences and do not depend on this.
