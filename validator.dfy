/** The verdict logic of the `guardrails/bert_toxic` validator.

    The validator scores text for toxicity and turns the scores into a pass
    or fail verdict, either per sentence or for the whole text. Two
    collaborators it cannot see are parameters here: the sentence tokenizer
    (`tokenize`) and the remote scoring service (`score`). Both are total
    functions: the model assumes the scorer gives one answer per text, while
    the source sends a new request for every occurrence of a sentence. */
module Validator {
  import opened Text

  /** The pass-through metadata mapping handed to `validate`. */
  type Metadata = map<string, string>

  datatype Option<T> = None | Some(value: T)

  /** The two `ValueError`s the validator raises. */
  datatype ValueError = InvalidMethod | EmptyValue
  {
    function Message(): string
    {
      match this
      case InvalidMethod => "validation_method must be 'sentence' or 'full'."
      case EmptyValue => "Value cannot be empty."
    }
  }

  datatype Result<T> = Ok(value: T) | Err(error: ValueError)

  /** What `validate` returns: a pass, or a fail with a message and a fixed value.
      A pass in full-text mode carries no metadata. */
  datatype Verdict =
    | Pass(passMetadata: Option<Metadata>)
    | Fail(metadata: Metadata, errorMessage: string, fixValue: string)

  const SentenceMethod: string := "sentence"
  const FullMethod: string := "full"
  const ToxicLabel: string := "Toxic"
  /** First line of the sentence-mode error message. */
  const SentenceHeader: string :=
    "The following" + " sentences" + " in your" + " response" + " were found" + " to be toxic:"
  /** First line of the full-text error message. */
  const FullHeader: string := "The generated text was found to be:"

  /** The validation methods the constructor accepts. */
  predicate ValidMethod(m: string)
  {
    m == SentenceMethod || m == FullMethod
  }

  /** A unit of text is toxic when it is non-empty and its score is strictly above the threshold. */
  predicate IsToxic(threshold: real, score: string -> real, s: string)
  {
    s != "" && score(s) > threshold
  }

  /** The labels `get_toxicity` returns. */
  function Labels(threshold: real, score: string -> real, value: string): seq<string>
  {
    if IsToxic(threshold, score, value) then [ToxicLabel] else []
  }

  /** The two lists the sentence loop builds from the tokenizer's output:
      the toxic sentences and the supported ones. Empty sentences are skipped. */
  function Partition(threshold: real, score: string -> real, sentences: seq<string>): (seq<string>, seq<string>)
    decreases |sentences|
  {
    if |sentences| == 0 then ([], [])
    else
      var (flagged, kept) := Partition(threshold, score, sentences[..|sentences| - 1]);
      var s := sentences[|sentences| - 1];
      if s == "" then (flagged, kept)
      else if Labels(threshold, score, s) != [] then (flagged + [s], kept)
      else (flagged, kept + [s])
  }

  /** The sentence-mode error message for the toxic sentences `flagged`. */
  function SentenceMessage(flagged: seq<string>): string
  {
    SentenceHeader + "\n" + "\n" + ("- " + Join("\n- ", flagged))
  }

  /** The verdict of sentence mode, given the tokenizer's output. */
  function SentenceVerdict(threshold: real, score: string -> real, sentences: seq<string>, metadata: Metadata): Verdict
  {
    var (flagged, kept) := Partition(threshold, score, sentences);
    if flagged != [] then Fail(metadata, SentenceMessage(flagged), Join("\n", kept))
    else Pass(Some(metadata))
  }

  /** The verdict of full-text mode. */
  function FullVerdict(threshold: real, score: string -> real, value: string, metadata: Metadata): Verdict
  {
    var labels := Labels(threshold, score, value);
    if labels != [] then Fail(metadata, FullHeader + "\n" + Join(",", labels), "")
    else Pass(None)
  }

  /** What `validate` does: reject an empty value, then dispatch on the method. */
  function Validation(threshold: real, validationMethod: string, value: string, metadata: Metadata,
                      tokenize: string -> seq<string>, score: string -> real): Result<Verdict>
  {
    if value == "" then Err(EmptyValue)
    else if validationMethod == SentenceMethod then Ok(SentenceVerdict(threshold, score, tokenize(value), metadata))
    else if validationMethod == FullMethod then Ok(FullVerdict(threshold, score, value, metadata))
    else Err(InvalidMethod)
  }

  // ---------------------------------------------------------------------------
  // The sentence partition

  /** One step of the loop: the last sentence is skipped, flagged or kept. */
  lemma PartitionStep(threshold: real, score: string -> real, sentences: seq<string>)
    requires |sentences| > 0
    ensures var p := Partition(threshold, score, sentences[..|sentences| - 1]);
      var s := sentences[|sentences| - 1];
      Partition(threshold, score, sentences)
        == if s == "" then p
           else if IsToxic(threshold, score, s) then (p.0 + [s], p.1)
           else (p.0, p.1 + [s])
  {
  }

  /** Every flagged sentence is toxic; every kept sentence is non-empty and not toxic. */
  lemma {:induction false} PartitionSound(threshold: real, score: string -> real, sentences: seq<string>)
    ensures var (flagged, kept) := Partition(threshold, score, sentences);
      (forall i :: 0 <= i < |flagged| ==> IsToxic(threshold, score, flagged[i])) &&
      (forall i :: 0 <= i < |kept| ==> kept[i] != "" && !IsToxic(threshold, score, kept[i]))
    decreases |sentences|
  {
    if |sentences| > 0 {
      var init := sentences[..|sentences| - 1];
      PartitionSound(threshold, score, init);
      PartitionStep(threshold, score, sentences);
    }
  }

  /** Every non-empty sentence lands in exactly one of the two lists, as often as
      the tokenizer produced it; empty sentences land in neither. */
  lemma {:induction false} PartitionCovers(threshold: real, score: string -> real, sentences: seq<string>)
    ensures var (flagged, kept) := Partition(threshold, score, sentences);
      multiset(flagged) + multiset(kept) == multiset(sentences)["" := 0]
    decreases |sentences|
  {
    if |sentences| > 0 {
      var init := sentences[..|sentences| - 1];
      var s := sentences[|sentences| - 1];
      PartitionCovers(threshold, score, init);
      PartitionStep(threshold, score, sentences);
      assert sentences == init + [s];
      var whole := multiset(sentences)["" := 0];
      var before := multiset(init)["" := 0];
      if s == "" {
        assert whole == before;
      } else {
        assert whole == before + multiset{s};
      }
    }
  }

  /** Each list keeps the tokenizer's relative order. */
  lemma {:induction false} PartitionOrdered(threshold: real, score: string -> real, sentences: seq<string>)
    ensures var (flagged, kept) := Partition(threshold, score, sentences);
      IsSubsequence(flagged, sentences) && IsSubsequence(kept, sentences)
    decreases |sentences|
  {
    if |sentences| > 0 {
      var init := sentences[..|sentences| - 1];
      var s := sentences[|sentences| - 1];
      var (flagged, kept) := Partition(threshold, score, init);
      PartitionOrdered(threshold, score, init);
      assert sentences == init + [s];
      SubsequenceExtend(flagged, init, s);
      SubsequenceExtend(kept, init, s);
      SubsequenceAppendBoth(flagged, init, s);
      SubsequenceAppendBoth(kept, init, s);
    }
  }

  /** A sentence is flagged exactly when it is toxic, and kept exactly when it is
      non-empty and not toxic. */
  lemma {:induction false} PartitionMembership(threshold: real, score: string -> real, sentences: seq<string>, s: string)
    ensures var (flagged, kept) := Partition(threshold, score, sentences);
      (s in flagged <==> s in sentences && IsToxic(threshold, score, s)) &&
      (s in kept <==> s in sentences && s != "" && !IsToxic(threshold, score, s))
  {
    var (flagged, kept) := Partition(threshold, score, sentences);
    PartitionSound(threshold, score, sentences);
    PartitionCovers(threshold, score, sentences);
    var m := multiset(sentences)["" := 0];
    assert s in flagged ==> multiset(flagged)[s] > 0;
    assert s in kept ==> multiset(kept)[s] > 0;
    if s in sentences && s != "" {
      assert m[s] == multiset(sentences)[s] > 0;
      assert s in flagged || s in kept;
    }
  }

  // ---------------------------------------------------------------------------
  // Sentence-mode verdict

  /** Sentence mode fails exactly when some sentence is toxic; otherwise it passes
      with the metadata. */
  lemma SentenceFailsIffToxic(threshold: real, score: string -> real, sentences: seq<string>, metadata: Metadata)
    ensures SentenceVerdict(threshold, score, sentences, metadata).Fail?
      <==> exists i :: 0 <= i < |sentences| && IsToxic(threshold, score, sentences[i])
    ensures SentenceVerdict(threshold, score, sentences, metadata).Pass?
      ==> SentenceVerdict(threshold, score, sentences, metadata) == Pass(Some(metadata))
    ensures SentenceVerdict(threshold, score, sentences, metadata).Fail?
      ==> SentenceVerdict(threshold, score, sentences, metadata).metadata == metadata
  {
    var (flagged, kept) := Partition(threshold, score, sentences);
    if flagged != [] {
      PartitionSound(threshold, score, sentences);
      PartitionMembership(threshold, score, sentences, flagged[0]);
      var i :| 0 <= i < |sentences| && sentences[i] == flagged[0];
      assert IsToxic(threshold, score, sentences[i]);
    } else {
      forall i | 0 <= i < |sentences|
        ensures !IsToxic(threshold, score, sentences[i])
      {
        PartitionMembership(threshold, score, sentences, sentences[i]);
      }
    }
  }

  /** The fix value is the supported sentences joined by newlines: when no sentence
      holds a newline, its lines are exactly the supported sentences in order (or it
      is empty when there are none), so a non-empty sentence is a line of it exactly
      when it is not toxic. */
  lemma FixValueLines(threshold: real, score: string -> real, sentences: seq<string>, metadata: Metadata)
    requires forall i :: 0 <= i < |sentences| && !IsToxic(threshold, score, sentences[i]) ==> '\n' !in sentences[i]
    ensures var v := SentenceVerdict(threshold, score, sentences, metadata);
      var kept := Partition(threshold, score, sentences).1;
      v.Fail? ==>
        (kept == [] ==> v.fixValue == "") &&
        (kept != [] ==> Split(v.fixValue, '\n') == kept)
    ensures var v := SentenceVerdict(threshold, score, sentences, metadata);
      v.Fail? ==> forall s :: s != "" ==>
        (s in Split(v.fixValue, '\n') <==> s in sentences && !IsToxic(threshold, score, s))
  {
    var v := SentenceVerdict(threshold, score, sentences, metadata);
    var (flagged, kept) := Partition(threshold, score, sentences);
    if v.Fail? {
      PartitionSound(threshold, score, sentences);
      forall i | 0 <= i < |kept| ensures '\n' !in kept[i] {
        PartitionMembership(threshold, score, sentences, kept[i]);
        var j :| 0 <= j < |sentences| && sentences[j] == kept[i];
      }
      if kept != [] {
        SplitJoin(kept, '\n');
      }
      forall s | s != ""
        ensures s in Split(v.fixValue, '\n') <==> s in sentences && !IsToxic(threshold, score, s)
      {
        PartitionMembership(threshold, score, sentences, s);
      }
    }
  }

  /** No toxic sentence is a line of the fix value (when the non-toxic sentences
      hold no newline). */
  lemma FixValueHasNoToxicLine(threshold: real, score: string -> real, sentences: seq<string>, metadata: Metadata)
    requires forall i :: 0 <= i < |sentences| && !IsToxic(threshold, score, sentences[i]) ==> '\n' !in sentences[i]
    ensures var v := SentenceVerdict(threshold, score, sentences, metadata);
      v.Fail? ==> forall s :: IsToxic(threshold, score, s) ==> s !in Split(v.fixValue, '\n')
  {
    FixValueLines(threshold, score, sentences, metadata);
  }

  /** The sentence-mode message for a non-empty list of toxic sentences is the
      header, an empty line and one "- " + sentence line per toxic sentence,
      joined by newlines. */
  lemma SentenceMessageShape(flagged: seq<string>)
    requires |flagged| > 0
    ensures SentenceMessage(flagged) == Join("\n", [SentenceHeader, ""] + Prefixed("- ", flagged))
  {
    var bullets := Prefixed("- ", flagged);
    var lines := [SentenceHeader, ""] + bullets;
    JoinPrefixed("- ", "\n", flagged);
    assert "\n" + "- " == "\n- ";
    assert lines[1..][1..] == bullets;
    assert Join("\n", lines) == SentenceHeader + "\n" + ("" + "\n" + Join("\n", bullets));
  }

  /** The sentence-mode message, split at newlines: the header line, an empty line,
      and one line "- " + sentence per toxic sentence, in order. */
  lemma SentenceMessageLines(flagged: seq<string>)
    requires |flagged| > 0
    requires forall i :: 0 <= i < |flagged| ==> '\n' !in flagged[i]
    ensures Split(SentenceMessage(flagged), '\n') == [SentenceHeader, ""] + Prefixed("- ", flagged)
  {
    var bullets := Prefixed("- ", flagged);
    var lines := [SentenceHeader, ""] + bullets;
    SentenceMessageShape(flagged);
    assert '\n' !in SentenceHeader;
    forall i | 0 <= i < |lines| ensures '\n' !in lines[i] {
      if i >= 2 {
        assert lines[i] == "- " + flagged[i - 2];
      }
    }
    SplitJoin(lines, '\n');
  }

  /** The sentence-mode message lists the toxic sentences, one "- " line each, in
      the tokenizer's order (when the toxic sentences hold no newline). */
  lemma MessageLines(threshold: real, score: string -> real, sentences: seq<string>, metadata: Metadata)
    requires forall i :: 0 <= i < |sentences| && IsToxic(threshold, score, sentences[i]) ==> '\n' !in sentences[i]
    ensures var v := SentenceVerdict(threshold, score, sentences, metadata);
      v.Fail? ==>
        Split(v.errorMessage, '\n') == [SentenceHeader, ""] + Prefixed("- ", Partition(threshold, score, sentences).0)
  {
    var flagged := Partition(threshold, score, sentences).0;
    if flagged != [] {
      forall i | 0 <= i < |flagged| ensures '\n' !in flagged[i] {
        PartitionMembership(threshold, score, sentences, flagged[i]);
        var j :| 0 <= j < |sentences| && sentences[j] == flagged[i];
      }
      SentenceMessageLines(flagged);
    }
  }

  // ---------------------------------------------------------------------------
  // Both modes

  /** For a valid method and a non-empty value, `validate` fails exactly when some
      scored unit is toxic: a sentence in sentence mode, the whole value in full mode. */
  lemma FailExactlyWhenSomeUnitToxic(threshold: real, validationMethod: string, value: string, metadata: Metadata,
                                     tokenize: string -> seq<string>, score: string -> real)
    requires ValidMethod(validationMethod) && value != ""
    ensures var units := if validationMethod == SentenceMethod then tokenize(value) else [value];
      var r := Validation(threshold, validationMethod, value, metadata, tokenize, score);
      r.Ok? && (r.value.Fail? <==> exists i :: 0 <= i < |units| && IsToxic(threshold, score, units[i]))
  {
    if validationMethod == SentenceMethod {
      SentenceFailsIffToxic(threshold, score, tokenize(value), metadata);
    } else {
      assert [value][0] == value;
    }
  }

  // ---------------------------------------------------------------------------
  // The validator object

  /** The validator: a threshold and a validation method, fixed at construction. */
  class BertToxic {
    const threshold: real
    const validationMethod: string

    predicate Valid()
    {
      ValidMethod(validationMethod)
    }

    constructor (threshold: real, validationMethod: string)
      requires ValidMethod(validationMethod)
      ensures Valid()
      ensures this.threshold == threshold && this.validationMethod == validationMethod
    {
      this.threshold := threshold;
      this.validationMethod := validationMethod;
    }

    /** `BertToxic(threshold, validation_method)`: fails with a ValueError unless the
        method is "sentence" or "full". */
    static method Create(threshold: real, validationMethod: string) returns (r: Result<BertToxic>)
      ensures r.Err? <==> !ValidMethod(validationMethod)
      ensures r.Err? ==> r.error == InvalidMethod
      ensures r.Err? ==> r.error.Message() == "validation_method must be 'sentence' or 'full'."
      ensures r.Ok? ==> fresh(r.value) && r.value.Valid()
      ensures r.Ok? ==> r.value.threshold == threshold && r.value.validationMethod == validationMethod
    {
      if validationMethod != SentenceMethod && validationMethod != FullMethod {
        return Err(InvalidMethod);
      }
      var v := new BertToxic(threshold, validationMethod);
      r := Ok(v);
    }

    /** The labels whose score is above the threshold: ["Toxic"] or nothing.
        The empty string is never scored. */
    method GetToxicity(value: string, score: string -> real) returns (labels: seq<string>)
      ensures |labels| <= 1
      ensures labels != [] <==> value != "" && score(value) > threshold
      ensures labels != [] ==> labels[0] == ToxicLabel
      ensures labels == Labels(threshold, score, value)
    {
      labels := [];
      if value != "" {
        var s := score(value);
        if s > threshold {
          labels := labels + [ToxicLabel];
        }
      }
    }

    /** Scores each non-empty sentence and fails when any of them is toxic. */
    method ValidateEachSentence(value: string, metadata: Metadata,
                                tokenize: string -> seq<string>, score: string -> real) returns (v: Verdict)
      ensures v == SentenceVerdict(threshold, score, tokenize(value), metadata)
      ensures v.Fail? <==> exists i :: 0 <= i < |tokenize(value)| && IsToxic(threshold, score, tokenize(value)[i])
    {
      var sentences := tokenize(value);
      var unsupported: seq<string>, supported: seq<string> := [], [];
      for i := 0 to |sentences|
        invariant (unsupported, supported) == Partition(threshold, score, sentences[..i])
      {
        var sentence := sentences[i];
        assert sentences[..i + 1][..i] == sentences[..i];
        if sentence != "" {
          var labels := GetToxicity(sentence, score);
          if labels != [] {
            unsupported := unsupported + [sentence];
          } else {
            supported := supported + [sentence];
          }
        }
      }
      assert sentences[..|sentences|] == sentences;
      if unsupported != [] {
        v := Fail(metadata, SentenceMessage(unsupported), Join("\n", supported));
      } else {
        v := Pass(Some(metadata));
      }
      SentenceFailsIffToxic(threshold, score, sentences, metadata);
    }

    /** Scores the whole value once; a fail has the label list as message and an empty fix. */
    method ValidateFullText(value: string, metadata: Metadata, score: string -> real) returns (v: Verdict)
      ensures v == FullVerdict(threshold, score, value, metadata)
      ensures v.Fail? <==> IsToxic(threshold, score, value)
      ensures v.Fail? ==> v == Fail(metadata, "The generated text was found to be:\nToxic", "")
      ensures v.Pass? ==> v == Pass(None)
    {
      var labels := GetToxicity(value, score);
      if labels != [] {
        v := Fail(metadata, FullHeader + "\n" + Join(",", labels), "");
      } else {
        v := Pass(None);
      }
    }

    /** `validate`: an empty value is a ValueError whatever the method; otherwise
        dispatch on the method. A constructed validator never reaches the
        defensive ValueError for an unknown method. */
    method Validate(value: string, metadata: Metadata,
                    tokenize: string -> seq<string>, score: string -> real) returns (r: Result<Verdict>)
      ensures r == Validation(threshold, validationMethod, value, metadata, tokenize, score)
      ensures value == "" ==> r == Err(EmptyValue)
      ensures Valid() && value != "" ==> r.Ok?
      ensures !Valid() && value != "" ==> r == Err(InvalidMethod)
      ensures r.Err? ==>
        r.error.Message() == if value == "" then "Value cannot be empty." else "validation_method must be 'sentence' or 'full'."
    {
      if value == "" {
        return Err(EmptyValue);
      }
      if validationMethod == SentenceMethod {
        var v := ValidateEachSentence(value, metadata, tokenize, score);
        return Ok(v);
      }
      if validationMethod == FullMethod {
        var v := ValidateFullText(value, metadata, score);
        return Ok(v);
      }
      return Err(InvalidMethod);
    }
  }
}
