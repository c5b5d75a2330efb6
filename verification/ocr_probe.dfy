/**
 * The quick OCR probe (`ImageQualityFilter.quick_ocr_test`): a cheap OCR pass
 * whose per-token confidences decide whether an image is likely to hold text.
 *
 * The OCR engine is not modelled.  What a pass produced is an input: the token
 * list of the confidence-reporting pass (on the copy already shrunk to at most
 * 800x800), or the failure of that pass together with what the plain-text
 * fallback pass produced.
 */
module OcrProbe {
  import opened Strings

  const DefaultConfidenceThreshold: int := 30
  /** The stripped text must be longer than this to count as text. */
  const MinTextLength: nat := 3

  /** One word reported by the OCR engine with its confidence; non-positive means "no text". */
  datatype Token = Token(text: string, conf: int)

  /** A plain OCR pass: the recognised text, or an error. */
  datatype OcrOutcome = Recognized(text: string) | OcrFailed

  /** The confidence-reporting pass: its tokens, or its failure and the fallback plain pass. */
  datatype ProbeData = TokenData(tokens: seq<Token>) | DataFailed(fallback: OcrOutcome)

  datatype ProbeReason =
    | NoTextDetected
    | TextDetected
    | LowConfidenceText
    | FallbackTextDetected
    | NoMeaningfulText
    | ProbeFailed

  datatype ProbeResult = ProbeResult(hasText: bool, reason: ProbeReason)

  /** The confidences that take part in the average: the positive ones, in order. */
  function PositiveConfidences(tokens: seq<Token>): (r: seq<int>)
    ensures |r| <= |tokens|
    ensures forall i :: 0 <= i < |r| ==> r[i] > 0
    ensures |r| == 0 <==> forall i :: 0 <= i < |tokens| ==> tokens[i].conf <= 0
  {
    if |tokens| == 0 then []
    else
      var rest := PositiveConfidences(tokens[1..]);
      assert forall i :: 1 <= i < |tokens| ==> tokens[i] == tokens[1..][i - 1];
      if tokens[0].conf > 0 then [tokens[0].conf] + rest else rest
  }

  function Sum(xs: seq<int>): int {
    if |xs| == 0 then 0 else xs[0] + Sum(xs[1..])
  }

  /** Texts of the tokens whose confidence exceeds the threshold, in order. */
  function ConfidentTexts(tokens: seq<Token>, threshold: int): (r: seq<string>)
    ensures |r| <= |tokens|
    ensures |r| == 0 <==> forall i :: 0 <= i < |tokens| ==> tokens[i].conf <= threshold
  {
    if |tokens| == 0 then []
    else
      var rest := ConfidentTexts(tokens[1..], threshold);
      assert forall i :: 1 <= i < |tokens| ==> tokens[i] == tokens[1..][i - 1];
      if tokens[0].conf > threshold then [tokens[0].text] + rest else rest
  }

  /**
   * `idx` lists, in increasing order, exactly the positions from `from` on of
   * the tokens whose confidence exceeds `threshold`.
   */
  ghost predicate PositionsAbove(tokens: seq<Token>, threshold: int, from: nat, idx: seq<int>) {
    && (forall k :: 0 <= k < |idx| ==> from <= idx[k] < |tokens| && tokens[idx[k]].conf > threshold)
    && (forall k, l :: 0 <= k < l < |idx| ==> idx[k] < idx[l])
    && (forall i :: from <= i < |tokens| && tokens[i].conf > threshold ==> i in idx)
  }

  /** `r` holds the confidences of the tokens at `idx`, in that order. */
  ghost predicate ConfidencesAt(tokens: seq<Token>, idx: seq<int>, r: seq<int>) {
    |r| == |idx| && forall k :: 0 <= k < |idx| ==> 0 <= idx[k] < |tokens| && r[k] == tokens[idx[k]].conf
  }

  /** `r` holds the texts of the tokens at `idx`, in that order. */
  ghost predicate TextsAt(tokens: seq<Token>, idx: seq<int>, r: seq<string>) {
    |r| == |idx| && forall k :: 0 <= k < |idx| ==> 0 <= idx[k] < |tokens| && r[k] == tokens[idx[k]].text
  }

  /** The positions from `from` on of the tokens above the threshold. */
  ghost function Positions(tokens: seq<Token>, threshold: int, from: nat): seq<int>
    decreases |tokens| - from
  {
    if from >= |tokens| then []
    else (if tokens[from].conf > threshold then [from] else []) + Positions(tokens, threshold, from + 1)
  }

  lemma {:induction false} PositionsSelect(tokens: seq<Token>, threshold: int, from: nat)
    ensures PositionsAbove(tokens, threshold, from, Positions(tokens, threshold, from))
    decreases |tokens| - from
  {
    if from < |tokens| {
      PositionsSelect(tokens, threshold, from + 1);
      var head := if tokens[from].conf > threshold then [from] else [];
      var rest := Positions(tokens, threshold, from + 1);
      var idx := head + rest;
      forall k | 0 <= k < |idx|
        ensures from <= idx[k] < |tokens| && tokens[idx[k]].conf > threshold
        ensures k >= |head| ==> idx[k] == rest[k - |head|] > from
      {
      }
      forall k, l | 0 <= k < l < |idx|
        ensures idx[k] < idx[l]
      {
        assert l >= |head|;
      }
      forall i | from < i < |tokens| && tokens[i].conf > threshold
        ensures i in idx
      {
        assert i in rest;
      }
    }
  }

  lemma {:induction false} ConfidencesAtPositions(tokens: seq<Token>, from: nat)
    requires from <= |tokens|
    ensures ConfidencesAt(tokens, Positions(tokens, 0, from), PositiveConfidences(tokens[from..]))
    decreases |tokens| - from
  {
    if from < |tokens| {
      ConfidencesAtPositions(tokens, from + 1);
      assert tokens[from..][1..] == tokens[from + 1..];
      var head := if tokens[from].conf > 0 then [from] else [];
      var idx, rest := Positions(tokens, 0, from + 1), PositiveConfidences(tokens[from + 1..]);
      var first := if tokens[from].conf > 0 then [tokens[from].conf] else [];
      assert PositiveConfidences(tokens[from..]) == first + rest;
      forall k | |head| <= k < |head| + |idx|
        ensures (head + idx)[k] == idx[k - |head|]
        ensures (first + rest)[k] == rest[k - |head|]
      {
      }
    }
  }

  lemma {:induction false} TextsAtPositions(tokens: seq<Token>, threshold: int, from: nat)
    requires from <= |tokens|
    ensures TextsAt(tokens, Positions(tokens, threshold, from), ConfidentTexts(tokens[from..], threshold))
    decreases |tokens| - from
  {
    if from < |tokens| {
      TextsAtPositions(tokens, threshold, from + 1);
      assert tokens[from..][1..] == tokens[from + 1..];
      var head := if tokens[from].conf > threshold then [from] else [];
      var idx, rest := Positions(tokens, threshold, from + 1), ConfidentTexts(tokens[from + 1..], threshold);
      var first := if tokens[from].conf > threshold then [tokens[from].text] else [];
      assert ConfidentTexts(tokens[from..], threshold) == first + rest;
      forall k | |head| <= k < |head| + |idx|
        ensures (head + idx)[k] == idx[k - |head|]
        ensures (first + rest)[k] == rest[k - |head|]
      {
      }
    }
  }

  /**
   * The list comprehension over `data['conf']`: the result is the confidence of
   * every token whose confidence is positive, each once, in token order.
   */
  lemma PositiveConfidencesInOrder(tokens: seq<Token>)
    ensures exists idx :: PositionsAbove(tokens, 0, 0, idx) && ConfidencesAt(tokens, idx, PositiveConfidences(tokens))
  {
    PositionsSelect(tokens, 0, 0);
    ConfidencesAtPositions(tokens, 0);
    assert tokens[0..] == tokens;
  }

  /**
   * The comprehension over the token indices: the result is the text of every
   * token whose confidence exceeds the threshold, each once, in token order.
   */
  lemma ConfidentTextsInOrder(tokens: seq<Token>, threshold: int)
    ensures exists idx :: PositionsAbove(tokens, threshold, 0, idx) && TextsAt(tokens, idx, ConfidentTexts(tokens, threshold))
  {
    PositionsSelect(tokens, threshold, 0);
    TextsAtPositions(tokens, threshold, 0);
    assert tokens[0..] == tokens;
  }

  /** The space-joined text of the confident tokens. */
  function DetectedText(tokens: seq<Token>, threshold: int): string {
    Join(" ", ConfidentTexts(tokens, threshold))
  }

  /** Long enough to count as text once stripped. */
  predicate MeaningfulText(s: string) {
    |Strip(s)| > MinTextLength
  }

  /**
   * `quick_ocr_test`.  The mean of the positive confidences is compared with
   * the threshold without dividing: mean >= threshold iff sum >= threshold * count.
   */
  function QuickOcrTest(data: ProbeData, threshold: int): (r: ProbeResult)
    ensures r.hasText <==> r.reason == TextDetected || r.reason == FallbackTextDetected
    // no positive confidence: no text
    ensures data.TokenData? && (forall i :: 0 <= i < |data.tokens| ==> data.tokens[i].conf <= 0)
      ==> r == ProbeResult(false, NoTextDetected)
    // the fallback pass decides on length alone; its failure means no text
    ensures data.DataFailed? && data.fallback.Recognized? ==>
      (r.hasText <==> MeaningfulText(data.fallback.text))
    ensures data == DataFailed(OcrFailed) ==> r == ProbeResult(false, ProbeFailed)
  {
    match data
    case TokenData(tokens) =>
      var confs := PositiveConfidences(tokens);
      if |confs| == 0 then ProbeResult(false, NoTextDetected)
      else if Sum(confs) >= threshold * |confs| && MeaningfulText(DetectedText(tokens, threshold)) then
        ProbeResult(true, TextDetected)
      else ProbeResult(false, LowConfidenceText)
    case DataFailed(Recognized(text)) =>
      if MeaningfulText(text) then ProbeResult(true, FallbackTextDetected)
      else ProbeResult(false, NoMeaningfulText)
    case DataFailed(OcrFailed) => ProbeResult(false, ProbeFailed)
  }

  /** The average confidence as the program computes it, over the positive confidences. */
  ghost function MeanConfidence(confs: seq<int>): real
    requires |confs| > 0
  {
    (Sum(confs) as real) / (|confs| as real)
  }

  lemma MeanAtLeast(sum: int, count: int, threshold: int)
    requires count > 0
    ensures (sum as real) / (count as real) >= threshold as real <==> sum >= threshold * count
  {
    var m := (sum as real) / (count as real);
    assert m * (count as real) == sum as real;
    assert (threshold * count) as real == (threshold as real) * (count as real);
    assert m * (count as real) - (threshold as real) * (count as real) == (m - threshold as real) * (count as real);
  }

  /**
   * On token data with at least one positive confidence the probe finds text
   * exactly when the mean confidence reaches the threshold and the confident
   * tokens' joined text is longer than three characters once stripped.
   */
  lemma ProbeAcceptExact(tokens: seq<Token>, threshold: int)
    requires |PositiveConfidences(tokens)| > 0
    ensures QuickOcrTest(TokenData(tokens), threshold).hasText <==>
      MeanConfidence(PositiveConfidences(tokens)) >= threshold as real
      && MeaningfulText(DetectedText(tokens, threshold))
  {
    var confs := PositiveConfidences(tokens);
    MeanAtLeast(Sum(confs), |confs|, threshold);
  }

  /** Text found from token data is backed by at least one token above the threshold. */
  lemma ProbeTextHasConfidentToken(tokens: seq<Token>, threshold: int)
    requires QuickOcrTest(TokenData(tokens), threshold).hasText
    ensures exists i :: 0 <= i < |tokens| && tokens[i].conf > threshold
  {
    assert |ConfidentTexts(tokens, threshold)| > 0;
  }
}
