/**
 * `ASRService.transcribe` (in `app/asr_service.py`) after inference: the
 * model's raw text and raw confidence list, and the post-processed text,
 * become the response of sentences and words with their confidences.
 */
module AsrService {
  import opened Wrappers
  import opened Averages
  import opened PyStr
  import opened Normalizer
  import opened Reconciler
  import opened Segmenter
  import opened Aggregator

  /** `{"text": ..., "sentences": [...], "raw_prob": [...]}` */
  datatype Report = Report(text: string, sentences: seq<SentenceConf>, rawProb: seq<Value>)

  /** The aligned per-character confidences for the post-processed text. */
  function CharProbs(rawText: string, rawProb: seq<Value>, text: string): seq<real> {
    Aligned(rawText, text, Normalized(rawProb))
  }

  function Transcribed(rawText: string, rawProb: seq<Value>, text: string): Report {
    Report(text, Aggregated(CharProbs(rawText, rawProb, text), Segment(text)), rawProb)
  }

  /**
   * Lines 93-182 of `app/asr_service.py` for one inference result. `prob` is `res[0].get("prob")`,
   * `None` when the key is missing or holds `None` (both become `[]`);
   * `text` is what post-processing made of `rawText`.
   */
  method Transcribe(rawText: string, prob: Option<seq<Value>>, text: string) returns (r: Report)
    ensures r == Transcribed(rawText, prob.GetOr([]), text)
  {
    var rawProb := prob.GetOr([]);
    var numeric := Normalize(rawProb);
    var charProbs := Reconcile(rawText, rawProb, text, numeric);
    var sents := SplitSentences(text);
    var sentences := Aggregate(charProbs, sents);
    r := Report(text, sentences, rawProb);
  }

  /**
   * The response echoes `text` and `raw_prob`, has at least one sentence,
   * and its sentences are those of `Segment(text)` in order; together they
   * keep every non-whitespace character of `text`.
   */
  lemma TranscribedShape(rawText: string, rawProb: seq<Value>, text: string)
    ensures var r := Transcribed(rawText, rawProb, text);
            && r.text == text && r.rawProb == rawProb
            && |r.sentences| == |Segment(text)| >= 1
            && (forall k :: 0 <= k < |r.sentences| ==> r.sentences[k].text == Segment(text)[k])
            && NonSpace(Concat(Segment(text))) == NonSpace(text)
  {
    SegmentShape(text);
    SegmentCoverage(text);
  }

  /** When every element of `raw_prob` normalises into `[0, 1]`, every reported confidence lies in `[0, 1]`. */
  lemma TranscribedWithin(rawText: string, rawProb: seq<Value>, text: string)
    requires forall i :: 0 <= i < |rawProb| ==> 0.0 <= UnitConfidence(rawProb[i]) <= 1.0
    ensures var r := Transcribed(rawText, rawProb, text);
            forall k :: 0 <= k < |r.sentences| ==>
              && 0.0 <= r.sentences[k].confidence <= 1.0
              && forall j :: 0 <= j < |r.sentences[k].words| ==> 0.0 <= r.sentences[k].words[j].confidence <= 1.0
  {
    var numeric := Normalized(rawProb);
    assert AllWithin(numeric, 0.0, 1.0);
    AlignedWithin(rawText, text, numeric);
    AggregatedWithin(CharProbs(rawText, rawProb, text), Segment(text), 0.0, 1.0);
  }

  /**
   * Outside the one case where the aligned list stays empty, the sentences
   * together are no longer than the aligned list, so by
   * `ExactSentenceConfidences` every sentence averages exactly as many
   * confidences as it has characters, from the offset its cursor gives it.
   */
  lemma TranscribedCursorFits(rawText: string, rawProb: seq<Value>, text: string)
    requires rawProb != [] || rawText != [] || text == []
    ensures |Concat(Segment(text))| <= |CharProbs(rawText, rawProb, text)| == |text|
  {
    AlignedLength(rawText, text, Normalized(rawProb));
    SegmentTotalLength(text);
  }

  /**
   * With no usable confidences for the raw text (`raw_prob` missing, or of
   * another length), every non-empty sentence and every word gets the same
   * confidence: the mean of the normalised list, or 0.9 when it is empty.
   */
  lemma TranscribedFallback(rawText: string, rawProb: seq<Value>, text: string)
    requires |rawProb| != |rawText|
    ensures var c := if rawProb != [] then AvgConf(Normalized(rawProb)) else DefaultConfidence;
            var ss := Segment(text);
            var r := Transcribed(rawText, rawProb, text);
            forall k :: 0 <= k < |ss| ==>
              && (ss[k] != [] ==> r.sentences[k].confidence == c)
              && forall j :: 0 <= j < |r.sentences[k].words| ==> r.sentences[k].words[j].confidence == c
  {
    var numeric := Normalized(rawProb);
    var c := if numeric != [] then AvgConf(numeric) else DefaultConfidence;
    assert CharProbs(rawText, rawProb, text) == Fill(c, |text|);
    UniformConfidences(text, c, |text|);
  }

  /**
   * A single word with one confidence per character, unchanged by
   * post-processing: one sentence and one word, both with the mean of the
   * normalised confidences.
   */
  lemma OneWordDirect(w: string, rawProb: seq<Value>)
    requires w != [] && NoTerminal(w) && forall i :: 0 <= i < |w| ==> !IsSpace(w[i])
    requires |rawProb| == |w|
    ensures var m := AvgConf(Normalized(rawProb));
            var r := Transcribed(w, rawProb, w);
            && |r.sentences| == 1
            && r.sentences[0].text == w && r.sentences[0].confidence == m
            && r.sentences[0].words == [WordConf(w, m)]
  {
    SegmentSingle(w);
    SplitNoSpace(w);
    var p := CharProbs(w, rawProb, w);
    AlignedDirectCopy(w, w, Normalized(rawProb));
    assert Window(p, 0, |w|) == p;
    assert SentenceStart([w], 0) == 0 && WordStart([w], 0) == 0;
    assert Aggregated(p, [w])[0] == SentenceAt([w], p, 0);
  }

  /** With confidences 0.9, 0.8 and 0.7 for a three-character text, the mean is 0.8. */
  lemma ThreeCharacterMean()
    ensures AvgConf(Normalized([Num(0.9), Num(0.8), Num(0.7)])) == 0.8
  {
    var n := Normalized([Num(0.9), Num(0.8), Num(0.7)]);
    assert n == [0.9, 0.8, 0.7];
    assert Sum(n) == 2.4 by {
      assert n[1..] == [0.8, 0.7] && n[1..][1..] == [0.7] && n[1..][1..][1..] == [];
    }
  }
}
