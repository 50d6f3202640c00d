/**
 * The last stage of `ASRService.transcribe` (in `app/asr_service.py`): each sentence takes the slice of
 * the per-character confidences that starts at a running cursor, and each of
 * its whitespace-separated words takes a slice of that slice.
 */
module Aggregator {
  import opened Wrappers
  import opened Averages
  import opened PyStr
  import opened Segmenter

  /** `{"text": w, "confidence": c}` */
  datatype WordConf = WordConf(text: string, confidence: real)

  /** `{"text": s, "confidence": c, "words": [...]}` */
  datatype SentenceConf = SentenceConf(text: string, confidence: real, words: seq<WordConf>)

  /**
   * `p[start:start + len] if start + len <= len(p) else p[start:]`: Python
   * slices clamp, so both branches are the clamped window.
   */
  function Window(p: seq<real>, start: nat, len: nat): (w: seq<real>)
    ensures |w| <= len
    ensures start + len <= |p| ==> w == p[start..start + len]
    ensures start + len > |p| ==> w == p[Min(start, |p|)..]
  {
    p[Min(start, |p|)..Min(start + len, |p|)]
  }

  /** The word cursor before word `j`: each earlier word counts its length plus one separator. */
  function WordStart(ws: seq<string>, j: nat): nat
    requires j <= |ws|
  {
    if j == 0 then 0 else WordStart(ws, j - 1) + |ws[j - 1]| + 1
  }

  /** The sentence cursor before sentence `k`: the lengths of the earlier sentences. */
  function SentenceStart(ss: seq<string>, k: nat): nat
    requires k <= |ss|
  {
    if k == 0 then 0 else SentenceStart(ss, k - 1) + |ss[k - 1]|
  }

  /** The entry for word `j` of a sentence whose confidences are `sentProbs`. */
  function WordAt(ws: seq<string>, sentProbs: seq<real>, j: nat): WordConf
    requires j < |ws|
  {
    WordConf(ws[j], AvgConf(Window(sentProbs, WordStart(ws, j), |ws[j]|)))
  }

  function WordsReport(ws: seq<string>, sentProbs: seq<real>): seq<WordConf> {
    seq(|ws|, j requires 0 <= j < |ws| => WordAt(ws, sentProbs, j))
  }

  /** The entry for sentence `k`, with its words from `str.split()`. */
  function SentenceAt(sents: seq<string>, charProbs: seq<real>, k: nat): SentenceConf
    requires k < |sents|
  {
    var sentProbs := Window(charProbs, SentenceStart(sents, k), |sents[k]|);
    SentenceConf(sents[k], AvgConf(sentProbs), WordsReport(Split(sents[k]), sentProbs))
  }

  function Aggregated(charProbs: seq<real>, sents: seq<string>): seq<SentenceConf> {
    seq(|sents|, k requires 0 <= k < |sents| => SentenceAt(sents, charProbs, k))
  }

  /** The inner `for w in s.split()` loop with its `word_cursor`. */
  method AggregateWords(s: string, sentProbs: seq<real>) returns (words: seq<WordConf>)
    ensures words == WordsReport(Split(s), sentProbs)
  {
    var ws := Split(s);
    ghost var report := WordsReport(ws, sentProbs);
    words := [];
    var wordCursor := 0;
    for j := 0 to |ws|
      invariant wordCursor == WordStart(ws, j)
      invariant words == report[..j]
    {
      var w := ws[j];
      var wlen := |w|;
      var wProbs := if wordCursor + wlen <= |sentProbs|
                    then sentProbs[wordCursor..wordCursor + wlen]
                    else sentProbs[Min(wordCursor, |sentProbs|)..];
      assert wProbs == Window(sentProbs, wordCursor, wlen);
      var word := WordConf(w, AvgConf(wProbs));
      assert word == report[j];
      assert report[..j + 1] == report[..j] + [word];
      words := words + [word];
      wordCursor := wordCursor + wlen + 1;
    }
    assert report[..|ws|] == report;
  }

  /** The outer `for s in sents` loop with its `cursor`. */
  method Aggregate(charProbs: seq<real>, sents: seq<string>) returns (sentences: seq<SentenceConf>)
    ensures sentences == Aggregated(charProbs, sents)
  {
    ghost var report := Aggregated(charProbs, sents);
    sentences := [];
    var cursor := 0;
    for k := 0 to |sents|
      invariant cursor == SentenceStart(sents, k)
      invariant sentences == report[..k]
    {
      var s := sents[k];
      var length := |s|;
      var sentProbs := if cursor + length <= |charProbs|
                       then charProbs[cursor..cursor + length]
                       else charProbs[Min(cursor, |charProbs|)..];
      assert sentProbs == Window(charProbs, cursor, length);
      var sentConf := AvgConf(sentProbs);
      var words := AggregateWords(s, sentProbs);
      var sentence := SentenceConf(s, sentConf, words);
      assert sentence == report[k];
      assert report[..k + 1] == report[..k] + [sentence];
      sentences := sentences + [sentence];
      cursor := cursor + length;
    }
    assert report[..|sents|] == report;
  }

  /**
   * Every sentence and word confidence is the mean of a window of
   * `charProbs`, so it stays below `hi`; it can fall to `0.0` rather than
   * `lo`, because an empty window averages to `0.0`.
   */
  lemma AggregatedWithin(charProbs: seq<real>, sents: seq<string>, lo: real, hi: real)
    requires 0.0 <= lo <= hi && AllWithin(charProbs, lo, hi)
    ensures var r := Aggregated(charProbs, sents);
            forall k :: 0 <= k < |r| ==>
              && 0.0 <= r[k].confidence <= hi
              && forall j :: 0 <= j < |r[k].words| ==> 0.0 <= r[k].words[j].confidence <= hi
  {
    var r := Aggregated(charProbs, sents);
    forall k | 0 <= k < |r|
      ensures 0.0 <= r[k].confidence <= hi
      ensures forall j :: 0 <= j < |r[k].words| ==> 0.0 <= r[k].words[j].confidence <= hi
    {
      var sp := Window(charProbs, SentenceStart(sents, k), |sents[k]|);
      WindowMeanWithin(charProbs, SentenceStart(sents, k), |sents[k]|, lo, hi);
      var ws := Split(sents[k]);
      forall j | 0 <= j < |ws|
        ensures 0.0 <= r[k].words[j].confidence <= hi
      {
        WindowMeanWithin(sp, WordStart(ws, j), |ws[j]|, lo, hi);
      }
    }
  }

  /** A window of values in `[lo, hi]` stays in `[lo, hi]`; its mean, `0.0` when it is empty, lies in `[0, hi]`. */
  lemma WindowMeanWithin(p: seq<real>, start: nat, len: nat, lo: real, hi: real)
    requires 0.0 <= lo <= hi && AllWithin(p, lo, hi)
    ensures AllWithin(Window(p, start, len), lo, hi)
    ensures 0.0 <= AvgConf(Window(p, start, len)) <= hi
  {
    var w := Window(p, start, len);
    assert forall i :: 0 <= i < |w| ==> w[i] == p[Min(start, |p|) + i];
    if w != [] {
      AvgConfWithin(w, lo, hi);
    }
  }

  /** The sentence cursor is the length of the earlier sentences joined. */
  lemma {:induction false} SentenceStartJoined(ss: seq<string>, k: nat)
    requires k <= |ss|
    ensures SentenceStart(ss, k) == |Concat(ss[..k])|
  {
    if k > 0 {
      SentenceStartJoined(ss, k - 1);
      assert ss[..k] == ss[..k - 1] + [ss[k - 1]];
      ConcatAppend(ss[..k - 1], [ss[k - 1]]);
      ConcatSingle(ss[k - 1]);
    } else {
      assert ss[..k] == [];
    }
  }

  lemma {:induction false} SentenceStartMonotone(ss: seq<string>, j: nat, k: nat)
    requires j <= k <= |ss|
    ensures SentenceStart(ss, j) <= SentenceStart(ss, k)
    decreases k
  {
    if j < k {
      SentenceStartMonotone(ss, j, k - 1);
    }
  }

  /** The word cursor is the length of the earlier words joined, one separator after each. */
  lemma {:induction false} WordStartJoined(ws: seq<string>, j: nat)
    requires j <= |ws|
    ensures WordStart(ws, j) == |Concat(ws[..j])| + j
  {
    if j > 0 {
      WordStartJoined(ws, j - 1);
      assert ws[..j] == ws[..j - 1] + [ws[j - 1]];
      ConcatAppend(ws[..j - 1], [ws[j - 1]]);
      ConcatSingle(ws[j - 1]);
    } else {
      assert ws[..j] == [];
    }
  }

  lemma {:induction false} WordStartMonotone(ws: seq<string>, j: nat, k: nat)
    requires j <= k <= |ws|
    ensures WordStart(ws, j) <= WordStart(ws, k)
    decreases k
  {
    if j < k {
      WordStartMonotone(ws, j, k - 1);
    }
  }

  /** Word `j` ends before the cursor reaches the end of the words joined with one separator each. */
  lemma WordEndWithin(ws: seq<string>, j: nat)
    requires j < |ws|
    ensures WordStart(ws, j) + |ws[j]| < |Concat(ws)| + |ws|
  {
    WordStartMonotone(ws, j + 1, |ws|);
    WordStartJoined(ws, |ws|);
    assert ws[..|ws|] == ws;
  }

  /** Sentence `k` ends no later than the sentences joined. */
  lemma SentenceEndWithin(ss: seq<string>, k: nat)
    requires k < |ss|
    ensures SentenceStart(ss, k) + |ss[k]| <= |Concat(ss)|
  {
    SentenceStartMonotone(ss, k + 1, |ss|);
    SentenceStartJoined(ss, |ss|);
    assert ss[..|ss|] == ss;
  }

  /**
   * When the sentence has a confidence for each of its characters, every
   * word's window is complete: the word cursor, which counts one separator
   * per gap, never runs past the sentence.
   */
  lemma WordWindowsExact(s: string, sentProbs: seq<real>)
    requires |s| <= |sentProbs|
    ensures var ws := Split(s);
            forall j :: 0 <= j < |ws| ==> WordStart(ws, j) + |ws[j]| <= |sentProbs|
    ensures var ws := Split(s);
            forall j :: 0 <= j < |ws| ==>
              Window(sentProbs, WordStart(ws, j), |ws[j]|) == sentProbs[WordStart(ws, j)..WordStart(ws, j) + |ws[j]|]
  {
    var ws := Split(s);
    SplitJoinLength(s);
    forall j | 0 <= j < |ws|
      ensures WordStart(ws, j) + |ws[j]| <= |sentProbs|
    {
      WordEndWithin(ws, j);
    }
  }

  /**
   * When there is a confidence for each character of `text`, every sentence
   * of `Segment(text)` gets a complete window, since the sentences together
   * are no longer than `text`.
   */
  lemma SentenceWindowsExact(text: string, charProbs: seq<real>)
    requires |text| <= |charProbs|
    ensures var ss := Segment(text);
            forall k :: 0 <= k < |ss| ==> SentenceStart(ss, k) + |ss[k]| <= |charProbs|
    ensures var ss := Segment(text);
            forall k :: 0 <= k < |ss| ==>
              Window(charProbs, SentenceStart(ss, k), |ss[k]|) == charProbs[SentenceStart(ss, k)..SentenceStart(ss, k) + |ss[k]|]
  {
    var ss := Segment(text);
    SegmentTotalLength(text);
    forall k | 0 <= k < |ss|
      ensures SentenceStart(ss, k) + |ss[k]| <= |charProbs|
    {
      SentenceEndWithin(ss, k);
    }
  }

  /** A window inside a constant list is that constant repeated. */
  lemma ConstantWindow(c: real, n: nat, start: nat, len: nat)
    requires start + len <= n
    ensures Window(Fill(c, n), start, len) == Fill(c, len)
  {
  }

  /** A non-empty window of a constant list averages to that constant. */
  lemma ConstantWindowMean(c: real, n: nat, start: nat, len: nat)
    requires start + len <= n && len > 0
    ensures AvgConf(Window(Fill(c, n), start, len)) == c
  {
    ConstantWindow(c, n, start, len);
    AvgConfFill(c, len);
  }

  /** A sentence whose characters all have confidence `c` gives every one of its words `c`. */
  lemma WordsUniform(s: string, c: real)
    ensures var ws := WordsReport(Split(s), Fill(c, |s|));
            forall j :: 0 <= j < |ws| ==> ws[j].confidence == c
  {
    var ws := Split(s);
    var sp := Fill(c, |s|);
    SplitJoinLength(s);
    forall j | 0 <= j < |ws|
      ensures WordsReport(ws, sp)[j].confidence == c
    {
      assert ws[j] != [];
      WordEndWithin(ws, j);
      ConstantWindowMean(c, |s|, WordStart(ws, j), |ws[j]|);
    }
  }

  /** Sentence `k`, when its window lies inside a constant list, gets that constant, as do its words. */
  lemma SentenceUniform(ss: seq<string>, c: real, n: nat, k: nat)
    requires k < |ss| && SentenceStart(ss, k) + |ss[k]| <= n
    ensures var r := SentenceAt(ss, Fill(c, n), k);
            && (ss[k] != [] ==> r.confidence == c)
            && forall j :: 0 <= j < |r.words| ==> r.words[j].confidence == c
  {
    var start := SentenceStart(ss, k);
    var sp := Window(Fill(c, n), start, |ss[k]|);
    ConstantWindow(c, n, start, |ss[k]|);
    var r := SentenceAt(ss, Fill(c, n), k);
    assert r.words == WordsReport(Split(ss[k]), Fill(c, |ss[k]|));
    if ss[k] != [] {
      ConstantWindowMean(c, n, start, |ss[k]|);
    }
    WordsUniform(ss[k], c);
  }

  /**
   * When every character of `text` has the same confidence `c`, every
   * non-empty sentence and every word gets exactly `c`.
   */
  lemma UniformConfidences(text: string, c: real, n: nat)
    requires |text| <= n
    ensures var ss := Segment(text);
            var r := Aggregated(Fill(c, n), ss);
            forall k :: 0 <= k < |r| ==>
              && (ss[k] != [] ==> r[k].confidence == c)
              && forall j :: 0 <= j < |r[k].words| ==> r[k].words[j].confidence == c
  {
    var ss := Segment(text);
    SentenceWindowsExact(text, Fill(c, n));
    forall k | 0 <= k < |ss|
      ensures && (ss[k] != [] ==> SentenceAt(ss, Fill(c, n), k).confidence == c)
              && forall j :: 0 <= j < |SentenceAt(ss, Fill(c, n), k).words| ==>
                   SentenceAt(ss, Fill(c, n), k).words[j].confidence == c
    {
      SentenceUniform(ss, c, n, k);
    }
  }

  /**
   * With at least as many confidences as the sentences have characters
   * together, each sentence's confidence is the mean of exactly as many
   * entries as it has characters, starting at its cursor.
   */
  lemma ExactSentenceConfidences(sents: seq<string>, charProbs: seq<real>)
    requires |Concat(sents)| <= |charProbs|
    ensures forall k :: 0 <= k < |sents| ==> SentenceStart(sents, k) + |sents[k]| <= |charProbs|
    ensures var r := Aggregated(charProbs, sents);
            forall k {:trigger r[k]} :: 0 <= k < |sents| ==>
              r[k].confidence == AvgConf(charProbs[SentenceStart(sents, k)..SentenceStart(sents, k) + |sents[k]|])
  {
    SentencesEndWithin(sents, |charProbs|);
  }

  /** No sentence ends past `n` when the sentences joined fit in `n`. */
  lemma SentencesEndWithin(sents: seq<string>, n: nat)
    requires |Concat(sents)| <= n
    ensures forall k :: 0 <= k < |sents| ==> SentenceStart(sents, k) + |sents[k]| <= n
  {
    forall k | 0 <= k < |sents|
      ensures SentenceStart(sents, k) + |sents[k]| <= n
    {
      SentenceEndWithin(sents, k);
    }
  }
}
