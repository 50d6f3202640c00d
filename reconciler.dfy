/**
 * The length reconciler of `ASRService.transcribe` (in
 * `app/asr_service.py`; line numbers below refer to that file): the normalised list,
 * indexed over the raw model text, is aligned to the post-processed text.
 */
module Reconciler {
  import opened Wrappers
  import opened Averages
  import opened Normalizer

  /** The constant used when no confidence data is available at all. */
  const DefaultConfidence: real := 0.9

  /**
   * Source index of position `i` under the proportional remap:
   * `min(int(i * scale), n - 1)` with `scale = n / max(1, m)`, computed
   * here with exact integer division.
   */
  function RemapIndex(i: nat, n: nat, m: nat): nat
    requires n > 0
  {
    Min(i * n / Max(1, m), n - 1)
  }

  /** The aligned list the three policies of lines 137-159 produce. */
  function Aligned(rawText: string, text: string, numeric: seq<real>): seq<real> {
    var n := |numeric|;
    if n == |rawText| then
      if |text| == |rawText| then numeric
      else if n > 0 then seq(|text|, i requires 0 <= i < |text| => numeric[RemapIndex(i, n, |text|)])
      else []
    else if n > 0 then Fill(AvgConf(numeric), |text|)
    else Fill(DefaultConfidence, |text|)
  }

  /**
   * Lines 137-159. `numeric` is the normalised form of `rawProb`, so it is
   * never shorter than it; the `elif raw_prob` fallback is therefore dead.
   */
  method Reconcile(rawText: string, rawProb: seq<Value>, text: string, numeric: seq<real>)
    returns (charProbs: seq<real>)
    requires |numeric| == |rawProb|
    ensures charProbs == Aligned(rawText, text, numeric)
  {
    charProbs := [];
    if |numeric| == |rawText| {
      if |text| == |rawText| {
        charProbs := numeric;
      } else if |numeric| > 0 {
        var n := |numeric|;
        for i := 0 to |text|
          invariant |charProbs| == i
          invariant forall j :: 0 <= j < i ==> charProbs[j] == numeric[RemapIndex(j, n, |text|)]
        {
          var idx := Min(i * n / Max(1, |text|), n - 1);
          charProbs := charProbs + [numeric[idx]];
        }
      }
    } else {
      if |numeric| > 0 {
        var avg := AvgConf(numeric);
        charProbs := Fill(avg, |text|);
      } else if |rawProb| > 0 {
        assert false;
      } else {
        charProbs := Fill(DefaultConfidence, |text|);
      }
    }
  }

  /** Exactly, `i * n / m` never reaches `n` for `i < m`: the `min` never clamps. */
  lemma RemapNoClamp(i: nat, n: nat, m: nat)
    requires n > 0 && i < m
    ensures RemapIndex(i, n, m) == i * n / m
  {
    assert i * n < m * n by { MulStrict(i, m, n); }
    DivBelow(i * n, m, n);
  }

  lemma MulStrict(i: nat, m: nat, n: nat)
    requires i < m && n > 0
    ensures i * n < m * n
  {
  }

  lemma DivBelow(a: nat, m: nat, n: nat)
    requires m > 0 && a < m * n
    ensures a / m < n
  {
  }

  /** The remap is monotone: later positions never read earlier source entries. */
  lemma RemapMonotone(i: nat, j: nat, n: nat, m: nat)
    requires n > 0 && i <= j
    ensures RemapIndex(i, n, m) <= RemapIndex(j, n, m)
  {
    var q := Max(1, m);
    assert i * n <= j * n by { MulMono(i, j, n); }
    DivMono(i * n, j * n, q);
  }

  lemma MulMono(i: int, j: int, n: nat)
    requires i <= j
    ensures i * n <= j * n
  {
  }

  lemma DivMono(a: nat, b: nat, q: nat)
    requires q > 0 && a <= b
    ensures a / q <= b / q
  {
    var x, y := a / q, b / q;
    assert q * x <= a;
    assert b < q * y + q;
    assert q * x < q * (y + 1);
    LessByFactor(x, y + 1, q);
  }

  lemma LessByFactor(x: int, z: int, q: nat)
    requires q > 0 && q * x < q * z
    ensures x < z
  {
    if x >= z {
      MulMono(z, x, q);
    }
  }

  /** Same length as raw text and final text: the normalised list is used as it is. */
  lemma AlignedDirectCopy(rawText: string, text: string, numeric: seq<real>)
    requires |numeric| == |rawText| && |text| == |rawText|
    ensures Aligned(rawText, text, numeric) == numeric
  {
  }

  /**
   * Proportional remap: one entry per character of `text`, each taken from
   * an index in `[0, n)` that never decreases along `text`.
   */
  lemma AlignedRemap(rawText: string, text: string, numeric: seq<real>)
    requires |numeric| == |rawText| && |numeric| > 0 && |text| != |numeric|
    ensures |Aligned(rawText, text, numeric)| == |text|
    ensures forall i :: 0 <= i < |text| ==>
              RemapIndex(i, |numeric|, |text|) == Min(i * |numeric| / Max(1, |text|), |numeric| - 1) < |numeric|
              && Aligned(rawText, text, numeric)[i] == numeric[RemapIndex(i, |numeric|, |text|)]
    ensures forall i, j :: 0 <= i <= j < |text| ==> RemapIndex(i, |numeric|, |text|) <= RemapIndex(j, |numeric|, |text|)
  {
    forall i, j | 0 <= i <= j < |text|
      ensures RemapIndex(i, |numeric|, |text|) <= RemapIndex(j, |numeric|, |text|)
    {
      RemapMonotone(i, j, |numeric|, |text|);
    }
  }

  /** On a length mismatch, the mean of the normalised list, or 0.9 when it is empty, fills every position. */
  lemma AlignedFallback(rawText: string, text: string, numeric: seq<real>)
    requires |numeric| != |rawText|
    ensures |Aligned(rawText, text, numeric)| == |text|
    ensures forall i :: 0 <= i < |text| ==>
              Aligned(rawText, text, numeric)[i] == (if numeric != [] then AvgConf(numeric) else 0.9)
  {
  }

  /**
   * The aligned list matches `text` in length except in one case: no
   * confidences and an empty raw text, but a non-empty final text, where it
   * stays empty.
   */
  lemma AlignedLength(rawText: string, text: string, numeric: seq<real>)
    ensures |Aligned(rawText, text, numeric)| == |text| <==> !(numeric == [] && rawText == [] && text != [])
    ensures |Aligned(rawText, text, numeric)| != |text| ==> Aligned(rawText, text, numeric) == []
  {
  }

  /** If every normalised value lies in `[0, 1]`, so does every aligned value. */
  lemma AlignedWithin(rawText: string, text: string, numeric: seq<real>)
    requires AllWithin(numeric, 0.0, 1.0)
    ensures AllWithin(Aligned(rawText, text, numeric), 0.0, 1.0)
  {
    var a := Aligned(rawText, text, numeric);
    forall i | 0 <= i < |a| ensures 0.0 <= a[i] <= 1.0 {
      if |numeric| == |rawText| && |text| != |rawText| && |numeric| > 0 {
        assert RemapIndex(i, |numeric|, |text|) < |numeric|;
      }
    }
  }
}
