/**
 * `StenographicLLM` (steno-llm-integration.py): the dimensions of the
 * transformer it stands in for, the closed-form FLOP count of one forward
 * pass, and the counter of sequences it has processed.
 */
module Llm {
  import opened Text
  import opened StenoProcessor

  /**
   * What `get_overall_stats` gives: the error entry before any sequence,
   * the `ZeroDivisionError` it raises when every compressed text so far had
   * no words, or the sequence count, the average compression and the
   * FLOPs saved.
   */
  datatype Overall =
    | NoSequencesYet
    | DivisionByZero
    | Processed(sequences: nat, averageCompression: real, flopsSaved: int)

  /** `int(words * 1.3)`, the rough token estimate of a text of `words` words. */
  function TokenEstimate(words: nat): (tokens: nat)
    ensures words <= tokens <= 2 * words
    ensures tokens == 0 <==> words == 0
  {
    13 * words / 10
  }

  class StenographicLlm {
    const modelDim: int
    const nLayers: int
    const nHeads: int
    const ffnDim: int
    var sequencesProcessed: nat
    /** The running token sums, in tenths of a token: each text adds 13 per word (`len(text.split()) * 1.3`). */
    var originalTokenTenths: nat
    var compressedTokenTenths: nat
    var computeSaved: int

    /** `StenographicLLM(base_model_dim=768, n_layers=12)`: twelve heads and a feed-forward width of four model widths. */
    constructor (baseModelDim: int := 768, layers: int := 12)
      ensures modelDim == baseModelDim && nLayers == layers
      ensures nHeads == 12 && ffnDim == 4 * baseModelDim
      ensures sequencesProcessed == 0 && originalTokenTenths == 0 && compressedTokenTenths == 0 && computeSaved == 0
    {
      modelDim := baseModelDim;
      nLayers := layers;
      nHeads := 12;
      ffnDim := baseModelDim * 4;
      sequencesProcessed := 0;
      originalTokenTenths := 0;
      compressedTokenTenths := 0;
      computeSaved := 0;
    }

    /**
     * `calculate_flops(seq_len)`: attention (n^2 d L), feed-forward
     * (2 n d ffn L) and layer norms and residuals (4 n d L).
     */
    function CalculateFlops(seqLen: int): (flops: int)
      ensures seqLen == 0 ==> flops == 0
      ensures flops == seqLen * modelDim * nLayers * (seqLen + 2 * ffnDim + 4)
    {
      var attention := seqLen * seqLen * modelDim * nLayers;
      var ffn := seqLen * modelDim * ffnDim * 2 * nLayers;
      var other := seqLen * modelDim * nLayers * 4;
      attention + ffn + other
    }

    /** With non-negative dimensions a non-negative length costs a non-negative number of FLOPs, at least its attention term. */
    lemma FlopsNonNegative(seqLen: int)
      requires seqLen >= 0 && modelDim >= 0 && nLayers >= 0 && ffnDim >= 0
      ensures CalculateFlops(seqLen) >= seqLen * seqLen * modelDim * nLayers >= 0
    {
      var k := seqLen * modelDim * nLayers;
      assert k >= 0 by {
        MulNonNegative(seqLen, modelDim);
        MulNonNegative(seqLen * modelDim, nLayers);
      }
      assert seqLen * seqLen * modelDim * nLayers == k * seqLen;
      MulNonNegative(k, seqLen);
      MulNonNegative(k, 2 * ffnDim + 4);
      assert CalculateFlops(seqLen) == k * seqLen + k * (2 * ffnDim + 4);
    }

    /**
     * Shortening the sequence saves `(n - m) d L (n + m + 2 ffn + 4)` FLOPs:
     * the saving on attention grows with the sum of the two lengths.
     */
    lemma FlopsSaved(m: int, n: int)
      ensures CalculateFlops(n) - CalculateFlops(m)
           == (n - m) * modelDim * nLayers * (n + m + 2 * ffnDim + 4)
    {
      var k, c := modelDim * nLayers, 2 * ffnDim + 4;
      FlopsFactored(n);
      FlopsFactored(m);
      assert n * (n + c) - m * (m + c) == (n - m) * (n + m + c);
      MulSub(k, n * (n + c), m * (m + c));
      Regroup(n - m, modelDim, nLayers, n + m + c);
    }

    /** One forward pass costs the model width times the depth times `n (n + 2 ffn + 4)`. */
    lemma FlopsFactored(seqLen: int)
      ensures CalculateFlops(seqLen) == (modelDim * nLayers) * (seqLen * (seqLen + 2 * ffnDim + 4))
    {
      Regroup(seqLen, modelDim, nLayers, seqLen + 2 * ffnDim + 4);
    }

    /** With non-negative dimensions, a shorter sequence never costs more: compression never adds FLOPs. */
    lemma FlopsMonotone(m: int, n: int)
      requires 0 <= m <= n && modelDim >= 0 && nLayers >= 0 && ffnDim >= 0
      ensures CalculateFlops(m) <= CalculateFlops(n)
    {
      FlopsSaved(m, n);
      MulNonNegative(n - m, modelDim);
      MulNonNegative((n - m) * modelDim, nLayers);
      MulNonNegative((n - m) * modelDim * nLayers, n + m + 2 * ffnDim + 4);
    }

    /**
     * `process_with_compression(text, processor)`: the FLOPs of the text
     * and of its aggressive compression, each at its rough token estimate,
     * and the running sums updated.
     */
    method ProcessWithCompression(text: string, processor: Processor) returns (originalFlops: int, compressedFlops: int)
      requires processor.Valid()
      modifies this
      ensures var compressed := CompressText(processor.Table(), text, true);
        && originalFlops == CalculateFlops(TokenEstimate(|Split(text)|))
        && compressedFlops == CalculateFlops(TokenEstimate(|Split(compressed)|))
        && sequencesProcessed == old(sequencesProcessed) + 1
        && originalTokenTenths == old(originalTokenTenths) + 13 * |Split(text)|
        && compressedTokenTenths == old(compressedTokenTenths) + 13 * |Split(compressed)|
        && computeSaved == old(computeSaved) + (originalFlops - compressedFlops)
        && (|Split(compressed)| > 0 ==> OverallStats().Processed?)
        && (modelDim >= 0 && nLayers >= 0 && ffnDim >= 0 && |Split(compressed)| <= |Split(text)|
            ==> compressedFlops <= originalFlops)
    {
      var originalWords := |Split(text)|;
      originalFlops := CalculateFlops(TokenEstimate(originalWords));
      var compressed, ratio := processor.Compress(text, true);
      var compressedWords := |Split(compressed)|;
      compressedFlops := CalculateFlops(TokenEstimate(compressedWords));
      if modelDim >= 0 && nLayers >= 0 && ffnDim >= 0 && compressedWords <= originalWords {
        FlopsMonotone(TokenEstimate(compressedWords), TokenEstimate(originalWords));
      }
      sequencesProcessed := sequencesProcessed + 1;
      originalTokenTenths := originalTokenTenths + 13 * originalWords;
      compressedTokenTenths := compressedTokenTenths + 13 * compressedWords;
      computeSaved := computeSaved + (originalFlops - compressedFlops);
    }

    /**
     * `get_overall_stats`: the error entry until a sequence has been
     * processed, a division by zero while the compressed token sum is
     * zero, and otherwise the average compression, the original token sum
     * over the compressed one.
     */
    function OverallStats(): (r: Overall)
      reads this
      ensures r.NoSequencesYet? <==> sequencesProcessed == 0
      ensures r.DivisionByZero? <==> sequencesProcessed > 0 && compressedTokenTenths == 0
      ensures r.Processed? ==> r.sequences == sequencesProcessed && r.flopsSaved == computeSaved
                               && r.averageCompression * (compressedTokenTenths as real) == originalTokenTenths as real
    {
      if sequencesProcessed == 0 then NoSequencesYet
      else if compressedTokenTenths == 0 then DivisionByZero
      else Processed(sequencesProcessed, originalTokenTenths as real / compressedTokenTenths as real, computeSaved)
    }
  }

  lemma Regroup(a: int, b: int, d: int, e: int)
    ensures a * b * d * e == (b * d) * (a * e)
  {
  }

  lemma MulSub(k: int, x: int, y: int)
    ensures k * x - k * y == k * (x - y)
  {
  }

  lemma MulNonNegative(a: int, b: int)
    requires a >= 0 && b >= 0
    ensures a * b >= 0
  {
  }
}
