/** The DC-offset removal kernel of the PDM receive task: one block of
    signed 16-bit samples delivered by the I2S driver is summed into an
    int32_t accumulator, the truncated mean `dc` is taken, and every sample
    minus `dc` is emitted in index order. */
module PdmRx {
  import opened CInt
  import opened Samples

  /** What one run of the kernel does with a block. The two error cases are
      the points at which the C code has undefined behaviour. */
  datatype Outcome =
    | DivisionByZero                       // `sum / sample_count` with no samples
    | SumOverflow                          // `sum += r_buf[i]` leaves the int32_t range
    | Emitted(dc: int, values: seq<int>)   // the mean and the values printed, in order

  /** One pass of the task's polling loop. */
  datatype Cycle =
    | Skipped                              // the read did not return ESP_OK
    | Processed(outcome: Outcome)

  /** Every value is one an int16_t holds. */
  predicate AllInt16(s: seq<int>) {
    forall i :: 0 <= i < |s| ==> IsInt16(s[i])
  }

  /** No running sum of the block, from the empty prefix to the whole block,
      leaves the int32_t range. */
  ghost predicate SumsFitInt32(s: seq<int>) {
    forall k :: 0 <= k <= |s| ==> IsInt32(Sum(s[..k]))
  }

  /** The block with `dc` subtracted from every sample, in the same order. */
  function SubtractOffset(s: seq<int>, dc: int): (r: seq<int>) {
    seq(|s|, i requires 0 <= i < |s| => s[i] - dc)
  }

  /** The number of whole int16_t samples in `rBytes` bytes: an odd
      trailing byte is not a sample. */
  function SampleCount(rBytes: nat): (n: nat)
    ensures 2 * n <= rBytes < 2 * n + 2
  {
    rBytes / 2
  }

  /** The reference meaning of the kernel on the samples it reads. */
  ghost function Normalize(s: seq<int>): (o: Outcome) {
    if |s| == 0 then DivisionByZero
    else if !SumsFitInt32(s) then SumOverflow
    else
      var dc := TDiv(Sum(s), |s|);
      Emitted(dc, SubtractOffset(s, dc))
  }

  /** The kernel. `buf` is the buffer of EXAMPLE_BUFF_SIZE bytes (here
      `buffSize`) seen as int16_t slots; `rBytes` is the byte count the read
      reported. Only the first SampleCount(rBytes) samples are read, and the
      buffer is not written. */
  method RemoveDcOffset(buf: array<Int16>, buffSize: nat, rBytes: nat) returns (o: Outcome)
    requires buf.Length == buffSize / 2
    requires rBytes <= buffSize
    ensures o == Normalize(buf[..SampleCount(rBytes)])
  {
    var sampleCount := rBytes / 2;
    ghost var block: seq<int> := buf[..sampleCount];

    var sum: int := 0;
    for i := 0 to sampleCount
      invariant sum == Sum(buf[..i])
      invariant forall k :: 0 <= k <= i ==> IsInt32(Sum(buf[..k]))
    {
      assert buf[..i + 1][..i] == buf[..i];
      sum := sum + buf[i];
      if !IsInt32(sum) {
        assert !IsInt32(Sum(block[..i + 1])) by {
          assert block[..i + 1] == buf[..i + 1];
        }
        return SumOverflow;
      }
    }
    assert buf[..sampleCount] == block;
    assert SumsFitInt32(block) by {
      forall k | 0 <= k <= |block| ensures IsInt32(Sum(block[..k])) {
        assert block[..k] == buf[..k];
      }
    }

    if sampleCount == 0 {
      return DivisionByZero;
    }
    var dc := Wrap16(TDiv(sum, sampleCount));
    assert dc == TDiv(Sum(block), |block|) by {
      MeanWithinSamples(block);
    }

    var values: seq<int> := [];
    for i := 0 to sampleCount
      invariant |values| == i
      invariant forall k :: 0 <= k < i ==> values[k] == buf[k] - dc
    {
      values := values + [buf[i] - dc];
    }
    assert values == SubtractOffset(block, dc);
    return Emitted(dc, values);
  }

  /** One iteration of the task loop: the kernel runs only when the read
      reported success, and nothing is emitted otherwise. */
  method RxCycle(readOk: bool, buf: array<Int16>, buffSize: nat, rBytes: nat) returns (c: Cycle)
    requires buf.Length == buffSize / 2
    requires rBytes <= buffSize
    ensures !readOk ==> c == Skipped
    ensures readOk ==> c == Processed(Normalize(buf[..SampleCount(rBytes)]))
  {
    if readOk {
      var o := RemoveDcOffset(buf, buffSize, rBytes);
      c := Processed(o);
    } else {
      c := Skipped;
    }
  }

  /** The truncated mean of a non-empty block lies between its smallest and
      largest sample. */
  lemma MeanWithinSamples(s: seq<int>)
    requires |s| > 0
    ensures MinOf(s) <= TDiv(Sum(s), |s|) <= MaxOf(s)
  {
    SumBetweenMinMax(s);
    QuotientBetween(Sum(s), |s|, TDiv(Sum(s), |s|), MinOf(s), MaxOf(s));
  }

  /** Removing `dc` from every sample lowers the sum by `dc` once per sample. */
  lemma {:induction false} SumSubtractOffset(s: seq<int>, dc: int)
    ensures Sum(SubtractOffset(s, dc)) == Sum(s) - dc * |s|
  {
    if |s| > 0 {
      var r, init := SubtractOffset(s, dc), s[..|s| - 1];
      assert r[..|r| - 1] == SubtractOffset(init, dc);
      SumSubtractOffset(init, dc);
      assert dc * |s| == dc * |init| + dc;
    }
  }

  /** The division `sum / sample_count` in main/i2s_pdm_rx.c is undefined
      exactly when no whole sample was read: fewer than two bytes. */
  lemma EmptyBlockDividesByZero(s: seq<int>, rBytes: nat)
    requires SampleCount(rBytes) <= |s|
    ensures Normalize(s[..SampleCount(rBytes)]) == DivisionByZero <==> rBytes < 2
  {
  }

  /** With at most 65536 int16_t samples no running sum leaves the int32_t
      range, so the accumulation never overflows. */
  lemma NoOverflowUpTo65536(s: seq<int>)
    requires AllInt16(s)
    requires |s| <= 0x1_0000
    ensures SumsFitInt32(s)
    ensures |s| > 0 ==> Normalize(s).Emitted?
  {
    forall k | 0 <= k <= |s|
      ensures IsInt32(Sum(s[..k]))
    {
      SumBounds(s[..k], INT16_MIN, INT16_MAX);
      assert INT16_MIN * k >= INT16_MIN * 0x1_0000;
      assert INT16_MAX * k <= INT16_MAX * 0x1_0000;
    }
  }

  /** The bound of NoOverflowUpTo65536 is tight: 65537 samples of -32768 sum
      below the int32_t minimum. */
  lemma OverflowAt65537()
    ensures Normalize(seq(0x1_0001, _ => INT16_MIN)) == SumOverflow
  {
    var s := seq(0x1_0001, _ => INT16_MIN);
    SumBounds(s, INT16_MIN, INT16_MIN);
    assert s[..|s|] == s;
  }

  /** When the accumulation stays in range, the kernel emits one value per
      sample, value i being sample i minus `dc`, and `dc` is the truncated
      mean, no smaller than the smallest and no larger than the largest
      sample. */
  lemma EmittedValues(s: seq<int>)
    requires |s| > 0
    requires SumsFitInt32(s)
    ensures Normalize(s).Emitted?
    ensures Normalize(s).dc == TDiv(Sum(s), |s|)
    ensures MinOf(s) <= Normalize(s).dc <= MaxOf(s)
    ensures |Normalize(s).values| == |s|
    ensures forall i :: 0 <= i < |s| ==> Normalize(s).values[i] == s[i] - Normalize(s).dc
  {
    MeanWithinSamples(s);
  }

  /** The mean of int16_t samples is itself an int16_t, so narrowing it to
      `int16_t dc` loses nothing. */
  lemma DcNarrowingLossless(s: seq<int>)
    requires |s| > 0
    requires AllInt16(s)
    ensures IsInt16(TDiv(Sum(s), |s|))
    ensures Wrap16(TDiv(Sum(s), |s|)) == TDiv(Sum(s), |s|)
  {
    MeanWithinSamples(s);
  }

  /** Every emitted value is at most the spread of the block in magnitude,
      hence in [-65535, 65535]: on a target whose `int` is 32 bits wide the
      subtraction, done in `int` after promotion, neither overflows nor
      wraps. */
  lemma EmittedRange(s: seq<int>)
    requires AllInt16(s)
    requires Normalize(s).Emitted?
    ensures forall i :: 0 <= i < |Normalize(s).values| ==>
      -(MaxOf(s) - MinOf(s)) <= Normalize(s).values[i] <= MaxOf(s) - MinOf(s)
    ensures forall i :: 0 <= i < |Normalize(s).values| ==>
      -65535 <= Normalize(s).values[i] <= 65535
  {
    EmittedValues(s);
  }

  /** A block whose samples all equal c has mean c, and every emitted value
      is 0. */
  lemma ConstantBlock(s: seq<int>, c: int)
    requires |s| > 0
    requires forall i :: 0 <= i < |s| ==> s[i] == c
    requires SumsFitInt32(s)
    ensures Normalize(s) == Emitted(c, seq(|s|, _ => 0))
  {
    SumBounds(s, c, c);
    TDivUnique(Sum(s), |s|, c);
    assert SubtractOffset(s, c) == seq(|s|, _ => 0);
  }

  /** What is left after the offset is removed sums to the remainder of the
      truncating division: smaller than the sample count in magnitude and
      of the sign of the original sum, so its own truncated mean is 0. */
  lemma ResidualMeanIsZero(s: seq<int>)
    requires Normalize(s).Emitted?
    ensures Sum(Normalize(s).values) == Sum(s) - Normalize(s).dc * |s|
    ensures -|s| < Sum(Normalize(s).values) < |s|
    ensures Sum(s) >= 0 ==> Sum(Normalize(s).values) >= 0
    ensures Sum(s) <= 0 ==> Sum(Normalize(s).values) <= 0
    ensures TDiv(Sum(Normalize(s).values), |s|) == 0
  {
    var o := Normalize(s);
    SumSubtractOffset(s, o.dc);
    TDivUnique(Sum(o.values), |s|, 0);
  }

  /** Worked blocks: a constant block, a two-sample block, a single sample,
      a block whose corrected values leave the int16_t range (they are
      printed as `int`, so they stay exact), and a negative sum whose mean
      is truncated toward zero rather than rounded down. */
  lemma ExampleBlocks()
    ensures Normalize([5, 5, 5, 5]) == Emitted(5, [0, 0, 0, 0])
    ensures Normalize([10, 0]) == Emitted(5, [5, -5])
    ensures Normalize([7]) == Emitted(7, [0])
    ensures Normalize([32767, 32767, -32768]) == Emitted(10922, [21845, 21845, -43690])
    ensures Normalize([-3, 0]) == Emitted(-1, [-2, 1])
  {
    NoOverflowUpTo65536([5, 5, 5, 5]);
    ConstantBlock([5, 5, 5, 5], 5);
    NoOverflowUpTo65536([10, 0]);
    NoOverflowUpTo65536([7]);
    NoOverflowUpTo65536([32767, 32767, -32768]);
    assert Sum([32767, 32767, -32768]) == 32766 by {
      assert [32767, 32767, -32768][..2] == [32767, 32767];
      assert [32767, 32767][..1] == [32767];
    }
    NoOverflowUpTo65536([-3, 0]);
    assert SubtractOffset([10, 0], 5) == [5, -5];
    assert SubtractOffset([7], 7) == [0];
    assert SubtractOffset([32767, 32767, -32768], 10922) == [21845, 21845, -43690];
    assert SubtractOffset([-3, 0], -1) == [-2, 1];
  }
}
