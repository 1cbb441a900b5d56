# DC-offset removal in the PDM receive task

This project models the one computation in the I2S PDM microphone example:
the DC-offset removal step of `i2s_example_pdm_rx_task`. Each time the
blocking read of the I2S channel succeeds, the task takes the number of bytes
it reported, counts the whole `int16_t` samples in them, sums those samples
into an `int32_t` accumulator, divides by the count with C's truncating
division, narrows the quotient to `int16_t dc`, and prints every sample minus
`dc`, one per line, in index order.

The model has three modules:

- `CInt` (`c_int.dfy`): the `int16_t` and `int32_t` ranges, `TDiv` (C's `/`,
  which truncates toward zero, unlike Dafny's Euclidean `/`), and `Wrap16`
  (the conversion of an `int` to `int16_t`, reduction modulo 2^16).
- `Samples` (`samples.dfy`): the specification functions `Sum`, `MinOf` and
  `MaxOf` over a block, and the bound lemmas about sums.
- `PdmRx` (`pdm_rx.dfy`): the kernel as a method with two loops over the
  receive buffer (`RemoveDcOffset`), one pass of the polling loop (`RxCycle`),
  the reference function `Normalize` the method is proved against, and the
  lemmas about `Normalize`.

The receive buffer is an `array<Int16>` of `buffSize / 2` slots, where
`buffSize` stands for `EXAMPLE_BUFF_SIZE` (allocated with `calloc(1,
EXAMPLE_BUFF_SIZE)`), and the reported byte count is at most `buffSize`,
since the read asks for at most that many bytes. The kernel has no
`modifies` clause: it only reads the buffer.

The C code has undefined behaviour in two places, and the model makes each
an explicit outcome instead of a precondition:

- `SumOverflow`: a running sum leaves the `int32_t` range at line 69 of
  `main/i2s_pdm_rx.c`. This cannot happen with at most 65536 samples
  (`NoOverflowUpTo65536`), and does happen with 65537 samples of -32768 (`OverflowAt65537`). The value of
  `EXAMPLE_BUFF_SIZE` is defined in `main/i2s_pdm_example.h`, which is not
  part of this model, so the model does not assume the bound.
- `DivisionByZero`: a successful read of fewer than two bytes leaves
  `sample_count` at 0, and line 71 divides by it. The code does not guard
  this case.

The code computes `r_buf[i] - dc` in `int` after
integer promotion and prints it with `%d`, so the emitted values are exact
integers in [-65535, 65535] (`EmittedRange`): they are not clipped and they
do not wrap.

The model assumes that `int` is 32 bits wide on the target. Only then is
`sum += r_buf[i]` at line 69 an overflow of a signed `int` (undefined
behaviour) rather than an implementation-defined narrowing back to
`int32_t`, and only then does `r_buf[i] - dc` always fit in `int`.

## Model

| member | source | states |
|---|---|---|
| `PdmRx.SampleCount` | main/i2s_pdm_rx.c:66 | the sample count n satisfies 2n <= r_bytes < 2n + 2: whole samples only, an odd trailing byte is ignored |
| `PdmRx.RemoveDcOffset` | main/i2s_pdm_rx.c:66-75 | the kernel's outcome on the buffer is `Normalize` of exactly the first r_bytes/2 samples; the int32 sum loop keeps `sum == Sum(buf[..i])` with every running sum in range, and the narrowing of the mean to int16_t is proved lossless |
| `PdmRx.RxCycle` | main/i2s_pdm_rx.c:65-76 | a read that does not return ESP_OK emits nothing; a successful one runs the kernel on the reported bytes |
| `CInt.TDiv` | main/i2s_pdm_rx.c:71 | C's signed division by a positive count: the remainder is smaller than the divisor in magnitude and never has the opposite sign of the dividend |
| `CInt.TDivUnique` | main/i2s_pdm_rx.c:71 | those two remainder conditions determine the quotient, so `TDiv` is exactly truncation toward zero |
| `CInt.QuotientBetween` | main/i2s_pdm_rx.c:71 | a quotient with a remainder smaller than the divisor lies between any bounds lo, hi with lo*b <= a <= hi*b |
| `CInt.Wrap16` | main/i2s_pdm_rx.c:71 | conversion to int16_t yields an int16_t value congruent to the input modulo 2^16 and leaves an in-range value unchanged |
| `CInt.TruncatesTowardZero` | main/i2s_pdm_rx.c:71 | for every dividend and positive divisor, C's quotient is odd under negating the dividend, equals Dafny's Euclidean quotient when the dividend is non-negative or divisible, and exceeds it by one for a negative dividend with a non-zero remainder |
| `Samples.SumBounds` | main/i2s_pdm_rx.c:67-70 | if every sample lies in [lo, hi], the sum of n samples lies in [lo*n, hi*n] |
| `Samples.SumBetweenMinMax` | main/i2s_pdm_rx.c:67-71 | the sum of a non-empty block lies between n times its smallest and n times its largest sample |
| `PdmRx.MeanWithinSamples` | main/i2s_pdm_rx.c:71 | the truncated mean lies between the smallest and the largest sample |
| `PdmRx.DcNarrowingLossless` | main/i2s_pdm_rx.c:71 | the mean of int16_t samples is an int16_t, so `int16_t dc = sum / sample_count` loses nothing |
| `PdmRx.EmptyBlockDividesByZero` | main/i2s_pdm_rx.c:65-71 | the division is undefined if and only if the read reported fewer than two bytes, so no whole sample was read |
| `PdmRx.NoOverflowUpTo65536` | main/i2s_pdm_rx.c:67-70 | with at most 65536 int16_t samples no running sum leaves the int32_t range, and a non-empty block is emitted |
| `PdmRx.OverflowAt65537` | main/i2s_pdm_rx.c:69 | 65537 samples of -32768 overflow the int32_t accumulator, so the 65536 bound is tight |
| `PdmRx.EmittedValues` | main/i2s_pdm_rx.c:71-75 | without overflow, exactly one value per sample is emitted, value i is sample i minus dc, and dc is the truncated mean, between the smallest and largest sample |
| `PdmRx.EmittedRange` | main/i2s_pdm_rx.c:74 | every emitted value is bounded in magnitude by the block's spread (max - min), hence in [-65535, 65535] |
| `PdmRx.SumSubtractOffset` | main/i2s_pdm_rx.c:73-75 | subtracting dc from every sample lowers the sum by dc times the sample count |
| `PdmRx.ConstantBlock` | main/i2s_pdm_rx.c:67-75 | a block whose samples all equal c has dc == c and every emitted value is 0 |
| `PdmRx.ResidualMeanIsZero` | main/i2s_pdm_rx.c:71-75 | the emitted values sum to the division's remainder: smaller than the count in magnitude, of the sign of the original sum, and with truncated mean 0 |
| `PdmRx.ExampleBlocks` | main/i2s_pdm_rx.c:66-75 | worked blocks: [5,5,5,5] gives [0,0,0,0]; [10,0] gives [5,-5]; [7] gives [0]; [32767,32767,-32768] gives dc 10922 and [21845,21845,-43690]; [-3,0] gives dc -1 (truncated, not floored) and [-2,1] |

## Left out

- `i2s_example_init_pdm_rx` (main/i2s_pdm_rx.c:25-52): channel allocation, PDM clock, slot and GPIO configuration are calls into the vendor driver with no logic of their own.
- `i2s_channel_read` and its 1000 ms timeout (main/i2s_pdm_rx.c:65): hardware I/O. Its result enters the model only as the `readOk` flag, the reported byte count and the buffer contents.
- `calloc`, `assert`, `free` and `vTaskDelete` (main/i2s_pdm_rx.c:57-58, 80-81): allocation plumbing; the last two are unreachable after the endless loop.
- `vTaskDelay` and the endless `while (1)` loop (main/i2s_pdm_rx.c:63, 77): RTOS scheduling. `RxCycle` models one pass of the loop; no state is carried from one pass to the next, apart from the reused buffer.
- `printf("%d\n", ...)` (main/i2s_pdm_rx.c:74): the output is modelled as the sequence of integers printed, not as console text.
- PDM-to-PCM conversion: done by the peripheral and its driver, not by this code.
- `EXAMPLE_BUFF_SIZE`: defined in `main/i2s_pdm_example.h`, which is not part of this model; it is the parameter `buffSize`.
