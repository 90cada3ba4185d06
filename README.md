# Wake word detector: a Dafny model of its core

This project models the signal path and detection logic of an Android
wake-word app. There are four parts.

- **Capture.** The audio processor collects 16-bit microphone samples into one-second windows (16000 samples at 16 kHz). It converts each window to floats and extracts 13 MFCC coefficients.
- **Extraction.** Pre-emphasis, 400-sample frames every 160 samples, a Hamming window, a radix-2 FFT, a 26-filter mel bank, a log, a DCT-II and an average over the frames.
- **UI detector.** The screen smooths the classifier's score over the last five calls. It counts consecutive smoothed scores above 0.45 and triggers after three of them once 2000 ms have passed since the last detection.
- **Background service.** It triggers on a single raw score above 0.6 under the same cooldown, and dispatches its start and stop actions.

Modules, one per concern:

- `Wrappers` has `Option` and `Result`.
- `Maths` holds the kotlin.math operations as uninterpreted functions.
- `Smoother` covers ConfidenceSmoother.kt.
- `Policy` is the hit-counter and cooldown state machine that both detectors share.
- `Audio` covers AudioProcessor.kt.
- `Radix2` has the integer facts about bit reversal and butterfly indices.
- `Fft` covers fftMagnitude.
- `Mfcc` covers the rest of MFCC.kt.
- `Screen` covers the detection state of MainActivity.kt's WakeWordScreen.
- `Service` covers WakeWordService.kt.

Floats are modelled as reals. A JVM exception is modelled as a `Failure` value, and so is a computation whose result would be NaN (a floating 0/0).

The most important result is about extraction. The FFT runs on 400-point frames, but its butterfly loop stays in bounds only for lengths that are powers of two. So computeMFCC, as written, throws on every signal of 400 samples or more, and never returns usable coefficients: for 81 to 240 samples it returns 13 NaN (a 0/0 average over zero frames), and other short signals throw. See "## Findings". The rest of the model uses a corrected extraction that zero-pads each frame to 512 points.

Three facts about the code shape the model:

- The capture buffer is non-overlapping. After each window it clears the whole buffer; there is no sliding-hop mode.
- That clear drops the surplus samples of the read that completed the window.
- The FFT is radix-2, and on 400 points it reads past the end of its arrays.

## Model

Source paths are relative to the repository root.

| member | source | states |
|---|---|---|
| Smoother.Evict | app/src/main/java/com/example/wakeword/audio/ConfidenceSmoother.kt:10-13 | the deque after addLast, with removeFirst first when full; NonPositiveWindowThrows gives its failing case and EvictKeepsLatest proves it keeps exactly the last windowSize values |
| Smoother.Mean | app/src/main/java/com/example/wakeword/audio/ConfidenceSmoother.kt:14 | `values.average()`: MeanWithin bounds it by the held values and MeanOfOne makes it the value itself for one value |
| Smoother.LastN | app/src/main/java/com/example/wakeword/audio/ConfidenceSmoother.kt:10-13 | the last n values of a sequence, all of them when there are fewer; EvictKeepsLatest ties the deque to it |
| Smoother.NonPositiveWindowThrows | app/src/main/java/com/example/wakeword/audio/ConfidenceSmoother.kt:5-11 | with windowSize ≤ 0 the first add calls removeFirst on an empty deque and throws |
| Smoother.EvictKeepsLatest | app/src/main/java/com/example/wakeword/audio/ConfidenceSmoother.kt:10-13 | if the deque holds the last windowSize values added, then after add(v) it holds the last windowSize values of the history extended by v; only the oldest is evicted |
| Smoother.MeanWithin | app/src/main/java/com/example/wakeword/audio/ConfidenceSmoother.kt:14 | the returned average lies between any lower and upper bound of the held values |
| Smoother.WindowOfFiveExample | app/src/main/java/com/example/wakeword/audio/ConfidenceSmoother.kt:10-14 | with window 5, feeding 0,0,0,0,1 returns 0,0,0,0,0.2, and a sixth add evicts the first 0 |
| Smoother.ConfidenceSmoother.constructor | app/src/main/java/com/example/wakeword/audio/ConfidenceSmoother.kt:5-7 | a new smoother holds nothing and keeps its window size |
| Smoother.ConfidenceSmoother.Add | app/src/main/java/com/example/wakeword/audio/ConfidenceSmoother.kt:9-15 | the deque becomes the evicted-and-appended one, holds at most windowSize values (exactly the last ones added) ending in the new value; returns their mean, which is the value itself on an empty deque |
| Smoother.ConfidenceSmoother.Reset | app/src/main/java/com/example/wakeword/audio/ConfidenceSmoother.kt:17-19 | the deque and the history become empty, so the next add returns its argument |
| Policy.Step | app/src/main/java/com/example/wakeword/MainActivity.kt:214-223 | one callback: the counter goes up on a score above the threshold and back to 0 otherwise, and a detection (enough hits, cooldown over) sets the time to now and the counter to 0; its partners RunKeepsInvariant, DetectionsSpaced and DetectionsPreceded prove what repeated steps guarantee, and HitsAccumulateDuringCooldown the cooldown case |
| Policy.Run | app/src/main/java/com/example/wakeword/MainActivity.kt:203-230 | the callbacks in order from a start state, with the indices of those that detected; RunKeepsInvariant gives its invariant, DetectionsSpaced its spacing and DetectionsPreceded the hits before each detection |
| Policy.HitsAccumulateDuringCooldown | app/src/main/java/com/example/wakeword/MainActivity.kt:214-220 | during the cooldown a score above the threshold still increments the counter, past requiredHits, without detecting |
| Policy.RunKeepsInvariant | app/src/main/java/com/example/wakeword/MainActivity.kt:214-222 | over any run from a state with no hits, the detections are ordered, each is preceded by its hits and spaced from the previous, and the final counter and time agree with the callbacks since the last detection |
| Policy.DetectionsSpaced | app/src/main/java/com/example/wakeword/MainActivity.kt:220-221 | with a non-decreasing clock any two detections are more than cooldownMs apart |
| Policy.DetectionsPreceded | app/src/main/java/com/example/wakeword/MainActivity.kt:215-222 | each detection comes at least requiredHits callbacks after the previous one (or the start), the last requiredHits scores above the threshold |
| Policy.NoDetectionWithinFirstCooldown | app/src/main/java/com/example/wakeword/MainActivity.kt:220 | since lastDetectionTime starts at 0, on a clock reading 0 or more no detection happens at or before the cooldown |
| Screen.WakeWordScreen.constructor | app/src/main/java/com/example/wakeword/MainActivity.kt:117-126 | the screen starts with an empty 5-value smoother, no hits, lastDetectionTime 0, status "Ready", no coefficients, confidence 0, not listening |
| Screen.WakeWordScreen.OnFeatures | app/src/main/java/com/example/wakeword/MainActivity.kt:203-230 | the shown confidence is the mean of the smoother after adding the raw score; the counter and time take one step of the UI policy on it; a detection empties the smoother and shows "HEY NIRMAN DETECTED!", a score ≤ 0.45 shows "Listening...", otherwise the status is unchanged |
| Screen.WakeWordScreen.Score | app/src/main/java/com/example/wakeword/MainActivity.kt:212-229 | the counter and time take one step of the UI policy on the smoothed score; a trigger empties the smoother and shows "HEY NIRMAN DETECTED!", a score ≤ 0.45 shows "Listening...", otherwise status and smoother are unchanged |
| Screen.WakeWordScreen.OnClick | app/src/main/java/com/example/wakeword/MainActivity.kt:193-232 | while listening it stops the recorder and shows "Stopped" without touching the counter, the time or the smoother; otherwise it starts the recorder and shows "Listening...", or changes nothing without the permission |
| Screen.ScreenHistory | app/src/main/java/com/example/wakeword/MainActivity.kt:214-222 | for the screen's callbacks on a clock from 0 that never goes back: detections are more than 2000 ms apart, after 2000 ms, and each follows three smoothed scores above 0.45 |
| Service.Decide | app/src/main/java/com/example/wakeword/WakeWordService.kt:85-86 | the service's test on one callback; DecideIsPolicyStep proves it is the shared policy step with one hit, threshold 0.6 and cooldown 2000 |
| Service.Decisions | app/src/main/java/com/example/wakeword/WakeWordService.kt:81-90 | the service's callbacks in order; DecisionsArePolicyRun ties it to Policy.Run and ServiceDetections proves its spacing and scores |
| Service.DecideIsPolicyStep | app/src/main/java/com/example/wakeword/WakeWordService.kt:85-86 | the service's test is the shared policy with one required hit, threshold 0.6 and the raw score, whatever the hit counter |
| Service.DecisionsArePolicyRun | app/src/main/java/com/example/wakeword/WakeWordService.kt:81-90 | over any run, the service's detections and final lastDetectionTime are those of the shared policy so instantiated |
| Service.ServiceDetections | app/src/main/java/com/example/wakeword/WakeWordService.kt:85-88 | with a non-decreasing clock successive detections are more than 2000 ms apart and each had a confidence above 0.6 |
| Service.Dispatch | app/src/main/java/com/example/wakeword/WakeWordService.kt:60-63 | the action "START" starts, "STOP" stops, and any other or missing action does neither |
| Service.WakeWordService.constructor | app/src/main/java/com/example/wakeword/WakeWordService.kt:19-23 | a new service has lastDetectionTime 0 and an idle recorder |
| Service.WakeWordService.OnFeatures | app/src/main/java/com/example/wakeword/WakeWordService.kt:81-90 | it announces exactly when the raw score is above 0.6 and more than 2000 ms have passed, then sets lastDetectionTime to now; otherwise the time is unchanged |
| Service.WakeWordService.OnStartCommand | app/src/main/java/com/example/wakeword/WakeWordService.kt:59-65 | the recorder starts on "START" (given the permission), stops on "STOP", is untouched otherwise, and the result is always START_STICKY (1) |
| Audio.ToFloatAudio | app/src/main/java/com/example/wakeword/audio/AudioProcessor.kt:64-66 | the short-to-float conversion, same length; ConversionRange and ConversionRoundTrip give its range and its inverse |
| Audio.MaxAbs | app/src/main/java/com/example/wakeword/audio/AudioProcessor.kt:98 | the peak magnitude, 1.0 for an empty array; MaxAbsIsMaximum proves it bounds every magnitude and is attained |
| Audio.NormalizeAudio | app/src/main/java/com/example/wakeword/audio/AudioProcessor.kt:97-104 | division by the peak, or the input itself when the peak is 0; NormalizeBounded, NormalizePeaks and NormalizeKeepsSilence prove its range, its inverse and the silent case |
| Audio.Feed | app/src/main/java/com/example/wakeword/audio/AudioProcessor.kt:47-62 | one read: append the first read samples, then emit the first 16000 and clear when enough are held; FeedSplits proves what is kept and what is dropped |
| Audio.Run | app/src/main/java/com/example/wakeword/audio/AudioProcessor.kt:46-62 | the read loop over reads and stop requests; RunShape, RunDecomposesStream and DropsShorterThanRead prove the buffer bound, the non-overlapping windows and the dropped surpluses |
| Audio.RequiredSamplesIsOneSecond | app/src/main/java/com/example/wakeword/audio/AudioProcessor.kt:39 | 16000 · 1000 / 1000 = 16000 samples per window |
| Audio.ConversionRange | app/src/main/java/com/example/wakeword/audio/AudioProcessor.kt:64-66 | the conversion keeps the length and puts every sample in [−32768/32767, 1] |
| Audio.ConversionRoundTrip | app/src/main/java/com/example/wakeword/audio/AudioProcessor.kt:91-93 | each converted sample times 32767 is the original sample at the same position |
| Audio.MaxAbsIsMaximum | app/src/main/java/com/example/wakeword/audio/AudioProcessor.kt:98 | the peak of a non-empty signal bounds every magnitude and is attained |
| Audio.NormalizeBounded | app/src/main/java/com/example/wakeword/audio/AudioProcessor.kt:97-104 | normalizing keeps the length and puts every sample in [−1, 1] |
| Audio.NormalizePeaks | app/src/main/java/com/example/wakeword/audio/AudioProcessor.kt:99-102 | with a non-zero peak each output times the peak is the input, and the peak samples become ±1 |
| Audio.NormalizeKeepsSilence | app/src/main/java/com/example/wakeword/audio/AudioProcessor.kt:103 | an all-zero signal comes back unchanged |
| Audio.FeedSplits | app/src/main/java/com/example/wakeword/audio/AudioProcessor.kt:48-62 | one read either emits a 16000-sample window and empties the buffer, window plus surplus being everything held, or keeps everything |
| Audio.RunShape | app/src/main/java/com/example/wakeword/audio/AudioProcessor.kt:46-62 | over any reads the buffer stays under 16000 samples and every window has exactly 16000 |
| Audio.RunDecomposesStream | app/src/main/java/com/example/wakeword/audio/AudioProcessor.kt:46-62 | what was held plus every sample read is exactly window0 · surplus0 · window1 · surplus1 · … · what is still held: the windows do not overlap |
| Audio.DropsShorterThanRead | app/src/main/java/com/example/wakeword/audio/AudioProcessor.kt:56-62 | each discarded surplus is shorter than the read size |
| Audio.TwoSecondsTwoWindows | app/src/main/java/com/example/wakeword/audio/AudioProcessor.kt:46-62 | two one-second reads give exactly those two disjoint windows |
| Audio.AudioProcessor.constructor | app/src/main/java/com/example/wakeword/audio/AudioProcessor.kt:20-22 | not recording, empty buffer |
| Audio.AudioProcessor.StartRecording | app/src/main/java/com/example/wakeword/audio/AudioProcessor.kt:26-40 | a no-op while recording; otherwise sets the flag and empties the buffer |
| Audio.AudioProcessor.StopRecording | app/src/main/java/com/example/wakeword/audio/AudioProcessor.kt:82-83 | clears the flag and leaves the buffer |
| Audio.AudioProcessor.OnRead | app/src/main/java/com/example/wakeword/audio/AudioProcessor.kt:47-66 | the buffer and the emitted float window are those of one Feed step, and the buffer stays under one window |
| Audio.AudioProcessor.Capture | app/src/main/java/com/example/wakeword/audio/AudioProcessor.kt:46-78 | the loop over the reads up to a stop request leaves the buffer, the flag and the converted windows of the pure run |
| Audio.AudioProcessor.ProcessAudioFile | app/src/main/java/com/example/wakeword/audio/AudioProcessor.kt:90-95 | an empty input throws; from 400 samples on it returns 13 coefficients unless a filter weight is NaN |
| Radix2.FloorLog2 | app/src/main/java/com/example/wakeword/audio/MFCC.kt:42-47 | the halving count r satisfies 2^r ≤ n < 2^(r+1) |
| Radix2.FrameSizes | app/src/main/java/com/example/wakeword/audio/MFCC.kt:8 | 400 is not a power of two (8 bits, 2^8 = 256), 512 is |
| Radix2.Rev | app/src/main/java/com/example/wakeword/audio/MFCC.kt:50-53 | the b-bit reversal of i; RevBelow bounds it, RevLow shows it reads only the low bits and RevInvolution makes it an involution |
| Radix2.RevBelow | app/src/main/java/com/example/wakeword/audio/MFCC.kt:50-53 | the b-bit reversal of any index is below 2^b |
| Radix2.RevLow | app/src/main/java/com/example/wakeword/audio/MFCC.kt:52 | bit reversal over b bits ignores bit b |
| Radix2.RevInvolution | app/src/main/java/com/example/wakeword/audio/MFCC.kt:49-62 | reversal is an involution below 2^b, so the swaps permute |
| Radix2.OverrunReached | app/src/main/java/com/example/wakeword/audio/MFCC.kt:64-81 | for a length that is not a power of two the loop reaches a stage, offset and step whose j + half is out of bounds |
| Radix2.AccessInBounds | app/src/main/java/com/example/wakeword/audio/MFCC.kt:71-77 | for a power of two, or before the first overrun, every butterfly reads j + half < n |
| Radix2.Frame400Overrun | app/src/main/java/com/example/wakeword/audio/MFCC.kt:64-77 | for n = 400 the first out-of-bounds read is at m = 32, k = 0, j = 384, index 400 |
| Fft.CountBits | app/src/main/java/com/example/wakeword/audio/MFCC.kt:42-47 | bits = ⌊log2 n⌋ and 2^bits ≤ n < 2^(bits+1) |
| Fft.ReverseBits | app/src/main/java/com/example/wakeword/audio/MFCC.kt:50-53 | j is the bits-bit reversal of i and below 2^bits |
| Fft.BitReversePermute | app/src/main/java/com/example/wakeword/audio/MFCC.kt:49-62 | each element ends up where the swap-when-j>i order puts it: positions from 2^bits up are untouched, the rest are exchanged with their reversal |
| Fft.SwapIfLarger | app/src/main/java/com/example/wakeword/audio/MFCC.kt:53-60 | one swap step on one array: afterwards every entry holds the element the permutation order assigns it after index i |
| Fft.Butterfly | app/src/main/java/com/example/wakeword/audio/MFCC.kt:72-77 | the two updated entries get x ± t and every other entry is unchanged |
| Fft.Butterflies | app/src/main/java/com/example/wakeword/audio/MFCC.kt:64-81 | the stages run in bounds iff n is zero or a power of two; otherwise they throw at exactly the first overrun index |
| Fft.FftMagnitude | app/src/main/java/com/example/wakeword/audio/MFCC.kt:35-86 | returns n/2 magnitudes iff n is zero or a power of two, else throws at the overrun index |
| Mfcc.Emphasized | app/src/main/java/com/example/wakeword/audio/MFCC.kt:13-20 | the pre-emphasized signal, same length; DeEmphasisRoundTrip proves the inverse filter recovers the input |
| Mfcc.NumFrames | app/src/main/java/com/example/wakeword/audio/MFCC.kt:29 | 1 + (len − size)/step with Kotlin's truncating division; FramingWhole and FramingShort give its value in every length band |
| Mfcc.Framing | app/src/main/java/com/example/wakeword/audio/MFCC.kt:28-33 | the frames, or the exception for a zero step, a negative size or an overrunning copyOfRange; FramingWhole, FramingShort and FramesOverlap state each case |
| Mfcc.PreEmphasis | app/src/main/java/com/example/wakeword/audio/MFCC.kt:13-20 | throws exactly on an empty signal; otherwise out[0] = x[0], out[i] = x[i] − α·x[i−1] |
| Mfcc.DeEmphasisRoundTrip | app/src/main/java/com/example/wakeword/audio/MFCC.kt:13-20 | the inverse filter recovers the signal, so pre-emphasis loses nothing |
| Mfcc.TruncDivProperties | app/src/main/java/com/example/wakeword/audio/MFCC.kt:29 | Kotlin's `/` equals the Euclidean one on non-negatives, is odd in the dividend, and is 0 for \|a\| < b |
| Mfcc.FramingWhole | app/src/main/java/com/example/wakeword/audio/MFCC.kt:28-33 | when len ≥ frameSize there are 1 + (len − size)/step frames, all in bounds, frame g at g·step |
| Mfcc.FramingShort | app/src/main/java/com/example/wakeword/audio/MFCC.kt:28-33 | shorter signals: frame 0 overruns when short by less than a step, no frames when short by one to two steps, a negative array size beyond |
| Mfcc.FramesOverlap | app/src/main/java/com/example/wakeword/audio/MFCC.kt:127 | computeMFCC's 400-sample frames every 160 share 240 samples with the next |
| Mfcc.HammingWindow | app/src/main/java/com/example/wakeword/audio/MFCC.kt:22-26 | size coefficients 0.54 − 0.46·cos(2πi/(size−1)); HammingRange bounds them |
| Mfcc.HammingRange | app/src/main/java/com/example/wakeword/audio/MFCC.kt:22-26 | size coefficients, each in [0.08, 1] for a cosine bounded by one |
| Mfcc.MelBins | app/src/main/java/com/example/wakeword/audio/MFCC.kt:98-105 | numFilters + 2 integer bin edges |
| Mfcc.FilterBank | app/src/main/java/com/example/wakeword/audio/MFCC.kt:107-118 | numFilters rows of fftSize/2 weights |
| Mfcc.FilterWeight | app/src/main/java/com/example/wakeword/audio/MFCC.kt:109-116 | the weight of bin j in filter i for bin edges b; WeightInUnit and TriangleShape prove its range and its triangle |
| Mfcc.WeightInUnit | app/src/main/java/com/example/wakeword/audio/MFCC.kt:109-116 | every non-NaN weight lies in [0, 1] |
| Mfcc.TriangleShape | app/src/main/java/com/example/wakeword/audio/MFCC.kt:107-118 | for strictly increasing bins a filter is 0 outside [b[i], b[i+2]], rises linearly to 1 at b[i+1], falls linearly to 0, with no NaN |
| Mfcc.Windowed | app/src/main/java/com/example/wakeword/audio/MFCC.kt:134 | a frame times the window pointwise; ApplyWindow is proved against it |
| Mfcc.MelEnergies | app/src/main/java/com/example/wakeword/audio/MFCC.kt:137-141 | filter i dotted with the spectrum, one energy per filter; ComputeMelEnergies is proved against it |
| Mfcc.Cepstrum | app/src/main/java/com/example/wakeword/audio/MFCC.kt:145-151 | the 13 DCT-II sums of a frame's log energies; AccumulateDct and AddFrame are proved against it |
| Mfcc.ApplyWindow | app/src/main/java/com/example/wakeword/audio/MFCC.kt:134 | the frame becomes its pointwise product with the window |
| Mfcc.ComputeMelEnergies | app/src/main/java/com/example/wakeword/audio/MFCC.kt:137-141 | energy i is the dot product of filter i with the spectrum |
| Mfcc.AccumulateDct | app/src/main/java/com/example/wakeword/audio/MFCC.kt:145-151 | each of the 13 sums gains this frame's DCT-II sum over the log energies |
| Mfcc.AddFrame | app/src/main/java/com/example/wakeword/audio/MFCC.kt:137-151 | after one frame the 13 running sums equal the column sums of the DCT coefficients of all frames so far |
| Mfcc.ColumnSumOfEqual | app/src/main/java/com/example/wakeword/audio/MFCC.kt:154 | averaging frames with identical coefficients gives those coefficients times the frame count |
| Mfcc.AverageOfEqualFrames | app/src/main/java/com/example/wakeword/audio/MFCC.kt:145-154 | when every frame has the same spectrum, the averaged coefficients are that frame's DCT sums |
| Mfcc.FrameSpectrum | app/src/main/java/com/example/wakeword/audio/MFCC.kt:134-135 | the transform receives the frame times the window, zero-padded to fftSize points; it yields fftSize/2 magnitudes iff fftSize is a power of two, else throws at the overrun index |
| Mfcc.Extract | app/src/main/java/com/example/wakeword/audio/MFCC.kt:121-155 | the outcome by length: empty throws, ≤ 80 gives a negative frame count, 81-240 gives 0/0 (13 NaN in the source, NotANumber here), 241-399 overruns frame 0; from 400 a non-power-of-two transform throws, otherwise the 13 coefficients are the per-frame DCT sums of the frames' spectra averaged over the frames (NaN if a weight is), and transform g received frame g of the pre-emphasized signal at g·160, windowed and zero-padded |
| Mfcc.ComputeMfcc | app/src/main/java/com/example/wakeword/audio/MFCC.kt:121-155 | as written it never returns usable coefficients: from 400 samples on it throws reading index 400; 81 to 240 samples give 0/0 (13 NaN in the source, a NotANumber failure here); other shorter signals throw |
| Mfcc.CorrectedComputeMfcc | app/src/main/java/com/example/wakeword/audio/MFCC.kt:121-155 | with frames zero-padded to 512 points an empty signal throws, and from 400 samples on it returns 13 coefficients unless a filter weight is NaN |

## Left out

- Floating point is not modelled. Float and Double are reals, so there is no rounding, no `toFloat()` narrowing, and no NaN or infinity as a value. A result that would be NaN becomes `Failure(NotANumber)`.
- The numbers computed by kotlin.math (cos, sin, sqrt, ln, log10, pow, PI) are uninterpreted `MathOps` fields. Nothing is claimed about spectral values, mel conversion accuracy or filter positions.
- Fft.FftMagnitude: only the shape and the bounds of the magnitudes are specified, not that they are the magnitudes of a discrete Fourier transform.
- Mfcc.Extract: the averaged coefficients are stated over the frames' spectra, and each transform's input is stated as the windowed, zero-padded frame, but nothing ties a spectrum's values to its input, because the FFT values are unspecified. So the coefficients are not traced back to the samples.
- Device I/O is not modelled. This covers AudioRecord creation and reads, the coroutines (Dispatchers.IO/Main, `isActive`, job cancel) and `synchronized`. Each read is an event carrying its samples and count, and the callback is an output.
- System.currentTimeMillis() is a parameter `now`, and the classifier's score for a coefficient vector is a parameter `rawConfidence`. ModelInterpreter.kt and WakeWordDetector.kt are not part of this model.
- Compose UI, notifications, the broadcast, the foreground service, onCreate/onDestroy and the permission request are not modelled. The permission check is a boolean parameter.
- Filter weights that may be NaN are approximated. Where the rising edge of a filter has zero width, the source computes 0/0. The model puts 0 there and flags the case with `BankHasNaN`, which makes the extraction return NotANumber.
- Mfcc.MelBins and Mfcc.FilterBank require a non-zero sample rate. With 0 the source divides doubles by zero, which infinities and NaN would model.
- Mfcc.HammingWindow requires size ≥ 2. Size 1 is a 0/0 at i = 0, and size 0 (an empty window) is not modelled.
- Smoother.ConfidenceSmoother.constructor requires windowSize ≥ 1. The throwing case is stated on values by Smoother.NonPositiveWindowThrows.
- Mfcc.ComputeMelEnergies requires exactly 26 filters, the NMels the source allocates the energy array for.
- Screen.WakeWordScreen.OnFeatures and Service.WakeWordService.OnFeatures use unbounded counters and times. They do not model the Int overflow of `consecutiveHits++` or the Long arithmetic of `now − lastDetectionTime`.
- Fft.Butterflies does not model the 32-bit overflow of `m *= 2`. That overflow only matters for frames of 2^30 samples or more.
- Audio.AudioProcessor.ProcessAudioFile uses the corrected 512-point extraction. The as-written 400-point one is Mfcc.ComputeMfcc. The read loop's own computeMFCC call (line 69) is modelled by what OnRead hands on, the float window.
- The capture loop and the coefficient extraction are not composed into one model of the UI callback. With the as-written extraction that callback would never run, because computeMFCC throws on every window.
- Audio.AudioProcessor.Capture models the read loop under an extraction that does not throw, so it goes on emitting window after window. In the source, computeMFCC (AudioProcessor.kt:69) throws on the first completed window, nothing inside the coroutine catches it, and it escapes the coroutine to the default uncaught-exception handler, which on Android crashes the app; until then isRecording stays true and the recorder is not released.

## Findings

| source | as written | input that shows it | evidently intended | confidence | as-written member | corrected member |
|---|---|---|---|---|---|---|
| app/src/main/java/com/example/wakeword/audio/MFCC.kt:127-135 | computeMFCC passes 400-sample frames to a radix-2 FFT, whose butterfly loop assumes a power-of-two length | any signal of 400 or more samples, e.g. a one-second window of 16000: in stage m = 32 with k = 0 and j = 384 it reads real[400] and throws | a transform length the FFT supports, e.g. each frame zero-padded to 512 points with the filter bank built for 512, so that 13 coefficients are returned | not executed | Mfcc.ComputeMfcc | Mfcc.CorrectedComputeMfcc |
