# Verified models of the signal chain, the wire protocols and the containers

The project models the parts of the repository whose correctness is an argument rather than a
glance, and proves what they are for.

* **Mixed-radix transform** (`Arith`, `Complex`, `Sums`, `Roots`, `Circle`, `Fourier`, `Butterflies`,
  `Columns`, `Factors`, `KissFft`, `RealFourier`, `KissFftr`). `kf_factor`, the twiddle tables, the five
  in-place butterflies and the recursive `kf_work` are methods over arrays. For every length, input and
  stride the output is the naive transform sum; forward and inverse compose to multiplication by the
  length; the packed real transform gives the full-length spectrum and its inverse undoes it.
  Samples are exact reals. The exponential that fills the tables is a parameter `cexp`, measured in
  whole turns, about which only its defining laws are assumed (`CircleExp`): it adds, it lies on the
  unit circle, a quarter turn is `i`, and it is one only at whole turns.
* **Denoiser stream** (`OverlapAdd`, `Denoiser`, `BlockThreshold`). The buffers, macro blocks, output
  and flush of the block-threshold denoiser agree with one overlap-add of all frames of the signal. The
  spectral stage is modelled twice: as any function that keeps the shape of eight rows, for the stream,
  and in detail, with its threshold map and Wiener gains, under an arbitrary choice of segmentation.
* **TCP framing** (`TcpFraming`). Both ends of `AsyncTCPSocket` under partial writes, blocked sends and
  arbitrary fragmentation.
* **HTTP messages** (`HttpParsing`, `HttpReceiving`, `HttpSending`, `HttpMessages`). The parser and the
  receive loop do what a machine fed one byte at a time does, so how the bytes are cut up does not
  change a final result (`HttpReceiving.SameEnding`). A document that holds the receiver up only delays
  this, except at the end of the stream, below. Whatever header fields announce it, a body of known
  length, of unknown length or in chunks arrives whole (`HttpMessages.MessageArrives`,
  `HttpMessages.StreamEnds`, `HttpMessages.ChunksArrive`), and a chunked one does from the sender's reads
  to the receiver's document.
* **Containers and codes** (`LockFreeQueue`, `Crc32`, `CrcPolynomial`, `Base64`, `Base64Texts`, `ByteBuffers`,
  `DiskCaches`), with `Bytes` and `Wrappers` for what they share.

Six promises of the code turn out to hold only under a condition, and each condition is proved exact.

* A chunked document parses back if and only if no read of the document returned zero bytes, because
  an empty chunk is the terminator (`HttpSending.ChunkedRoundTrip`, `HttpSending.DocumentArrives`).
* The lock-free queue is first-in first-out over runs of any length if and only if its capacity is zero
  or divides 2^32, because its counters are taken modulo the capacity after they wrap
  (`LockFreeQueue.FifoForever`); for other capacities it holds up to 2^32 pushes.
* A packet that passes the size check of `AsyncTCPSocket::Send` arrives intact if and only if it has at
  most 65535 bytes: the check admits three more sizes, whose length the prefix does not carry and whose
  frame the send buffer's own assertion refuses (`TcpFraming.IntactExactly`, `TcpFraming.PrefixCarries`).
  A packet of 65536 bytes makes the receiver signal an empty one (`TcpFraming.EmptyPacketFirst`).
* A disk cache lock that is granted leaves its entry there and locked, whatever the eviction scan
  settles on and whatever files can be erased, if and only if the cache is within its limit, or the
  entry is in use, or evicting every idle entry would still leave it over the limit
  (`DiskCaches.LockHeldExactly`). Otherwise the eviction made for the lock's sake can take the entry to
  be locked; `DiskCaches.LockLost` is one such state, and `DiskCaches.LockLostReached` a run into it.
* A receiver that its document holds up and that then meets the end of the stream drops the bytes it
  keeps. Its result and document are those of a receiver that is not held up if and only if the kept
  bytes are droppable: no body byte among them and, behind the headers of a chunked body, at most one
  size line, or the last one with trailers not ended (`HttpReceiving.HeldCloseExactly`). With one kept
  body byte, a body without a length ends in success with the byte missing, and one with a length of
  one ends in a broken connection though the message is there (`HttpReceiving.HeldCloseLoses`).
* The denoiser's spectral stage divides by the power of a tile. It leaves only numbers if and only if
  every tile of every macro block has a non-zero coefficient (`BlockThreshold.NumbersExactly`); digital
  silence is a failing input (`BlockThreshold.SilenceIsLost`).

Elsewhere the code differs from what it says. The bins attenuated "below 500 Hz" end at 250 Hz, because
the divisor is twice the spacing of the bins (`BlockThreshold.LowBins`). The queue's size, said to be
within its capacity, is so for the producer and the consumer (`LockFreeQueue.SizeAsked`), but a third
thread may be told 2^32 - 1 (`LockFreeQueue.ThirdThread`).

Where an object updates its fields the model is a class, and where the source loops the model loops.
`dafny verify dfyconfig.toml` checks everything.

## Model

| member | source | states |
|---|---|---|
| Factors.KfFactor | common/kiss_fft/kiss_fft.c:308-330 | the recorded pairs multiply back to the length stage by stage and end at 1, every radix is 4 while that divides what is left and its least divisor after, so 4 or a prime, and a 32-bit length never needs more than MAXFACTORS pairs |
| Factors.RadixPrime | common/kiss_fft/kiss_fft.c:313-324 | a divisor found when nothing smaller divides is prime |
| Circle.TurnsIsRoot | common/kiss_fft/kiss_fft.c:353-363 | the twiddle table is a primitive root of unity: exponents add modulo n, conjugate is inverse, and only multiples of n give one |
| Circle.TurnsQuarter | common/kiss_fft/kiss_fft.c:71-83 | when 4 divides n the quarter entry is i or -i by direction, which the radix 4 butterfly hard-codes |
| Circle.TurnsOpposite | common/kiss_fft/kiss_fft.c:353-363 | the inverse table is the forward one run backwards |
| Circle.TurnsHalf | common/kiss_fft/kiss_fftr.c:57-63 | the table of a half length is every second entry of the full one |
| Fft.FillTwiddles | common/kiss_fft/kiss_fft.c:357-363 | entry j is j n-ths of a turn, backwards or forwards by direction |
| Fft.KissFftState.constructor | common/kiss_fft/kiss_fft.c:339-368 | an allocated state holds a root-of-unity table and a factor list of its length |
| Fft.KissFftState.TwidxAt | common/kiss_fft/kiss_fft.c:219-233 | the running index of the generic butterfly stays inside the table and selects the power q*k of the stage's root |
| Fft.KissFftState.TwidxStep | common/kiss_fft/kiss_fft.c:225-227 | one conditional subtraction keeps the running index reduced |
| Butterflies.Radix2 | common/kiss_fft/kiss_fft.c:28-41 | sum and difference are both outputs of the general radix 2 recombination |
| Butterflies.Radix3 | common/kiss_fft/kiss_fft.c:92-134 | the three outputs of the general recombination, using that a third of a turn has real part -1/2 |
| Butterflies.Radix4 | common/kiss_fft/kiss_fft.c:44-90 | the four outputs of the general recombination, in both directions |
| Butterflies.Radix5 | common/kiss_fft/kiss_fft.c:136-195 | the five outputs of the general recombination, from two table entries and their conjugates |
| Butterflies.HalfTurn | common/kiss_fft/kiss_fft.c:21-42 | half a turn is -1 in any root of even order |
| Butterflies.ThirdTurn | common/kiss_fft/kiss_fft.c:92-134 | two thirds of a turn is the conjugate of one third, and the real part is -1/2 |
| Butterflies.QuarterTurn | common/kiss_fft/kiss_fft.c:44-90 | the powers of a quarter turn that radix 4 replaces by swaps and signs |
| Butterflies.FifthTurn | common/kiss_fft/kiss_fft.c:136-195 | the powers of a fifth of a turn that radix 5 replaces by conjugates |
| Butterflies.ColumnWrites | common/kiss_fft/kiss_fft.c:213-234 | when all p cells of a column hold their outputs and nothing else moved, the stage is one column further |
| Columns.Column2 | common/kiss_fft/kiss_fft.c:28-41 | the two in-place writes complete a column of the general recombination |
| Columns.Column3 | common/kiss_fft/kiss_fft.c:105-133 | the three writes, with halves and the imaginary part only, complete a column |
| Columns.Column4 | common/kiss_fft/kiss_fft.c:60-89 | the four writes complete a column for either direction |
| Columns.Column5 | common/kiss_fft/kiss_fft.c:155-194 | the five writes, with their symmetric and antisymmetric parts, complete a column |
| Fft.KfBfly2 | common/kiss_fft/kiss_fft.c:21-42 | in place, exactly the recombination the generic butterfly computes for p = 2, nothing outside the stage touched |
| Fft.KfBfly3 | common/kiss_fft/kiss_fft.c:92-134 | the same for p = 3 |
| Fft.KfBfly4 | common/kiss_fft/kiss_fft.c:44-90 | the same for p = 4, forward and inverse |
| Fft.KfBfly5 | common/kiss_fft/kiss_fft.c:136-195 | the same for p = 5 |
| Fft.OutputCell | common/kiss_fft/kiss_fft.c:219-233 | one output cell becomes the weighted sum of the saved column, every table access in range |
| Fft.KfBflyGeneric | common/kiss_fft/kiss_fft.c:198-235 | the recombination for any radix |
| Fft.Recombine | common/kiss_fft/kiss_fft.c:294-300 | whichever butterfly the radix selects, the result is the same recombination |
| Fft.KissFftState.SubTransform | common/kiss_fft/kiss_fft.c:276-290 | each recursive call fills one block with the transform of one residue class and spoils no earlier block |
| Fft.KissFftState.WorkStage | common/kiss_fft/kiss_fft.c:276-290 | fstride times p times m stays the full length at every level |
| Fourier.Decimation | common/kiss_fft/kiss_fft.c:237-302 | a transform of length p*m is the twiddled sum of p transforms of length m, for every bin |
| Butterflies.StageIsDft | common/kiss_fft/kiss_fft.c:237-302 | recombining the transforms of the residue classes gives the transform of the whole |
| Butterflies.RecombinedIsDft | common/kiss_fft/kiss_fft.c:292-301 | the same for the buffer: placed sub-transforms, once recombined, are the transform |
| Fft.KfWork | common/kiss_fft/kiss_fft.c:237-302 | for every factor list, length, input and stride the output block is the naive transform sum, the rest of Fout unchanged |
| Fft.KissFftStride | common/kiss_fft/kiss_fft.c:371-383 | the same for the public call, also when input and output are one buffer |
| Fft.KissFft | common/kiss_fft/kiss_fft.c:385-388 | the same with unit stride |
| Fourier.DftPeriod | common/kiss_fft/kiss_fft.c:198-235 | bins repeat with the length |
| Fourier.Orthogonality | common/kiss_fft/kiss_fft.c:353-363 | the powers of one table entry sum to n or to nothing |
| Fourier.Inversion | common/kiss_fft/kiss_fft.c:353-363 | the transform with the opposite table returns n times the samples |
| Fft.KissFftRoundTrip | common/kiss_fft/kiss_fft.c:371-388 | inverse after forward is multiplication by the length, on every input |
| Fftr.SuperTwiddle | common/kiss_fft/kiss_fftr.c:57-63 | the super-twiddle of index k is half a step of the half-length table, turned by a quarter |
| Fftr.KissFftrState.constructor | common/kiss_fft/kiss_fftr.c:27-65 | the allocated real state pairs a half-length state with its super-twiddles |
| Fftr.KissFftrState.KissFftrAlloc | common/kiss_fft/kiss_fftr.c:33-37 | allocation yields nothing exactly for odd lengths |
| RealFourier.SplitBin | common/kiss_fft/kiss_fftr.c:105-120 | a full-length bin from the half-length bins of the even and odd samples |
| RealFourier.PackedBin | common/kiss_fft/kiss_fftr.c:80-81 | one complex transform of the packed samples carries both halves |
| RealFourier.ForwardBins | common/kiss_fft/kiss_fftr.c:105-120 | the two bins written per turn are full-length bins k and n-k |
| RealFourier.ForwardEnds | common/kiss_fft/kiss_fftr.c:92-103 | the first and last bins are real and are bins 0 and n |
| Fftr.KissFftr | common/kiss_fft/kiss_fftr.c:67-121 | for every even length the output is the full-length transform of the real input in bins 0 to n/2, the middle bin written twice included, and nothing beyond |
| RealFourier.BackwardBins | common/kiss_fft/kiss_fftr.c:133-150 | the repacked pair is the packed spectrum of the Hermitian extension |
| RealFourier.RepackedOutput | common/kiss_fft/kiss_fftr.c:151 | transforming it back interleaves even and odd output samples |
| RealFourier.HermitianReal | common/kiss_fft/kiss_fftr.c:123-159 | the output of the inverse is real whatever bins it is given |
| RealFourier.SpectrumHermitian | common/kiss_fft/kiss_fftr.c:123-159 | the Hermitian extension of a real signal's half spectrum is its whole spectrum |
| Fftr.KissFftri | common/kiss_fft/kiss_fftr.c:123-159 | the samples are the inverse transform of the Hermitian extension of the bins, for any bins |
| Fftr.RealRoundTrip | common/kiss_fft/kiss_fftr.c:67-159 | inverse after forward is multiplication by nfft, for every real input |
| Denoiser.MarsBlockThreshold.constructor | Denoise/BlockThresholding/src/audioDenoiseBlockTreshold.c:109-225 | a fresh handle is silent, empty and consistent |
| Denoiser.MarsBlockThreshold.Stft | Denoise/BlockThresholding/src/audioDenoiseBlockTreshold.c:302-311 | the next row is the half spectrum of the windowed last two hops |
| Denoiser.MarsBlockThreshold.SynthesiseRow | Denoise/BlockThresholding/src/audioDenoiseBlockTreshold.c:320-329 | one more frame is overlap-added at its hop |
| Denoiser.MarsBlockThreshold.Synthesise | Denoise/BlockThresholding/src/audioDenoiseBlockTreshold.c:313-329 | after the carry-over the output buffer is a window of one overlap-add of all frames so far |
| Denoiser.MarsBlockThreshold.TakeHop | Denoise/BlockThresholding/src/audioDenoiseBlockTreshold.c:585-594 | taking a hop keeps the buffers equal to the signal's own frames |
| Denoiser.MarsBlockThreshold.FinishBlock | Denoise/BlockThresholding/src/audioDenoiseBlockTreshold.c:604-609 | finishing a block does too |
| Denoiser.MarsBlockThreshold.DenoiseFloat | Denoise/BlockThresholding/src/audioDenoiseBlockTreshold.c:578-612 | rejects exactly wrong lengths, changing nothing; output is announced exactly on every eighth hop |
| Denoiser.MarsBlockThreshold.OutputFloat | Denoise/BlockThresholding/src/audioDenoiseBlockTreshold.c:629-639 | an announced block is the next slice of the whole-signal overlap-add, or nothing when it does not fit |
| Denoiser.MarsBlockThreshold.FlushFloat | Denoise/BlockThresholding/src/audioDenoiseBlockTreshold.c:685-711 | the flushed samples are the remaining slice with the pending frames as analysed, or -1 when they do not fit |
| Denoiser.MarsBlockThreshold.Reset | Denoise/BlockThresholding/src/audioDenoiseBlockTreshold.c:268-282 | a reset handle is as good as new |
| Denoiser.MarsBlockThreshold.DenoiseStream | Denoise/BlockThresholding/main.cpp:81-109 | blocks and one flush, concatenated, are the prefix of a single overlap-add; with the short tail as many samples come out as went in |
| OverlapAdd.Setup.OlaTwo | Denoise/BlockThresholding/src/audioDenoiseBlockTreshold.c:313-329 | each output sample is the sum of the two frames that cover it |
| OverlapAdd.Setup.FramesSettled | Denoise/BlockThresholding/src/audioDenoiseBlockTreshold.c:585-594 | finished frames do not depend on later input |
| OverlapAdd.Setup.Collected | Denoise/BlockThresholding/src/audioDenoiseBlockTreshold.c:604-609 | the blocks collected so far stay a prefix as input grows |
| OverlapAdd.Setup.AllCollected | Denoise/BlockThresholding/src/audioDenoiseBlockTreshold.c:685-711 | blocks plus flush are the whole stream |
| OverlapAdd.Setup.AnalysisSynthesis | Denoise/BlockThresholding/src/audioDenoiseBlockTreshold.c:302-329 | a frame analysed, synthesised and divided by the window size is itself |
| OverlapAdd.Setup.IdleStream | Denoise/BlockThresholding/src/audioDenoiseBlockTreshold.c:302-329 | with an idle spectral stage the output is the input half a window late, scaled at offset j by win[j] + win[j+half] |
| BlockThreshold.GainAsComputed | Denoise/BlockThresholding/src/audioDenoiseBlockTreshold.c:463-468 | the clipped expression is the gain between 0 and 1 that vanishes exactly up to the noise power |
| BlockThreshold.FactorsAsComputed | Denoise/BlockThresholding/src/audioDenoiseBlockTreshold.c:463-468 | the same at zero power, where a column keeps nothing and a tile's factor is not a number |
| BlockThreshold.PowerStft | Denoise/BlockThresholding/src/audioDenoiseBlockTreshold.c:332-349 | the power of a rectangle of the spectrum |
| BlockThreshold.AdaptiveBlock | Denoise/BlockThresholding/src/audioDenoiseBlockTreshold.c:383-401 | the macro block copied out is the 8 by 16 block of the coefficients at its place |
| BlockThreshold.OneTile | Denoise/BlockThresholding/src/audioDenoiseBlockTreshold.c:462-481 | a tile's cells get the gain of that tile, each written for the first time |
| BlockThreshold.ComputeThre | Denoise/BlockThresholding/src/audioDenoiseBlockTreshold.c:450-484 | for every segmentation the tiles cover their macro block once, each cell scaled by its own tile's gain |
| BlockThreshold.Thresholds | Denoise/BlockThresholding/src/audioDenoiseBlockTreshold.c:536-570 | DC, macro-block and leftover passes together write every cell (t, 0..half) of the map exactly once |
| BlockThreshold.Wiener | Denoise/BlockThresholding/src/audioDenoiseBlockTreshold.c:498-523 | every coefficient but the last bin's becomes its filtered value |
| BlockThreshold.BlockThresholdCore | Denoise/BlockThresholding/src/audioDenoiseBlockTreshold.c:525-576 | the whole stage on any coefficients, the map complete before the Wiener pass reads it; with power in every tile the outcome is the value stage of the rows below |
| BlockThreshold.NumbersExactly | Denoise/BlockThresholding/src/audioDenoiseBlockTreshold.c:450-523 | no cell is left not a number if and only if every tile of every macro block has a non-zero coefficient |
| BlockThreshold.SilenceIsLost | Denoise/BlockThresholding/src/audioDenoiseBlockTreshold.c:450-523 | on digital silence every bin of every macro block is left not a number |
| BlockThreshold.LowIndex | Denoise/BlockThresholding/src/audioDenoiseBlockTreshold.c:501-502 | the largest number of times the truncated quotient of rate and half window goes into 500 |
| BlockThreshold.LowBins | Denoise/BlockThresholding/src/audioDenoiseBlockTreshold.c:501-519 | the bins that lose more are those whose upper neighbour is not above 250 Hz, when half the window divides the rate |
| BlockThreshold.Lambdas | Denoise/BlockThresholding/src/audioDenoiseBlockTreshold.c:12-14 | the over-subtraction factor of each segmentation, by its number |
| BlockThreshold.MacroBins | Denoise/BlockThresholding/src/audioDenoiseBlockTreshold.c:383-401 | which bins the macro blocks take, and from where their cells come |
| BlockThreshold.PowerOfCell | Denoise/BlockThresholding/src/audioDenoiseBlockTreshold.c:332-349 | the power of one cell is the sum of its squares |
| BlockThreshold.PowerSplits | Denoise/BlockThresholding/src/audioDenoiseBlockTreshold.c:332-349 | the power of a rectangle is that of its parts, either way it is cut |
| BlockThreshold.CellPowerIs | Denoise/BlockThresholding/src/audioDenoiseBlockTreshold.c:450-570 | a cell is judged with the tile around it, whose sides are 8 and 16 halved as often as segmented, or with the eight cells of its column |
| BlockThreshold.CellNoiseIs | Denoise/BlockThresholding/src/audioDenoiseBlockTreshold.c:450-570 | the noise it may have: lambda times the cells of the tile times the noise of one bin, or twenty times that for a column |
| BlockThreshold.FilteredIs | Denoise/BlockThresholding/src/audioDenoiseBlockTreshold.c:498-523 | the filtered value in numbers: with P the power left by the threshold and N the noise of one bin, y(P + N) = cPz, where c is 0.45 exactly for the bins k with (k + 1) times the truncated spacing at most 500; zero with no more power than the noise |
| BlockThreshold.NeverAmplifies | Denoise/BlockThresholding/src/audioDenoiseBlockTreshold.c:504-521 | every bin keeps its phase, no bin gains power, it is kept in full only if zero or last, and the last bin is unchanged |
| BlockThreshold.Silenced | Denoise/BlockThresholding/src/audioDenoiseBlockTreshold.c:450-523 | a bin is silenced exactly when already silent or when its tile's or column's power is within the noise allowance |
| BlockThreshold.StageKeepsShape | Denoise/BlockThresholding/src/audioDenoiseBlockTreshold.c:525-576 | so the stream's results hold with this stage |
| TcpFraming.HeaderBack | WebRtc_AMP_Port/webrtc/base/byteorder.h:38-64 | the 16-bit prefix reads back |
| TcpFraming.FrameIs | WebRtc_AMP_Port/webrtc/base/asynctcpsocket.cc:259-261 | a frame is the high and the low byte of the length, and the packet |
| TcpFraming.PrefixFree | WebRtc_AMP_Port/webrtc/base/asynctcpsocket.cc:274-293 | packets cut from a prefix of the stream are a prefix of the packets sent |
| TcpFraming.AllRead | WebRtc_AMP_Port/webrtc/base/asynctcpsocket.cc:274-293 | and all of them once the stream is all read |
| TcpFraming.AsyncTCPSocket.FlushOutBuffer | WebRtc_AMP_Port/webrtc/base/asynctcpsocket.cc:150-165 | sent and kept bytes together are the bytes that were waiting; an answer of more bytes than were offered is refused |
| TcpFraming.AsyncTCPSocket.AppendToOutBuffer | WebRtc_AMP_Port/webrtc/base/asynctcpsocket.cc:167-171 | appends, within the buffer |
| TcpFraming.PrefixCarries | WebRtc_AMP_Port/webrtc/base/asynctcpsocket.cc:250-262 | of the sizes the check admits, the prefix carries, and the second append's assertion accepts, exactly those up to 65535 |
| TcpFraming.EmptyPacketFirst | WebRtc_AMP_Port/webrtc/base/asynctcpsocket.cc:250-262 | at 65536 bytes the receiver signals a packet of no bytes first |
| TcpFraming.AsyncTCPSocket.Send | WebRtc_AMP_Port/webrtc/base/asynctcpsocket.cc:248-272 | refuses oversize, drops while blocked or when no byte goes out, stops at the append's assertion exactly for the sizes above 65535 it admitted, else commits to the whole frame |
| TcpFraming.AsyncTCPSocket.OnWriteEvent | WebRtc_AMP_Port/webrtc/base/asynctcpsocket.cc:216-226 | sends exactly the bytes the network takes of what waits, keeps the others, and reports readiness exactly when nothing waits |
| TcpFraming.AsyncTCPSocket.ProcessInput | WebRtc_AMP_Port/webrtc/base/asynctcpsocket.cc:274-293 | signalled frames and what is left are the bytes received, and no whole frame is left |
| TcpFraming.AsyncTCPSocket.OnReadEvent | WebRtc_AMP_Port/webrtc/base/asynctcpsocket.cc:195-213 | the same across reads, and the overflow branch is never taken |
| TcpFraming.RunInv | WebRtc_AMP_Port/webrtc/base/asynctcpsocket.cc:150-293 | over every run the bytes on the wire and waiting are the frames of the packets kept |
| TcpFraming.EndToEnd | WebRtc_AMP_Port/webrtc/base/asynctcpsocket.cc:150-293 | over every run of sends, partial writes, drops and fragmented reads the receive buffer never fills, the receiver has a prefix of the packets kept while they fit the prefix, and once drained exactly the packets kept if and only if they all fit |
| TcpFraming.IntactExactly | WebRtc_AMP_Port/webrtc/base/asynctcpsocket.cc:248-293 | a packet the size check admits arrives intact in every run that carries it alone, if and only if it has at most 65535 bytes |
| TcpFraming.Connection.Offer | WebRtc_AMP_Port/webrtc/base/asynctcpsocket.cc:248-272 | the code of a send is a step of those runs |
| TcpFraming.Connection.Writable | WebRtc_AMP_Port/webrtc/base/asynctcpsocket.cc:216-226 | so is the code of a write event |
| TcpFraming.Connection.Deliver | WebRtc_AMP_Port/webrtc/base/asynctcpsocket.cc:195-213 | and that of a read event, which signals what the step signals |
| HttpParsing.FeedJoin | WebRtc_AMP_Port/webrtc/base/httpbase.cc:59-122 | bytes fed in two pieces are bytes fed at once |
| HttpParsing.FeedLine | WebRtc_AMP_Port/webrtc/base/httpbase.cc:70-90 | an unfinished line only waits |
| HttpParsing.FeedBody | WebRtc_AMP_Port/webrtc/base/httpbase.cc:91-120 | document bytes taken together are taken one by one |
| HttpReceiving.HttpParser.ProcessLine | WebRtc_AMP_Port/webrtc/base/httpbase.cc:124-213 | each line has the effect the byte-fed machine gives it: leader, header, chunk size, terminator, trailer, errors |
| HttpReceiving.CloseIs | WebRtc_AMP_Port/webrtc/base/httpbase.cc:215-218 | only a body of unknown length may end with the stream |
| HttpReceiving.HttpParser.Process | WebRtc_AMP_Port/webrtc/base/httpbase.cc:59-122 | wherever a call stops, complete, short of bytes, held up or broken by the document, the parser is where the bytes it used take the machine; it is held up only by the document or by a stream taken over; with nothing usable it does nothing |
| HttpReceiving.HttpBase.Digest | WebRtc_AMP_Port/webrtc/base/httpbase.cc:551-567 | unprocessed bytes kept at the front continue the same run |
| HttpReceiving.HttpBase.DoReceiveLoop | WebRtc_AMP_Port/webrtc/base/httpbase.cc:494-573 | the bytes read are those the network handed over, and at every return parser and kept bytes are the machine's way through all of them; it gives up for now only when the network blocks or after 20 reads, is held up or broken only by the document, and ends only when the stream does; a close of a receiver that was not held up leaves nothing usable behind; overflow means, and with nothing held up follows from, a buffer full of one line |
| HttpReceiving.SameBytesSameState | WebRtc_AMP_Port/webrtc/base/httpbase.cc:494-573 | two receivers given the same bytes in different pieces are on the same way, and agree in state, events, document and leftovers when neither is held up |
| HttpReceiving.VerdictFinal | WebRtc_AMP_Port/webrtc/base/httpbase.cc:59-122 | once complete, later bytes change nothing but the leftovers |
| HttpReceiving.SameStreamSameResult | WebRtc_AMP_Port/webrtc/base/httpbase.cc:494-573 | two receivers with verdicts on one stream, however it was cut up, have the same verdict, state and document and leave the same bytes of the stream |
| HttpReceiving.VerdictIsReached | WebRtc_AMP_Port/webrtc/base/httpbase.cc:494-573 | a receiver that waits for more has read less than any that has its verdict |
| HttpReceiving.SameEnding | WebRtc_AMP_Port/webrtc/base/httpbase.cc:475-573 | two final results on one stream, verdict, overflow or clean close, agree in error, events, document and state, however the stream was cut up |
| HttpReceiving.LongLineStops | WebRtc_AMP_Port/webrtc/base/httpbase.cc:535-541 | no receiver reads past the point where a line fills the buffer, or has a verdict there; one that is not held up there is full, and overflows next |
| HttpReceiving.HeldCloseExactly | WebRtc_AMP_Port/webrtc/base/httpbase.cc:475-541 | the end of the stream gives a held-up receiver the result and document of one that is not, if and only if its kept bytes are droppable |
| HttpReceiving.HeldCloseLoses | WebRtc_AMP_Port/webrtc/base/httpbase.cc:475-541 | two streams on which it does not |
| HttpSending.ChunkSizeBack | WebRtc_AMP_Port/webrtc/base/httpbase.cc:635-636 | the fixed-width hexadecimal size reads back as the size |
| HttpSending.DigitIs | WebRtc_AMP_Port/webrtc/base/httpbase.cc:635-636 | which digit each of the eight is |
| HttpSending.ChunkIs | WebRtc_AMP_Port/webrtc/base/httpbase.cc:630-642 | a chunk byte by byte: eight lower-case digits, a line end, the data, a line end |
| HttpSending.FeedChunk | WebRtc_AMP_Port/webrtc/base/httpbase.cc:176-206 | one encoded chunk adds exactly its data to the document and leaves the parser at the next size line |
| HttpSending.ChunkedRoundTrip | WebRtc_AMP_Port/webrtc/base/httpbase.cc:606-668 | an encoded document parses back to exactly itself with nothing left over if and only if no read was empty |
| HttpSending.ChunkSender.QueueChunk | WebRtc_AMP_Port/webrtc/base/httpbase.cc:630-642 | sent and buffered bytes stay the encoding of the reads so far |
| HttpSending.ChunkSender.QueueLast | WebRtc_AMP_Port/webrtc/base/httpbase.cc:646-653 | and then end with the terminator |
| HttpSending.ChunkSender.Shift | WebRtc_AMP_Port/webrtc/base/httpbase.cc:679-686 | after any partial write too |
| HttpSending.ChunkSender.FlushData | WebRtc_AMP_Port/webrtc/base/httpbase.cc:583-698 | for any answers of document and network the reads and the bytes sent are exactly those answers; when it finishes the network has the headers and the encoded document, and it stops before only when one of the two blocks or fails |
| HttpSending.SentParsesBack | WebRtc_AMP_Port/webrtc/base/httpbase.cc:583-698 | what was sent parses back to the concatenated reads, ending complete with nothing left |
| HttpSending.ChunkedHeaders | WebRtc_AMP_Port/webrtc/base/httpbase.cc:130-173 | an accepted leader, the Transfer-Encoding line and a blank line put the parser at the first chunk |
| HttpSending.DocumentArrives | WebRtc_AMP_Port/webrtc/base/httpbase.cc:494-698 | a receiver fed in any pieces what a finished sender sent is complete without error, with exactly the document and nothing left over, if and only if no read was empty |
| HttpMessages.SameTextIs | WebRtc_AMP_Port/webrtc/base/httpbase.cc:31-35 | names and encodings are compared letter by letter, whatever their case |
| HttpMessages.LastLength | WebRtc_AMP_Port/webrtc/base/httpbase.cc:148-158 | of several lengths the last counts |
| HttpMessages.NoLength | WebRtc_AMP_Port/webrtc/base/httpbase.cc:148-158 | without one the size stays not known |
| HttpMessages.LastEncoding | WebRtc_AMP_Port/webrtc/base/httpbase.cc:159-167 | of several encodings the last counts |
| HttpMessages.NoEncoding | WebRtc_AMP_Port/webrtc/base/httpbase.cc:159-167 | without one the body is not chunked |
| HttpMessages.HeadRead | WebRtc_AMP_Port/webrtc/base/httpbase.cc:124-173 | for any leader and fields: what the callbacks are told, in order, and the framing the body is read with |
| HttpMessages.SizedMessage | WebRtc_AMP_Port/webrtc/base/httpbase.cc:59-173 | a body of n bytes, none included: complete after exactly n, the document is those bytes, the rest is left over |
| HttpMessages.PartialMessage | WebRtc_AMP_Port/webrtc/base/httpbase.cc:59-173 | fewer bytes, or any number when the size is not known, are the document so far and no verdict |
| HttpMessages.ContentLength | WebRtc_AMP_Port/webrtc/base/httpbase.cc:148-173 | a Content-Length in any capitalisation and among any other fields, once scanned and kept by the notification, is the length of the document |
| HttpMessages.ChunkedHead | WebRtc_AMP_Port/webrtc/base/httpbase.cc:159-173 | a chunked encoding last puts the parser at the first chunk, whatever lengths were given |
| HttpMessages.LeaderRefused | WebRtc_AMP_Port/webrtc/base/httpbase.cc:131-133 | a refused leader ends the message with its error |
| HttpMessages.FieldRefused | WebRtc_AMP_Port/webrtc/base/httpbase.cc:148-167 | a length that is no number and an unknown encoding are protocol errors |
| HttpMessages.NoColonRefused | WebRtc_AMP_Port/webrtc/base/httpbase.cc:135-141 | so is a line that is not blank and shows no colon |
| HttpMessages.HexDigitIs | WebRtc_AMP_Port/webrtc/base/httpbase.cc:176-180 | the sixteen digits in either case |
| HttpMessages.NumberRead | WebRtc_AMP_Port/webrtc/base/httpbase.cc:176-180 | a chunk size with optional white space, sign and prefix: its value by the places of its digits, the largest for one too large, modulo 2^64 for a negative one, and where the reading stops |
| HttpMessages.NoNumberRead | WebRtc_AMP_Port/webrtc/base/httpbase.cc:176-180 | without a digit there is no number |
| HttpMessages.SizeRefused | WebRtc_AMP_Port/webrtc/base/httpbase.cc:176-189 | a size line that is no number from end to end is a protocol error |
| HttpMessages.NoTerminator | WebRtc_AMP_Port/webrtc/base/httpbase.cc:191-198 | so is anything but a blank line after a chunk's data |
| HttpMessages.TrailersPassed | WebRtc_AMP_Port/webrtc/base/httpbase.cc:200-205 | trailers are passed over, and a blank line completes the message |
| HttpMessages.ChunkedMessage | WebRtc_AMP_Port/webrtc/base/httpbase.cc:59-206 | a chunked message as any sender may write it: the document is the data of its chunks in order, and the rest is left over |
| HttpMessages.MessageArrives | WebRtc_AMP_Port/webrtc/base/httpbase.cc:494-573 | a receiver fed a message with a body of known size in any pieces is complete without error, holds exactly the body and leaves exactly what came after |
| HttpMessages.ChunksArrive | WebRtc_AMP_Port/webrtc/base/httpbase.cc:494-573 | the same for a chunked message |
| HttpMessages.StreamEnds | WebRtc_AMP_Port/webrtc/base/httpbase.cc:475-541 | a stream that ends within a body of known size is a broken connection, after one of unknown size the end of the message; the bytes that came are the document |
| HttpMessages.HeadEnds | WebRtc_AMP_Port/webrtc/base/httpbase.cc:475-541 | one that ends within the head is a broken connection, or overflowed before, and there is no document |
| LockFreeQueue.ProducerInv | WebRtc_AMP_Port/webrtc/base/atomicops.h:75-90 | each access of the pushing thread, a half-done copy included, keeps waiting values in their slots |
| LockFreeQueue.ConsumerInv | WebRtc_AMP_Port/webrtc/base/atomicops.h:95-117 | each access of the popping thread too |
| LockFreeQueue.Interleavings | WebRtc_AMP_Port/webrtc/base/atomicops.h:75-134 | in every interleaving up to 2^32 pushes, or for any capacity dividing 2^32, popped values are a prefix of pushed ones, Size counts the rest and is within the capacity, and full and empty are told apart |
| LockFreeQueue.SizeAsked | WebRtc_AMP_Port/webrtc/base/atomicops.h:132-134 | the two counts read one after the other, in either order, with the other thread going on in between, give producer or consumer the number waiting at one of the readings |
| LockFreeQueue.ThirdThread | WebRtc_AMP_Port/webrtc/base/atomicops.h:132-134 | a third thread may be told 2^32 - 1 |
| LockFreeQueue.NoRace | WebRtc_AMP_Port/webrtc/base/atomicops.h:84-106 | no slot is written while it may be being read |
| LockFreeQueue.Loses | WebRtc_AMP_Port/webrtc/base/atomicops.h:84-88 | for every other capacity, the run in which a value is overwritten |
| LockFreeQueue.FifoForever | WebRtc_AMP_Port/webrtc/base/atomicops.h:75-134 | order is kept over runs of every length exactly when the capacity is zero or divides 2^32 |
| LockFreeQueue.FixedSizeLockFreeQueue.PushBack | WebRtc_AMP_Port/webrtc/base/atomicops.h:75-90 | appends, or refuses exactly when full, and is three accesses of the interleaved model |
| LockFreeQueue.FixedSizeLockFreeQueue.PeekFront | WebRtc_AMP_Port/webrtc/base/atomicops.h:95-106 | the oldest value, or none exactly when empty |
| LockFreeQueue.FixedSizeLockFreeQueue.PopFront | WebRtc_AMP_Port/webrtc/base/atomicops.h:111-117 | takes the oldest value, and is three accesses of the interleaved model |
| LockFreeQueue.FixedSizeLockFreeQueue.Size | WebRtc_AMP_Port/webrtc/base/atomicops.h:132-134 | the number of values waiting, wrapped counters and all |
| LockFreeQueue.FixedSizeLockFreeQueue.ClearAndResizeUnsafe | WebRtc_AMP_Port/webrtc/base/atomicops.h:121-126 | an empty queue of the new capacity |
| Crc32.Crc32Table.EnsureTableInited | WebRtc_AMP_Port/webrtc/base/crc32.cc:24-38 | afterwards the table is built, also when the test for an initialised table returns early |
| Crc32.LastEntry | WebRtc_AMP_Port/webrtc/base/crc32.cc:25-26 | the entry that test looks at is not zero once built |
| Crc32.TableByte | WebRtc_AMP_Port/webrtc/base/crc32.cc:45-47 | one table step is eight bit steps |
| Crc32.Crc32Table.UpdateCrc32 | WebRtc_AMP_Port/webrtc/base/crc32.cc:40-49 | the result is the bit-serial checksum, on every message |
| Crc32.ChecksumJoin | WebRtc_AMP_Port/webrtc/base/crc32.cc:40-49 | chained updates checksum the concatenation |
| Crc32.BurstNoticed | WebRtc_AMP_Port/webrtc/base/crc32.cc:22-49 | messages of one length that differ only within 32 consecutive bits have equal checksums only if equal |
| Crc32.FourBytesNoticed | WebRtc_AMP_Port/webrtc/base/crc32.cc:22-49 | in particular within four consecutive bytes |
| CrcPolynomial.GeneratorIs | WebRtc_AMP_Port/webrtc/base/crc32.cc:19-21 | the constant is the generator of CRC-32, given by its exponents, with its bits reflected |
| CrcPolynomial.ShiftIs | WebRtc_AMP_Port/webrtc/base/crc32.cc:28-35 | a bit step multiplies by x modulo that generator |
| CrcPolynomial.IsRemainder | WebRtc_AMP_Port/webrtc/base/crc32.cc:40-49 | the register after any message is the remainder, modulo the generator, of the message times x^32 and the start shifted past it; the quotient is returned |
| CrcPolynomial.CheckValue | WebRtc_AMP_Port/webrtc/base/crc32.cc:40-49 | the checksum of the digits 1 to 9 is 0xCBF43926, both complements included |
| Base64.TablesAgree | WebRtc_AMP_Port/webrtc/base/base64.cc:32-69 | the two tables are inverse to each other on the 64 letters |
| Base64.Alphabet | WebRtc_AMP_Port/webrtc/base/base64.cc:32-35 | the letter of each value |
| Base64.OtherClasses | WebRtc_AMP_Port/webrtc/base/base64.cc:41-69 | which characters are padding and white space |
| Base64.SameNumber | WebRtc_AMP_Port/webrtc/base/base64.cc:98-125 | four values write to base 64 the number three bytes write to base 256 |
| Base64.EncodeFromArray | WebRtc_AMP_Port/webrtc/base/base64.cc:98-136 | the buffer, sized beforehand, is filled with the encoding |
| Base64.GetNextQuantum | WebRtc_AMP_Port/webrtc/base/base64.cc:138-190 | the loop with its breaks is the scan the following rows are about |
| Base64.QuantumLetters | WebRtc_AMP_Port/webrtc/base/base64.cc:138-190 | under any flags the letters handed back are those among the characters passed over, the pad roll-back included |
| Base64.DecodeFromArray | WebRtc_AMP_Port/webrtc/base/base64.cc:204-258 | verdict, bytes and position are those of the decoding the following rows are about |
| Base64.UsedLetters | WebRtc_AMP_Port/webrtc/base/base64.cc:204-258 | under any flags the bytes are those of the letters among the characters used |
| Base64.AnyIgnoresTheRest | WebRtc_AMP_Port/webrtc/base/base64.cc:143-174 | parsing any character, the bytes depend only on the letters of the text in order |
| Base64.RoundTrip | WebRtc_AMP_Port/webrtc/base/base64.cc:98-258 | every encoding decodes to its bytes, fully used, under all flags that allow padding |
| Base64.StrictExactly | WebRtc_AMP_Port/webrtc/base/base64.cc:204-258 | the strict decoder accepts a text if and only if it is the canonical encoding of the bytes it returns |
| Base64Texts.WhiteIsSqueezed | WebRtc_AMP_Port/webrtc/base/base64.cc:148-258 | white space let pass, under every pad and term flag: bytes, position and verdict are those of the text without it read strictly, except that required padding refuses white space after an unpadded last group |
| Base64Texts.WhiteExactly | WebRtc_AMP_Port/webrtc/base/base64.cc:148-258 | with white space allowed, padding required and the buffer to be used up, a text is accepted if and only if without its white space it is the canonical encoding and it does not end in white space after an unpadded group |
| Base64Texts.StrictVerdict | WebRtc_AMP_Port/webrtc/base/base64.cc:138-258 | read strictly, under every pad and term flag: bytes, position and verdict by the letters in front and the pads after them |
| Base64Texts.PadAnyExactly | WebRtc_AMP_Port/webrtc/base/base64.cc:138-258 | with padding optional exactly the encoding, the same without padding, and for whole groups the same with an A after it are accepted |
| Base64Texts.PadNoExactly | WebRtc_AMP_Port/webrtc/base/base64.cc:138-258 | with padding not allowed exactly the last two |
| Base64Texts.AnyVerdict | WebRtc_AMP_Port/webrtc/base/base64.cc:138-258 | any character let pass, under every pad and term flag: bytes and verdict by the letters and the pads after the last |
| ByteBuffers.NumberBack | WebRtc_AMP_Port/webrtc/base/byteorder.h:38-130 | the bytes of a number, in either order, read back as the number reduced to its width |
| ByteBuffers.FixedMost | WebRtc_AMP_Port/webrtc/base/byteorder.h:38-130 | in network order byte k of n is the number divided by 256^(n-1-k), modulo 256 |
| ByteBuffers.FixedLeast | WebRtc_AMP_Port/webrtc/base/byteorder.h:38-130 | in the other byte k is the number divided by 256^k, modulo 256 |
| ByteBuffers.ItemsBack | WebRtc_AMP_Port/webrtc/base/bytebuffer.cc:65-180 | any sequence of typed writes reads back in order, in both byte orders |
| ByteBuffers.FirstInFirstOut | WebRtc_AMP_Port/webrtc/base/bytebuffer.cc:136-214 | across growth and compaction, bytes read and bytes left are the bytes there before and the bytes written |
| ByteBuffers.RoomKeepsVersion | WebRtc_AMP_Port/webrtc/base/bytebuffer.cc:182-207 | exactly the writes that do not fit behind the unread bytes retire positions, and a store that has to grow does so by half, or to what is needed |
| ByteBuffers.PositionKept | WebRtc_AMP_Port/webrtc/base/bytebuffer.cc:216-226 | a position whose version matches is in bounds and restores the bytes unread at its capture followed by all written since; another changes nothing |
| ByteBuffers.ByteBuffer.constructor | WebRtc_AMP_Port/webrtc/base/bytebuffer.cc:25-31 | empty, at the default capacity |
| ByteBuffers.ByteBuffer.Holding | WebRtc_AMP_Port/webrtc/base/bytebuffer.cc:33-59 | holding the bytes given |
| ByteBuffers.ByteBuffer.Resize | WebRtc_AMP_Port/webrtc/base/bytebuffer.cc:191-207 | moves or reallocates, keeping the unread bytes up to the new size, and retires all positions |
| ByteBuffers.ByteBuffer.ReserveWriteBuffer | WebRtc_AMP_Port/webrtc/base/bytebuffer.cc:182-189 | whatever bytes fill the room handed out, the buffer is as after writing them |
| ByteBuffers.ByteBuffer.WriteBytes | WebRtc_AMP_Port/webrtc/base/bytebuffer.cc:178-180 | one write of the store |
| ByteBuffers.ByteBuffer.WriteItem | WebRtc_AMP_Port/webrtc/base/bytebuffer.cc:146-176 | a typed write appends the bytes of the number, in network order the high one first, else in the host's |
| ByteBuffers.ByteBuffer.ReadBytes | WebRtc_AMP_Port/webrtc/base/bytebuffer.cc:136-144 | the oldest bytes, or refusal with nothing taken |
| ByteBuffers.ByteBuffer.ReadNumber | WebRtc_AMP_Port/webrtc/base/bytebuffer.cc:65-122 | the number whose bytes are the oldest ones, in network order the high one first, else in the host's |
| ByteBuffers.ByteBuffer.Consume | WebRtc_AMP_Port/webrtc/base/bytebuffer.cc:209-214 | skips, or refuses with nothing skipped |
| ByteBuffers.ByteBuffer.SetReadPosition | WebRtc_AMP_Port/webrtc/base/bytebuffer.cc:220-226 | accepts exactly the positions of the current version |
| ByteBuffers.ByteBuffer.Clear | WebRtc_AMP_Port/webrtc/base/bytebuffer.cc:228-232 | empties and retires all positions |
| DiskCaches.State.Opened | WebRtc_AMP_Port/webrtc/base/diskcache.cc:127-136 | opening an adapter keeps both totals equal to the sums over the entries |
| DiskCaches.State.Closed | WebRtc_AMP_Port/webrtc/base/diskcache.cc:322-341 | closing one does too, and unlocks with the last writer |
| DiskCaches.State.Exclusion | WebRtc_AMP_Port/webrtc/base/diskcache.cc:97-169 | adapters open on one entry are all readers or all writers, by its lock |
| DiskCaches.Runs | WebRtc_AMP_Port/webrtc/base/diskcache.cc:97-343 | over every run of locks, writes, unlocks, reads, deletions and releases the totals are the sums, an entry's accessors are its open adapters, no entry has an open reader and an open writer together, and every open adapter finds its entry |
| DiskCaches.EnoughExactly | WebRtc_AMP_Port/webrtc/base/diskcache.cc:212-247 | when all files go and the scan finds the idle entries, eviction succeeds exactly if evicting all idle entries would meet the limit |
| DiskCaches.EvictNoMore | WebRtc_AMP_Port/webrtc/base/diskcache.cc:226-246 | no more is evicted than it takes: with one of the entries that went the cache would be over its limit |
| DiskCaches.Setup.ReleaseIs | WebRtc_AMP_Port/webrtc/base/diskcache.cc:314-343 | a release by its numbers: the entry, the total with the writer's bytes, the last one's too, and eviction only when it unlocked the entry |
| DiskCaches.LockHeldExactly | WebRtc_AMP_Port/webrtc/base/diskcache.cc:97-109 | over all scans and file answers a granted lock leaves the entry there and locked if and only if the cache is within its limit, or the entry is in use, or all idle entries together would not make room |
| DiskCaches.LockLost | WebRtc_AMP_Port/webrtc/base/diskcache.cc:97-109 | a state in which the lock is granted and the entry is gone |
| DiskCaches.LockLostReached | WebRtc_AMP_Port/webrtc/base/diskcache.cc:97-343 | ten calls on an empty cache that lead into that state |
| DiskCaches.DiskCache.DeleteResource | WebRtc_AMP_Port/webrtc/base/diskcache.cc:186-210 | the deletion of those runs: the entry goes exactly when idle, and its size from the total |
| DiskCaches.DiskCache.CheckLimit | WebRtc_AMP_Port/webrtc/base/diskcache.cc:212-247 | the eviction of those runs: only idle entries go, it succeeds only within the limit, and fails, if every file goes and the scan finds the idle entries, only when none is left |
| DiskCaches.DiskCache.LockResource | WebRtc_AMP_Port/webrtc/base/diskcache.cc:97-109 | the lock of those runs: refused when locked or being read; within the limit granted in all other cases and the entry is then locked |
| DiskCaches.DiskCache.WriteResource | WebRtc_AMP_Port/webrtc/base/diskcache.cc:111-137 | opens a writer exactly on a locked entry whose file opens, and takes the old file's size, never more than the entry's, off both counts |
| DiskCaches.DiskCache.UnlockResource | WebRtc_AMP_Port/webrtc/base/diskcache.cc:139-152 | unlocks at once and then evicts what it can of the excess, or waits for the open writers |
| DiskCaches.DiskCache.ReadResource | WebRtc_AMP_Port/webrtc/base/diskcache.cc:154-169 | opens a reader only on an unlocked entry with that stream |
| DiskCaches.DiskCache.ReleaseResource | WebRtc_AMP_Port/webrtc/base/diskcache.cc:314-343 | always finds its entry; a writer's bytes are added to both counts, and the last writer on an unlocking entry unlocks it |

## Left out

- Floating point: all samples, spectra and gains are exact reals; rounding, `sin`, `cos` and `sqrt` are not modelled, and neither are the FIXED_POINT, USE_SIMD and _OPENMP branches.
- Fft.KfWork: does not model overflow of the 32-bit indices of very long transforms; buffers are the same array or disjoint ones, never partly overlapping.
- Fft.KissFftState.constructor: memory comes from the allocator; the `lenmem` protocol and length 0 are not modelled.
- Fftr.KissFftr: a state allocated for the wrong direction, for which the code prints a message and exits, is excluded by a precondition, as in Fftr.KissFftri.
- Fftr.KissFftrState.KissFftrAlloc: a failed allocation, which also yields nothing, is not modelled.
- Denoiser.MarsBlockThreshold.constructor: the window values and the frame length arithmetic are given; the Hann window is not shown to sum to one at half-window hops, and indeed does not.
- Denoiser.MarsBlockThreshold.DenoiseStream: the int16 conversions, WAV input and output, and the guard on `num_samples` are not modelled; flushed frames are not denoised, as in the code.
- Denoiser.MarsBlockThreshold.FlushFloat: the code copies floats into a buffer declared int16_t; the model's buffer holds reals.
- BlockThreshold.AdaptiveBlock: the value search that picks the segmentation is an arbitrary function of the block; the normalised copy of the block is not modelled.
- BlockThreshold.BlockThresholdCore: a factor that is not a number leaves the whole complex cell not a number; the infinities of single parts are not told apart. The last bin is not filtered, as in the code. Windows are at most two seconds, or the bin spacing in the code is zero.
- blockThreshold_repair_positive_freq is unused in the code and not modelled.
- TcpFraming.AsyncTCPSocket.Send: a packet of 65536 to 65538 bytes ends the call at the failed assertion. The runs of TcpFraming.EndToEnd and TcpFraming.IntactExactly instead let such a packet through, as a build without assertions does, and keep its bytes; what the last two sizes then overwrite beyond the buffer is not modelled.
- TcpFraming.AsyncTCPSocket.OnReadEvent: the branch of a listening socket, which accepts a connection, is not modelled; neither are connecting and socket error codes.
- TcpFraming.AsyncTCPSocket.FlushOutBuffer: when a socket claims more bytes than it was offered, none of them count as sent.
- HttpReceiving.HttpParser.Process: header and leader callbacks are parameters, and `sscanf` and `strtoul` are modelled on the characters they meet (a 64-bit `unsigned long`).
- HttpReceiving.HttpBase.DoReceiveLoop: the error codes of a failed network and the mode of the connection are not modelled; after finitely many answers the network blocks and the document takes everything.
- HttpReceiving.DocAnswer: a document write that is not ready or fails takes nothing, and one that succeeds takes a byte at least.
- HttpSending.ChunkSender.FlushData: header queueing and documents sent without chunks are not modelled; after finitely many answers the document and the network block.
- LockFreeQueue.Interleavings: memory accesses take effect in program order, as the barrier before the increment provides; values copied in several pieces may leave anything in the slot meanwhile.
- LockFreeQueue.FixedSizeLockFreeQueue.PushBack: counters and `size_t` are 32 bits wide, as on the platform the file has atomic operations for.
- LockFreeQueue.FixedSizeLockFreeQueue.Size: the class runs one thread at a time; LockFreeQueue.SizeAsked has the two readings apart.
- Crc32.Crc32Table.EnsureTableInited: a single thread initialises the table.
- Base64.DecodeFromArray: flag words with an empty field, which the code asserts against, are not modelled; `GetNextBase64Char` is not part of this model.
- ByteBuffers.ByteBuffer.SetReadPosition: takes only positions the buffer handed out; the version counter is unbounded. `ReadString` is ReadBytes with an append.
- DiskCaches.DiskCache.CheckLimit: which idle entry goes is a parameter, since the scan in the code does not pick the oldest; a scan that runs off the end of the map is not modelled.
- DiskCaches.DiskCache.LockResource: when the eviction takes the entry to be locked, the code's write of the lock state into the entry that is gone is not modelled; WriteResource and UnlockResource require the entry to exist, as the code does.
- DiskCaches: `Purge`, start-up scanning, file names and the destructor are not modelled.
- Not modelled at all: the ring buffer and frame queue of common/BufferManager, the other denoisers, echo and gain control, WAV tools, HTTP client and server, proxies, authentication, DNS, file systems, threads, logging.
