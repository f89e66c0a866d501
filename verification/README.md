# Verified models of WebRTC's signal processing and byte-level utilities

These Dafny files model eight self-contained parts of the repository and prove what their comments, documentation and
tests rely on. `dafny verify dfyconfig.toml` checks everything.

- **Real FFT** (`fft4g.c`): the in-place routine with its tables, carried from call to call, is shown to compute the
  documented transform and the documented inverse for every power of two, with the round trip n/2. Bit reversal, the
  radix-4 and radix-2 stages, the real passes and the table generators are the lemmas on the way. Files `Bits`,
  `Complex`, `Circle`, `PowerSums`, `Butterflies`, `CftBlocks`, `Cft`, `BitReversal`, `Dft`, `Parseval`, `RealDft`,
  `RealInverse`, `Rft`, `Tables`, `Rdft`.
- **Blocker** (`blocker.cc`, `audio_ring_buffer.cc`, `ring_buffer.c`): chunked overlap-add on ring buffers equals the
  unchunked one, for every run; the delay is exactly the least that will do. Files `Samples`, `RingBuffer`,
  `AudioRingBuffer`, `Gcd`, `OverlapAdd`, `Blocker`.
- **Recursive lock** (`criticalsection.cc`, the branch with a counter and a semaphore): a state machine whose steps are
  single accesses to shared variables, for any number of threads and any interleaving. File `CriticalSection`.
- **Packets over TCP** (`asynctcpsocket.cc`): framing, partial sends, dropped packets, any segmentation. Files `Octets`
  (bytes, for all modules that work on them), `AsyncTcpSocket`.
- **Bit buffer** (`bitbuffer.cc`) with Exp-Golomb codes. Files `Words`, `Golomb`, `BitBuffer`.
- **Base64** (`base64.cc`): the encoder, the decoder for every text under every flag in closed form, and how they
  relate. Files `Base64`,
  `Base64Decoder`, `Base64Laws`, `Base64Verdicts`, `Base64Reference`, `Base64Anything`.
- **FIR filters** (`fir_filter.cc`, `fir_filter_sse.cc`, `sparse_fir_filter.cc`): three implementations, one
  convolution. Files `Convolution`, `FirFilter`, `SparseFirFilter`.
- **Copy-on-write buffers** (`copyonwritebuffer.cc`, `.h`): sharing cannot be observed. File `CopyOnWriteBuffer`.

Samples are exact reals. Cosines and sines are a parameter `turn` of which only the addition formulas, unit modulus,
equality of equal fractions of a turn and the quarter turn are used (`Circle.IsCircle`). Ghost fields record what an
object has been fed and has put out, so that an invariant can speak about a whole run; ghost parameters name the
exponent of a power of two or the stream that a loop is working on. The lock is modelled as a transition function
rather than as a class, since its methods are interleaved; the caller's nesting depth is part of a thread's state, and
`CriticalSections.Past` counts the same from the calls that have been made and have returned.
What a socket does is a parameter: the result of each Send, and how many bytes each Recv is going to return.

Where bodies were divided for the proof, the parts are called in the order of the original statements: inner loops of
the FFT and the loop bodies of its real passes are methods of their own, as are the inner loops of the filters, the
halves of the Blocker's loop, the work on one channel of an AudioRingBuffer, the loop bodies of the Base64 routines, one
call of Recv, and the first and the other bytes of WriteBits.

Four results are about where the code and its description part: `OverlapAdd.DelayAgainstChunk` (the header's bound on
the delay), `AsyncTcpSockets.Delivery` with `FrameRoundTrip` (Send accepts packets whose length does not fit its prefix,
and a run delivers everything exactly if it has none of them), `Base64Verdicts.WhitespaceIgnored` (whitespace at the end
of data that needs no padding is taken for a quantum that lacks it) and `Base64Reference.StrictExactlyFor` (without
padding, a single "A" after full groups is accepted and stands for nothing).

## Model

| member | source | states |
|---|---|---|
| Rdft.Rdft | webrtc/common_audio/fft4g.c:330-367 | For every power of two n >= 2 and whatever tables earlier calls have left in `ip` and `w`: with `isgn >= 0` the array becomes the documented packed cosine and sine sums R[k], I[k], with `isgn < 0` the documented inverse sums; nothing past a[n-1] changes and the tables are valid for the next call |
| Rdft.RoundTrip | webrtc/common_audio/fft4g.c:118-126 | The inverse transform of the transform of x is n/2 times x, for every power of two n >= 2 |
| Rdft.ThereAndBack | webrtc/common_audio/fft4g.c:118-126 | Calling the routine forwards and then backwards multiplies every array element by exactly n/2 |
| Rdft.Forward | webrtc/common_audio/fft4g.c:345-354 | Bit reversal, complex passes, real pass and the sum and difference at the ends together give the real transform, in the cases n == 2, n == 4 and n > 4 |
| Rdft.Backward | webrtc/common_audio/fft4g.c:355-366 | The same for the inverse, where n == 4 goes through cftfsub |
| Rdft.EnsureTables | webrtc/common_audio/fft4g.c:335-344 | Tables are made exactly when the transform is longer than all before it; afterwards both are valid for transforms of at least this length |
| Rdft.NoTables | webrtc/common_audio/fft4g.c:86-93 | Work areas with ip[0] set to 0 are a valid state to start from |
| Rdft.SpectrumRecovered | webrtc/common_audio/fft4g.c:1265-1289 | The backward real pass, applied to the real transform of x, gives the conjugates of the complex transform of the pairs of x |
| BitReversal.Bitrv2 | webrtc/common_audio/fft4g.c:699-796 | Complex element p ends up holding what the element at the bit-reversed index held, for an even and an odd number of bits; all indices of `a` and `ip` are in range and nothing else changes |
| BitReversal.Offsets | webrtc/common_audio/fft4g.c:704-713 | The table of offsets that the exchanges use: entry j is the reversal of j, scaled to the array |
| BitReversal.PosReversed | webrtc/common_audio/fft4g.c:715-795 | The reversal of an index made of two table offsets and a middle field is the index with the two offsets exchanged, which is why exchanging them in pairs is bit reversal |
| BitReversal.AllVisited | webrtc/common_audio/fft4g.c:715-795 | The pairs visited by the two nested loops, with the diagonal ones, are all the indices that bit reversal moves |
| Bits.RevInvolution | webrtc/common_audio/fft4g.c:699-796 | Bit reversal is its own inverse, hence a permutation |
| Cft.Cftfsub | webrtc/common_audio/fft4g.c:908-955 | On an array in bit-reversed order, element p becomes the sum over all elements times the p-th powers of their roots of unity, for an even and an odd power of two; the sum of the squares of the array is then exactly n/2 times what it was |
| Cft.Cftbsub | webrtc/common_audio/fft4g.c:958-1005 | cftbsub leaves exactly the complex conjugate of what cftfsub leaves, element by element, and so has the same sum of squares |
| Cft.CftStages | webrtc/common_audio/fft4g.c:914-921 | After the radix-4 stages every block of the reached size holds the power sums of its elements, with at most one more stage to go |
| Cft.Cftmdl | webrtc/common_audio/fft4g.c:1113-1237 | A middle stage quadruples the size of the blocks that hold power sums of their elements, using the bit-reversed twiddle table with an implied third factor |
| Cft.ThirdFactor | webrtc/common_audio/fft4g.c:1176-1177 | wk1 - 2 wk2i wk1i and 2 wk2i wk1r - wk1i are the product of the two other factors, given unit modulus and that one is the square of the other |
| Cft.EighthTurn | webrtc/common_audio/fft4g.c:1141-1165 | The table entry at index 2 serves both as real and as imaginary part: cosine and sine of an eighth of a turn are the same |
| PowerSums.Radix4Step | webrtc/common_audio/fft4g.c:1178-1205 | The radix-4 butterfly is correct: the power sum over four neighbouring blocks at r, r + l, r + 2l and r + 3l from the four power sums over one block |
| PowerSums.Radix2Step | webrtc/common_audio/fft4g.c:944-954 | The radix-2 butterfly of the last stage is correct |
| Dft.PowerSumIsDft | webrtc/common_audio/fft4g.c:908-955 | Power sums over samples in bit-reversed order are the discrete Fourier transform of the samples in natural order |
| Dft.SumOfPowers | webrtc/common_audio/fft4g.c:118-126 | The powers of a 2^k-th root of unity add up to 2^k or to zero: the orthogonality behind the inverse |
| Dft.DftInverse | webrtc/common_audio/fft4g.c:118-126 | Conjugating, transforming again and conjugating multiplies by the number of samples |
| Parseval.DftEnergy | webrtc/common_audio/fft4g.c:908-955 | The complex transform multiplies the sum of squared moduli by the number of samples: what the sum of squares of the array follows from |
| Rft.Rftfsub | webrtc/common_audio/fft4g.c:1240-1262 | Every pair of mirrored elements is combined as the forward real pass demands, with factors read from the half cosine table from both ends |
| Rft.Rftbsub | webrtc/common_audio/fft4g.c:1265-1289 | The same for the backward real pass, with its sign changes at the start and in the middle |
| Rft.TableFactor | webrtc/common_audio/fft4g.c:1250-1252 | 0.5 - c[nc - kk] and c[kk] are real and imaginary part of the factor (1 - sin, cos)/2 of the angle of the pair |
| RealDft.PassesUndo | webrtc/common_audio/fft4g.c:1265-1289 | The backward pass after the forward pass conjugates every element |
| RealDft.FactorIdentity | webrtc/common_audio/fft4g.c:1277-1280 | The identity of the pass factor (its squared modulus is its real part) by which the passes undo each other |
| RealDft.ForwardIsReal | webrtc/common_audio/fft4g.c:1240-1262 | The forward pass turns the transform of n/2 pairs of reals into the transform of the n reals |
| RealDft.EndsAreReal | webrtc/common_audio/fft4g.c:352-354 | Sum and difference of the parts of element 0 are the real transform at 0 and at n/2 |
| RealInverse.BackwardIsInverse | webrtc/common_audio/fft4g.c:86-89 | The transform of the backward pass, conjugated, consists of the documented inverse sums |
| Tables.Makewt | webrtc/common_audio/fft4g.c:648-675 | From the addition formulas alone: after one eighth by cosines and sines, the mirrored half and bit reversal, the table holds the roots of unity in bit-reversed order |
| Tables.Makect | webrtc/common_audio/fft4g.c:677-696 | The second table holds half the cosines, with the sines read from its other end |
| Tables.SmallerTable | webrtc/common_audio/fft4g.c:336-339 | A table made for longer transforms serves all shorter ones |
| Blockers.Run | webrtc/common_audio/blocker.cc:169-236 | For every sequence of chunks fed to a new Blocker, the concatenated output is the overlap-add of the concatenated input: frame t of a channel is the sum over all blocks k that cover it of the window times the callback's output for the windowed block k of the delayed input |
| Blockers.Blocker.ProcessChunk | webrtc/common_audio/blocker.cc:169-236 | One chunk: the invariant of the whole run is kept (readable frames and frame offset add up to the delay, the output buffer holds the partial sums of what is not finished), every RTC_CHECK of the ring buffers holds, and the output continues the overlap-add |
| Blockers.Blocker.ProcessBlocks | webrtc/common_audio/blocker.cc:181-211 | The loop over blocks: it ends with the first block that starts after the chunk, having added up all blocks that start in it; every read finds block_size frames and every addition stays in the buffer |
| Blockers.Blocker.ReadBlock | webrtc/common_audio/blocker.cc:183-192 | What is read and windowed is exactly the windowed block of the delayed input at block number times shift, and all but shift frames become readable again |
| Blockers.Blocker.AddBlock | webrtc/common_audio/blocker.cc:193-209 | The processed block, windowed again, makes the output buffer hold the sums of one more block |
| Blockers.Blocker.EmitChunk | webrtc/common_audio/blocker.cc:213-232 | The frames copied out are complete: no later block touches them; the rest moves to the front and the vacated end is zero, as no block so far reaches it |
| Blockers.Blocker.constructor | webrtc/common_audio/blocker.cc:101-126 | With the RTC_CHECKs of the constructor met, the new object is in the invariant state with block_size - gcd(chunk, shift) zero frames to read |
| Blockers.Blocker.EmittedIsDelayed | webrtc/common_audio/blocker.cc:112-125 | With a callback that passes on one input channel for each output channel, whatever their numbers, and a window whose squares, shift apart, add up to one, all output is the input delayed by exactly the initial delay, from the first sample on |
| Blockers.Blocker.CountersAgree | webrtc/common_audio/blocker.cc:178-235 | That counting is the real one: after any number of chunks frame_offset_ and the number of readable frames are what it says |
| Blockers.AddFrames | webrtc/common_audio/blocker.cc:20-34 | Frame by frame sums of two buffers from their start frames on; the result may be one of them, as in its only call, and the rest of it is unchanged |
| Blockers.ApplyWindow | webrtc/common_audio/blocker.cc:76-85 | Every channel is multiplied by the window, sample by sample |
| Blockers.MoveFrames | webrtc/common_audio/blocker.cc:51-62 | The regions may overlap, and still what was there before is copied; the rest is unchanged |
| Blockers.ZeroOut | webrtc/common_audio/blocker.cc:64-72 | The addressed frames become zero and no others |
| OverlapAdd.DelayIsMinimal | webrtc/common_audio/blocker.cc:87-125 | Counting frames as the constructor and ProcessChunk do, a Blocker with a given delay finds block_size frames at every read of every chunk if and only if that delay is at least block_size - gcd(chunk, shift) |
| OverlapAdd.ShorterDelayStarves | webrtc/common_audio/blocker.cc:181-211 | With any shorter delay a read finds too few frames, at the latest in the chunk before whose end a block starts by exactly the greatest common divisor |
| OverlapAdd.ChunkCounted | webrtc/common_audio/blocker.cc:178-211 | For any delay, the loop gets through a chunk if and only if every block that starts in it is complete when the chunk has arrived |
| OverlapAdd.DelayAgainstChunk | webrtc/common_audio/blocker.h:60-61 | A remark: the bound of chunk_size holds if and only if block_size <= chunk_size + gcd; it fails for settings with chunk 80, block 128 and shift 64, whose delay is 112 |
| OverlapAdd.Reconstruction | webrtc/common_audio/blocker.cc:181-211 | The overlap-add itself reconstructs its delayed input for such windows, because every overlap is present from the delay on |
| OverlapAdd.ConstantOutput | webrtc/common_audio/blocker.cc:193-209 | A callback that puts out a constant gives that constant times the sum of the window over the blocks that cover a frame: blocks are windowed exactly once on their way out |
| OverlapAdd.OutputComplete | webrtc/common_audio/blocker.cc:213-219 | A frame is complete once the next block starts after it |
| OverlapAdd.OutputStable | webrtc/common_audio/blocker.cc:180-192 | What has been computed for complete blocks does not change when more input arrives |
| OverlapAdd.EarlierBlocks | webrtc/common_audio/blocker.cc:229-232 | Blocks that have ended contribute nothing, so that zero is the right new content |
| GreatestCommonDivisor.ComputeGcd | webrtc/common_audio/blocker.cc:87-95 | The loop computes the greatest common divisor |
| GreatestCommonDivisor.GcdFacts | webrtc/common_audio/blocker.cc:87-95 | It divides both numbers and is a combination of them |
| GreatestCommonDivisor.ShortMultiple | webrtc/common_audio/blocker.cc:112 | Some multiple of the shift falls short of a multiple of the chunk by exactly the divisor: the block that needs the whole delay |
| RingBuffers.RingBuffer.WriteBuffer | webrtc/common_audio/ring_buffer.c:143-175 | As many elements as there is room for are written; the cells then hold the last N elements of N zeros followed by everything ever written, rotated by the write position |
| RingBuffers.RingBuffer.ReadBuffer | webrtc/common_audio/ring_buffer.c:98-141 | Without a data_ptr: the right slice of that history is copied out, also across the end of the buffer, at position N and when exactly full |
| RingBuffers.RingBuffer.ReadBufferInPlace | webrtc/common_audio/ring_buffer.c:98-141 | With a data_ptr: it points to the right slice, in the buffer if that is in one piece, otherwise in the copy, and to nothing if nothing is read; nothing is copied needlessly |
| RingBuffers.RingBuffer.ReadRegions | webrtc/common_audio/ring_buffer.c:25-52 | The two regions together are the next elements to be read |
| RingBuffers.RingBuffer.MoveReadPtr | webrtc/common_audio/ring_buffer.c:177-212 | The read position moves forwards or backwards by the clamped count; the amount moved is returned and the contents stay |
| RingBuffers.RingBuffer.Init | webrtc/common_audio/ring_buffer.c:79-86 | The buffer is empty and full of zeros |
| RingBuffers.CreateBuffer | webrtc/common_audio/ring_buffer.c:54-77 | There are no buffers without cells |
| RingBuffers.RingBuffer.AvailableRead | webrtc/common_audio/ring_buffer.c:214-224 | At most N elements are readable |
| RingBuffers.CellsAfterWrite | webrtc/common_audio/ring_buffer.c:157-172 | Writing on from any position, and again from the start when the end is reached, keeps the cells the rotated end of the history |
| AudioRingBuffers.AudioRingBuffer.Write | webrtc/common_audio/audio_ring_buffer.cc:31-38 | All channels are written alike and stay in lockstep; the check on the count written holds if one channel has room |
| AudioRingBuffers.AudioRingBuffer.Read | webrtc/common_audio/audio_ring_buffer.cc:40-47 | Every channel returns its own next frames, and the check on the count read holds |
| AudioRingBuffers.AudioRingBuffer.MoveReadPositionForward | webrtc/common_audio/audio_ring_buffer.cc:59-65 | All channels skip alike and the check holds |
| AudioRingBuffers.AudioRingBuffer.MoveReadPositionBackward | webrtc/common_audio/audio_ring_buffer.cc:67-73 | All channels take back alike and the check holds |
| CriticalSections.Reachable | webrtc/rtc_base/criticalsection.cc:63-98 | Every interleaving of any number of threads, step by shared access, keeps the invariant: lock_queue_ is the sum of what the threads have added to it, and the tokens of the semaphore plus the threads that have the lock or are about to hand it on are one if lock_queue_ is positive and none otherwise |
| CriticalSections.Preserved | webrtc/rtc_base/criticalsection.cc:118-131 | Any single step of any thread, in Enter, TryEnter or Leave, keeps that invariant |
| CriticalSections.StepIsSound | webrtc/rtc_base/criticalsection.cc:162-170 | What one step does to the thread that takes it and to the fields, for all 27 places a thread can be at; the step with which Enter returns makes the thread one level deeper |
| CriticalSections.StepMatches | webrtc/rtc_base/criticalsection.cc:118-131 | Every step of every thread agrees with what its calls and returns so far say about where it is, how deep it is and how many steps it has taken |
| CriticalSections.MutualExclusion | webrtc/rtc_base/criticalsection.cc:63-98 | No two threads are between the return of Enter (or of a successful TryEnter) and the call of the matching Leave at once, counted from calls and returns, nor by their depths |
| CriticalSections.OwnerIsRight | webrtc/rtc_base/criticalsection.cc:97-98 | owning_thread_ refers to a thread outside the methods exactly if more of its calls of Enter and successful calls of TryEnter have returned than of Leave, and recursion_ is then the difference |
| CriticalSections.DepthIsHeld | webrtc/rtc_base/criticalsection.cc:97-98 | Outside the methods a thread's depth is the number of its calls of Enter and successful calls of TryEnter that have returned, less its calls of Leave that have returned |
| CriticalSections.Returns | webrtc/rtc_base/criticalsection.cc:97-131 | What every call has done when it returns, in any interleaving: Enter adds one to the count of its thread, Leave takes one off, TryEnter adds one and succeeds exactly if its compare-and-swap has found zero or the caller owned the lock, and otherwise lock_queue_ was not zero; owning_thread_ and recursion_ then say so |
| CriticalSections.FreeLock | webrtc/rtc_base/criticalsection.cc:71-82 | On a lock that is free or the caller's own, Enter and TryEnter get it within seven steps if nobody else moves: no wait, no failure |
| CriticalSections.CallsAreShort | webrtc/rtc_base/criticalsection.cc:64-85 | No call of Enter takes more than 9009 steps of its own, none of TryEnter more than 7, none of Leave more than 10, whatever the others do: only the wait can keep a call from returning, and a thread that waits has gone through all 3000 rounds of the loop |
| CriticalSections.QueueCounts | webrtc/rtc_base/criticalsection.h:72-75 | At any time lock_queue_ is the number of times the lock is held plus the number of threads that wait, and one more while a thread has just got the lock and not yet counted that in recursion_ |
| CriticalSections.NoLostWakeup | webrtc/rtc_base/criticalsection.cc:162-170 | While a thread waits there is at most one token; there is one exactly if no thread has the lock, and if nobody owns it and there is none, some thread is about to signal or has just got the lock |
| CriticalSections.Progress | webrtc/rtc_base/criticalsection.cc:87-98 | Whenever a thread waits, a waiting thread or the one that has the lock can take a step |
| CriticalSections.WaiterGetsLock | webrtc/rtc_base/criticalsection.cc:87-98 | From any reachable state with a waiting thread some continuation lets that thread in: its steps are only those of the waiter and of the thread that has the lock, and their number is bounded by the depth at which the lock is held |
| CriticalSections.ChecksHold | webrtc/rtc_base/criticalsection.cc:88-95 | No RTC_DCHECK on the owner or on the recursion count can fail |
| AsyncTcpSockets.Delivery | webrtc/rtc_base/asynctcpsocket.cc:201-241 | Under any partial sends, drops and segmentation: the packets signaled are the accepted ones, unchanged and in order, up to the first that is longer than 65535 bytes; when all bytes have arrived they are all of them, with nothing left over, if and only if no accepted packet is longer; what stays in the receiving buffer is less than a frame, so the buffer is never full between reads |
| AsyncTcpSockets.Prompt | webrtc/rtc_base/asynctcpsocket.cc:306-325 | A packet is signaled as soon as the last byte of its frame has arrived, if no packet up to it is longer than 65535 bytes |
| AsyncTcpSockets.FrameRoundTrip | webrtc/rtc_base/asynctcpsocket.cc:290-292 | A packet survives framing if and only if it has at most 65535 bytes; Send itself accepts up to 65538 |
| AsyncTcpSockets.FrameOnWire | webrtc/rtc_base/asynctcpsocket.cc:288-290 | The wire format in bytes: a frame is the only sequence that consists of the lowest 16 bits of the length, high byte first, and the packet |
| AsyncTcpSockets.PacketOnWire | webrtc/rtc_base/asynctcpsocket.cc:313-324 | Bytes h and l followed by 256 h + l bytes are a frame of these bytes, and they are the next packet, whatever follows |
| AsyncTcpSockets.AsyncTcpSocket.Send | webrtc/rtc_base/asynctcpsocket.cc:277-304 | Bytes given to the stream followed by outbuf_ are always whole frames of the accepted packets; an accepted packet adds, in bytes, the lowest 16 bits of its length, high byte first, and the packet; which packets are accepted, what is returned in each case, and that the RTC_DCHECKs on the buffer size hold unless a packet of 65537 or 65538 bytes is accepted for sending |
| AsyncTcpSockets.AsyncTcpSocket.FlushOutBuffer | webrtc/rtc_base/asynctcpsocket.cc:156-172 | What the stream takes leaves the front of outbuf_; errors leave it as it is |
| AsyncTcpSockets.AsyncTcpSocket.AppendToOutBuffer | webrtc/rtc_base/asynctcpsocket.cc:174-178 | The data is appended, and whether the RTC_DCHECK held |
| AsyncTcpSockets.AsyncTcpSocket.OnWriteEvent | webrtc/rtc_base/asynctcpsocket.cc:245-255 | The rest of a frame is flushed without loss, and readiness is signaled exactly when nothing is left |
| AsyncTcpSockets.AsyncTcpSocket.OnReadEvent | webrtc/rtc_base/asynctcpsocket.cc:201-241 | Some prefix of what is arriving is read, at least one byte if the first call of Recv returns any, and everything up to a full buffer if every call returns as much as it can; the packets signaled and the buffer left are those of the whole stream so far |
| AsyncTcpSockets.AsyncTcpSocket.Receive | webrtc/rtc_base/asynctcpsocket.cc:201-226 | The receiving loop appends what it reads, grows the buffer up to its limit and ends; it goes on until a call of Recv leaves room, so that it reads all there is if every call returns as much as it can |
| AsyncTcpSockets.AsyncTcpSocket.ReceiveOnce | webrtc/rtc_base/asynctcpsocket.cc:204-225 | One round of that loop: the capacity doubles up to 65538 exactly if less than 128 bytes are free, what Recv returns is appended, and the loop goes on exactly if that was something and filled the buffer |
| AsyncTcpSockets.AsyncTcpSocket.ProcessInput | webrtc/rtc_base/asynctcpsocket.cc:306-325 | The packets whose frames are complete are signaled in order and the incomplete rest is kept; in bytes, the first packet is the 256 data[0] + data[1] bytes after the first two, if they are there |
| AsyncTcpSockets.PacketsInPieces | webrtc/rtc_base/asynctcpsocket.cc:306-325 | How the stream is cut into pieces makes no difference to the packets or to the rest |
| AsyncTcpSockets.FramesOfPackets | webrtc/rtc_base/asynctcpsocket.cc:306-325 | Nothing is lost or made up: frames of the packets found, followed by the rest, are the data again, and the rest has no whole frame |
| AsyncTcpSockets.PacketsOfFrames | webrtc/rtc_base/asynctcpsocket.cc:290-292 | Packets of at most 65535 bytes are found again in their frames, whatever follows |
| BitBuffers.WriteAndReadBack | webrtc/rtc_base/bitbuffer.cc:282-308 | Any script of numbers of 1 to 32 bits and unsigned and signed code words that fits is written from any bit offset and read back exactly; the bits around it stay as they were |
| BitBuffers.BitBuffer.WriteBits | webrtc/rtc_base/bitbuffer.cc:237-280 | For 1 to 64 bits at any alignment: exactly the addressed bits are replaced, by the low bits of the value, highest first; if there is no room nothing changes |
| BitBuffers.BitBuffer.PeekBits | webrtc/rtc_base/bitbuffer.cc:110-138 | The big-endian number of the next bits, up to 32, or failure exactly if there are not as many |
| BitBuffers.BitBuffer.ReadBits | webrtc/rtc_base/bitbuffer.cc:140-142 | The same, and the offset moves on by that many bits, or not at all on failure; with the buffer as one big-endian number, the value is what remains of it when the bits behind are shifted out and those before are cut off |
| BitBuffers.NumberInBuffer | webrtc/rtc_base/bitbuffer.cc:114-136 | What n bits at any offset denote, from the bytes alone: a field of the big-endian number that the whole buffer is |
| BitBuffers.BitBuffer.ConsumeBits | webrtc/rtc_base/bitbuffer.cc:148-156 | The offset moves on by that many bits if they are there |
| BitBuffers.BitBuffer.Seek | webrtc/rtc_base/bitbuffer.cc:211-219 | Succeeds exactly for offsets in the buffer or at its end |
| BitBuffers.BitBuffer.ReadExponentialGolomb | webrtc/rtc_base/bitbuffer.cc:158-188 | Succeeds exactly if the next bits start with a code word of at most 63 bits, consumes exactly that, and otherwise restores the offset |
| BitBuffers.BitBuffer.ReadSignedExponentialGolomb | webrtc/rtc_base/bitbuffer.cc:190-201 | Succeeds exactly if the next bits start with a code word of at most 63 bits; the result is the value whose signed code word these bits are, and exactly that is consumed; 1 is 0, 010 is 1, 011 is -1 |
| BitBuffers.BitBuffer.WriteExponentialGolomb | webrtc/rtc_base/bitbuffer.cc:282-294 | Writes the code word of every value but the largest, if it fits |
| BitBuffers.BitBuffer.WriteSignedExponentialGolomb | webrtc/rtc_base/bitbuffer.cc:296-308 | Writes the signed code word of every value but the smallest, if it fits: for 1 the bits 010 |
| BitBuffers.LowestBitsAt | webrtc/rtc_base/bitbuffer.cc:21-24 | The bits that LowestBits keeps |
| BitBuffers.HighestBitsAt | webrtc/rtc_base/bitbuffer.cc:28-33 | The bits that HighestBits keeps, and where they go |
| BitBuffers.HighestByteAt | webrtc/rtc_base/bitbuffer.cc:36-38 | The bits of the highest byte of a 64-bit word |
| BitBuffers.PartialByteAt | webrtc/rtc_base/bitbuffer.cc:43-60 | Exactly the addressed bits of the byte are replaced, provided that the unmasked rest of the source is zero or falls out |
| BitBuffers.ShiftIn | webrtc/rtc_base/bitbuffer.cc:126-136 | Shifting in further bits within 32 makes a longer big-endian number |
| BitBuffers.NextByte | webrtc/rtc_base/bitbuffer.cc:255-275 | A partial byte at the start or the end of a write gets the right bits and keeps the others |
| BitBuffers.CountBits | webrtc/rtc_base/bitbuffer.cc:63-70 | The number of binary digits |
| ExponentialGolomb.DecodeEncode | webrtc/rtc_base/bitbuffer.cc:158-188 | ITU-T H.264 section 9.1: decoding a code word, whatever follows, gives the value and the length of the code word |
| ExponentialGolomb.EncodeDecoded | webrtc/rtc_base/bitbuffer.cc:158-188 | Conversely, whatever is decoded is a value below 2^32 - 1, and the bits consumed are its code word |
| ExponentialGolomb.EncodeIsPadded | webrtc/rtc_base/bitbuffer.cc:290-293 | Writing v + 1 in a field of twice its length less one is writing the code word |
| ExponentialGolomb.CodeNumber | webrtc/rtc_base/bitbuffer.cc:167-186 | ITU-T H.264 section 9.1: z zeros, a one and z further bits denote 2^z - 1 plus the number of these bits |
| ExponentialGolomb.SignedBijection | webrtc/rtc_base/bitbuffer.cc:296-308 | ITU-T H.264 section 9.1.1: the two mappings are inverses, and writable signed values are exactly those whose unsigned counterpart is writable |
| ExponentialGolomb.SignedOrder | webrtc/rtc_base/bitbuffer.cc:195-199 | ITU-T H.264 section 9.1.1: code numbers order the values by absolute value, zero first and each positive value directly before its opposite |
| ExponentialGolomb.SignedTable | webrtc/rtc_base/bitbuffer.cc:190-201 | ITU-T H.264 section 9.1.1: the code words of 0, 1, -1, 2 and -2 |
| ExponentialGolomb.SignedCodeWord | webrtc/rtc_base/bitbuffer.cc:296-308 | The signed code word in bits: as many zeros as the absolute value has bits, these bits, and the sign, 0 for positive and 1 for negative values |
| Base64Laws.StrictExactly | webrtc/rtc_base/base64.cc:222-276 | RFC 4648 sections 4 and 3.5: the strict decoder succeeds with given bytes if and only if the text is their encoding |
| Base64Laws.DecodeEncode | webrtc/rtc_base/base64.cc:222-276 | Under every combination of flags that allows padding, an encoding is decoded completely and successfully |
| Base64Laws.ParseAnyIgnoresNoise | webrtc/rtc_base/base64.cc:137-192 | When everything is to be parsed, the bytes depend on nothing but the subsequence of characters of the alphabet |
| Base64Laws.NoisyEncoding | webrtc/rtc_base/base64.cc:137-192 | So an encoding with other characters inserted or removed anywhere still gives the encoded bytes |
| Base64Laws.TrailingSpaces | webrtc/rtc_base/base64.cc:255-263 | Under all flags that allow whitespace and padding, an encoding with spaces after it is decoded to its bytes; it is accepted unless padding is required, spaces follow and the encoding is not padded |
| Base64Verdicts.WhitespaceIgnored | webrtc/rtc_base/base64.cc:151-154 | For every text, and whatever padding and termination are asked for, a decoder that allows whitespace gives the same bytes with and without it, reaches the end with it exactly if without, and gives the same verdict but for that case |
| Base64Verdicts.WhitespaceAnywhere | webrtc/rtc_base/base64.cc:151-154 | An encoding with any characters of the codes 9 to 13 and 32 in between, as in lines, is decoded under all flags that allow whitespace and padding, and the whole text is used; it is accepted unless padding is required, the encoding is not padded and the text ends with whitespace |
| Base64Reference.StrictForm | webrtc/rtc_base/base64.cc:222-276 | Strict parsing, for every text, padding and termination flag: the bytes of the characters of the alphabet the text starts with, the exact verdict from their number, the bits left over and the pads after them, and the exact position |
| Base64Reference.StrictExactlyFor | webrtc/rtc_base/base64.cc:222-276 | For every demand on padding, a strict decoder that has to reach the end gives data exactly for its encoding, where pads are allowed, for its encoding without pads, where they are not required, and then also with a single A after full groups |
| Base64Anything.AnyForm | webrtc/rtc_base/base64.cc:137-192 | Parsing anything, for every text, padding and termination flag: the bytes of all characters of the alphabet, the exact verdict from their number, the bits left over, the pads after the last of them and whether the text ends with it, and the exact position |
| Base64Reference.WhiteForm | webrtc/rtc_base/base64.cc:151-154 | Parsing with whitespace allowed, for every text: bytes, position and verdict are those of strict parsing of the text without whitespace, but for the verdict on whitespace after data that needs no padding where padding is required |
| Base64.EncodeFromArray | webrtc/rtc_base/base64.cc:96-135 | Groups of three bytes become four characters, the last group is filled up with zero bits and padded |
| Base64.BytesOfSextets | webrtc/rtc_base/base64.cc:106-133 | The sextets of a group give its bytes back, with no bits left over |
| Base64.SextetsOfWhole | webrtc/rtc_base/base64.cc:242-256 | Where no bits are left over, the bytes give the sextets back |
| Base64.TablesInverse | webrtc/rtc_base/base64.cc:28-69 | The two tables are inverses of each other |
| Base64.Alphabet | webrtc/rtc_base/base64.cc:32-35 | The encoding table is the alphabet of RFC 4648 |
| Base64.Entries | webrtc/rtc_base/base64.cc:41-74 | Which characters have values, which is padding and which are whitespace, by their codes; IsBase64Char is the first of these |
| Base64.GroupBits | webrtc/rtc_base/base64.cc:106-133 | RFC 4648 section 4: the bits of one to three bytes as one number are those of their sextets, filled up with zeros |
| Base64Decoder.GetNextQuantum | webrtc/rtc_base/base64.cc:137-192 | Up to four sextets, where the scan ends and whether it is padded, for every strictness and with padding allowed or not; pads that do not complete a quantum are given back |
| Base64Decoder.DecodeFromArray | webrtc/rtc_base/base64.cc:222-276 | The bytes of all quanta, the position reached and the verdict on unused bits, missing padding and unused characters |
| Base64Decoder.DecodeQuantum | webrtc/rtc_base/base64.cc:243-254 | The whole bytes of a quantum are pushed, and the bits left over remain |
| FirFilters.FIRFilterC.Filter | webrtc/common_audio/fir_filter.cc:82-108 | For every partition of a stream into non-empty chunks the output so far is the convolution of the whole stream with zero history, and the state is its last samples |
| FirFilters.FIRFilterC.Output | webrtc/common_audio/fir_filter.cc:87-97 | One output sample, from the state and then from the input |
| FirFilters.FIRFilterSSE2.Filter | webrtc/common_audio/fir_filter_sse.cc:46-79 | The same for chunks of at most max_input_length |
| FirFilters.FIRFilterSSE2.Output | webrtc/common_audio/fir_filter_sse.cc:53-75 | One output sample in four lanes over coefficients padded to a multiple of four |
| FirFilters.FIRFilterSSE2.constructor | webrtc/common_audio/fir_filter_sse.cc:22-44 | The padded, reversed coefficients, and a state of zeros |
| FirFilters.FIRFilterC.constructor | webrtc/common_audio/fir_filter.cc:71-80 | The reversed coefficients, and a state of zeros |
| FirFilters.UpdateState | webrtc/common_audio/fir_filter.cc:99-107 | The state becomes the last samples of the longer stream, whether or not the chunk is longer than it |
| FirFilters.ImplementationsAgree | webrtc/common_audio/fir_filter.cc:38-69 | Whatever the chunks, the plain and the vectorized filter have put out the same |
| FirFilters.OutputsAreSums | webrtc/common_audio/fir_filter.cc:82-108 | Every output of either filter, whatever the chunks, is the sum over those j up to t only of coefficient j times sample t - j that was fed: silence before the stream |
| FirFilters.Impulse | webrtc/common_audio/fir_filter.cc:71-80 | A single one, fed to either filter in any chunks, gives the coefficients and then silence |
| SparseFirFilters.SparseFIRFilter.Filter | webrtc/common_audio/sparse_fir_filter.cc:31-60 | For every partition of a stream into chunks the output so far is the convolution of the whole stream with the coefficients spread every `sparsity` samples after `offset` zeros |
| SparseFirFilters.SparseFIRFilter.Output | webrtc/common_audio/sparse_fir_filter.cc:34-46 | One output sample, from the input and then from the state |
| SparseFirFilters.SparseFIRFilter.constructor | webrtc/common_audio/sparse_fir_filter.cc:17-27 | The state has the length that the oldest coefficient needs, and is all zeros |
| SparseFirFilters.OutputIsSum | webrtc/common_audio/sparse_fir_filter.cc:31-60 | Every output, whatever the chunks, is the sum of coefficient j times the sample j * sparsity + offset before, over those j for which that sample was fed |
| Convolution.SparseIsSpread | webrtc/common_audio/sparse_fir_filter.h:24-31 | The sparse sum is the dense convolution with the spread coefficients |
| Convolution.FilteredInPieces | webrtc/common_audio/fir_filter.cc:82-108 | Convolution does not look ahead, so that chunks can be put together |
| Convolution.Linear | webrtc/common_audio/fir_filter.cc:82-108 | Filtering a weighted sum of two streams gives the weighted sum of the filtered streams |
| Convolution.RememberMore | webrtc/common_audio/fir_filter.cc:99-107 | The end of state and input is the end of the longer stream |
| Convolution.TrailingZeros | webrtc/common_audio/fir_filter_sse.cc:32-39 | Padding the coefficients changes nothing |
| Convolution.FourMore | webrtc/common_audio/fir_filter_sse.cc:62-74 | Four products at a time continue the sum |
| CopyOnWriteBuffers.PerformAll | webrtc/rtc_base/copyonwritebuffer.cc:50-108 | Any run of operations on any number of buffers gives the contents that buffers without any sharing would have |
| CopyOnWriteBuffers.Perform | webrtc/rtc_base/copyonwritebuffer.h:147-191 | Every operation changes exactly the contents that it would change without sharing |
| CopyOnWriteBuffers.Handles.Assign | webrtc/rtc_base/copyonwritebuffer.h:110-124 | The count of every storage stays the number of handles that name it |
| CopyOnWriteBuffers.Handles.CloneDataIfReferenced | webrtc/rtc_base/copyonwritebuffer.cc:100-108 | Afterwards the storage has one reference; contents and the other buffers are as before |
| CopyOnWriteBuffers.Handles.OnlyOne | webrtc/rtc_base/copyonwritebuffer.cc:100-103 | A storage with a count of one is seen by one handle only |
| CopyOnWriteBuffers.Handles.SetData | webrtc/rtc_base/copyonwritebuffer.h:147-157 | This buffer has the new contents, all others theirs, and no capacity is lost |
| CopyOnWriteBuffers.Handles.AppendData | webrtc/rtc_base/copyonwritebuffer.h:179-191 | This buffer has the data at its end; the buffers stay consistent unless nothing is appended to a buffer without storage |
| CopyOnWriteBuffers.Handles.SetSize | webrtc/rtc_base/copyonwritebuffer.cc:50-69 | Contents are cut, or kept and followed by unspecified bytes |
| CopyOnWriteBuffers.Handles.EnsureCapacity | webrtc/rtc_base/copyonwritebuffer.cc:71-86 | The capacity is at least what is asked for, and only this buffer changes |
| CopyOnWriteBuffers.Handles.Clear | webrtc/rtc_base/copyonwritebuffer.cc:88-98 | This buffer is empty and keeps its capacity |
| CopyOnWriteBuffers.Handles.CopyFrom | webrtc/rtc_base/copyonwritebuffer.h:110-117 | Copying shares storage and shows the same contents |
| CopyOnWriteBuffers.Handles.MoveFrom | webrtc/rtc_base/copyonwritebuffer.h:119-124 | Moving leaves the source empty, and moving to itself changes nothing |
| CopyOnWriteBuffers.Handles.Write | webrtc/rtc_base/copyonwritebuffer.h:132-135 | A write changes one byte of one buffer |
| CopyOnWriteBuffers.Handles.Add | webrtc/rtc_base/copyonwritebuffer.h:41-51 | A new buffer with the given contents, without storage if there is nothing to store |

## Left out

- Floating-point rounding, SIMD alignment and intrinsics: samples are exact reals; the two aligned and unaligned loops of the SSE2 filter are one loop, and the NEON filter has the same shape.
- Values of cosf and sinf: the table generators are proved from the laws of the circle, for any function that obeys them.
- Cft.Cft1st: runs the general middle stage with l == 2, of which the original is the straight-line expansion with the same operations in the same order.
- The routines of fft4g.c that are compiled out by `#if 0`, and the callers of the FFT.
- Machine limits: counts and positions are unbounded integers, so `element_count` beyond INT_MAX and wrap-around of size_t or of lock_queue_ are not modelled.
- RingBuffers.CreateBuffer: an element is a sample, so that its size is not zero, and allocation does not fail.
- RingBuffers.RingBuffer.WriteBuffer: null handles and null data, for which nothing is done, are not modelled, here and in the other operations.
- Blockers.AddFrames: a result that is also a summand must not start after it, as the loop would then add to frames it has already stored; its only call meets that.
- Blockers.Blocker.constructor: takes positive chunk size, shift amount and channel counts, and a callback that is a function of block number and windowed block and fills its whole output block.
- LappedTransform, window generators, SmoothingFilter and the FFT wrappers: thin layers, or in need of axioms about other functions.
- The lock branches for Windows and pthreads, the counters that only debug checks use, GlobalLock and the scope classes: calls to the system, or easy members. Memory is sequentially consistent in the model.
- AsyncTcpSockets.AsyncTcpSocket.OnReadEvent: listening sockets, addresses, signals to callers that call back, and SendRaw are not modelled; the bytes of a packet are read by value.
- BitBuffers.BitBuffer.WriteBits: takes 1 to 64 bits and BitBuffers.BitBuffer.PeekBits at least one bit at the end of the buffer, as the original otherwise shifts by the word size or looks at a byte past the end; null result pointers and the fixed-width shorthands are not modelled.
- Base64: the tables are given by the ranges they consist of, characters beyond 255 count as illegal, and the output containers are sequences; GetNextBase64Char and IsBase64Encoded are not modelled.
- FirFilters.FIRFilterC.Filter: input and output do not overlap, and FIRFilter::Create's choice of an implementation is not modelled.
- CopyOnWriteBuffers.Handles.SetSize: new space is a parameter, as its contents are unspecified.
- CopyOnWriteBuffers.Handles.AppendData: data is passed by value, so that appending a buffer to itself is not modelled; nor are comparison, swap, and raw pointers kept across calls.
- AsyncInvoker, CompositionConverter, CRC32, ByteBuffer, WAV headers, BufferQueue and BitrateAllocation: dependent on code outside the repository, or easier members.
