/** blocker.cc: the chunked, in-place computation of what OverlapAdd describes. */
module Blockers {
  import opened GreatestCommonDivisor
  import opened OverlapAdd
  import opened RingBuffers
  import opened AudioRingBuffers
  import opened Samples

  /**
   * AddFrames. The result may be one of the summands, as in its only call, if no frame is stored before the one that it
   * comes from.
   */
  method AddFrames(a: array2<real>, aStart: nat, b: array2<real>, bStart: nat, numFrames: nat, numChannels: nat,
                   result: array2<real>, resultStart: nat)
    requires numChannels <= a.Length0 && aStart + numFrames <= a.Length1
    requires numChannels <= b.Length0 && bStart + numFrames <= b.Length1
    requires numChannels <= result.Length0 && resultStart + numFrames <= result.Length1
    requires (a == result ==> resultStart <= aStart) && (b == result ==> resultStart <= bStart)
    modifies result
    ensures forall i: nat, j: nat | i < result.Length0 && j < result.Length1 ::
              result[i, j] == if i < numChannels && resultStart <= j < resultStart + numFrames
                              then old(a[i, aStart + (j - resultStart)]) + old(b[i, bStart + (j - resultStart)])
                              else old(result[i, j])
  {
    for i := 0 to numChannels
      invariant forall r: nat, j: nat | r < result.Length0 && j < result.Length1 ::
                  result[r, j] == if r < i && resultStart <= j < resultStart + numFrames
                                  then old(a[r, aStart + (j - resultStart)]) + old(b[r, bStart + (j - resultStart)])
                                  else old(result[r, j])
    {
      for k := 0 to numFrames
        invariant forall r: nat, j: nat | r < result.Length0 && j < result.Length1 ::
                    result[r, j] == if (r < i && resultStart <= j < resultStart + numFrames)
                                       || (r == i && resultStart <= j < resultStart + k)
                                    then old(a[r, aStart + (j - resultStart)]) + old(b[r, bStart + (j - resultStart)])
                                    else old(result[r, j])
      {
        result[i, k + resultStart] := a[i, k + aStart] + b[i, k + bStart];
      }
    }
  }

  /** ApplyWindow. */
  method ApplyWindow(window: seq<real>, numFrames: nat, numChannels: nat, frames: array2<real>)
    requires numFrames <= |window| && numChannels <= frames.Length0 && numFrames <= frames.Length1
    modifies frames
    ensures forall i: nat, j: nat | i < frames.Length0 && j < frames.Length1 ::
              frames[i, j] == if i < numChannels && j < numFrames then old(frames[i, j]) * window[j] else old(frames[i, j])
  {
    for i := 0 to numChannels
      invariant forall r: nat, j: nat | r < frames.Length0 && j < frames.Length1 ::
                  frames[r, j] == if r < i && j < numFrames then old(frames[r, j]) * window[j] else old(frames[r, j])
    {
      for k := 0 to numFrames
        invariant forall r: nat, j: nat | r < frames.Length0 && j < frames.Length1 ::
                    frames[r, j] == if (r < i && j < numFrames) || (r == i && j < k)
                                    then old(frames[r, j]) * window[j] else old(frames[r, j])
      {
        frames[i, k] := frames[i, k] * window[k];
      }
    }
  }

  /** Copies rows of samples into a buffer. */
  method StoreRows(rows: seq<seq<real>>, frames: array2<real>)
    requires HasShape(rows, frames.Length0, frames.Length1)
    modifies frames
    ensures forall i: nat, j: nat | i < frames.Length0 && j < frames.Length1 :: frames[i, j] == rows[i][j]
  {
    forall i, j | 0 <= i < frames.Length0 && 0 <= j < frames.Length1 {
      frames[i, j] := rows[i][j];
    }
  }

  /** The contents of a buffer, row by row. */
  function Rows(frames: array2<real>): (rows: seq<seq<real>>)
    reads frames
    ensures HasShape(rows, frames.Length0, frames.Length1)
    ensures forall i: nat, j: nat | i < frames.Length0 && j < frames.Length1 :: rows[i][j] == frames[i, j]
  {
    seq(frames.Length0, i requires 0 <= i < frames.Length0 reads frames =>
      seq(frames.Length1, j requires 0 <= j < frames.Length1 reads frames => frames[i, j]))
  }

  /** CopyFrames, from the first frames of src. */
  method CopyFrames(src: array2<real>, numFrames: nat, numChannels: nat) returns (dst: seq<seq<real>>)
    requires numChannels <= src.Length0 && numFrames <= src.Length1
    ensures HasShape(dst, numChannels, numFrames)
    ensures forall i: nat, j: nat | i < numChannels && j < numFrames :: dst[i][j] == src[i, j]
  {
    dst := seq(numChannels, i requires 0 <= i < numChannels reads src =>
      seq(numFrames, j requires 0 <= j < numFrames reads src => src[i, j]));
  }

  /** MoveFrames, by memmove: the regions may overlap. */
  method MoveFrames(src: array2<real>, srcStart: nat, numFrames: nat, numChannels: nat, dst: array2<real>, dstStart: nat)
    requires numChannels <= src.Length0 && srcStart + numFrames <= src.Length1
    requires numChannels <= dst.Length0 && dstStart + numFrames <= dst.Length1
    modifies dst
    ensures forall i: nat, j: nat | i < dst.Length0 && j < dst.Length1 ::
              dst[i, j] == if i < numChannels && dstStart <= j < dstStart + numFrames
                           then old(src[i, srcStart + (j - dstStart)]) else old(dst[i, j])
  {
    forall i, j | 0 <= i < numChannels && dstStart <= j < dstStart + numFrames {
      dst[i, j] := src[i, srcStart + (j - dstStart)];
    }
  }

  /** ZeroOut. */
  method ZeroOut(frames: array2<real>, start: nat, numFrames: nat, numChannels: nat)
    requires numChannels <= frames.Length0 && start + numFrames <= frames.Length1
    modifies frames
    ensures forall i: nat, j: nat | i < frames.Length0 && j < frames.Length1 ::
              frames[i, j] == if i < numChannels && start <= j < start + numFrames then 0.0 else old(frames[i, j])
  {
    forall i, j | 0 <= i < numChannels && start <= j < start + numFrames {
      frames[i, j] := 0.0;
    }
  }

  /** The channels of a ring buffer: as many zeros as it has cells, then what was fed. */
  ghost function Padded(capacity: nat, fed: seq<seq<real>>): (h: seq<seq<real>>)
    ensures |h| == |fed| && forall c: nat | c < |fed| :: h[c] == Zeros(capacity) + fed[c]
  {
    seq(|fed|, c requires 0 <= c < |fed| => Zeros(capacity) + fed[c])
  }

  /** What is next in a channel when all frames before `first` in the chunk that ends at frame T have been passed. */
  lemma FramesAreSamples(p: Settings, channel: seq<real>, capacity: nat, k: nat, readable: nat)
    requires ValidSettings(p) && capacity == p.chunk + Delay(p)
    requires Start(p, k) + readable == Delay(p) + |channel| && p.block <= readable <= capacity + |channel|
    ensures var frames := NextFrames(Zeros(capacity) + channel, readable, p.block);
            |frames| == p.block && forall i: nat | i < p.block :: frames[i] == Sample(channel, Delay(p), Start(p, k) + i)
  {
    var D, s, history := Delay(p), Start(p, k), Zeros(capacity) + channel;
    var frames := NextFrames(history, readable, p.block);
    assert |history| - readable == p.chunk + s;
    forall i: nat | i < p.block ensures frames[i] == Sample(channel, D, s + i) {
      assert frames[i] == history[p.chunk + s + i];
    }
  }

  lemma WindowedRow(p: Settings, channel: seq<real>, k: nat, readable: nat, row: seq<real>)
    requires ValidSettings(p) && p.block <= readable <= p.chunk + Delay(p) + |channel|
    requires Start(p, k) + readable == Delay(p) + |channel| && |row| == p.block
    requires forall i: nat | i < p.block ::
               row[i] == NextFrames(Zeros(p.chunk + Delay(p)) + channel, readable, p.block)[i] * p.window[i]
    ensures row == BlockRow(p, channel, k)
  {
    hide ValidSettings, NextFrames, Sample, Start;
    FramesAreSamples(p, channel, p.chunk + Delay(p), k, readable);
    assert forall i: nat | i < p.block :: row[i] == BlockRow(p, channel, k)[i];
  }

  /** Frames read when `readable` were there, and windowed. */
  lemma WindowedFrames(p: Settings, fed: seq<seq<real>>, k: nat, readable: nat, frames: seq<seq<real>>, rows: seq<seq<real>>)
    requires ValidSettings(p) && |fed| == p.numIn && p.block <= readable && HasShape(frames, p.numIn, p.block)
    requires forall c: nat | c < p.numIn ::
               Start(p, k) + readable == Delay(p) + |fed[c]| && readable <= p.chunk + Delay(p) + |fed[c]|
    requires forall c: nat | c < p.numIn ::
               frames[c] == NextFrames(Zeros(p.chunk + Delay(p)) + fed[c], readable, p.block)
    requires HasShape(rows, p.numIn, p.block)
    requires forall c: nat, i: nat | c < p.numIn && i < p.block :: rows[c][i] == frames[c][i] * p.window[i]
    ensures rows == BlockInput(p, fed, k)
  {
    hide NextFrames, BlockRow, Start, ValidSettings;
    var input := BlockInput(p, fed, k);
    forall c: nat | c < p.numIn ensures rows[c] == input[c] {
      WindowedRow(p, fed[c], k, readable, rows[c]);
    }
  }

  /** A block that starts within a chunk ends within the chunk and the delay. */
  lemma BlockFits(p: Settings, T: nat, k: nat)
    requires ValidSettings(p) && Divides(Gcd(p.chunk, p.shift), T)
    requires Start(p, k) < T
    ensures Start(p, k) + p.block <= Delay(p) + T
  {
    var g := Gcd(p.chunk, p.shift);
    GcdDivides(p.chunk, p.shift);
    StartMultiple(p, g, k);
    StartBeforeEnd(Start(p, k), T, g);
  }

  lemma NextChunkAligned(p: Settings, T: nat)
    requires ValidSettings(p) && Divides(Gcd(p.chunk, p.shift), T)
    ensures Divides(Gcd(p.chunk, p.shift), T + p.chunk)
  {
    GcdDivides(p.chunk, p.shift);
    DividesSum(Gcd(p.chunk, p.shift), T, p.chunk);
  }

  /** Channels without any frames. */
  ghost function Silent(channels: nat): (h: seq<seq<real>>)
    ensures HasShape(h, channels, 0)
  {
    seq(channels, _ => [])
  }

  lemma PaddedSilence(capacity: nat, channels: nat, histories: seq<seq<real>>)
    requires |histories| == channels && forall c: nat | c < channels :: histories[c] == Zeros(capacity)
    ensures histories == Padded(capacity, Silent(channels))
  {
    forall c: nat | c < channels ensures histories[c] == Padded(capacity, Silent(channels))[c] {
      assert Zeros(capacity) + Silent(channels)[c] == Zeros(capacity);
    }
  }

  /** The input buffer as the constructor sets it up: the first thing to be read is `delay` zeros. */
  method DelayedInput(channels: nat, capacity: nat, delay: nat) returns (input: AudioRingBuffer)
    requires channels > 0 && capacity > 0 && delay <= capacity
    ensures fresh(input.Repr()) && (forall o | o in input.Repr() :: allocated(o))
    ensures |input.buffers| == channels && input.Capacity() == capacity
    ensures input.Holds(Padded(capacity, Silent(channels)), delay)
  {
    hide RingBuffer.Valid, RingBuffer.AvailableRead;
    input := new AudioRingBuffer(channels, capacity);
    input.MoveReadPositionBackward(delay);
    PaddedSilence(capacity, channels, input.Histories());
  }

  lemma OneMoreBlock(p: Settings, input: seq<seq<real>>, k: nat, c: nat, t: nat)
    requires ValidSettings(p) && |input| == p.numIn && c < p.numOut
    ensures PartialOutput(p, input, k + 1, c, t) == PartialOutput(p, input, k, c, t) + Contribution(p, input, k, c, t)
  {
  }

  lemma NextStart(p: Settings, k: nat)
    ensures Start(p, k + 1) == Start(p, k) + p.shift
  {
  }

  class Blocker {
    const settings: Settings
    const initialDelay: nat
    const inputBuffer: AudioRingBuffer
    const outputBuffer: array2<real>
    const inputBlock: array2<real>
    const outputBlock: array2<real>
    var frameOffset: nat
    var blocks: nat  // how often the callback has been called

    ghost var time: nat                // the number of frames of each channel so far
    ghost var fed: seq<seq<real>>      // the input of each channel so far
    ghost var emitted: seq<seq<real>>  // the output of each channel so far

    ghost function Repr(): set<object> {
      {this, outputBuffer, inputBlock, outputBlock} + inputBuffer.Repr()
    }

    /** The sizes of the parts. */
    ghost predicate Shaped() {
      && ValidSettings(settings) && initialDelay == Delay(settings)
      && outputBuffer.Length0 == settings.numOut && outputBuffer.Length1 == settings.chunk + initialDelay
      && inputBlock.Length0 == settings.numIn && inputBlock.Length1 == settings.block
      && outputBlock.Length0 == settings.numOut && outputBlock.Length1 == settings.block
      && outputBuffer != inputBlock && outputBuffer != outputBlock && inputBlock != outputBlock
      && {this, outputBuffer, inputBlock, outputBlock} !! inputBuffer.Repr()
      && |inputBuffer.buffers| == settings.numIn && inputBuffer.Capacity() == settings.chunk + initialDelay
    }

    /** The ring buffers hold the input so far, of which the last `unread` frames are still to be read. */
    ghost predicate InputHolds(input: seq<seq<real>>, unread: int)
      requires Shaped()
      reads inputBuffer.Repr()
    {
      inputBuffer.Holds(Padded(settings.chunk + initialDelay, input), unread)
    }

    /** The output buffer holds the contributions of the first k blocks to the frames from T on. */
    ghost predicate OutputHolds(input: seq<seq<real>>, k: nat, T: nat)
      requires Shaped() && |input| == settings.numIn
      reads outputBuffer
    {
      forall c: nat, i: nat | c < settings.numOut && i < settings.chunk + initialDelay ::
        outputBuffer[c, i] == PartialOutput(settings, input, k, c, T + i)
    }

    /** Between chunks. */
    ghost predicate Valid()
      reads Repr()
    {
      && Shaped() && HasShape(fed, settings.numIn, time) && Divides(Gcd(settings.chunk, settings.shift), time)
      && Start(settings, blocks) == time + frameOffset && frameOffset <= initialDelay
      && (blocks > 0 ==> Start(settings, blocks - 1) < time)
      && InputHolds(fed, initialDelay - frameOffset)
      && OutputHolds(fed, blocks, time)
      && HasShape(emitted, settings.numOut, time)
      && forall c: nat, t: nat | c < settings.numOut && t < time :: emitted[c][t] == Output(settings, fed, c, t)
    }

    /** The constructor: nothing has been fed, but `initialDelay` zeros are there to be read. */
    constructor (p: Settings)
      requires ValidSettings(p)
      ensures settings == p && Valid() && time == 0
      ensures fed == Silent(p.numIn) && emitted == Silent(p.numOut)
      ensures fresh(outputBuffer) && fresh(inputBlock) && fresh(outputBlock) && fresh(inputBuffer.Repr())
    {
      hide AudioRingBuffer.Holds, AudioRingBuffer.Repr, HasShape, PartialOutput, Padded, Gcd, Output, Zeros, Valid;
      var g := ComputeGcd(p.chunk, p.shift);
      GcdAtMost(p.chunk, p.shift);
      outputBuffer := new real[p.numOut, p.chunk + (p.block - g)]((_, _) => 0.0);
      inputBlock := new real[p.numIn, p.block];
      outputBlock := new real[p.numOut, p.block];
      settings := p;
      initialDelay := p.block - g;
      frameOffset, blocks := 0, 0;
      time, fed, emitted := 0, Silent(p.numIn), Silent(p.numOut);
      var input := DelayedInput(p.numIn, p.chunk + (p.block - g), p.block - g);
      inputBuffer := input;
      new;
      Started();
    }

    lemma Started()
      requires Shaped() && time == blocks == frameOffset == 0
      requires fed == Silent(settings.numIn) && emitted == Silent(settings.numOut)
      requires InputHolds(fed, initialDelay)
      requires forall c: nat, i: nat | c < settings.numOut && i < settings.chunk + initialDelay :: outputBuffer[c, i] == 0.0
      ensures Valid()
    {
      hide InputHolds, Contribution;
      DividesSelf(Gcd(settings.chunk, settings.shift));
    }

    /** Frames are read, and all but `shift` of them made available again. */
    method NextFrame(ghost input: seq<seq<real>>, ghost unread: nat) returns (frames: seq<seq<real>>)
      requires Shaped() && InputHolds(input, unread) && settings.block <= unread && |input| == settings.numIn
      modifies inputBuffer.Repr()
      ensures InputHolds(input, unread - settings.shift)
      ensures HasShape(frames, settings.numIn, settings.block)
      ensures forall c: nat | c < settings.numIn :: unread <= settings.chunk + initialDelay + |input[c]|
      ensures forall c: nat | c < settings.numIn ::
                frames[c] == NextFrames(Zeros(settings.chunk + initialDelay) + input[c], unread, settings.block)
    {
      hide AudioRingBuffer.Valid, RingBuffer.Valid, RingBuffer.AvailableRead, NextFrames;
      frames := inputBuffer.Read(settings.block);
      inputBuffer.MoveReadPositionBackward(settings.block - settings.shift);
    }

    /** The first half of the body of ProcessChunk's loop: the next block is read and windowed. */
    method ReadBlock(ghost input: seq<seq<real>>, ghost T: nat, ghost unread: nat)
      requires Shaped() && HasShape(input, settings.numIn, T) && InputHolds(input, unread)
      requires Start(settings, blocks) + unread == initialDelay + T && settings.block <= unread
      modifies inputBlock, inputBuffer.Repr()
      ensures Rows(inputBlock) == BlockInput(settings, input, blocks)
      ensures InputHolds(input, unread - settings.shift)
    {
      hide InputHolds, NextFrames, BlockInput, Start, AudioRingBuffer.Valid;
      var p := settings;
      var frames := NextFrame(input, unread);
      StoreRows(frames, inputBlock);
      ApplyWindow(p.window, p.block, p.numIn, inputBlock);
      WindowedFrames(p, input, blocks, unread, frames, Rows(inputBlock));
    }

    /** The callback and the second window. */
    method ProcessBlock(ghost input: seq<seq<real>>)
      requires Shaped() && |input| == settings.numIn && Rows(inputBlock) == BlockInput(settings, input, blocks)
      modifies outputBlock
      ensures forall c: nat, t: nat | c < settings.numOut && Start(settings, blocks) <= t < Start(settings, blocks) + settings.block ::
                outputBlock[c, t - Start(settings, blocks)] == Contribution(settings, input, blocks, c, t)
    {
      hide BlockInput, Start;
      var p := settings;
      var processed := p.process(blocks, Rows(inputBlock));
      StoreRows(processed, outputBlock);
      ApplyWindow(p.window, p.block, p.numOut, outputBlock);
    }

    /** The second half: the block is processed, windowed again and added to the output buffer. */
    method AddBlock(first: nat, ghost input: seq<seq<real>>, ghost T: nat)
      requires Shaped() && |input| == settings.numIn && OutputHolds(input, blocks, T)
      requires Start(settings, blocks) == T + first && first + settings.block <= settings.chunk + initialDelay
      requires Rows(inputBlock) == BlockInput(settings, input, blocks)
      modifies this`blocks, outputBlock, outputBuffer
      ensures blocks == old(blocks) + 1 && OutputHolds(input, blocks, T)
    {
      hide BlockInput, PartialOutput, Start;
      var p := settings;
      ProcessBlock(input);
      AddFrames(outputBuffer, first, outputBlock, 0, p.block, p.numOut, outputBuffer, first);
      forall c: nat, i: nat | c < p.numOut && i < p.chunk + initialDelay
        ensures outputBuffer[c, i] == PartialOutput(p, input, blocks + 1, c, T + i)
      {
        OneMoreBlock(p, input, blocks, c, T + i);
      }
      blocks := blocks + 1;
    }

    /** The chunk goes to the input buffer: the RTC_CHECK in Write holds. */
    method WriteChunk(chunk: seq<seq<real>>, ghost input: seq<seq<real>>, ghost unread: nat)
      requires Shaped() && |input| == settings.numIn && InputHolds(input, unread) && unread <= initialDelay
      requires HasShape(chunk, settings.numIn, settings.chunk)
      modifies inputBuffer.Repr()
      ensures InputHolds(Appended(input, chunk), unread + settings.chunk)
    {
      hide AudioRingBuffer.Valid, AudioRingBuffer.Histories, AudioRingBuffer.ReadFramesAvailable;
      hide AudioRingBuffer.WriteFramesAvailable, AudioRingBuffer.Repr, Padded, Appended;
      inputBuffer.Write(chunk, settings.chunk);
      PaddedAppended(settings.chunk + initialDelay, input, chunk);
    }

    /** The end of ProcessChunk: a chunk of finished frames is emitted, and the rest moves to the front. */
    method EmitChunk(ghost input: seq<seq<real>>, ghost T: nat, ghost unread: int) returns (output: seq<seq<real>>)
      requires Shaped() && |input| == settings.numIn && InputHolds(input, unread) && OutputHolds(input, blocks, T)
      requires Start(settings, blocks) >= T + settings.chunk
      requires blocks > 0 ==> Start(settings, blocks - 1) + settings.block <= T + settings.chunk + initialDelay
      modifies outputBuffer
      ensures InputHolds(input, unread) && OutputHolds(input, blocks, T + settings.chunk)
      ensures |output| == settings.numOut && HasShape(output, settings.numOut, settings.chunk)
      ensures forall c: nat, i: nat | c < settings.numOut && i < settings.chunk ::
                output[c][i] == Output(settings, input, c, T + i)
    {
      hide PartialOutput, Output, Start, InputHolds, ValidSettings;
      var p := settings;
      output := CopyFrames(outputBuffer, p.chunk, p.numOut);
      forall c: nat, i: nat | c < p.numOut && i < p.chunk ensures output[c][i] == Output(p, input, c, T + i) {
        OutputComplete(p, input, blocks, c, T + i);
      }
      ShiftOutput();
      forall c: nat, i: nat | c < p.numOut && i < p.chunk + initialDelay
        ensures outputBuffer[c, i] == PartialOutput(p, input, blocks, c, T + p.chunk + i)
      {
        if i >= initialDelay {
          EarlierBlocks(p, input, blocks, c, T + p.chunk + i);
        } else {
          assert outputBuffer[c, i] == old(outputBuffer[c, p.chunk + i]);
        }
      }
    }

    method ShiftOutput()
      requires Shaped()
      modifies outputBuffer
      ensures forall c: nat, i: nat | c < settings.numOut && i < settings.chunk + initialDelay ::
                outputBuffer[c, i] == if i < initialDelay then old(outputBuffer[c, settings.chunk + i]) else 0.0
    {
      hide ValidSettings, AudioRingBuffer.Repr;
      MoveFrames(outputBuffer, settings.chunk, initialDelay, settings.numOut, outputBuffer, 0);
      ZeroOut(outputBuffer, initialDelay, settings.chunk, settings.numOut);
    }

    /** Another chunk of input makes no difference to the blocks so far, nor to the output so far. */
    lemma InputGrows(more: seq<seq<real>>)
      requires Valid() && HasShape(more, settings.numIn, settings.chunk)
      ensures var all := Appended(fed, more);
              && OutputHolds(all, blocks, time)
              && forall c: nat, t: nat | c < settings.numOut && t < time :: emitted[c][t] == Output(settings, all, c, t)
    {
      hide PartialOutput, Output, Start, InputHolds;
      var p, all := settings, Appended(fed, more);
      if blocks > 0 {
        BlockFits(p, time, blocks - 1);
      }
      forall c: nat, t: nat | c < p.numOut
        ensures PartialOutput(p, all, blocks, c, t) == PartialOutput(p, fed, blocks, c, t)
        ensures t < time ==> Output(p, all, c, t) == Output(p, fed, c, t)
      {
        OutputStable(p, fed, all, time, blocks, c, t);
        if t < time {
          OutputComplete(p, fed, blocks, c, t);
          OutputComplete(p, all, blocks, c, t);
        }
      }
    }

    /** What the loop over the blocks needs to know of the sizes and of the buffers. */
    lemma Parts()
      requires Shaped()
      ensures ValidSettings(settings) && 0 < settings.shift <= settings.block && initialDelay == Delay(settings)
      ensures initialDelay < settings.block && settings.shift <= initialDelay + settings.chunk
      ensures outputBuffer != inputBlock && outputBuffer != outputBlock && inputBlock != outputBlock
      ensures this !in inputBuffer.Repr() && outputBuffer !in inputBuffer.Repr()
      ensures inputBlock !in inputBuffer.Repr() && outputBlock !in inputBuffer.Repr()
    {
      var own: set<object> := {this, outputBuffer, inputBlock, outputBlock};
      assert this in own && outputBuffer in own && inputBlock in own && outputBlock in own;
      GcdAtMost(settings.chunk, settings.shift);
      GcdDivides(settings.chunk, settings.shift);
      DividesAtLeast(Gcd(settings.chunk, settings.shift), settings.chunk);
    }

    /** ProcessChunk's loop, through the blocks that start in the chunk from T on. */
    method ProcessBlocks(ghost input: seq<seq<real>>, ghost T: nat) returns (firstFrameInBlock: nat)
      requires Shaped() && |input| == settings.numIn && HasShape(input, settings.numIn, T + settings.chunk)
      requires frameOffset <= initialDelay
      requires Divides(Gcd(settings.chunk, settings.shift), T + settings.chunk)
      requires InputHolds(input, settings.chunk + initialDelay - frameOffset) && OutputHolds(input, blocks, T)
      requires Start(settings, blocks) == T + frameOffset
      requires blocks > 0 ==> Start(settings, blocks - 1) < T + settings.chunk
      modifies this`blocks, inputBlock, outputBlock, outputBuffer, inputBuffer.Repr()
      ensures InputHolds(input, settings.chunk + initialDelay - firstFrameInBlock) && OutputHolds(input, blocks, T)
      ensures Start(settings, blocks) == T + firstFrameInBlock
      ensures settings.chunk <= firstFrameInBlock <= settings.chunk + initialDelay
      ensures blocks > 0 ==> Start(settings, blocks - 1) < T + settings.chunk
    {
      hide InputHolds, OutputHolds, BlockInput, PartialOutput, Start, Gcd, Divides, HasShape, Shaped, ValidSettings;
      var p := settings;
      Parts();
      firstFrameInBlock := frameOffset;
      while firstFrameInBlock < p.chunk
        invariant InputHolds(input, p.chunk + initialDelay - firstFrameInBlock) && OutputHolds(input, blocks, T)
        invariant Start(p, blocks) == T + firstFrameInBlock && firstFrameInBlock <= p.chunk + initialDelay
        invariant blocks > 0 ==> Start(p, blocks - 1) < T + p.chunk
      {
        BlockFits(p, T + p.chunk, blocks);
        ReadBlock(input, T + p.chunk, p.chunk + initialDelay - firstFrameInBlock);
        AddBlock(firstFrameInBlock, input, T);
        NextStart(p, blocks - 1);
        firstFrameInBlock := firstFrameInBlock + p.shift;
      }
    }

    /** The new frame offset, relative to the end of the chunk. */
    method Advance(firstFrameInBlock: nat, ghost input: seq<seq<real>>, ghost output: seq<seq<real>>)
      requires Shaped() && |input| == settings.numIn && HasShape(input, settings.numIn, time + settings.chunk)
      requires Divides(Gcd(settings.chunk, settings.shift), time + settings.chunk)
      requires settings.chunk <= firstFrameInBlock <= settings.chunk + initialDelay
      requires Start(settings, blocks) == time + firstFrameInBlock
      requires blocks > 0 ==> Start(settings, blocks - 1) < time + settings.chunk
      requires InputHolds(input, settings.chunk + initialDelay - firstFrameInBlock)
      requires OutputHolds(input, blocks, time + settings.chunk)
      requires |output| == settings.numOut && HasShape(output, settings.numOut, time + settings.chunk)
      requires forall c: nat, t: nat | c < settings.numOut && t < time + settings.chunk ::
                 output[c][t] == Output(settings, input, c, t)
      modifies this`frameOffset, this`time, this`fed, this`emitted
      ensures Valid() && time == old(time) + settings.chunk && fed == input && emitted == output
      ensures frameOffset + settings.chunk == firstFrameInBlock
    {
      hide InputHolds, OutputHolds, Output, Gcd, Divides, Start;
      frameOffset := firstFrameInBlock - settings.chunk;
      time, fed, emitted := time + settings.chunk, input, output;
    }

    /** ProcessChunk, for a chunk of the sizes that its RTC_CHECKs demand. */
    method ProcessChunk(input: seq<seq<real>>) returns (output: seq<seq<real>>)
      requires Valid() && HasShape(input, settings.numIn, settings.chunk)
      modifies Repr()
      ensures Valid() && time == old(time) + settings.chunk
      ensures fed == Appended(old(fed), input)
      ensures |output| == settings.numOut && HasShape(output, settings.numOut, settings.chunk)
      ensures emitted == Appended(old(emitted), output)
    {
      hide InputHolds, OutputHolds, Output, Gcd, Divides, HasShape, Start;
      var p := settings;
      AppendedShape(fed, input, p.numIn, time, p.chunk);
      ghost var T, all := time, Appended(fed, input);
      InputGrows(input);
      NextChunkAligned(p, T);
      WriteChunk(input, fed, initialDelay - frameOffset);
      var firstFrameInBlock := ProcessBlocks(all, T);
      if blocks > 0 {
        BlockFits(p, T + p.chunk, blocks - 1);
      }
      output := EmitChunk(all, T, p.chunk + initialDelay - firstFrameInBlock);
      EmittedGrows(p, all, T, emitted, output);
      Advance(firstFrameInBlock, all, Appended(emitted, output));
    }

    lemma WhatWasEmitted()
      requires Valid()
      ensures |fed| == settings.numIn && HasShape(emitted, settings.numOut, time)
      ensures forall c: nat, t: nat | c < settings.numOut && t < time :: emitted[c][t] == Output(settings, fed, c, t)
    {
    }

    /** After m chunks the frame offset and the number of frames to read are what the counting of OverlapAdd says. */
    lemma CountersAgree(m: nat)
      requires Valid() && time == ChunkEnd(settings, m)
      ensures inputBuffer.Valid()
      ensures CountChunks(settings, initialDelay, m) == Counters(frameOffset, inputBuffer.ReadFramesAvailable())
    {
      hide OutputHolds, Output, CountChunks, ChunkEnd, Start, Divides, HasShape, AudioRingBuffer.Valid;
      hide AudioRingBuffer.ReadFramesAvailable, AudioRingBuffer.Histories, AudioRingBuffer.Repr;
      CountersOf(settings, initialDelay, m, blocks, frameOffset);
    }

    /**
     * With a callback that passes channels on and a power-complementary window, all that was emitted is what was fed,
     * delayed.
     */
    lemma EmittedIsDelayed(pick: nat -> nat, c: nat)
      requires Valid() && Reconstructs(settings, pick) && c < settings.numOut
      ensures |emitted[c]| == time && |fed[pick(c)]| == time
      ensures emitted[c] == (Zeros(Delay(settings)) + fed[pick(c)])[..time]
    {
      hide Output, PartialOutput, InputHolds, OutputHolds;
      forall t: nat | t < time ensures emitted[c][t] == (Zeros(Delay(settings)) + fed[pick(c)])[t] {
        Reconstruction(settings, pick, fed, c, t);
      }
    }
  }

  ghost predicate AllShaped(chunks: seq<seq<seq<real>>>, channels: nat, frames: nat) {
    forall i | 0 <= i < |chunks| :: |chunks[i]| == channels && HasShape(chunks[i], channels, frames)
  }

  /** The chunks of a whole run, put together channel by channel. */
  ghost function Stream(channels: nat, frames: nat, chunks: seq<seq<seq<real>>>): (h: seq<seq<real>>)
    requires AllShaped(chunks, channels, frames)
    ensures |h| == channels
  {
    if |chunks| == 0 then Silent(channels)
    else Appended(Stream(channels, frames, chunks[..|chunks| - 1]), chunks[|chunks| - 1])
  }

  lemma StreamStep(channels: nat, frames: nat, chunks: seq<seq<seq<real>>>, chunk: seq<seq<real>>)
    requires AllShaped(chunks, channels, frames) && |chunk| == channels && HasShape(chunk, channels, frames)
    ensures AllShaped(chunks + [chunk], channels, frames)
    ensures Stream(channels, frames, chunks + [chunk]) == Appended(Stream(channels, frames, chunks), chunk)
  {
    assert (chunks + [chunk])[..|chunks|] == chunks;
  }

  lemma OneMoreChunk(i: nat, chunk: nat)
    ensures (i + 1) * chunk == i * chunk + chunk
  {
  }

  /** Any run of a Blocker: the concatenated output is the overlap-add of the concatenated input. */
  method Run(p: Settings, chunks: seq<seq<seq<real>>>) returns (outputs: seq<seq<seq<real>>>)
    requires ValidSettings(p) && AllShaped(chunks, p.numIn, p.chunk)
    ensures |outputs| == |chunks| && AllShaped(outputs, p.numOut, p.chunk)
    ensures var emitted := Stream(p.numOut, p.chunk, outputs);
            && HasShape(emitted, p.numOut, |chunks| * p.chunk)
            && forall c: nat, t: nat | c < p.numOut && t < |chunks| * p.chunk ::
                 emitted[c][t] == Output(p, Stream(p.numIn, p.chunk, chunks), c, t)
  {
    hide Output, Blocker.Valid, AudioRingBuffer.Repr, Appended, Stream, ValidSettings, HasShape;
    var b := new Blocker(p);
    outputs := [];
    StreamOfNothing(p.numIn, p.chunk);
    StreamOfNothing(p.numOut, p.chunk);
    ghost var seen: seq<seq<seq<real>>> := [];
    for i := 0 to |chunks|
      invariant b.Valid() && b.settings == p && fresh(b.Repr())
      invariant seen == chunks[..i] && AllShaped(seen, p.numIn, p.chunk)
      invariant |outputs| == i && AllShaped(outputs, p.numOut, p.chunk)
      invariant b.fed == Stream(p.numIn, p.chunk, seen) && b.emitted == Stream(p.numOut, p.chunk, outputs)
      invariant b.time == i * p.chunk
    {
      var output := b.ProcessChunk(chunks[i]);
      OneMoreChunk(i, p.chunk);
      StreamStep(p.numIn, p.chunk, seen, chunks[i]);
      StreamStep(p.numOut, p.chunk, outputs, output);
      outputs, seen := outputs + [output], seen + [chunks[i]];
    }
    assert seen == chunks;
    b.WhatWasEmitted();
  }

  lemma StreamOfNothing(channels: nat, frames: nat)
    ensures AllShaped([], channels, frames) && Stream(channels, frames, []) == Silent(channels)
  {
  }

  /** A finished chunk continues the output so far. */
  lemma EmittedGrows(p: Settings, input: seq<seq<real>>, T: nat, emitted: seq<seq<real>>, output: seq<seq<real>>)
    requires ValidSettings(p) && |input| == p.numIn
    requires HasShape(emitted, p.numOut, T) && HasShape(output, p.numOut, p.chunk)
    requires forall c: nat, t: nat | c < p.numOut && t < T :: emitted[c][t] == Output(p, input, c, t)
    requires forall c: nat, i: nat | c < p.numOut && i < p.chunk :: output[c][i] == Output(p, input, c, T + i)
    ensures |emitted| == |output| == p.numOut && HasShape(Appended(emitted, output), p.numOut, T + p.chunk)
    ensures forall c: nat, t: nat | c < p.numOut && t < T + p.chunk ::
              Appended(emitted, output)[c][t] == Output(p, input, c, t)
  {
    hide Output;
    forall c: nat, t: nat | c < p.numOut && t < T + p.chunk
      ensures Appended(emitted, output)[c][t] == Output(p, input, c, t)
    {
      if t >= T {
        assert output[c][t - T] == Output(p, input, c, T + (t - T));
      }
    }
  }

  lemma AppendedShape(h: seq<seq<real>>, more: seq<seq<real>>, channels: nat, n: nat, m: nat)
    requires HasShape(h, channels, n) && HasShape(more, channels, m)
    ensures |h| == |more| == channels && HasShape(Appended(h, more), channels, n + m)
  {
  }

  lemma PaddedAppended(capacity: nat, fed: seq<seq<real>>, more: seq<seq<real>>)
    requires |fed| == |more|
    ensures Appended(Padded(capacity, fed), more) == Padded(capacity, Appended(fed, more))
  {
    forall c: nat | c < |fed|
      ensures Appended(Padded(capacity, fed), more)[c] == Padded(capacity, Appended(fed, more))[c]
    {
      assert (Zeros(capacity) + fed[c]) + more[c] == Zeros(capacity) + (fed[c] + more[c]);
    }
  }
}
