/** audio_ring_buffer.cc: one ring buffer a channel, all in lockstep. */
module AudioRingBuffers {
  import opened RingBuffers
  import opened Samples

  /** Each channel of h with what is new to it. */
  ghost function Appended(h: seq<seq<real>>, src: seq<seq<real>>): (r: seq<seq<real>>)
    requires |h| == |src|
    ensures |r| == |h| && forall c: nat | c < |h| :: r[c] == h[c] + src[c]
  {
    seq(|h|, c requires 0 <= c < |h| => h[c] + src[c])
  }

  /** A new channel. */
  ghost predicate NewChannel(b: RingBuffer, cells: nat)
    reads b, b.data
  {
    b.Valid() && b.data.Length == cells && b.history == Zeros(cells) && b.AvailableRead() == 0
  }

  ghost predicate SameLength(h: seq<seq<real>>) {
    forall i | 0 <= i < |h| :: |h[i]| == |h[0]|
  }

  /** The frames that come next when all but the last `readable` ones have been read. */
  ghost function NextFrames(history: seq<real>, readable: nat, frames: nat): (next: seq<real>)
    requires frames <= readable <= |history|
    ensures |next| == frames
  {
    history[|history| - readable..|history| - readable + frames]
  }

  class AudioRingBuffer {
    const buffers: seq<RingBuffer>

    ghost function Repr(): (r: set<object>)
      ensures forall i | 0 <= i < |buffers| :: buffers[i] in r && buffers[i].data in r
    {
      assert forall i | 0 <= i < |buffers| :: buffers[i] in buffers;
      (set b | b in buffers :: b as object) + (set b | b in buffers :: b.data as object)
    }

    ghost predicate Separate() {
      && |buffers| > 0
      && forall i, j | 0 <= i < j < |buffers| :: buffers[i] != buffers[j] && buffers[i].data != buffers[j].data
    }

    /** Every channel has as many cells, has been written as much and has as much left to read as the first. */
    ghost predicate Valid()
      reads Repr()
    {
      && Separate()
      && (forall i | 0 <= i < |buffers| :: buffers[i].Valid())
      && buffers[0].Valid()
      && forall i | 0 <= i < |buffers| ::
           && buffers[i].data.Length == buffers[0].data.Length
           && |buffers[i].history| == |buffers[0].history|
           && buffers[i].AvailableRead() == buffers[0].AvailableRead()
    }

    /** What was written to the channels, after the zeros they start with. */
    ghost function Histories(): (h: seq<seq<real>>)
      requires Valid()
      reads Repr()
      ensures |h| == |buffers| && forall c: nat | c < |h| :: h[c] == buffers[c].history
      ensures forall c: nat | c < |h| :: ReadFramesAvailable() <= |h[c]| && WriteFramesAvailable() <= |h[c]|
    {
      seq(|buffers|, c requires 0 <= c < |buffers| reads Repr() => buffers[c].history)
    }

    /** The number of frames each channel has room for. */
    function Capacity(): nat
      requires |buffers| > 0
    {
      buffers[0].data.Length
    }

    constructor (channels: nat, maxFrames: nat)
      requires channels > 0 && maxFrames > 0
      ensures Valid() && fresh(Repr()) && |buffers| == channels && Capacity() == maxFrames
      ensures forall i: nat | i < channels :: Histories()[i] == Zeros(maxFrames)
      ensures ReadFramesAvailable() == 0
    {
      hide RingBuffer.Valid, RingBuffer.AvailableRead, Zeros;
      var bs: seq<RingBuffer> := [];
      var i := 0;
      while i < channels
        invariant i <= channels && |bs| == i
        invariant forall k | 0 <= k < i :: fresh(bs[k]) && fresh(bs[k].data) && NewChannel(bs[k], maxFrames)
        invariant forall j, k | 0 <= j < k < i :: bs[j] != bs[k] && bs[j].data != bs[k].data
      {
        var b := CreateBuffer(maxFrames);
        bs := bs + [b];
        i := i + 1;
      }
      buffers := bs;
    }

    function ReadFramesAvailable(): nat
      requires Valid()
      reads Repr()
    {
      buffers[0].AvailableRead()
    }

    function WriteFramesAvailable(): (room: int)
      requires Valid()
      reads Repr()
      ensures room >= 0 && room + ReadFramesAvailable() == Capacity()
    {
      buffers[0].AvailableWrite()
    }

    /** What the channels hold, and how much of it is still to be read. */
    ghost predicate Holds(histories: seq<seq<real>>, readable: int)
      reads Repr()
    {
      Valid() && Histories() == histories && ReadFramesAvailable() == readable
    }

    // ---------- channel by channel ----------

    ghost predicate ChannelHolds(i: nat, cells: nat, history: seq<real>, readable: nat)
      requires i < |buffers|
      reads buffers[i], buffers[i].data
    {
      && buffers[i].Valid() && buffers[i].data.Length == cells
      && buffers[i].history == history && buffers[i].AvailableRead() == readable
    }

    /** What each channel holds, and how much of it is still to be read, while they are not in lockstep. */
    ghost predicate Channels(histories: seq<seq<real>>, readable: seq<nat>)
      reads Repr()
    {
      && Separate() && |histories| == |readable| == |buffers|
      && forall i: nat | i < |buffers| :: ChannelHolds(i, Capacity(), histories[i], readable[i])
    }

    /** As many of one number as there are channels. */
    ghost function Everywhere(readable: nat): (r: seq<nat>)
      ensures |r| == |buffers| && forall i | 0 <= i < |r| :: r[i] == readable
    {
      seq(|buffers|, _ => readable)
    }

    lemma InLockstep()
      requires Valid()
      ensures SameLength(Histories()) && Channels(Histories(), Everywhere(ReadFramesAvailable()))
    {
      hide RingBuffer.Valid, RingBuffer.AvailableRead, Repr;
    }

    lemma InLockstepAgain(histories: seq<seq<real>>, readable: seq<nat>, r: nat)
      requires Channels(histories, readable) && readable == Everywhere(r) && SameLength(histories)
      ensures Valid() && Histories() == histories && ReadFramesAvailable() == r
    {
      hide RingBuffer.Valid, RingBuffer.AvailableRead, Repr;
      assert ChannelHolds(0, Capacity(), histories[0], readable[0]);
      forall i | 0 <= i < |buffers|
        ensures buffers[i].Valid() && buffers[i].data.Length == buffers[0].data.Length
        ensures buffers[i].history == histories[i] && |histories[i]| == |histories[0]|
        ensures buffers[i].AvailableRead() == buffers[0].AvailableRead() == r
      {
        assert ChannelHolds(i, Capacity(), histories[i], readable[i]);
      }
    }

    /** One channel of Write. */
    method WriteChannel(i: nat, src: seq<real>, ghost histories: seq<seq<real>>, ghost readable: seq<nat>)
      requires i < |buffers| && Channels(histories, readable) && |src| <= Capacity() - readable[i]
      modifies buffers[i], buffers[i].data
      ensures Channels(histories[i := histories[i] + src], readable[i := readable[i] + |src|])
    {
      hide RingBuffer.Valid, RingBuffer.AvailableRead, Repr;
      assert ChannelHolds(i, Capacity(), histories[i], readable[i]);
      var written := buffers[i].WriteBuffer(src);
      assert written == |src| && src[..written] == src;
      assert ChannelHolds(i, Capacity(), histories[i] + src, readable[i] + |src|);
    }

    /** The RTC_CHECK that everything was written holds if there is room in one channel. */
    method Write(src: seq<seq<real>>, frames: nat)
      requires Valid() && |src| == |buffers| && forall i | 0 <= i < |src| :: |src[i]| == frames
      requires frames <= WriteFramesAvailable()
      modifies Repr()
      ensures Valid()
      ensures Histories() == Appended(old(Histories()), src)
      ensures ReadFramesAvailable() == old(ReadFramesAvailable()) + frames
    {
      hide Channels, Histories, ReadFramesAvailable, Valid, Repr, Everywhere, SameLength;
      InLockstep();
      ghost var before, r := Histories(), ReadFramesAvailable();
      ghost var h: seq<seq<real>>, readable: seq<nat> := before, Everywhere(r);
      var i := 0;
      while i < |buffers|
        invariant 0 <= i <= |buffers| == |h| == |readable| && Channels(h, readable)
        invariant forall k: nat | k < |buffers| :: h[k] == if k < i then before[k] + src[k] else before[k]
        invariant forall k: nat | k < |buffers| :: readable[k] == if k < i then r + frames else r
      {
        WriteChannel(i, src[i], h, readable);
        h, readable := h[i := h[i] + src[i]], readable[i := readable[i] + frames];
        i := i + 1;
      }
      assert h == Appended(before, src);
      assert readable == Everywhere(r + frames);
      StillSameLength(before, src, frames);
      InLockstepAgain(h, readable, r + frames);
    }

    /** One channel of Read. */
    method ReadChannel(i: nat, frames: nat, ghost histories: seq<seq<real>>, ghost readable: seq<nat>)
      returns (read: seq<real>)
      requires i < |buffers| && Channels(histories, readable) && frames <= readable[i]
      modifies buffers[i], buffers[i].data
      ensures readable[i] <= |histories[i]| && read == NextFrames(histories[i], readable[i], frames)
      ensures Channels(histories, readable[i := readable[i] - frames])
    {
      hide RingBuffer.Valid, RingBuffer.AvailableRead, Repr;
      assert ChannelHolds(i, Capacity(), histories[i], readable[i]);
      read := buffers[i].ReadBuffer(frames);
      assert ChannelHolds(i, Capacity(), histories[i], readable[i] - frames);
    }

    /** The RTC_CHECK that everything was read holds if it is there in one channel. */
    method Read(frames: nat) returns (dst: seq<seq<real>>)
      requires Valid() && frames <= ReadFramesAvailable()
      modifies Repr()
      ensures Valid()
      ensures Histories() == old(Histories())
      ensures |dst| == |buffers|
      ensures forall i: nat | i < |buffers| ::
                dst[i] == NextFrames(old(Histories()[i]), old(ReadFramesAvailable()), frames)
      ensures ReadFramesAvailable() == old(ReadFramesAvailable()) - frames
    {
      hide Channels, Histories, ReadFramesAvailable, Valid, Repr, Everywhere, SameLength, NextFrames;
      InLockstep();
      ghost var h, r := Histories(), ReadFramesAvailable();
      ghost var readable: seq<nat> := Everywhere(r);
      dst := [];
      var i := 0;
      while i < |buffers|
        invariant 0 <= i <= |buffers| == |h| == |readable| && Channels(h, readable) && |dst| == i
        invariant forall k: nat | k < i :: r <= |h[k]| && dst[k] == NextFrames(h[k], r, frames)
        invariant forall k: nat | k < |buffers| :: readable[k] == if k < i then r - frames else r
      {
        var read := ReadChannel(i, frames, h, readable);
        dst, readable := dst + [read], readable[i := r - frames];
        i := i + 1;
      }
      assert readable == Everywhere(r - frames);
      InLockstepAgain(h, readable, r - frames);
    }

    /** One channel of a move of the read position. */
    method MoveChannel(i: nat, frames: int, ghost histories: seq<seq<real>>, ghost readable: seq<nat>)
      requires i < |buffers| && Channels(histories, readable) && readable[i] - Capacity() <= frames <= readable[i]
      modifies buffers[i], buffers[i].data
      ensures Channels(histories, readable[i := readable[i] - frames])
    {
      hide RingBuffer.Valid, RingBuffer.AvailableRead, Repr;
      assert ChannelHolds(i, Capacity(), histories[i], readable[i]);
      var moved := buffers[i].MoveReadPtr(frames);
      assert moved == frames;
      assert ChannelHolds(i, Capacity(), histories[i], readable[i] - frames);
    }

    /** Both directions of moving the read position. */
    method MoveReadPosition(frames: int)
      requires Valid() && -WriteFramesAvailable() <= frames <= ReadFramesAvailable()
      modifies Repr()
      ensures Valid()
      ensures Histories() == old(Histories())
      ensures ReadFramesAvailable() == old(ReadFramesAvailable()) - frames
    {
      hide Channels, Histories, ReadFramesAvailable, Valid, Repr, Everywhere, SameLength;
      InLockstep();
      ghost var h, r := Histories(), ReadFramesAvailable();
      ghost var readable: seq<nat> := Everywhere(r);
      var i := 0;
      while i < |buffers|
        invariant 0 <= i <= |buffers| == |h| == |readable| && Channels(h, readable)
        invariant forall k: nat | k < |buffers| :: readable[k] == if k < i then r - frames else r
      {
        MoveChannel(i, frames, h, readable);
        readable := readable[i := r - frames];
        i := i + 1;
      }
      assert readable == Everywhere(r - frames);
      InLockstepAgain(h, readable, r - frames);
    }

    /** The RTC_CHECK holds if there is that much to skip. */
    method MoveReadPositionForward(frames: nat)
      requires Valid() && frames <= ReadFramesAvailable()
      modifies Repr()
      ensures Valid()
      ensures Histories() == old(Histories())
      ensures ReadFramesAvailable() == old(ReadFramesAvailable()) - frames
    {
      MoveReadPosition(frames);
    }

    /** The RTC_CHECK holds if that much has been read and not been overwritten. */
    method MoveReadPositionBackward(frames: nat)
      requires Valid() && frames <= WriteFramesAvailable()
      modifies Repr()
      ensures Valid()
      ensures Histories() == old(Histories())
      ensures ReadFramesAvailable() == old(ReadFramesAvailable()) + frames
    {
      var forward: int := frames;
      MoveReadPosition(-forward);
    }
  }

  lemma StillSameLength(h: seq<seq<real>>, src: seq<seq<real>>, frames: nat)
    requires |h| == |src| && SameLength(h) && forall i | 0 <= i < |src| :: |src[i]| == frames
    ensures SameLength(Appended(h, src))
  {
  }
}
