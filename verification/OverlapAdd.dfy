/**
 * What blocker.cc computes, without chunks: windowed blocks at multiples of the shift amount are processed, windowed
 * again and added up.
 */
module OverlapAdd {
  import opened GreatestCommonDivisor
  import opened Samples

  /**
   * The parameters of a Blocker. The callback is a function of the number of the block and of its windowed input, so
   * that it may depend on how often it has been called.
   */
  datatype Settings = Settings(
    chunk: nat, block: nat, shift: nat, numIn: nat, numOut: nat, window: seq<real>,
    process: (nat, seq<seq<real>>) -> seq<seq<real>>)

  /** The rows and columns of a buffer of channels. */
  ghost predicate HasShape(rows: seq<seq<real>>, channels: nat, frames: nat) {
    |rows| == channels && forall i | 0 <= i < channels :: |rows[i]| == frames
  }

  /** What the constructor checks, and that sizes are positive and the callback fills its output block. */
  ghost predicate ValidSettings(p: Settings) {
    && p.chunk > 0 && 0 < p.shift <= p.block && 0 < p.numOut <= p.numIn && |p.window| == p.block
    && forall k: nat, rows: seq<seq<real>> {:trigger p.process(k, rows)} ::
         HasShape(rows, p.numIn, p.block) ==> HasShape(p.process(k, rows), p.numOut, p.block)
  }

  ghost function Delay(p: Settings): (d: nat)
    requires ValidSettings(p)
    ensures d + Gcd(p.chunk, p.shift) == p.block
  {
    GcdAtMost(p.chunk, p.shift);
    p.block - Gcd(p.chunk, p.shift)
  }

  lemma GcdAtMost(a: nat, b: nat)
    requires b > 0
    ensures 0 < Gcd(a, b) <= b
  {
    GcdDivides(a, b);
    DividesAtLeast(Gcd(a, b), b);
  }

  /** The frame at which block k starts: k times the shift amount. */
  ghost function Start(p: Settings, k: nat): nat {
    if k == 0 then 0 else Start(p, k - 1) + p.shift
  }

  lemma {:induction false} StartIsProduct(p: Settings, k: nat)
    ensures Start(p, k) == k * p.shift
  {
    if k > 0 {
      StartIsProduct(p, k - 1);
    }
  }

  lemma {:induction false} StartMonotone(p: Settings, j: nat, k: nat)
    requires j <= k
    ensures Start(p, j) <= Start(p, k)
    ensures j < k ==> Start(p, j) + p.shift <= Start(p, k)
  {
    if j < k {
      StartMonotone(p, j, k - 1);
    }
  }

  lemma {:induction false} StartAtLeast(p: Settings, k: nat)
    requires p.shift > 0
    ensures Start(p, k) >= k
  {
    if k > 0 {
      StartAtLeast(p, k - 1);
    }
  }

  lemma {:induction false} StartMultiple(p: Settings, g: int, k: nat)
    requires Divides(g, p.shift)
    ensures Divides(g, Start(p, k))
  {
    if k == 0 {
      DividesSelf(g);
    } else {
      StartMultiple(p, g, k - 1);
      DividesSum(g, Start(p, k - 1), p.shift);
    }
  }

  /** Sample i of a channel after `delay` zeros have been put in front of it. */
  ghost function Sample(channel: seq<real>, delay: nat, i: nat): real {
    if delay <= i < delay + |channel| then channel[i - delay] else 0.0
  }

  ghost function BlockRow(p: Settings, channel: seq<real>, k: nat): (row: seq<real>)
    requires ValidSettings(p)
    ensures |row| == p.block
    ensures forall i: nat | i < p.block :: row[i] == Sample(channel, Delay(p), Start(p, k) + i) * p.window[i]
  {
    seq(p.block, i requires 0 <= i < p.block => Sample(channel, Delay(p), Start(p, k) + i) * p.window[i])
  }

  /** The windowed input of block k. */
  ghost function BlockInput(p: Settings, fed: seq<seq<real>>, k: nat): (rows: seq<seq<real>>)
    requires ValidSettings(p) && |fed| == p.numIn
    ensures |rows| == p.numIn && forall c: nat | c < p.numIn :: rows[c] == BlockRow(p, fed[c], k)
    ensures HasShape(rows, p.numIn, p.block)
  {
    seq(p.numIn, c requires 0 <= c < p.numIn => BlockRow(p, fed[c], k))
  }

  /** What block k adds to frame t of output channel c. */
  ghost function Contribution(p: Settings, fed: seq<seq<real>>, k: nat, c: nat, t: nat): real
    requires ValidSettings(p) && |fed| == p.numIn && c < p.numOut
  {
    var s := Start(p, k);
    if s <= t < s + p.block then p.process(k, BlockInput(p, fed, k))[c][t - s] * p.window[t - s] else 0.0
  }

  /** The contributions of the first m blocks. */
  ghost function PartialOutput(p: Settings, fed: seq<seq<real>>, m: nat, c: nat, t: nat): real
    requires ValidSettings(p) && |fed| == p.numIn && c < p.numOut
  {
    if m == 0 then 0.0 else PartialOutput(p, fed, m - 1, c, t) + Contribution(p, fed, m - 1, c, t)
  }

  /** The contributions of all blocks; those with numbers above t start after frame t. */
  ghost function Output(p: Settings, fed: seq<seq<real>>, c: nat, t: nat): real
    requires ValidSettings(p) && |fed| == p.numIn && c < p.numOut
  {
    PartialOutput(p, fed, t + 1, c, t)
  }

  /** Blocks that start after frame t make no difference to it. */
  lemma {:induction false} LaterBlocks(p: Settings, fed: seq<seq<real>>, j: nat, k: nat, c: nat, t: nat)
    requires ValidSettings(p) && |fed| == p.numIn && c < p.numOut
    requires j <= k && Start(p, j) > t
    ensures PartialOutput(p, fed, k, c, t) == PartialOutput(p, fed, j, c, t)
  {
    if j < k {
      LaterBlocks(p, fed, j, k - 1, c, t);
      StartMonotone(p, j, k - 1);
    }
  }

  lemma OutputComplete(p: Settings, fed: seq<seq<real>>, k: nat, c: nat, t: nat)
    requires ValidSettings(p) && |fed| == p.numIn && c < p.numOut && Start(p, k) > t
    ensures PartialOutput(p, fed, k, c, t) == Output(p, fed, c, t)
  {
    StartAtLeast(p, t + 1);
    if k <= t + 1 {
      LaterBlocks(p, fed, k, t + 1, c, t);
    } else {
      LaterBlocks(p, fed, t + 1, k, c, t);
    }
  }

  /** Blocks that end by frame t make no difference to it either. */
  lemma {:induction false} EarlierBlocks(p: Settings, fed: seq<seq<real>>, m: nat, c: nat, t: nat)
    requires ValidSettings(p) && |fed| == p.numIn && c < p.numOut
    requires m > 0 ==> Start(p, m - 1) + p.block <= t
    ensures PartialOutput(p, fed, m, c, t) == 0.0
  {
    if m > 1 {
      StartMonotone(p, m - 2, m - 1);
    }
    if m > 0 {
      EarlierBlocks(p, fed, m - 1, c, t);
    }
  }

  ghost predicate Extends(fed: seq<seq<real>>, fed': seq<seq<real>>) {
    |fed| == |fed'| && forall c: nat | c < |fed| :: fed[c] <= fed'[c]
  }

  /** The input of a block that is completely there does not change when more is fed. */
  lemma BlockStable(p: Settings, fed: seq<seq<real>>, fed': seq<seq<real>>, k: nat, T: nat)
    requires ValidSettings(p) && |fed| == p.numIn && Extends(fed, fed')
    requires forall c: nat | c < |fed| :: |fed[c]| == T
    requires Start(p, k) + p.block <= Delay(p) + T
    ensures BlockInput(p, fed', k) == BlockInput(p, fed, k)
  {
    var rows, rows' := BlockInput(p, fed, k), BlockInput(p, fed', k);
    forall c: nat | c < p.numIn ensures rows'[c] == rows[c] {
      RowStable(p, fed[c], fed'[c], k);
    }
  }

  lemma RowStable(p: Settings, channel: seq<real>, channel': seq<real>, k: nat)
    requires ValidSettings(p) && channel <= channel' && Start(p, k) + p.block <= Delay(p) + |channel|
    ensures BlockRow(p, channel', k) == BlockRow(p, channel, k)
  {
    var D, row, row' := Delay(p), BlockRow(p, channel, k), BlockRow(p, channel', k);
    forall i: nat | i < p.block ensures row'[i] == row[i] {
      assert Sample(channel', D, Start(p, k) + i) == Sample(channel, D, Start(p, k) + i);
    }
  }

  lemma {:induction false} OutputStable(p: Settings, fed: seq<seq<real>>, fed': seq<seq<real>>, T: nat, m: nat,
                                        c: nat, t: nat)
    requires ValidSettings(p) && |fed| == p.numIn && Extends(fed, fed') && c < p.numOut
    requires forall i: nat | i < |fed| :: |fed[i]| == T
    requires m > 0 ==> Start(p, m - 1) + p.block <= Delay(p) + T
    ensures PartialOutput(p, fed', m, c, t) == PartialOutput(p, fed, m, c, t)
  {
    if m > 1 {
      StartMonotone(p, m - 2, m - 1);
    }
    if m > 0 {
      OutputStable(p, fed, fed', T, m - 1, c, t);
      BlockStable(p, fed, fed', m - 1, T);
    }
  }

  // ---------- how much delay is needed ----------

  /**
   * The counters of a Blocker between chunks, for any delay it might have been given: frame_offset_ and the number of
   * frames that can be read. A Blocker is starved once its loop is to read a block and finds fewer frames than that.
   */
  datatype Counters = Counters(offset: nat, readable: nat) | Starved

  /** The loop over the blocks, from the first frame of a block on. */
  function CountBlocks(p: Settings, first: nat, readable: nat): Counters
    requires 0 < p.shift <= p.block
    decreases p.chunk - first
  {
    if first >= p.chunk then Counters(first - p.chunk, readable)
    else if readable < p.block then Starved
    else CountBlocks(p, first + p.shift, readable - p.shift)
  }

  /** The counters after m chunks. */
  function CountChunks(p: Settings, delay: nat, m: nat): Counters
    requires 0 < p.shift <= p.block
  {
    if m == 0 then Counters(0, delay)
    else
      match CountChunks(p, delay, m - 1)
      case Counters(offset, readable) => CountBlocks(p, offset, readable + p.chunk)
      case Starved => Starved
  }

  /** The end of the m-th chunk. */
  ghost function ChunkEnd(p: Settings, m: nat): nat {
    if m == 0 then 0 else ChunkEnd(p, m - 1) + p.chunk
  }

  lemma {:induction false} ChunkEndIsProduct(p: Settings, m: nat)
    ensures ChunkEnd(p, m) == m * p.chunk
  {
    if m > 0 {
      ChunkEndIsProduct(p, m - 1);
    }
  }

  lemma {:induction false} ChunkEndMultiple(p: Settings, g: int, m: nat)
    requires Divides(g, p.chunk)
    ensures Divides(g, ChunkEnd(p, m))
  {
    if m == 0 {
      DividesSelf(g);
    } else {
      ChunkEndMultiple(p, g, m - 1);
      DividesSum(g, ChunkEnd(p, m - 1), p.chunk);
    }
  }

  /** Block k is complete when the chunk has arrived in which it starts. */
  ghost predicate InTime(p: Settings, delay: nat, m: nat, k: nat) {
    Start(p, k) < ChunkEnd(p, m) ==> Start(p, k) + p.block <= ChunkEnd(p, m) + delay
  }

  ghost predicate AllInTime(p: Settings, delay: nat, m: nat, first: nat) {
    forall k: nat | first <= k :: InTime(p, delay, m, k)
  }

  /** Block k is the first that starts after m chunks, and these are the counters if the Blocker has not starved. */
  ghost predicate CountersAt(p: Settings, delay: nat, m: nat, k: nat, s: Counters) {
    && s.Counters? && Start(p, k) == ChunkEnd(p, m) + s.offset && s.readable + s.offset == delay
    && (k > 0 ==> Start(p, k - 1) < ChunkEnd(p, m))
  }

  /** Once a block starts after a chunk, this and the later ones are in time for it. */
  lemma LaterInTime(p: Settings, delay: nat, m: nat, k: nat)
    requires Start(p, k) >= ChunkEnd(p, m)
    ensures AllInTime(p, delay, m, k)
  {
    forall i: nat | k <= i ensures InTime(p, delay, m, i) {
      StartMonotone(p, k, i);
    }
  }

  lemma InTimeStep(p: Settings, delay: nat, m: nat, k: nat)
    ensures AllInTime(p, delay, m, k) <==> InTime(p, delay, m, k) && AllInTime(p, delay, m, k + 1)
  {
    hide InTime;
  }

  /** The loop in a chunk gets through if and only if all blocks that start in that chunk are in time. */
  lemma {:induction false} BlocksCounted(p: Settings, delay: nat, m: nat, k: nat, first: nat, readable: nat) returns (k': nat)
    requires 0 < p.shift <= p.block && m > 0
    requires Start(p, k) + p.chunk == ChunkEnd(p, m) + first && readable + first == delay + p.chunk
    requires k > 0 ==> Start(p, k - 1) < ChunkEnd(p, m)
    ensures CountBlocks(p, first, readable) != Starved ==> CountersAt(p, delay, m, k', CountBlocks(p, first, readable))
    ensures CountBlocks(p, first, readable) != Starved <==> AllInTime(p, delay, m, k)
    decreases p.chunk - first
  {
    hide AllInTime, ChunkEnd;
    k' := k;
    InTimeStep(p, delay, m, k);
    if first >= p.chunk {
      LaterInTime(p, delay, m, k);
    } else if readable >= p.block {
      k' := BlocksCounted(p, delay, m, k + 1, first + p.shift, readable - p.shift);
    }
  }

  /** The counters say where the first block after m chunks starts. */
  lemma {:induction false} ChunksCounted(p: Settings, delay: nat, m: nat) returns (k: nat)
    requires 0 < p.shift <= p.block
    ensures CountChunks(p, delay, m) != Starved ==> CountersAt(p, delay, m, k, CountChunks(p, delay, m))
  {
    hide CountBlocks;
    k := 0;
    if m > 0 {
      var j := ChunksCounted(p, delay, m - 1);
      match CountChunks(p, delay, m - 1)
      case Starved =>
      case Counters(offset, readable) => k := BlocksCounted(p, delay, m, j, offset, readable + p.chunk);
    }
  }

  /** A Blocker that gets to chunk m gets through it if and only if the blocks that start in it are in time. */
  lemma ChunkCounted(p: Settings, delay: nat, m: nat) returns (j: nat)
    requires 0 < p.shift <= p.block && m > 0 && CountChunks(p, delay, m - 1) != Starved
    ensures forall i: nat :: j <= i <==> ChunkEnd(p, m - 1) <= Start(p, i)
    ensures CountChunks(p, delay, m) != Starved <==> AllInTime(p, delay, m, j)
  {
    hide CountBlocks, AllInTime;
    j := ChunksCounted(p, delay, m - 1);
    var s := CountChunks(p, delay, m - 1);
    var _ := BlocksCounted(p, delay, m, j, s.offset, s.readable + p.chunk);
    forall i: nat ensures j <= i <==> ChunkEnd(p, m - 1) <= Start(p, i) {
      if j <= i {
        StartMonotone(p, j, i);
      } else {
        StartMonotone(p, i, j - 1);
      }
    }
  }

  /** A block start and a chunk end are both multiples of the greatest common divisor, and so is what lies between. */
  lemma StartBeforeEnd(start: nat, end: nat, g: nat)
    requires g > 0 && Divides(g, start) && Divides(g, end) && start < end
    ensures start + g <= end
  {
    DividesSum(g, end, start);
    DividesAtLeast(g, end - start);
  }

  /** With the delay that the constructor chooses, or a longer one, no block is ever late. */
  lemma {:induction false} DelaySuffices(p: Settings, delay: nat, m: nat)
    requires ValidSettings(p) && delay >= Delay(p)
    ensures CountChunks(p, delay, m) != Starved
  {
    if m > 0 {
      DelaySuffices(p, delay, m - 1);
      var first := ChunkCounted(p, delay, m);
      var g := Gcd(p.chunk, p.shift);
      GcdDivides(p.chunk, p.shift);
      ChunkEndMultiple(p, g, m);
      forall i: nat ensures InTime(p, delay, m, i) {
        if Start(p, i) < ChunkEnd(p, m) {
          StartMultiple(p, g, i);
          StartBeforeEnd(Start(p, i), ChunkEnd(p, m), g);
        }
      }
    }
  }

  /** Where the first block after m chunks starts determines the counters. */
  lemma CountersOf(p: Settings, delay: nat, m: nat, k: nat, offset: nat)
    requires ValidSettings(p) && delay >= Delay(p) && offset <= delay
    requires Start(p, k) == ChunkEnd(p, m) + offset && (k > 0 ==> Start(p, k - 1) < ChunkEnd(p, m))
    ensures CountChunks(p, delay, m) == Counters(offset, delay - offset)
  {
    hide CountChunks, ChunkEnd, Start;
    DelaySuffices(p, delay, m);
    var j := ChunksCounted(p, delay, m);
    if j < k {
      StartMonotone(p, j, k - 1);
    } else if k < j {
      StartMonotone(p, k, j - 1);
    }
  }

  /**
   * With any shorter delay the Blocker starves, at the latest in chunk m: a block starts the greatest common divisor
   * before the end of that chunk.
   */
  lemma ShorterDelayStarves(p: Settings, delay: nat) returns (m: nat, k: nat)
    requires ValidSettings(p) && delay < Delay(p)
    ensures Start(p, k) + Gcd(p.chunk, p.shift) == ChunkEnd(p, m)
    ensures CountChunks(p, delay, m) == Starved
  {
    k, m := ShortMultiple(p.chunk, p.shift);
    StartIsProduct(p, k);
    ChunkEndIsProduct(p, m);
    var g := Gcd(p.chunk, p.shift);
    GcdDivides(p.chunk, p.shift);
    DividesAtLeast(g, p.chunk);
    if CountChunks(p, delay, m - 1) != Starved {
      var first := ChunkCounted(p, delay, m);
      assert ChunkEnd(p, m - 1) <= Start(p, k);
      assert !InTime(p, delay, m, k);
    }
  }

  /** The delay the constructor chooses is the smallest with which a Blocker never starves. */
  lemma DelayIsMinimal(p: Settings, delay: nat)
    requires ValidSettings(p)
    ensures (forall m: nat :: CountChunks(p, delay, m) != Starved) <==> delay >= Delay(p)
  {
    if delay >= Delay(p) {
      forall m: nat ensures CountChunks(p, delay, m) != Starved {
        DelaySuffices(p, delay, m);
      }
    } else {
      var _, _ := ShorterDelayStarves(p, delay);
    }
  }

  /** The sizes of one of the original's unit tests, for mono sound that passes through unchanged. */
  ghost function LongBlocks(): Settings {
    Settings(80, 128, 64, 1, 1, Zeros(128), (_, rows) => rows)
  }

  /**
   * The header promises a delay of at most a chunk. It is longer when blocks are longer than a chunk and the greatest
   * common divisor together, as here.
   */
  lemma DelayAgainstChunk(p: Settings)
    requires ValidSettings(p)
    ensures Delay(p) <= p.chunk <==> p.block <= p.chunk + Gcd(p.chunk, p.shift)
    ensures ValidSettings(LongBlocks()) && Delay(LongBlocks()) == 112 > LongBlocks().chunk
  {
    assert Gcd(80, 64) == Gcd(64, 16) == Gcd(16, 0) == 16;
  }

  // ---------- reconstruction ----------

  /** The sum of the squares of the window at i, i + shift, i + 2 shift, and so on. */
  ghost function WindowPower(p: Settings, i: nat): real
    requires p.shift > 0 && |p.window| == p.block
    decreases p.block - i
  {
    if i >= p.block then 0.0 else p.window[i] * p.window[i] + WindowPower(p, i + p.shift)
  }

  /** Every output channel is an input channel passed on unchanged, and the squares of the window add up to one. */
  ghost predicate Reconstructs(p: Settings, pick: nat -> nat) {
    && ValidSettings(p) && (forall c: nat | c < p.numOut :: pick(c) < p.numIn)
    && (forall k: nat, rows: seq<seq<real>> {:trigger p.process(k, rows)} ::
          HasShape(rows, p.numIn, p.block) ==>
            forall c: nat | c < p.numOut :: p.process(k, rows)[c] == rows[pick(c)])
    && forall r: nat | r < p.shift :: WindowPower(p, r) == 1.0
  }

  lemma FindBlock(p: Settings, t: nat) returns (k: nat)
    requires p.shift > 0
    ensures Start(p, k) <= t < Start(p, k) + p.shift
  {
    if t < p.shift {
      k := 0;
    } else {
      var j := FindBlock(p, t - p.shift);
      k := j + 1;
    }
  }

  lemma ContributionOfIdentity(p: Settings, pick: nat -> nat, fed: seq<seq<real>>, k: nat, c: nat, t: nat)
    requires Reconstructs(p, pick) && |fed| == p.numIn && c < p.numOut && Start(p, k) <= t
    ensures var i := t - Start(p, k);
            Contribution(p, fed, k, c, t)
            == Sample(fed[pick(c)], Delay(p), t) * (if i < p.block then p.window[i] * p.window[i] else 0.0)
  {
    hide Sample, Delay;
    var i := t - Start(p, k);
    if i < p.block {
      PassedOn(p, pick, BlockInput(p, fed, k), k, c);
      assert BlockInput(p, fed, k)[pick(c)] == BlockRow(p, fed[pick(c)], k);
      Associate(Sample(fed[pick(c)], Delay(p), t), p.window[i]);
    } else {
      NoWeight(Sample(fed[pick(c)], Delay(p), t));
    }
  }

  lemma PassedOn(p: Settings, pick: nat -> nat, rows: seq<seq<real>>, k: nat, c: nat)
    requires Reconstructs(p, pick) && HasShape(rows, p.numIn, p.block) && c < p.numOut
    ensures HasShape(p.process(k, rows), p.numOut, p.block)
    ensures pick(c) < p.numIn && p.process(k, rows)[c] == rows[pick(c)]
  {
  }

  lemma NoWeight(x: real)
    ensures x * 0.0 == 0.0
  {
  }

  lemma Associate(x: real, w: real)
    ensures (x * w) * w == x * (w * w)
  {
  }

  lemma Distribute(x: real, a: real, b: real)
    ensures x * a + x * b == x * (a + b)
  {
  }

  /** The blocks up to k weigh frame t with the window from its place in block k on. */
  lemma {:induction false} Weight(p: Settings, pick: nat -> nat, fed: seq<seq<real>>, k: nat, c: nat, t: nat)
    requires Reconstructs(p, pick) && |fed| == p.numIn && c < p.numOut && Start(p, k) <= t
    requires t + p.shift >= p.block
    ensures PartialOutput(p, fed, k + 1, c, t) == Sample(fed[pick(c)], Delay(p), t) * WindowPower(p, t - Start(p, k))
  {
    hide Contribution, Sample;
    var x, i := Sample(fed[pick(c)], Delay(p), t), t - Start(p, k);
    ContributionOfIdentity(p, pick, fed, k, c, t);
    var sq := if i < p.block then p.window[i] * p.window[i] else 0.0;
    if k == 0 {
      assert PartialOutput(p, fed, 1, c, t) == PartialOutput(p, fed, 0, c, t) + Contribution(p, fed, 0, c, t);
    } else {
      Weight(p, pick, fed, k - 1, c, t);
      Distribute(x, WindowPower(p, i + p.shift), sq);
    }
  }

  /**
   * With a callback that passes channels on and a power-complementary window the output is the input, delayed: no
   * overlap is missing at the start, because the delay is at least the block size less the shift amount.
   */
  lemma Reconstruction(p: Settings, pick: nat -> nat, fed: seq<seq<real>>, c: nat, t: nat)
    requires Reconstructs(p, pick) && |fed| == p.numIn && c < p.numOut
    ensures Output(p, fed, c, t) == Sample(fed[pick(c)], Delay(p), t)
  {
    hide Contribution;
    GcdAtMost(p.chunk, p.shift);
    var k := FindBlock(p, t);
    OutputComplete(p, fed, k + 1, c, t);
    if t < Delay(p) {
      Silence(p, pick, fed, k + 1, c, t);
    } else {
      Weight(p, pick, fed, k, c, t);
      assert WindowPower(p, t - Start(p, k)) == 1.0 by {
        UnitPower(p, pick, t - Start(p, k));
      }
    }
  }

  lemma UnitPower(p: Settings, pick: nat -> nat, r: nat)
    requires Reconstructs(p, pick) && r < p.shift
    ensures WindowPower(p, r) == 1.0
  {
  }

  /** Within the delay nothing but zeros is windowed. */
  lemma {:induction false} Silence(p: Settings, pick: nat -> nat, fed: seq<seq<real>>, m: nat, c: nat, t: nat)
    requires Reconstructs(p, pick) && |fed| == p.numIn && c < p.numOut && t < Delay(p)
    ensures PartialOutput(p, fed, m, c, t) == 0.0
  {
    if m > 0 {
      Silence(p, pick, fed, m - 1, c, t);
      if Start(p, m - 1) <= t {
        ContributionOfIdentity(p, pick, fed, m - 1, c, t);
      }
    }
  }

  // ---------- a constant callback ----------

  /** The sum of the window at i, i + shift, i + 2 shift, and so on. */
  ghost function WindowSum(p: Settings, i: nat): real
    requires p.shift > 0 && |p.window| == p.block
    decreases p.block - i
  {
    if i >= p.block then 0.0 else p.window[i] + WindowSum(p, i + p.shift)
  }

  /** The callback puts out nothing but v, whatever its input. */
  ghost predicate Emits(p: Settings, v: real) {
    && ValidSettings(p)
    && forall k: nat, rows: seq<seq<real>> {:trigger p.process(k, rows)} ::
         HasShape(rows, p.numIn, p.block) ==>
           forall c: nat, i: nat | c < p.numOut && i < p.block :: p.process(k, rows)[c][i] == v
  }

  lemma ContributionOfConstant(p: Settings, v: real, fed: seq<seq<real>>, k: nat, c: nat, t: nat)
    requires Emits(p, v) && |fed| == p.numIn && c < p.numOut && Start(p, k) <= t
    ensures var i := t - Start(p, k);
            Contribution(p, fed, k, c, t) == v * (if i < p.block then p.window[i] else 0.0)
  {
    var rows := BlockInput(p, fed, k);
    assert HasShape(rows, p.numIn, p.block);
  }

  lemma {:induction false} ConstantPart(p: Settings, v: real, fed: seq<seq<real>>, k: nat, c: nat, t: nat)
    requires Emits(p, v) && |fed| == p.numIn && c < p.numOut && Start(p, k) <= t && t + p.shift >= p.block
    ensures PartialOutput(p, fed, k + 1, c, t) == v * WindowSum(p, t - Start(p, k))
  {
    hide Contribution;
    var i := t - Start(p, k);
    ContributionOfConstant(p, v, fed, k, c, t);
    var w := if i < p.block then p.window[i] else 0.0;
    if k == 0 {
      assert PartialOutput(p, fed, 1, c, t) == PartialOutput(p, fed, 0, c, t) + Contribution(p, fed, 0, c, t);
    } else {
      ConstantPart(p, v, fed, k - 1, c, t);
      Distribute(v, WindowSum(p, i + p.shift), w);
    }
  }

  /** Blocks are windowed once on their way out: a constant is weighed by the sum of the window over the blocks. */
  lemma ConstantOutput(p: Settings, v: real, fed: seq<seq<real>>, k: nat, c: nat, t: nat)
    requires Emits(p, v) && |fed| == p.numIn && c < p.numOut
    requires Start(p, k) <= t < Start(p, k) + p.shift && t + p.shift >= p.block
    ensures Output(p, fed, c, t) == v * WindowSum(p, t - Start(p, k))
  {
    hide Contribution;
    OutputComplete(p, fed, k + 1, c, t);
    ConstantPart(p, v, fed, k, c, t);
  }
}
