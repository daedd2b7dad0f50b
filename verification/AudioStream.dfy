/**
 * The audio stream's use of two rings. At every point where a call leaves the other thread
 * room to act, the other thread takes any steps it likes: `meanwhile(k)` at the `k`-th point.
 */
module AudioStreams {
  import opened Basics
  import opened Words
  import opened Bits
  import opened RingBuffers

  type Sample = x: int | -0x8000 <= x < 0x8000

  /** The other thread's steps at each point of a call. */
  type Interference = nat -> seq<Step<Sample>>

  /** `numSamples` of `rawr_AudioStream_Setup`. */
  function Capacity(sampleCount: nat): nat
    requires 10 * sampleCount < 0x1_0000_0000
  {
    NextPowerOf2(10 * sampleCount)
  }

  /** `numBytes`, two for each sample on a 32-bit word. */
  function RingBytes(capacity: nat): nat
  {
    (2 * capacity) % 0x1_0000_0000
  }

  /** The least power of two that takes ten blocks, which `rawr_RingBuffer_Initialize` accepts. */
  lemma CapacityFits(sampleCount: nat)
    requires 1 <= sampleCount && 10 * sampleCount <= 0x8000_0000
    ensures var n := Capacity(sampleCount);
            10 * sampleCount <= n < 20 * sampleCount && PowerOfTwo(n) && n <= 0x8000_0000 && InitializeAccepts(n)
  {
    NextPowerOf2Correct(10 * sampleCount);
    AcceptsPowers(Capacity(sampleCount));
    HalfWord32();
    if Capacity(sampleCount) > Pow2(31) {
      PowersApart(Pow2(31), Capacity(sampleCount));
    }
  }

  /** The memory for the ring holds all its samples exactly up to 2^30 of them; beyond, none is asked for. */
  lemma BytesFit(sampleCount: nat)
    requires 1 <= sampleCount && 10 * sampleCount <= 0x8000_0000
    ensures var n := Capacity(sampleCount);
            && (RingBytes(n) == 2 * n <==> 10 * sampleCount <= 0x4000_0000)
            && (10 * sampleCount > 0x4000_0000 ==> RingBytes(n) == 0)
  {
    CapacityFits(sampleCount);
    PowerBytes(Capacity(sampleCount), 10 * sampleCount);
  }

  lemma PowerBytes(n: nat, asked: nat)
    requires PowerOfTwo(n) && asked <= n < 2 * asked && n <= 0x8000_0000
    ensures RingBytes(n) == 2 * n <==> asked <= 0x4000_0000
    ensures asked > 0x4000_0000 ==> RingBytes(n) == 0
  {
    NothingBetween(n);
  }

  lemma NothingBetween(n: nat)
    requires PowerOfTwo(n)
    ensures n <= 0x4000_0000 || n >= 0x8000_0000
  {
    HalfWord32();
    Pow2Succ(30);
    if Pow2(30) <= n < 2 * Pow2(30) {
      PowersApart(Pow2(30), n);
    }
  }

  class AudioStream {
    const sampleCount: nat
    const sampleCapacity: nat
    const toDevice: RingBuffer<Sample>
    const fromDevice: RingBuffer<Sample>

    ghost predicate Valid()
      reads this, toDevice, toDevice.buffer, fromDevice, fromDevice.buffer
    {
      && toDevice.Valid() && fromDevice.Valid()
      && toDevice != fromDevice && toDevice.buffer != fromDevice.buffer
      && sampleCapacity == toDevice.size == fromDevice.size && 10 * sampleCount <= sampleCapacity
    }

    /** `rawr_AudioStream_Setup`, for sample counts for which the memory asked for holds the rings. */
    constructor (sampleCount: nat)
      requires 1 <= sampleCount && 10 * sampleCount <= 0x8000_0000
      requires RingBytes(Capacity(sampleCount)) == 2 * Capacity(sampleCount)
      ensures Valid() && this.sampleCount == sampleCount && sampleCapacity == Capacity(sampleCount)
      ensures toDevice.writing.NotWriting? && toDevice.reading.NotReading? && toDevice.written == []
      ensures fromDevice.writing.NotWriting? && fromDevice.reading.NotReading? && fromDevice.written == []
    {
      CapacityFits(sampleCount);
      var n := Capacity(sampleCount);
      var dataTo, dataFrom := new Sample[n](_ => 0), new Sample[n](_ => 0);
      this.sampleCount, sampleCapacity := sampleCount, n;
      toDevice := new RingBuffer(dataTo);
      fromDevice := new RingBuffer(dataFrom);
    }

    /** `rawr_AudioStream_Write`: all of the block or nothing, whatever the callback does meanwhile. */
    method Write(data: seq<Sample>, meanwhile: Interference) returns (count: nat)
      requires Valid() && |data| == sampleCount && toDevice.writing.NotWriting?
      modifies toDevice, toDevice.buffer
      ensures Valid() && toDevice.writing.NotWriting? && old(toDevice.read) <= toDevice.read <= toDevice.written
      ensures count == (if sampleCount <= old(toDevice.WriteAvailable()) then sampleCount else 0)
      ensures toDevice.written == old(toDevice.written) + data[..count]
    {
      count := WriteWhole(toDevice, data, meanwhile);
      toDevice.Safe();
    }

    /** `rawr_AudioStream_Read`: the next block of the device's samples, or nothing. */
    method Read(meanwhile: Interference) returns (data: seq<Sample>)
      requires Valid() && fromDevice.reading.NotReading?
      modifies fromDevice, fromDevice.buffer
      ensures Valid() && fromDevice.reading.NotReading? && old(fromDevice.written) <= fromDevice.written
      ensures |data| == (if sampleCount <= old(fromDevice.ReadAvailable()) then sampleCount else 0)
      ensures fromDevice.read == old(fromDevice.read) + data && fromDevice.read <= fromDevice.written
    {
      data := ReadWhole(fromDevice, sampleCount, meanwhile);
      fromDevice.Safe();
    }

    /** The output part of the callback: silence or the next full block of what was written. */
    method CallbackOut(frames: nat, meanwhile: Interference) returns (output: seq<Sample>)
      requires Valid() && toDevice.reading.NotReading?
      modifies toDevice, toDevice.buffer
      ensures Valid() && toDevice.reading.NotReading? && old(toDevice.written) <= toDevice.written && |output| == frames
      ensures if frames <= old(toDevice.ReadAvailable())
        then toDevice.read == old(toDevice.read) + output && toDevice.read <= toDevice.written
        else toDevice.read == old(toDevice.read) && forall i | 0 <= i < frames :: output[i] == 0
    {
      var ok := frames <= toDevice.ReadAvailable();
      output := ReadWhole(toDevice, frames, meanwhile);
      if !ok {
        output := seq(frames, _ => 0);
      }
      toDevice.Safe();
    }

    /** The input part of the callback: as much of the block as there is room for when it is written. */
    method CallbackIn(input: seq<Sample>, meanwhile: Interference) returns (count: nat)
      requires Valid() && fromDevice.writing.NotWriting?
      modifies fromDevice, fromDevice.buffer
      ensures Valid() && fromDevice.writing.NotWriting? && old(fromDevice.read) <= fromDevice.read <= fromDevice.written
      ensures Min(|input|, old(fromDevice.WriteAvailable())) <= count <= |input|
      ensures fromDevice.written == old(fromDevice.written) + input[..count]
    {
      count := WriteSome(fromDevice, input, meanwhile);
      fromDevice.Safe();
    }
  }

  method StoreAmid(ring: RingBuffer<Sample>, i: nat, steps: seq<Step<Sample>>)
    requires ring.Valid() && ring.writing.Storing? && i < ring.writing.count
    modifies ring, ring.buffer
    ensures ring.Valid() && ring.writing == old(ring.writing).(done := old(ring.writing.done) + {i})
    ensures ring.written == old(ring.written) && old(ring.read) <= ring.read
  {
    ring.StoreOne(i);
    ring.ReaderSteps(steps);
  }

  method FetchAmid(ring: RingBuffer<Sample>, i: nat, steps: seq<Step<Sample>>)
    requires ring.Valid() && ring.reading.Fetching? && i < ring.reading.count
    modifies ring, ring.buffer
    ensures ring.Valid() && ring.reading.Fetching? && ring.reading.got.Keys == old(ring.reading.got.Keys) + {i}
    ensures ring.reading.asked == old(ring.reading.asked) && ring.reading.count == old(ring.reading.count)
    ensures ring.read == old(ring.read) && old(ring.written) <= ring.written
  {
    ring.FetchOne(i);
    ring.WriterSteps(steps);
  }

  /** `rawr_RingBuffer_Write` while the reader goes on. */
  method WriteSome(ring: RingBuffer<Sample>, data: seq<Sample>, meanwhile: Interference) returns (count: nat)
    requires ring.Valid() && (ring.writing.NotWriting? || ring.writing == WriteChecked(data))
    modifies ring, ring.buffer
    ensures ring.Valid() && ring.writing.NotWriting? && old(ring.read) <= ring.read
    ensures Min(|data|, old(ring.WriteAvailable())) <= count <= |data|
    ensures old(ring.writing.WriteChecked?) ==> count == |data|
    ensures ring.written == old(ring.written) + data[..count]
  {
    ring.ReaderSteps(meanwhile(0));
    ring.BeginWrite(data);
    count := ring.writing.count;
    for i := 0 to count
      invariant ring.Valid() && ring.written == old(ring.written) && old(ring.read) <= ring.read
      invariant ring.writing.Storing? && ring.writing.data == data && ring.writing.count == count
      invariant Upto(ring.writing.done, i)
    {
      UptoNext(ring.writing.done, i);
      StoreAmid(ring, i, meanwhile(i + 1));
    }
    count := ring.EndWrite();
  }

  /** A checked write. */
  method WriteWhole(ring: RingBuffer<Sample>, data: seq<Sample>, meanwhile: Interference) returns (count: nat)
    requires ring.Valid() && ring.writing.NotWriting?
    modifies ring, ring.buffer
    ensures ring.Valid() && ring.writing.NotWriting? && old(ring.read) <= ring.read
    ensures count == (if |data| <= old(ring.WriteAvailable()) then |data| else 0)
    ensures ring.written == old(ring.written) + data[..count]
  {
    var ok := ring.CheckWrite(data);
    count := 0;
    if ok {
      count := WriteSome(ring, data, meanwhile);
    }
  }

  /** `rawr_RingBuffer_Read` while the writer goes on. */
  method ReadSome(ring: RingBuffer<Sample>, asked: nat, meanwhile: Interference) returns (data: seq<Sample>)
    requires ring.Valid() && ring.reading == ReadChecked(asked)
    modifies ring, ring.buffer
    ensures ring.Valid() && ring.reading.NotReading? && old(ring.written) <= ring.written
    ensures |data| == asked && ring.read == old(ring.read) + data
  {
    ring.WriterSteps(meanwhile(0));
    ring.BeginRead(asked);
    for i := 0 to asked
      invariant ring.Valid() && ring.read == old(ring.read) && old(ring.written) <= ring.written
      invariant ring.reading.Fetching? && ring.reading.asked == asked && ring.reading.count == asked
      invariant Upto(ring.reading.got.Keys, i)
    {
      UptoNext(ring.reading.got.Keys, i);
      FetchAmid(ring, i, meanwhile(i + 1));
    }
    data := ring.EndRead();
  }

  /** A checked read. */
  method ReadWhole(ring: RingBuffer<Sample>, asked: nat, meanwhile: Interference) returns (data: seq<Sample>)
    requires ring.Valid() && ring.reading.NotReading?
    modifies ring, ring.buffer
    ensures ring.Valid() && ring.reading.NotReading? && old(ring.written) <= ring.written
    ensures |data| == (if asked <= old(ring.ReadAvailable()) then asked else 0)
    ensures ring.read == old(ring.read) + data
  {
    var ok := ring.CheckRead(asked);
    data := [];
    if ok {
      data := ReadSome(ring, asked, meanwhile);
    }
  }
}
