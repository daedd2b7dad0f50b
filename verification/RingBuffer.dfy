/**
 * The audio ring buffer between one writer and one reader. Loading the other side's index,
 * copying one element and publishing one's own index are separate steps, each a method, so
 * every interleaving of the two threads is a sequence of these calls. Memory is sequentially
 * consistent, and the elements of one transfer may be copied in any order.
 */
module RingBuffers {
  import opened Basics
  import opened Words
  import opened RingIndex

  /** How far the writing thread is. `checked`: it had seen that there was room for all. */
  datatype Writing<T> = NotWriting | WriteChecked(data: seq<T>) | Storing(data: seq<T>, count: nat, done: set<nat>, checked: bool)

  /** How far the reading thread is. */
  datatype Reading<T> = NotReading | ReadChecked(asked: nat) | Fetching(asked: nat, count: nat, got: map<nat, T>, checked: bool)

  /** A finished call: how many elements it was asked to move and which it moved. */
  datatype Move<T> = Move(checked: bool, asked: nat, data: seq<T>)

  datatype Step<T> =
    | CheckWrite(data: seq<T>) | BeginWrite(data: seq<T>) | StoreOne(i: nat) | EndWrite
    | CheckRead(asked: nat) | BeginRead(asked: nat) | FetchOne(i: nat) | EndRead

  // --- the streams -----------------------------------------------------------------------

  /** The slots of the unread elements hold them. */
  ghost predicate Holds<T>(b: seq<T>, written: seq<T>, r: nat)
    requires b != []
  {
    forall k: nat | r <= k < |written| :: b[Place(k, |b|)] == written[k]
  }

  ghost predicate Streams<T>(b: seq<T>, written: seq<T>, read: seq<T>)
    requires b != []
  {
    |read| <= |written| <= |read| + |b| && read == written[..|read|] && Holds(b, written, |read|)
  }

  /** What the writer has copied is in place beyond the published elements, in free slots. */
  ghost predicate WriterOk<T>(b: seq<T>, w: nat, r: nat, x: Writing<T>)
    requires b != []
  {
    match x
    case NotWriting => true
    case WriteChecked(data) => w + |data| <= r + |b|
    case Storing(data, count, done, checked) =>
      && count <= |data| && w + count <= r + |b| && (checked ==> count == |data|)
      && forall i | i in done :: i < count && b[Place(w + i, |b|)] == data[i]
  }

  /** What the reader has copied are published elements. */
  ghost predicate ReaderOk<T>(written: seq<T>, r: nat, x: Reading<T>)
  {
    match x
    case NotReading => true
    case ReadChecked(asked) => r + asked <= |written|
    case Fetching(asked, count, got, checked) =>
      && count <= asked && r + count <= |written| && (checked ==> count == asked)
      && forall i | i in got :: i < count && got[i] == written[r + i]
  }

  /** All offsets below `n`. */
  predicate Upto(s: set<nat>, n: nat)
  {
    forall i: nat | i < n :: i in s
  }

  lemma UptoNext(s: set<nat>, n: nat)
    requires Upto(s, n)
    ensures Upto(s + {n}, n + 1)
  {
  }

  /** A region of `count` elements from `index`, in one or two parts: the slot of its `i`-th. */
  function InRegion(index: nat, count: nat, n: nat, i: nat): (slot: nat)
    requires index < n && i < count <= n
    ensures slot < n
  {
    if index + count > n then
      var firstHalf := n - index;
      if i < firstHalf then index + i else i - firstHalf
    else index + i
  }

  /** A region that starts at the masked index of position `k` holds the positions from `k` on. */
  lemma SlotAt(k: nat, count: nat, n: nat, i: nat)
    requires PowerOfTwo(n) && n <= WORD && i < count <= n
    ensures InRegion(Masked(Place(k, 2 * n), n), count, n, i) == Place(k + i, n)
  {
    PlaceOfIndex(k, n);
    MaskedPlace(Place(k, 2 * n), n);
    PlacePlus(k, i, n);
  }

  /** Advancing an index by at most one turn. */
  lemma IndexAfter(k: nat, count: nat, n: nat)
    requires PowerOfTwo(n) && n <= WORD / 2 && count <= n
    ensures Masked(Place(k, 2 * n) + count, 2 * n) == Place(k + count, 2 * n)
  {
    DoublePower(n);
    Advanced(k, count, 2 * n);
  }

  /** Copying into the free part leaves the unread elements alone. */
  lemma StoreKeeps<T>(b: seq<T>, written: seq<T>, read: seq<T>, x: Writing<T>, i: nat)
    requires b != [] && Streams(b, written, read)
    requires x.Storing? && WriterOk(b, |written|, |read|, x) && i < x.count
    ensures var c := b[Place(|written| + i, |b|) := x.data[i]];
            Streams(c, written, read) && WriterOk(c, |written|, |read|, x.(done := x.done + {i}))
  {
    var w := |written|;
    var c := b[Place(w + i, |b|) := x.data[i]];
    forall k: nat | |read| <= k < |written| ensures c[Place(k, |c|)] == written[k] {
      PlacesApart(k, w + i, |b|);
    }
    forall j | j in x.done ensures c[Place(w + j, |c|)] == x.data[j] {
      if j < i {
        PlacesApart(w + j, w + i, |b|);
      } else if i < j {
        PlacesApart(w + i, w + j, |b|);
      }
    }
  }

  /** Publishing what has been copied makes it unread. */
  lemma PublishKeeps<T>(b: seq<T>, written: seq<T>, read: seq<T>, x: Writing<T>)
    requires b != [] && Streams(b, written, read) && x.Storing? && WriterOk(b, |written|, |read|, x)
    requires Upto(x.done, x.count)
    ensures Streams(b, written + x.data[..x.count], read)
  {
    var all := written + x.data[..x.count];
    forall k: nat | |read| <= k < |all| ensures b[Place(k, |b|)] == all[k] {
      if k >= |written| {
        assert k - |written| in x.done;
      }
    }
  }

  /** The elements fetched, in order. */
  function Fetched<T>(got: map<nat, T>, count: nat): (r: seq<T>)
    requires Upto(got.Keys, count)
    ensures |r| == count && forall i: nat | i < count :: r[i] == got[i]
  {
    seq(count, i requires 0 <= i < count => got[i])
  }

  /** What has been fetched are the next elements of the stream. */
  lemma ConsumeKeeps<T>(b: seq<T>, written: seq<T>, read: seq<T>, x: Reading<T>)
    requires b != [] && Streams(b, written, read) && x.Fetching? && ReaderOk(written, |read|, x)
    requires Upto(x.got.Keys, x.count)
    ensures Fetched(x.got, x.count) == written[|read|..|read| + x.count]
    ensures Streams(b, written, read + Fetched(x.got, x.count))
  {
    var f := Fetched(x.got, x.count);
    assert f == written[|read|..|read| + x.count];
    assert read + f == written[..|read| + x.count];
    assert Holds(b, written, |read| + x.count);
  }

  lemma RoomGrows<T>(b: seq<T>, w: nat, r: nat, d: nat, x: Writing<T>)
    requires b != [] && WriterOk(b, w, r, x)
    ensures WriterOk(b, w, r + d, x)
  {
  }

  lemma MoreToRead<T>(written: seq<T>, more: seq<T>, r: nat, x: Reading<T>)
    requires ReaderOk(written, r, x)
    ensures ReaderOk(written + more, r, x)
  {
  }

  function With<T>(x: Reading<T>, i: nat, item: T): Reading<T>
    requires x.Fetching?
  {
    x.(got := x.got[i := item])
  }

  lemma FetchKeeps<T>(written: seq<T>, r: nat, x: Reading<T>, i: nat, y: Reading<T>)
    requires ReaderOk(written, r, x) && x.Fetching? && i < x.count && y == With(x, i, written[r + i])
    ensures ReaderOk(written, r, y) && y.got.Keys == x.got.Keys + {i}
    ensures y == Fetching(x.asked, x.count, x.got[i := written[r + i]], x.checked)
  {
  }

  // --- finished calls --------------------------------------------------------------------

  /** All that a sequence of calls moved. */
  ghost function Moved<T>(moves: seq<Move<T>>): seq<T>
  {
    if moves == [] then [] else Moved(moves[..|moves| - 1]) + moves[|moves| - 1].data
  }

  /** A call moves no more than asked, and all or nothing if it checked first. */
  ghost predicate Proper<T>(m: Move<T>)
  {
    |m.data| <= m.asked && (m.checked ==> |m.data| == 0 || |m.data| == m.asked)
  }

  ghost predicate Accounts<T>(moves: seq<Move<T>>, stream: seq<T>)
  {
    Moved(moves) == stream && forall m | m in moves :: Proper(m)
  }

  lemma AccountsFor<T>(moves: seq<Move<T>>, stream: seq<T>, m: Move<T>)
    requires Accounts(moves, stream) && Proper(m)
    ensures Accounts(moves + [m], stream + m.data)
  {
    assert (moves + [m])[..|moves|] == moves;
  }

  // --- the steps of the threads ------------------------------------------------------------

  /** How far both threads are and what they have moved. */
  datatype Progress<T> = Progress(
    writing: Writing<T>, reading: Reading<T>, written: seq<T>, read: seq<T>, sends: seq<Move<T>>, receipts: seq<Move<T>>)

  /** A step of the writing thread, which does nothing when the thread is not at it. */
  ghost function WriterNext<T>(p: Progress<T>, size: nat, step: Step<T>): Progress<T>
  {
    match (step, p.writing)
    case (CheckWrite(data), NotWriting) =>
      if |p.written| + |data| <= |p.read| + size then p.(writing := WriteChecked(data))
      else p.(sends := p.sends + [Move(true, |data|, [])])
    case (BeginWrite(data), NotWriting) =>
      p.(writing := Storing(data, Min(|data|, Max(0, |p.read| + size - |p.written|)), {}, false))
    case (BeginWrite(_), WriteChecked(data)) => p.(writing := Storing(data, |data|, {}, true))
    case (StoreOne(i), Storing(data, count, done, checked)) =>
      if i < count then p.(writing := Storing(data, count, done + {i}, checked)) else p
    case (EndWrite, Storing(data, count, done, checked)) =>
      if Upto(done, count) && count <= |data| then
        p.(writing := NotWriting, written := p.written + data[..count], sends := p.sends + [Move(checked, |data|, data[..count])])
      else p
    case _ => p
  }

  /** A step of the reading thread. */
  ghost function ReaderNext<T>(p: Progress<T>, step: Step<T>): Progress<T>
  {
    match (step, p.reading)
    case (CheckRead(asked), NotReading) =>
      if |p.read| + asked <= |p.written| then p.(reading := ReadChecked(asked))
      else p.(receipts := p.receipts + [Move(true, asked, [])])
    case (BeginRead(asked), NotReading) =>
      p.(reading := Fetching(asked, Min(asked, Max(0, |p.written| - |p.read|)), map[], false))
    case (BeginRead(_), ReadChecked(asked)) => p.(reading := Fetching(asked, asked, map[], true))
    case (FetchOne(i), Fetching(asked, count, got, checked)) =>
      if i < count && |p.read| + i < |p.written| then
        p.(reading := Fetching(asked, count, got[i := p.written[|p.read| + i]], checked))
      else p
    case (EndRead, Fetching(asked, count, got, checked)) =>
      if Upto(got.Keys, count) && |p.read| + count <= |p.written| then
        var data := p.written[|p.read|..|p.read| + count];
        p.(reading := NotReading, read := p.read + data, receipts := p.receipts + [Move(checked, asked, data)])
      else p
    case _ => p
  }

  /** A sequence of steps, each of one thread or the other. */
  ghost function Steps<T>(p: Progress<T>, size: nat, steps: seq<Step<T>>): Progress<T>
  {
    if steps == [] then p
    else
      var n := |steps| - 1;
      ReaderNext(WriterNext(Steps(p, size, steps[..n]), size, steps[n]), steps[n])
  }

  /** Steps of the one thread while the other rests. */
  ghost function WriterAll<T>(p: Progress<T>, size: nat, steps: seq<Step<T>>): Progress<T>
  {
    if steps == [] then p else WriterNext(WriterAll(p, size, steps[..|steps| - 1]), size, steps[|steps| - 1])
  }

  ghost function ReaderAll<T>(p: Progress<T>, steps: seq<Step<T>>): Progress<T>
  {
    if steps == [] then p else ReaderNext(ReaderAll(p, steps[..|steps| - 1]), steps[|steps| - 1])
  }

  class RingBuffer<T> {
    const size: nat
    const buffer: array<T>
    var readIndex: nat
    var writeIndex: nat
    var writing: Writing<T>
    var reading: Reading<T>
    ghost var written: seq<T>
    ghost var read: seq<T>
    ghost var sends: seq<Move<T>>
    ghost var receipts: seq<Move<T>>

    ghost predicate Indexed()
      reads this
    {
      && PowerOfTwo(size) && 0 < size <= WORD / 2 && buffer.Length == size
      && writeIndex == Place(|written|, 2 * size) && readIndex == Place(|read|, 2 * size)
    }

    ghost predicate Valid()
      reads this, buffer
    {
      && Indexed() && Streams(buffer[..], written, read)
      && WriterOk(buffer[..], |written|, |read|, writing) && ReaderOk(written, |read|, reading)
      && Accounts(sends, written) && Accounts(receipts, read)
    }

    ghost function Now(): Progress<T>
      reads this
    {
      Progress(writing, reading, written, read, sends, receipts)
    }

    /** `rawr_RingBuffer_Initialize` for a power of two; `InitializeAccepts` says when it succeeds. */
    constructor (data: array<T>)
      requires PowerOfTwo(data.Length) && 0 < data.Length <= WORD / 2
      ensures Valid() && size == data.Length && buffer == data
      ensures written == [] && read == [] && writing == NotWriting && reading == NotReading
      ensures sends == [] && receipts == []
    {
      size, buffer := data.Length, data;
      readIndex, writeIndex, writing, reading := 0, 0, NotWriting, NotReading;
      written, read, sends, receipts := [], [], [], [];
    }

    /** `rawr_RingBuffer_GetReadAvailable`. */
    function ReadAvailable(): (r: nat)
      requires Valid()
      reads this, buffer
      ensures r == |written| - |read| && r <= size
    {
      DoublePower(size);
      Difference(|read|, |written|, 2 * size);
      Masked(writeIndex - readIndex, 2 * size)
    }

    /** `rawr_RingBuffer_GetWriteAvailable`. */
    function WriteAvailable(): (r: nat)
      requires Valid()
      reads this, buffer
      ensures r == |read| + size - |written| && r <= size
    {
      size - ReadAvailable()
    }

    // --- the writer's steps ----------------------------------------------------------------

    /** The test of `rawr_AudioStream_Write`. */
    method CheckWrite(data: seq<T>) returns (ok: bool)
      requires Valid() && writing.NotWriting?
      modifies this`writing, this`sends
      ensures Valid() && ok == (|data| <= old(|read|) + size - old(|written|))
      ensures ok ==> writing == WriteChecked(data) && sends == old(sends)
      ensures !ok ==> writing == NotWriting && sends == old(sends) + [Move(true, |data|, [])]
    {
      ok := WriteAvailable() >= |data|;
      if ok {
        writing := WriteChecked(data);
      } else {
        AccountsFor(sends, written, Move(true, |data|, []));
        assert written + [] == written;
        sends := sends + [Move(true, |data|, [])];
      }
    }

    /** The load of the read index in `rawr_RingBuffer_GetWriteRegions`. */
    method BeginWrite(data: seq<T>)
      requires Valid() && (writing.NotWriting? || writing == WriteChecked(data))
      modifies this`writing
      ensures Valid()
      ensures writing == Storing(data, Min(|data|, old(WriteAvailable())), {}, old(writing.WriteChecked?))
      ensures old(writing.WriteChecked?) ==> writing.count == |data|
    {
      writing := Storing(data, Min(|data|, WriteAvailable()), {}, writing.WriteChecked?);
    }

    /** Copy one element into the region. */
    method StoreOne(i: nat)
      requires Valid() && writing.Storing? && i < writing.count
      modifies this`writing, buffer
      ensures Valid() && writing == old(writing).(done := old(writing.done) + {i})
    {
      SlotAt(|written|, writing.count, size, i);
      StoreKeeps(buffer[..], written, read, writing, i);
      var slot := InRegion(Masked(writeIndex, size), writing.count, size, i);
      ghost var b := buffer[..];
      buffer[slot] := writing.data[i];
      assert buffer[..] == b[slot := writing.data[i]];
      writing := writing.(done := writing.done + {i});
    }

    /** `rawr_RingBuffer_AdvanceWriteIndex`, once all is copied. */
    method EndWrite() returns (count: nat)
      requires Valid() && writing.Storing? && Upto(writing.done, writing.count)
      modifies this`writing, this`writeIndex, this`written, this`sends
      ensures Valid() && count == old(writing.count) && writing == NotWriting
      ensures written == old(written) + old(writing.data)[..count]
      ensures sends == old(sends) + [Move(old(writing.checked), |old(writing.data)|, old(writing.data)[..count])]
      ensures old(writing.checked) ==> count == |old(writing.data)|
    {
      count := writing.count;
      ghost var m := Move(writing.checked, |writing.data|, writing.data[..count]);
      PublishKeeps(buffer[..], written, read, writing);
      MoreToRead(written, m.data, |read|, reading);
      IndexAfter(|written|, count, size);
      AccountsFor(sends, written, m);
      writeIndex := Masked(writeIndex + count, 2 * size);
      written, sends, writing := written + m.data, sends + [m], NotWriting;
    }

    // --- the reader's steps ----------------------------------------------------------------

    /** The test of `rawr_AudioStream_Read` and of the audio callback. */
    method CheckRead(asked: nat) returns (ok: bool)
      requires Valid() && reading.NotReading?
      modifies this`reading, this`receipts
      ensures Valid() && ok == (old(|read|) + asked <= |written|)
      ensures ok ==> reading == ReadChecked(asked) && receipts == old(receipts)
      ensures !ok ==> reading == NotReading && receipts == old(receipts) + [Move(true, asked, [])]
    {
      ok := ReadAvailable() >= asked;
      if ok {
        reading := ReadChecked(asked);
      } else {
        AccountsFor(receipts, read, Move(true, asked, []));
        assert read + [] == read;
        receipts := receipts + [Move(true, asked, [])];
      }
    }

    /** The load of the write index in `rawr_RingBuffer_GetReadRegions`. */
    method BeginRead(asked: nat)
      requires Valid() && (reading.NotReading? || reading == ReadChecked(asked))
      modifies this`reading
      ensures Valid()
      ensures reading == Fetching(asked, Min(asked, old(ReadAvailable())), map[], old(reading.ReadChecked?))
      ensures old(reading.ReadChecked?) ==> reading.count == asked
    {
      reading := Fetching(asked, Min(asked, ReadAvailable()), map[], reading.ReadChecked?);
    }

    /** Copy one element out of the region: it is the published one. */
    method FetchOne(i: nat)
      requires Valid() && reading.Fetching? && i < reading.count
      modifies this`reading
      ensures Valid() && |read| + i < |written|
      ensures reading == Fetching(
        old(reading.asked), old(reading.count), old(reading.got)[i := written[|read| + i]], old(reading.checked))
      ensures reading.got.Keys == old(reading.got.Keys) + {i}
    {
      var x := SlotAhead(i);
      var next := With(reading, i, x);
      FetchKeeps(written, |read|, reading, i, next);
      reading := next;
    }

    /** What the region of a read holds at `i`. */
    function SlotAhead(i: nat): (x: T)
      requires Valid() && reading.Fetching? && i < reading.count
      reads this, buffer
      ensures |read| + i < |written| && x == written[|read| + i]
    {
      NoUnpublished(i);
      buffer[InRegion(Masked(readIndex, size), reading.count, size, i)]
    }

    /** `rawr_RingBuffer_AdvanceReadIndex`, once all is copied. */
    method EndRead() returns (data: seq<T>)
      requires Valid() && reading.Fetching? && Upto(reading.got.Keys, reading.count)
      modifies this`reading, this`readIndex, this`read, this`receipts
      ensures Valid() && reading == NotReading && |data| == old(reading.count)
      ensures read == old(read) + data && data == written[old(|read|)..old(|read|) + |data|]
      ensures receipts == old(receipts) + [Move(old(reading.checked), old(reading.asked), data)]
      ensures old(reading.checked) ==> |data| == old(reading.asked)
    {
      ConsumeKeeps(buffer[..], written, read, reading);
      data := Fetched(reading.got, reading.count);
      ghost var m := Move(reading.checked, reading.asked, data);
      RoomGrows(buffer[..], |written|, |read|, |data|, writing);
      IndexAfter(|read|, |data|, size);
      AccountsFor(receipts, read, m);
      readIndex := Masked(readIndex + |data|, 2 * size);
      read, receipts, reading := read + data, receipts + [m], NotReading;
    }

    // --- whole calls and runs --------------------------------------------------------------

    /** `rawr_RingBuffer_Write`, the reader being at rest. */
    method Write(data: seq<T>) returns (count: nat)
      requires Valid() && writing.NotWriting?
      modifies this`writing, this`writeIndex, this`written, this`sends, buffer
      ensures Valid() && writing.NotWriting?
      ensures count == Min(|data|, old(WriteAvailable())) && written == old(written) + data[..count]
    {
      BeginWrite(data);
      ghost var n := writing.count;
      for i := 0 to writing.count
        invariant Valid() && written == old(written)
        invariant writing.Storing? && writing.data == data && writing.count == n
        invariant Upto(writing.done, i)
      {
        UptoNext(writing.done, i);
        StoreOne(i);
      }
      count := EndWrite();
    }

    /** `rawr_RingBuffer_Read`, the writer being at rest. */
    method Read(asked: nat) returns (data: seq<T>)
      requires Valid() && reading.NotReading?
      modifies this`reading, this`readIndex, this`read, this`receipts
      ensures Valid() && reading.NotReading?
      ensures |data| == Min(asked, old(ReadAvailable())) && read == old(read) + data
      ensures data == written[old(|read|)..old(|read|) + |data|]
    {
      BeginRead(asked);
      ghost var n := reading.count;
      for i := 0 to reading.count
        invariant Valid() && read == old(read)
        invariant reading.Fetching? && reading.asked == asked && reading.count == n
        invariant Upto(reading.got.Keys, i)
      {
        UptoNext(reading.got.Keys, i);
        FetchOne(i);
      }
      data := EndRead();
    }

    /** A step of the writing thread, if it is ready for it. */
    method WriterStep(step: Step<T>)
      requires Valid()
      modifies this`writing, this`writeIndex, this`written, this`sends, buffer
      ensures Valid() && Now() == WriterNext(old(Now()), size, step)
      ensures old(written) <= written && old(sends) <= sends
    {
      match step
      case CheckWrite(data) => if writing.NotWriting? { var _ := CheckWrite(data); }
      case BeginWrite(data) => if writing.NotWriting? || writing.WriteChecked? {
          BeginWrite(if writing.WriteChecked? then writing.data else data);
        }
      case StoreOne(i) => if writing.Storing? && i < writing.count { StoreOne(i); }
      case EndWrite => if writing.Storing? && Upto(writing.done, writing.count) { var _ := EndWrite(); }
      case _ =>
    }

    /** A step of the reading thread, if it is ready for it. */
    method ReaderStep(step: Step<T>)
      requires Valid()
      modifies this`reading, this`readIndex, this`read, this`receipts
      ensures Valid() && Now() == ReaderNext(old(Now()), step)
      ensures old(read) <= read && old(receipts) <= receipts
    {
      match step
      case CheckRead(asked) => if reading.NotReading? { var _ := CheckRead(asked); }
      case BeginRead(asked) => if reading.NotReading? || reading.ReadChecked? {
          BeginRead(if reading.ReadChecked? then reading.asked else asked);
        }
      case FetchOne(i) => FetchIfReady(i);
      case EndRead => EndIfReady();
      case _ =>
    }

    method FetchIfReady(i: nat)
      requires Valid()
      modifies this`reading
      ensures Valid() && Now() == ReaderNext(old(Now()), Step<T>.FetchOne(i))
    {
      if reading.Fetching? && i < reading.count {
        FetchOne(i);
      }
    }

    method EndIfReady()
      requires Valid()
      modifies this`reading, this`readIndex, this`read, this`receipts
      ensures Valid() && Now() == ReaderNext(old(Now()), Step<T>.EndRead) && old(read) <= read && old(receipts) <= receipts
    {
      if reading.Fetching? && Upto(reading.got.Keys, reading.count) {
        var _ := EndRead();
      }
    }

    method WriterSteps(steps: seq<Step<T>>)
      requires Valid()
      modifies this`writing, this`writeIndex, this`written, this`sends, buffer
      ensures Valid() && Now() == WriterAll(old(Now()), size, steps) && old(written) <= written && old(sends) <= sends
    {
      for k := 0 to |steps|
        invariant Valid() && Now() == WriterAll(old(Now()), size, steps[..k]) && old(written) <= written && old(sends) <= sends
      {
        WriterStep(steps[k]);
        assert steps[..k + 1][..k] == steps[..k];
      }
      assert steps[..|steps|] == steps;
    }

    method ReaderSteps(steps: seq<Step<T>>)
      requires Valid()
      modifies this`reading, this`readIndex, this`read, this`receipts
      ensures Valid() && Now() == ReaderAll(old(Now()), steps) && old(read) <= read && old(receipts) <= receipts
    {
      for k := 0 to |steps|
        invariant Valid() && Now() == ReaderAll(old(Now()), steps[..k]) && old(read) <= read && old(receipts) <= receipts
      {
        ReaderStep(steps[k]);
        assert steps[..k + 1][..k] == steps[..k];
      }
      assert steps[..|steps|] == steps;
    }

    /** Any interleaving of the two threads: each step is one thread's or the other's. */
    method Run(steps: seq<Step<T>>)
      requires Valid()
      modifies this, buffer
      ensures Valid() && read <= written && old(written) <= written && old(read) <= read
      ensures old(sends) <= sends && old(receipts) <= receipts
      ensures Now() == Steps(old(Now()), size, steps)
    {
      for k := 0 to |steps|
        invariant Valid() && old(written) <= written && old(read) <= read
        invariant old(sends) <= sends && old(receipts) <= receipts
        invariant Now() == Steps(old(Now()), size, steps[..k])
      {
        WriterStep(steps[k]);
        ReaderStep(steps[k]);
        assert steps[..k + 1][..k] == steps[..k];
      }
      assert steps[..|steps|] == steps;
      Safe();
    }

    /** What holds in every state of every run. */
    lemma Safe()
      requires Valid()
      ensures read <= written && Moved(receipts) <= Moved(sends)
      ensures Masked(writeIndex - readIndex, 2 * size) == |written| - |read| <= size
      ensures forall m | m in sends + receipts :: m.checked ==> |m.data| == 0 || |m.data| == m.asked
    {
      DoublePower(size);
      Difference(|read|, |written|, 2 * size);
    }

    /** A slot that a write is to fill holds no unread element, in particular none that is being read. */
    lemma NoOverwrite(i: nat, k: nat)
      requires Valid() && writing.Storing? && i < writing.count
      requires |read| <= k < |written| || (reading.Fetching? && |read| <= k < |read| + reading.count)
      ensures InRegion(Masked(writeIndex, size), writing.count, size, i) != Place(k, size)
    {
      SlotAt(|written|, writing.count, size, i);
      PlacesApart(k, |written| + i, size);
    }

    /** A slot that a read is to fetch holds a published element. */
    lemma NoUnpublished(i: nat)
      requires Valid() && reading.Fetching? && i < reading.count
      ensures |read| + i < |written| && buffer[InRegion(Masked(readIndex, size), reading.count, size, i)] == written[|read| + i]
    {
      SlotAt(|read|, reading.count, size, i);
      assert buffer[..][Place(|read| + i, size)] == written[|read| + i];
    }
  }
}
