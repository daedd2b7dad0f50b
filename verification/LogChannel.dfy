/**
 * The background log channel: senders append to a pending list under a mutex, one writer
 * thread swaps the list out and writes it, and clean-up sets a flag and joins the writer.
 * Each mutex section, each write and each destroy is a step.
 */
module LogChannels {

  /** Where the writer thread is; `Written`: the line at `next` has been written and not yet destroyed. */
  datatype Writer<T> =
    | Waiting
    | Batch(lines: seq<T>, next: nat)
    | Written(lines: seq<T>, next: nat)
    | Exited

  datatype Cleaner = NotCalled | Joining | Joined

  datatype Step<T> = Send(line: T) | Wake | Write | Destroy | EndBatch | SetFinished | Join

  /** The lines that the writer has swapped out and not yet written. */
  function Rest<T>(w: Writer<T>): seq<T>
  {
    match w
    case Batch(lines, next) => if next <= |lines| then lines[next..] else []
    case Written(lines, next) => if next < |lines| then lines[next + 1..] else []
    case _ => []
  }

  ghost predicate InBatch<T>(w: Writer<T>)
  {
    match w
    case Batch(lines, next) => next <= |lines|
    case Written(lines, next) => next < |lines|
    case _ => true
  }

  lemma TakeLine<T>(written: seq<T>, lines: seq<T>, next: nat, pending: seq<T>)
    requires next < |lines|
    ensures written + lines[next..] + pending == written + [lines[next]] + lines[next + 1..] + pending
  {
    assert lines[next..] == [lines[next]] + lines[next + 1..];
  }

  /** All of a channel. */
  datatype Progress<T> = Progress(
    pending: seq<T>, finished: bool, writer: Writer<T>, cleaner: Cleaner, written: seq<T>, destroyed: seq<T>)

  /** A step of some thread, which does nothing when the thread is not at it. */
  function Next<T>(p: Progress<T>, step: Step<T>): Progress<T>
  {
    match step
    case Send(line) => p.(pending := p.pending + [line])
    case Wake =>
      if !p.writer.Waiting? then p
      else if p.pending != [] then p.(writer := Batch(p.pending, 0), pending := [])
      else if p.finished then p.(writer := Exited)
      else p
    case Write =>
      if p.writer.Batch? && p.writer.next < |p.writer.lines| then
        p.(writer := Written(p.writer.lines, p.writer.next), written := p.written + [p.writer.lines[p.writer.next]])
      else p
    case Destroy =>
      if p.writer.Written? && p.writer.next < |p.writer.lines| then
        p.(writer := Batch(p.writer.lines, p.writer.next + 1), destroyed := p.destroyed + [p.writer.lines[p.writer.next]])
      else p
    case EndBatch => if p.writer.Batch? && p.writer.next == |p.writer.lines| then p.(writer := Waiting) else p
    case SetFinished => if p.cleaner.NotCalled? then p.(finished := true, cleaner := Joining) else p
    case Join => if p.cleaner.Joining? && p.writer.Exited? then p.(cleaner := Joined) else p
  }

  function Steps<T>(p: Progress<T>, steps: seq<Step<T>>): Progress<T>
  {
    if steps == [] then p else Next(Steps(p, steps[..|steps| - 1]), steps[|steps| - 1])
  }

  class LogChannel<T> {
    var pending: seq<T>
    var finished: bool
    var writer: Writer<T>
    var cleaner: Cleaner
    /** What the log writer has been given, and what has been freed. */
    var written: seq<T>
    var destroyed: seq<T>
    ghost var sent: seq<T>
    /** How many lines had been sent when `finished` was set. */
    ghost var sentBefore: nat

    /** Every line sent is written, about to be, or pending, in the order of sending. */
    ghost predicate Valid()
      reads this
    {
      && InBatch(writer)
      && sent == written + Rest(writer) + pending
      && destroyed == (if writer.Written? then written[..if |written| == 0 then 0 else |written| - 1] else written)
      && (writer.Written? ==> written != [] && written[|written| - 1] == writer.lines[writer.next])
      && (cleaner.NotCalled? <==> !finished) && (finished ==> sentBefore <= |sent|)
      && (writer.Exited? ==> finished && sentBefore <= |written|)
      && (cleaner.Joined? ==> writer.Exited?)
    }

    function Now(): Progress<T>
      reads this
    {
      Progress(pending, finished, writer, cleaner, written, destroyed)
    }

    constructor ()
      ensures Valid() && sent == [] && !finished && writer == Waiting
    {
      pending, finished, writer, cleaner, written, destroyed := [], false, Waiting, NotCalled, [], [];
      sent, sentBefore := [], 0;
    }

    /** `s_background_channel_send`. */
    method Send(line: T)
      requires Valid()
      modifies this`pending, this`sent
      ensures Valid() && sent == old(sent) + [line] && pending == old(pending) + [line]
    {
      pending, sent := pending + [line], sent + [line];
    }

    /** One round of the writer's mutex section; it runs only when `s_background_wait` holds. */
    method Wake()
      requires Valid() && writer.Waiting? && (finished || pending != [])
      modifies this`pending, this`writer
      ensures Valid()
      ensures if old(pending) == [] then writer == Exited && pending == [] && written == sent
              else writer == Batch(old(pending), 0) && pending == []
    {
      if pending == [] {
        assert written + [] + [] == written;
        if finished {
          writer := Exited;
        }
      } else {
        writer, pending := Batch(pending, 0), [];
        assert writer.lines[0..] == writer.lines;
      }
    }

    /** Hand the next line to the log writer. */
    method Write()
      requires Valid() && writer.Batch? && writer.next < |writer.lines|
      modifies this`writer, this`written
      ensures Valid() && writer == Written(old(writer.lines), old(writer.next))
      ensures written == old(written) + [old(writer.lines)[old(writer.next)]]
    {
      var line := writer.lines[writer.next];
      TakeLine(written, writer.lines, writer.next, pending);
      written, writer := written + [line], Written(writer.lines, writer.next);
    }

    /** Free the line that has just been written. */
    method Destroy()
      requires Valid() && writer.Written?
      modifies this`writer, this`destroyed
      ensures Valid() && writer == Batch(old(writer.lines), old(writer.next) + 1)
      ensures destroyed == written == old(destroyed) + [old(writer.lines)[old(writer.next)]]
    {
      destroyed := destroyed + [writer.lines[writer.next]];
      writer := Batch(writer.lines, writer.next + 1);
    }

    /** All of the batch is written: wait again. */
    method EndBatch()
      requires Valid() && writer.Batch? && writer.next == |writer.lines|
      modifies this`writer
      ensures Valid() && writer == Waiting
    {
      writer := Waiting;
    }

    /** The first part of `s_background_channel_clean_up`. */
    method SetFinished()
      requires Valid() && cleaner.NotCalled?
      modifies this`finished, this`cleaner, this`sentBefore
      ensures Valid() && finished && cleaner.Joining? && sentBefore == |sent|
    {
      finished, cleaner, sentBefore := true, Joining, |sent|;
    }

    /**
     * The join returns: every line sent before `finished` was set has been written once, in
     * order, and freed; what is lost was sent later.
     */
    method Join()
      requires Valid() && cleaner.Joining? && writer.Exited?
      modifies this`cleaner
      ensures Valid() && cleaner.Joined?
      ensures sentBefore <= |written| && written == sent[..|written|] && destroyed == written
      ensures pending == sent[|written|..]
    {
      cleaner := Joined;
    }

    /** A step of the writer thread, if it is ready for it. */
    method WriterStep(step: Step<T>)
      requires Valid()
      modifies this`writer, this`pending, this`written, this`destroyed
      ensures Valid() && (!step.Send? && !step.SetFinished? && !step.Join? ==> Now() == Next(old(Now()), step))
    {
      match step
      case Wake => if writer.Waiting? && (finished || pending != []) { Wake(); }
      case Write => if writer.Batch? && writer.next < |writer.lines| { Write(); }
      case Destroy => if writer.Written? { Destroy(); }
      case EndBatch => if writer.Batch? && writer.next == |writer.lines| { EndBatch(); }
      case _ =>
    }

    /** A step of any thread, if it is ready for it. */
    method Perform(step: Step<T>)
      requires Valid()
      modifies this
      ensures Valid() && Now() == Next(old(Now()), step) && sent == old(sent) + if step.Send? then [step.line] else []
    {
      match step
      case Send(line) => Send(line);
      case SetFinished => if cleaner.NotCalled? { SetFinished(); }
      case Join => if cleaner.Joining? && writer.Exited? { Join(); }
      case _ => WriterStep(step);
    }

    /** Any interleaving of senders, writer and clean-up. */
    method Run(steps: seq<Step<T>>)
      requires Valid()
      modifies this
      ensures Valid() && destroyed <= written <= sent && old(sent) <= sent
      ensures cleaner.Joined? ==> sentBefore <= |written| && destroyed == written
      ensures Now() == Steps(old(Now()), steps)
    {
      for k := 0 to |steps|
        invariant Valid() && old(sent) <= sent && Now() == Steps(old(Now()), steps[..k])
      {
        Perform(steps[k]);
        assert steps[..k + 1][..k] == steps[..k];
      }
      assert steps[..|steps|] == steps;
    }

    /** With nobody sending any more, the writer finishes: `s_background_thread_writer` to its end. */
    method Drain()
      requires Valid() && finished
      modifies this`writer, this`pending, this`written, this`destroyed
      ensures Valid() && writer.Exited? && written <= sent && destroyed == written
      ensures old(writer.Exited?) || written == sent
    {
      while !writer.Exited?
        invariant Valid() && finished && (old(writer.Exited?) || !writer.Exited? || written == sent)
        decreases |sent| - |written|, Left(writer)
      {
        match writer
        case Waiting => Wake();
        case Batch(lines, next) =>
          if next < |lines| {
            Write();
          } else {
            EndBatch();
          }
        case Written(lines, next) => Destroy();
      }
    }
  }

  /** What the writer can do without writing a line, at most. */
  function Left<T>(w: Writer<T>): nat
  {
    match w
    case Waiting => 2
    case Batch(lines, next) => if next < |lines| then 1 else 3
    case Written(_, _) => 4
    case Exited => 0
  }
}
