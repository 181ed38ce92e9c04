/**
  Tail/Program.cs: the tail engine. Every tick DoTail compares the length of the watched
  file with the read position kept in a FileState, classifies the file as missing,
  unchanged, shrunk or grown, and on growth streams the new characters to the console in
  chunks. The tick loop of Main carries the FileState from tick to tick, prints a notice
  when the status turns into NotExist or Shrunk, and starts over from Unknown after any
  exception. FindLastFileLike picks the most recently written file among the matches.

  The console is an event sequence; the file system is the FileView each tick observes.
*/
module Tail {
  import opened Wrappers
  import Text

  datatype FileStatus = Unknown | NotExist | Shrunk | Idle

  /** The read position of the watched file and the status the last tick found. */
  class FileState {
    var status: FileStatus
    var ptr: nat

    constructor (status: FileStatus, ptr: nat)
      ensures this.status == status && this.ptr == ptr
    {
      this.status, this.ptr := status, ptr;
    }
  }

  /** What one tick sees of the watched path: nothing, or a file whose length FileInfo
      reported, together with the characters a reader opened right afterwards delivers
      (one character per byte; more than length if a writer appended in between). */
  datatype FileView = Missing | Present(length: nat, data: seq<char>)

  const MaxDataChunk: nat := 1024 * 512

  function Max0(x: int): nat { if x > 0 then x else 0 }

  // ---------------------------------------------------------------------------
  // The reader

  /** A StreamReader over the characters of the file. */
  class TextReader {
    const data: seq<char>
    var position: nat

    constructor (data: seq<char>)
      ensures this.data == data && position == 0
    {
      this.data, position := data, 0;
    }

    /** Copies up to count characters into buffer[index..], fewer only at the end of the data. */
    method ReadBlock(buffer: array<char>, index: nat, count: nat) returns (n: nat)
      requires position <= |data| && index + count <= buffer.Length
      modifies this, buffer
      ensures n == Min(count, |data| - old(position))
      ensures position == old(position) + n <= |data|
      ensures buffer[index..index + n] == data[old(position)..position]
      ensures forall i :: 0 <= i < buffer.Length && !(index <= i < index + n) ==> buffer[i] == old(buffer[i])
    {
      n := Min(count, |data| - position);
      forall i | 0 <= i < n {
        buffer[index + i] := data[position + i];
      }
      position := position + n;
    }
  }

  // ---------------------------------------------------------------------------
  // One tick: DoTail

  /** The loop of DoTail only ends if the reader delivers at least length characters: once
      the data runs out every ReadBlock returns 0 and the loop condition stays true. */
  predicate Readable(file: FileView, ptr: nat)
  {
    file.Present? && ptr < file.length ==> file.length <= |file.data|
  }

  predicate Grows(file: FileView, ptr: nat)
  {
    file.Present? && ptr < file.length
  }

  /** Where the chunked read loop stops: starting at pos it reads MaxDataChunk characters at a
      time (fewer at the end of the data) until it has read at least length characters. */
  function ReadEnd(pos: nat, length: nat, available: nat): (end: nat)
    requires pos <= available && length <= available
    ensures length <= end <= available
    ensures pos < length ==> end < length + MaxDataChunk
    decreases available - pos
  {
    if pos >= length then pos
    else ReadEnd(pos + Min(MaxDataChunk, available - pos), length, available)
  }

  /** The result of one DoTail call: status, read position and the text written. */
  datatype Outcome = Outcome(status: FileStatus, ptr: nat, written: seq<char>)

  /** What a tick does with the file at read position ptr. */
  function TailStep(file: FileView, ptr: nat): (o: Outcome)
    requires Readable(file, ptr)
    ensures o.status == NotExist <==> file.Missing?
    ensures o.status == Shrunk <==> file.Present? && file.length < ptr
    ensures o.status == Idle <==> file.Present? && ptr <= file.length
    ensures o.status != Idle ==> o.ptr == 0 && o.written == []
    ensures o.status == Idle ==> ptr <= o.ptr && file.length <= o.ptr
    ensures file.Present? && file.length == ptr ==> o == Outcome(Idle, ptr, [])
    ensures Grows(file, ptr) ==> o.ptr <= |file.data| && o.written == file.data[ptr..o.ptr]
    ensures !Grows(file, ptr) ==> o.written == []
  {
    match file
    case Missing => Outcome(NotExist, 0, [])
    case Present(length, data) =>
      if length == ptr then Outcome(Idle, ptr, [])
      else if length < ptr then Outcome(Shrunk, 0, [])
      else
        var end := ReadEnd(0, length, |data|);
        Outcome(Idle, end, data[ptr..end])
  }

  /** One pass of the read loop: the block read is data[bytesRead..bytesRead + bytes]; what
      remains to be skipped shrinks by the block, and the part of the block beyond the skip
      count extends what has been written to the next stretch of data[ptr..]. */
  lemma {:induction false} WrittenAfterBlock(data: seq<char>, ptr: nat, bytesRead: nat, bytes: nat)
    requires bytesRead + bytes <= |data|
    ensures var skip := Max0(ptr - bytesRead);
      && Max0(ptr - (bytesRead + bytes)) == (if skip > bytes then skip - bytes else 0)
      && (bytes > skip ==>
            data[Min(ptr, bytesRead)..bytesRead] + data[bytesRead..bytesRead + bytes][skip..]
            == data[Min(ptr, bytesRead + bytes)..bytesRead + bytes])
      && (bytes <= skip ==>
            data[Min(ptr, bytesRead)..bytesRead] == data[Min(ptr, bytesRead + bytes)..bytesRead + bytes])
  {
    if ptr < bytesRead {
      assert data[ptr..bytesRead] + data[bytesRead..bytesRead + bytes] == data[ptr..bytesRead + bytes];
    } else {
      assert data[bytesRead..bytesRead] == [];
      if bytes > ptr - bytesRead {
        assert data[bytesRead..bytesRead + bytes][ptr - bytesRead..] == data[ptr..bytesRead + bytes];
      }
    }
  }

  /** The state of the read loop after bytesRead characters: what is still to be skipped,
      what has been written so far, and where the loop will stop. */
  predicate ReadLoop(data: seq<char>, length: nat, skip: nat, bytesRead: nat, toSkip: nat, written: seq<char>)
    requires length <= |data|
  {
    && bytesRead <= |data|
    && toSkip == Max0(skip - bytesRead)
    && written == data[Min(skip, bytesRead)..bytesRead]
    && ReadEnd(bytesRead, length, |data|) == ReadEnd(0, length, |data|)
  }

  /** One pass of the read loop, which reads the block data[bytesRead..bytesRead + bytes],
      keeps the loop state consistent. */
  lemma {:induction false} ReadLoopStep(data: seq<char>, length: nat, skip: nat, bytesRead: nat,
                                       toSkip: nat, written: seq<char>, bytes: nat)
    requires length <= |data| && ReadLoop(data, length, skip, bytesRead, toSkip, written)
    requires bytesRead < length && bytes == Min(MaxDataChunk, |data| - bytesRead)
    ensures ReadLoop(data, length, skip, bytesRead + bytes,
                     if toSkip > bytes then toSkip - bytes else 0,
                     if bytes > toSkip then written + data[bytesRead..bytesRead + bytes][toSkip..] else written)
  {
    assert ReadEnd(bytesRead + bytes, length, |data|) == ReadEnd(bytesRead, length, |data|);
    WrittenAfterBlock(data, skip, bytesRead, bytes);
  }

  /** The read loop of DoTail (lines from the buffer allocation to the end of the using
      blocks): reads the whole file in chunks, skipping the first skip characters and writing
      the rest. Returns how many characters it read and what it wrote. */
  method ReadAppended(data: seq<char>, length: nat, skip: nat) returns (bytesRead: nat, written: seq<char>)
    requires skip < length <= |data|
    ensures bytesRead == ReadEnd(0, length, |data|)
    ensures skip <= bytesRead && written == data[skip..bytesRead]
  {
    var buffer := new char[MaxDataChunk];
    bytesRead := 0;
    var bytesToBeSkipped: nat := skip;
    var reader := new TextReader(data);
    written := [];
    assert written == data[Min(skip, bytesRead)..bytesRead];
    while bytesRead < length
      invariant reader.data == data && reader.position == bytesRead
      invariant ReadLoop(data, length, skip, bytesRead, bytesToBeSkipped, written)
      decreases |data| - bytesRead
    {
      var bytes := reader.ReadBlock(buffer, 0, MaxDataChunk);
      var block := buffer[..bytes];
      assert block == data[bytesRead..bytesRead + bytes];
      ReadLoopStep(data, length, skip, bytesRead, bytesToBeSkipped, written, bytes);
      if bytes > bytesToBeSkipped {
        written := written + block[bytesToBeSkipped..];
      }
      bytesToBeSkipped := if bytesToBeSkipped > bytes then bytesToBeSkipped - bytes else 0;
      bytesRead := bytesRead + bytes;
    }
    assert Min(skip, bytesRead) == skip;
  }

  /** DoTail. On growth the caller's own FileState is updated and returned; every other
      outcome is a new FileState and the caller's is left alone. */
  method DoTail(file: FileView, state: FileState) returns (r: FileState, written: seq<char>)
    requires Readable(file, state.ptr)
    modifies state
    ensures Outcome(r.status, r.ptr, written) == TailStep(file, old(state.ptr))
    ensures Grows(file, old(state.ptr)) ==> r == state
    ensures !Grows(file, old(state.ptr)) ==> fresh(r) && unchanged(state)
  {
    written := [];
    match file
    case Missing =>
      r := new FileState(NotExist, 0);
    case Present(length, data) =>
      if length == state.ptr {
        r := new FileState(Idle, state.ptr);
        return;
      }
      if length < state.ptr {
        r := new FileState(Shrunk, 0);
        return;
      }
      state.status := Idle;
      var bytesRead;
      bytesRead, written := ReadAppended(data, length, state.ptr);
      state.ptr := bytesRead;
      r := state;
  }

  /** When the reader delivers fewer characters than the length FileInfo reported, the read
      loop of DoTail gets stuck: once the data is used up, bytesRead is still below the length
      and every further ReadBlock returns 0, so the loop condition never becomes false. */
  method ShortStreamStalls(data: seq<char>, length: nat) returns (bytesRead: nat, bytes: nat)
    requires |data| < length
    ensures bytesRead == |data| && bytesRead < length && bytes == 0
  {
    var buffer := new char[MaxDataChunk];
    var reader := new TextReader(data);
    bytesRead := 0;
    while reader.position < |data|
      invariant reader.data == data && reader.position == bytesRead <= |data|
      decreases |data| - bytesRead
    {
      var n := reader.ReadBlock(buffer, 0, MaxDataChunk);
      bytesRead := bytesRead + n;
    }
    bytes := reader.ReadBlock(buffer, 0, MaxDataChunk);
  }

  // ---------------------------------------------------------------------------
  // The tick loop of Main

  /** One turn of the loop: the file as DoTail sees it, or an exception somewhere in the tick
      (DoTail, the console, the colour helpers) raised before anything was written. */
  datatype Tick = Fault | Observe(file: FileView)

  /** What the loop puts on the console. */
  datatype Event =
    | Text(chars: seq<char>)   // characters of the file, written by DoTail
    | BlankLine                // Console.WriteLine() when the status changed
    | WaitingFor               // "Waiting for <file> to be created."
    | Restarting               // "Restarting <file>."

  /** The value of a FileState. */
  datatype State = State(status: FileStatus, ptr: nat)

  const Initial: State := State(Unknown, 0)

  /** The highlighted notice for a status the loop has just changed to. */
  function Notice(status: FileStatus): seq<Event>
  {
    match status
    case NotExist => [WaitingFor]
    case Shrunk => [Restarting]
    case _ => []
  }

  /** One tick of Main's loop from state s. On growth DoTail hands back the caller's own
      FileState, already set to Idle, so the "status changed?" test compares that object
      with itself and finds no change. */
  function Step(s: State, tick: Tick): (r: (State, seq<Event>))
    requires tick.Observe? ==> Readable(tick.file, s.ptr)
    ensures r.0.status == Unknown <==> tick.Fault?
    ensures tick.Fault? ==> r == (Initial, [])
    ensures tick.Observe? ==> r.0.ptr == TailStep(tick.file, s.ptr).ptr
  {
    match tick
    case Fault => (Initial, [])
    case Observe(file) =>
      var o := TailStep(file, s.ptr);
      var compared := if Grows(file, s.ptr) then o.status else s.status;
      var text := if o.written == [] then [] else [Text(o.written)];
      var notice := if compared != o.status then [BlankLine] + Notice(o.status) else [];
      (State(o.status, o.ptr), text + notice)
  }

  /** The reader of every observed file delivers at least the length FileInfo reported. */
  predicate Consistent(tick: Tick)
  {
    tick.Observe? && tick.file.Present? ==> tick.file.length <= |tick.file.data|
  }

  /** The state and the console output after a sequence of ticks. */
  function RunFrom(s: State, ticks: seq<Tick>): (r: (State, seq<Event>))
    requires forall i :: 0 <= i < |ticks| ==> Consistent(ticks[i])
    ensures r.0.status == Unknown <==> if ticks == [] then s.status == Unknown else ticks[|ticks| - 1].Fault?
  {
    if ticks == [] then (s, [])
    else
      var (mid, before) := RunFrom(s, ticks[..|ticks| - 1]);
      var tick := ticks[|ticks| - 1];
      assert Consistent(tick);
      var (last, events) := Step(mid, tick);
      (last, before + events)
  }

  /** The loop of Main, over the ticks that happen before a key is pressed. */
  method Run(ticks: seq<Tick>) returns (last: State, events: seq<Event>)
    requires forall i :: 0 <= i < |ticks| ==> Consistent(ticks[i])
    ensures (last, events) == RunFrom(Initial, ticks)
  {
    var fileState := new FileState(Unknown, 0);
    events := [];
    for i := 0 to |ticks|
      invariant fresh(fileState)
      invariant (State(fileState.status, fileState.ptr), events) == RunFrom(Initial, ticks[..i])
    {
      ghost var before := State(fileState.status, fileState.ptr);
      ghost var earlier := events;
      assert ticks[..i + 1][..i] == ticks[..i] && ticks[..i + 1][i] == ticks[i];
      assert Consistent(ticks[i]);
      assert RunFrom(Initial, ticks[..i + 1]) == (Step(before, ticks[i]).0, earlier + Step(before, ticks[i]).1);
      match ticks[i]
      case Fault =>
        fileState := new FileState(Unknown, 0);
        assert events == earlier + [];
      case Observe(file) =>
        var newFileState, written := DoTail(file, fileState);
        ghost var o := TailStep(file, before.ptr);
        assert fileState.status == (if Grows(file, before.ptr) then o.status else before.status);
        ghost var text := if o.written == [] then [] else [Text(o.written)];
        ghost var notice := if fileState.status != o.status then [BlankLine] + Notice(o.status) else [];
        assert Step(before, ticks[i]).1 == text + notice;
        if written != [] {
          events := events + [Text(written)];
        }
        if fileState.status != newFileState.status {
          events := events + ([BlankLine] + Notice(newFileState.status));
        }
        assert events == earlier + (text + notice);
        fileState := newFileState;
    }
    assert ticks[..|ticks|] == ticks;
    last := State(fileState.status, fileState.ptr);
  }

  // ---------------------------------------------------------------------------
  // Properties of the tick loop

  /** A missing file yields NotExist with the read position reset to 0, and the notice is
      printed exactly when the previous status was something else. */
  lemma MissingFileResetsPointer(s: State)
    ensures Step(s, Observe(Missing)).0 == State(NotExist, 0)
    ensures Step(s, Observe(Missing)).1 == if s.status == NotExist then [] else [BlankLine, WaitingFor]
  {
  }

  /** The notices are edge-triggered: "Waiting" appears exactly when the status turns into
      NotExist, "Restarting" exactly when it turns into Shrunk, and nothing is said on a
      change into Idle or Unknown other than (outside growth) a blank line. */
  lemma {:induction false} NoticesOnlyOnEdges(s: State, file: FileView)
    requires Readable(file, s.ptr)
    ensures var (next, events) := Step(s, Observe(file));
      && (WaitingFor in events <==> next.status == NotExist && s.status != NotExist)
      && (Restarting in events <==> next.status == Shrunk && s.status != Shrunk)
      && (BlankLine in events <==> next.status != s.status && !Grows(file, s.ptr))
  {
    var o := TailStep(file, s.ptr);
    var (next, events) := Step(s, Observe(file));
    var text := if o.written == [] then [] else [Text(o.written)];
    assert WaitingFor !in text && Restarting !in text && BlankLine !in text;
    assert events == text + (if (if Grows(file, s.ptr) then o.status else s.status) != o.status
                             then [BlankLine] + Notice(o.status) else []);
  }

  /** The aliasing of DoTail hides a status change: a file that appears with content while
      the loop waits for it goes from NotExist to Idle without the blank line a change of
      status otherwise prints. */
  lemma GrowthHidesStatusChange(length: nat, data: seq<char>)
    requires 0 < length <= |data|
    ensures var (next, events) := Step(State(NotExist, 0), Observe(Present(length, data)));
      && next.status == Idle
      && length <= next.ptr <= |data|
      && events == [Text(data[..next.ptr])]
  {
    var o := TailStep(Present(length, data), 0);
    assert data[0..o.ptr] == data[..o.ptr];
  }

  /** A file that stays unchanged makes the loop silent: a tick that leaves the file Idle
      leaves nothing to do for the next one, which writes nothing and keeps the state. */
  lemma {:induction false} UnchangedFileIsIdempotent(s: State, data: seq<char>)
    requires Readable(Present(|data|, data), s.ptr)
    ensures var (next, _) := Step(s, Observe(Present(|data|, data)));
      next.status == Idle ==> next.ptr == |data| && Step(next, Observe(Present(|data|, data))) == (next, [])
  {
    var (next, _) := Step(s, Observe(Present(|data|, data)));
    if next.status == Idle {
      assert next.ptr == |data|;
      var r := Step(next, Observe(Present(|data|, data)));
      assert r.0 == next && r.1 == [];
    }
  }

  /** A file that shrank is reported once and then read again from its start. */
  lemma {:induction false} ShrinkRestartsFromStart(s: State, data: seq<char>)
    requires |data| < s.ptr
    ensures var (shrunk, events) := Step(s, Observe(Present(|data|, data)));
      && shrunk == State(Shrunk, 0)
      && events == (if s.status == Shrunk then [] else [BlankLine, Restarting])
      && Step(shrunk, Observe(Present(|data|, data)))
         == (State(Idle, |data|), if data == [] then [BlankLine] else [Text(data)])
  {
    var (shrunk, events) := Step(s, Observe(Present(|data|, data)));
    assert events == [] + (if s.status == Shrunk then [] else [BlankLine] + [Restarting]);
    assert data[0..|data|] == data;
    var r := Step(shrunk, Observe(Present(|data|, data)));
    if data == [] {
      assert r.0 == State(Idle, 0) && r.1 == [BlankLine];
    } else {
      assert ReadEnd(0, |data|, |data|) == |data|;
      assert r.0 == State(Idle, |data|) && r.1 == [Text(data)];
    }
  }

  /** After an exception the loop starts over from Unknown at position 0, so the next tick
      writes the whole file again. */
  lemma {:induction false} FaultReplaysWholeFile(s: State, data: seq<char>)
    requires data != []
    ensures Step(s, Fault) == (Initial, [])
    ensures Step(Initial, Observe(Present(|data|, data))) == (State(Idle, |data|), [Text(data)])
  {
    assert ReadEnd(0, |data|, |data|) == |data|;
    assert data[0..|data|] == data;
    var r := Step(Initial, Observe(Present(|data|, data)));
    assert r.0 == State(Idle, |data|) && r.1 == [Text(data)];
  }

  /** The ticks of a file that is only ever appended to: every tick finds it, its reader
      delivers at least the reported length, each tick's data extends the previous tick's,
      and the length each tick reports is at least what the previous tick read. */
  predicate AppendOnly(ticks: seq<Tick>)
  {
    && (forall i :: 0 <= i < |ticks| ==>
          ticks[i].Observe? && ticks[i].file.Present? && ticks[i].file.length <= |ticks[i].file.data|)
    && (forall i :: 0 < i < |ticks| ==>
          ticks[i - 1].file.data <= ticks[i].file.data && |ticks[i - 1].file.data| <= ticks[i].file.length)
  }

  /** The file characters among the console events, in order. */
  function TextOf(events: seq<Event>): seq<char>
  {
    if events == [] then []
    else TextOf(events[..|events| - 1]) + (match events[|events| - 1] case Text(cs) => cs case _ => [])
  }

  lemma {:induction false} TextOfAppend(a: seq<Event>, b: seq<Event>)
    ensures TextOf(a + b) == TextOf(a) + TextOf(b)
    decreases |b|
  {
    if b == [] {
      assert a + b == a;
    } else {
      assert (a + b)[..|a + b| - 1] == a + b[..|b| - 1];
      TextOfAppend(a, b[..|b| - 1]);
    }
  }

  /** The file characters a tick puts on the console are exactly those DoTail wrote. */
  lemma {:induction false} TextOfStep(s: State, file: FileView)
    requires Readable(file, s.ptr)
    ensures TextOf(Step(s, Observe(file)).1) == TailStep(file, s.ptr).written
  {
    var o := TailStep(file, s.ptr);
    var text := if o.written == [] then [] else [Text(o.written)];
    var notice := if (if Grows(file, s.ptr) then o.status else s.status) != o.status
                  then [BlankLine] + Notice(o.status) else [];
    assert Step(s, Observe(file)).1 == text + notice;
    assert TextOf(text) == o.written by {
      if o.written != [] { assert text[..0] == []; }
    }
    assert TextOf(notice) == [] by {
      if notice != [] {
        var last := notice[|notice| - 1];
        assert !last.Text?;
        assert notice[..|notice| - 1] == [] || notice[..|notice| - 1] == [BlankLine];
        if notice[..|notice| - 1] == [BlankLine] {
          assert [BlankLine][..0] == [];
        }
      }
    }
    TextOfAppend(text, notice);
  }

  /** The prefix up to i followed by the slice from i to j is the prefix up to j. */
  lemma PrefixThenSlice(d: seq<char>, i: nat, j: nat)
    requires i <= j <= |d|
    ensures d[..i] + d[i..j] == d[..j]
  {
    assert d[..j] == d[..j][..i] + d[..j][i..];
  }

  /** One tick of an append-only file keeps "what was written is the content up to the read
      position". */
  lemma {:induction false} AppendOnlyStep(s: State, written: seq<char>, length: nat, data: seq<char>)
    requires s.ptr <= length <= |data|
    requires written == data[..s.ptr]
    ensures var (next, events) := Step(s, Observe(Present(length, data)));
      && next.status == Idle
      && length <= next.ptr <= |data|
      && written + TextOf(events) == data[..next.ptr]
  {
    var file := Present(length, data);
    var o := TailStep(file, s.ptr);
    TextOfStep(s, file);
    assert Step(s, Observe(file)).0 == State(o.status, o.ptr);
    if s.ptr < length {
      PrefixThenSlice(data, s.ptr, o.ptr);
    } else {
      assert o == Outcome(Idle, s.ptr, []);
    }
  }

  /** Every tick of an append-only run is consistent, and so is every shorter run. */
  lemma {:induction false} AppendOnlyPrefix(ticks: seq<Tick>)
    requires |ticks| > 0 && AppendOnly(ticks)
    ensures forall i :: 0 <= i < |ticks| ==> Consistent(ticks[i])
    ensures AppendOnly(ticks[..|ticks| - 1])
  {
    var front := ticks[..|ticks| - 1];
    assert forall i :: 0 <= i < |front| ==> front[i] == ticks[i];
  }

  /** The last tick of a run is one more Step after the run of the ticks before it. */
  lemma RunFromLast(s: State, ticks: seq<Tick>)
    requires |ticks| > 0 && forall i :: 0 <= i < |ticks| ==> Consistent(ticks[i])
    ensures var front := ticks[..|ticks| - 1];
      && (forall i :: 0 <= i < |front| ==> Consistent(front[i]))
      && Consistent(ticks[|ticks| - 1])
      && var (mid, before) := RunFrom(s, front);
         var (last, events) := Step(mid, ticks[|ticks| - 1]);
         RunFrom(s, ticks) == (last, before + events)
  {
  }

  /** Before the last tick of an append-only run, the read position lies within the last
      file's reported length and the output so far is that file's content up to it. */
  lemma {:induction false} OutputBeforeLastTick(ticks: seq<Tick>)
    requires |ticks| > 0 && AppendOnly(ticks)
    ensures AppendOnly(ticks[..|ticks| - 1])
    ensures var (mid, before) := RunFrom(Initial, ticks[..|ticks| - 1]);
      var file := ticks[|ticks| - 1].file;
      mid.ptr <= file.length && TextOf(before) == file.data[..mid.ptr]
    decreases |ticks|, 0
  {
    var n := |ticks|;
    AppendOnlyPrefix(ticks);
    var front := ticks[..n - 1];
    var (mid, before) := RunFrom(Initial, front);
    var file := ticks[n - 1].file;
    if n > 1 {
      AppendOnlyWritesEachCharacterOnce(front);
      var prev := ticks[n - 2].file;
      assert front[n - 2] == ticks[n - 2];
      assert mid.ptr <= |prev.data| <= file.length;
      assert prev.data[..mid.ptr] == file.data[..mid.ptr];
    } else {
      assert mid == Initial && before == [];
    }
  }

  /** Exactly-once output: while a file only grows, everything the loop has written is the
      file's content up to the read position, each character once and in order, and that
      position is never short of the length last reported nor beyond the data read. */
  lemma {:induction false} AppendOnlyWritesEachCharacterOnce(ticks: seq<Tick>)
    requires |ticks| > 0 && AppendOnly(ticks)
    ensures forall i :: 0 <= i < |ticks| ==> Consistent(ticks[i])
    ensures var (last, events) := RunFrom(Initial, ticks);
      var file := ticks[|ticks| - 1].file;
      && last.status == Idle
      && file.length <= last.ptr <= |file.data|
      && TextOf(events) == file.data[..last.ptr]
    decreases |ticks|, 1
  {
    var n := |ticks|;
    AppendOnlyPrefix(ticks);
    OutputBeforeLastTick(ticks);
    var (mid, before) := RunFrom(Initial, ticks[..n - 1]);
    var file := ticks[n - 1].file;
    AppendOnlyStep(mid, TextOf(before), file.length, file.data);
    var (last, events) := Step(mid, ticks[n - 1]);
    RunFromLast(Initial, ticks);
    TextOfAppend(before, events);
  }

  // ---------------------------------------------------------------------------
  // Locating the file

  /** A file of the folder that matches the name pattern, with its FullName and LastWriteTime. */
  datatype FileEntry = FileEntry(fullName: string, lastWriteTime: int)

  /** The first entry of a stable descending sort by LastWriteTime: the first of the most
      recently written entries, in enumeration order. */
  function LatestIndex(entries: seq<FileEntry>): (k: nat)
    requires |entries| > 0
    ensures k < |entries|
    ensures forall j :: 0 <= j < |entries| ==> entries[j].lastWriteTime <= entries[k].lastWriteTime
    ensures forall j :: 0 <= j < k ==> entries[j].lastWriteTime < entries[k].lastWriteTime
  {
    if |entries| == 1 then 0
    else
      var k := LatestIndex(entries[..|entries| - 1]);
      if entries[|entries| - 1].lastWriteTime > entries[k].lastWriteTime then |entries| - 1 else k
  }

  /** What the file system and System.IO.Path report about one argument: whether it names an
      existing folder; Path.GetDirectoryName of it (None for a root, "" for a bare file name);
      whether the folder named by that directory name (or the current directory, for None)
      exists; and the files the searched folder lists for the pattern Path.GetFileName of the
      argument, in enumeration order. */
  datatype Lookup = Lookup(isFolder: bool, directoryName: Option<string>, parentIsFolder: bool,
                           matches: seq<FileEntry>)

  /** FindLastFileLike's outcome: an ArgumentException from new DirectoryInfo(""), null, or
      the FullName of a file. */
  datatype Located = Crashes | NotFound | Found(fullName: string)

  /** A bare file name, or an empty argument, makes new DirectoryInfo throw. */
  predicate BadFolderName(filename: string, l: Lookup)
  {
    filename == [] || (!l.isFolder && l.directoryName == Some([]))
  }

  /** FindLastFileLike: searches the argument itself when it is a folder, else its directory
      (the current directory when it has none); returns the most recently written match. */
  function FindLastFileLike(filename: string, l: Lookup): (r: Located)
    ensures r.Crashes? <==> BadFolderName(filename, l)
    ensures !BadFolderName(filename, l) && !l.isFolder && !l.parentIsFolder ==> r.NotFound?
    ensures !BadFolderName(filename, l) && (l.isFolder || l.parentIsFolder) ==> (r.NotFound? <==> l.matches == [])
    ensures r.Found? ==>
      exists k :: 0 <= k < |l.matches| && l.matches[k].fullName == r.fullName &&
        (forall j :: 0 <= j < |l.matches| ==> l.matches[j].lastWriteTime <= l.matches[k].lastWriteTime) &&
        (forall j :: 0 <= j < k ==> l.matches[j].lastWriteTime < l.matches[k].lastWriteTime)
  {
    if filename == [] then Crashes
    else if !l.isFolder && l.directoryName == Some([]) then Crashes
    else if !l.isFolder && !l.parentIsFolder then NotFound
    else if l.matches == [] then NotFound
    else Found(l.matches[LatestIndex(l.matches)].fullName)
  }

  // ---------------------------------------------------------------------------
  // Start-up

  /** What Main does before the loop: print the usage, die of FindLastFileLike's exception,
      or watch a path. */
  datatype Startup = Usage | Crashed | Watch(path: string, noColors: bool)

  /** Main's start-up. args.Select(FindLastFileLike).FirstOrDefault() evaluates the first
      argument only; when that finds nothing the first argument itself is watched, waiting for
      it to appear. */
  function StartUp(args: seq<string>, lookup: string -> Lookup): (r: Startup)
    ensures r.Usage? <==> args == []
    ensures r.Crashed? <==> args != [] && BadFolderName(args[0], lookup(args[0]))
    ensures r.Watch? ==>
      var ms := lookup(args[0]).matches;
      || r.path == args[0]
      || exists k :: 0 <= k < |ms| && ms[k].fullName == r.path &&
           forall j :: 0 <= j < |ms| ==> ms[j].lastWriteTime <= ms[k].lastWriteTime
    ensures r.Watch? ==> (r.noColors <==> exists i :: 0 <= i < |args| && Text.Folded(args[i]) == "--nocolors")
    ensures args != [] && !BadFolderName(args[0], lookup(args[0])) ==>
      var l := lookup(args[0]);
      if (l.isFolder || l.parentIsFolder) && l.matches != [] then
        && r.Watch?
        && exists k :: 0 <= k < |l.matches| && l.matches[k].fullName == r.path &&
             (forall j :: 0 <= j < |l.matches| ==> l.matches[j].lastWriteTime <= l.matches[k].lastWriteTime) &&
             (forall j :: 0 <= j < k ==> l.matches[j].lastWriteTime < l.matches[k].lastWriteTime)
      else
        r.Watch? && r.path == args[0]
  {
    if args == [] then Usage
    else
      var noColors := exists i :: 0 <= i < |args| && Text.EqualsIgnoreCase(args[i], "--nocolors");
      NoColorsIsFoldedMatch(args);
      match FindLastFileLike(args[0], lookup(args[0]))
      case Crashes => Crashed
      case Found(found) => Watch(found, noColors)
      case NotFound => Watch(args[0], noColors)
  }

  /** The case-insensitive "--nocolors" test compares folded forms ("--nocolors" is its own
      folded form). */
  lemma NoColorsIsFoldedMatch(args: seq<string>)
    ensures (exists i :: 0 <= i < |args| && Text.EqualsIgnoreCase(args[i], "--nocolors"))
        <==> (exists i :: 0 <= i < |args| && Text.Folded(args[i]) == "--nocolors")
  {
    assert Text.Folded("--nocolors") == "--nocolors";
    forall i | 0 <= i < |args|
      ensures Text.EqualsIgnoreCase(args[i], "--nocolors") <==> Text.Folded(args[i]) == "--nocolors"
    {
      Text.EqualsIgnoreCaseIsFoldedEquality(args[i], "--nocolors");
    }
  }

  /** Only the first argument is located: the arguments after it never change whether Main
      crashes or which path it watches. */
  lemma OnlyFirstArgumentIsLocated(first: string, rest: seq<string>, lookup: string -> Lookup)
    ensures var r, r1 := StartUp([first] + rest, lookup), StartUp([first], lookup);
      && r.Crashed? == r1.Crashed?
      && (r.Watch? ==> r1.Watch? && r.path == r1.path)
  {
    assert ([first] + rest)[0] == first;
  }

  /** "Tail --nocolors app.log": the flag is the argument that gets located. A bare name such
      as "--nocolors" that is not a folder has the directory name "", so Main dies before the
      loop and app.log is never watched. */
  lemma LeadingFlagCrashes(f: string, lookup: string -> Lookup)
    requires !lookup("--nocolors").isFolder && lookup("--nocolors").directoryName == Some([])
    ensures StartUp(["--nocolors", f], lookup) == Crashed
  {
    assert ["--nocolors", f][0] == "--nocolors";
  }
}
