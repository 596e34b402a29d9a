/**
 * `ClientHandler.run`: one connection's loop. The object stream is a
 * sequence of frames; each read yields an object or throws, and the
 * handler classifies and records every `NewsItem` until the first read
 * that throws. Whatever ends the loop, the socket ends up closed, and
 * `close` is called only on a socket that is still open.
 */
module ClientHandler {
  import opened Wrappers
  import opened AnalyzedNewsItem
  import NewsAnalyzerServer

  /** The `IOException`s the handler tells apart: `EOFException`, `SocketException`, any other. */
  datatype StreamFault = EndOfStream | SocketFault | IoFault

  /** What one `readObject` call does. */
  datatype Frame =
    | ItemFrame(item: ReceivedItem)   // a `NewsItem`
    | OtherObject                     // any other object, or null
    | Fails(fault: StreamFault)       // the read throws an `IOException`
    | UnknownClass                    // the read throws `ClassNotFoundException`

  /** Which handler the loop left through. */
  datatype Exit = StreamEnded(fault: StreamFault) | ClassNotFound

  predicate Terminal(f: Frame) {
    f.Fails? || f.UnknownClass?
  }

  /** The exit taken when frame `f` is read. */
  function ExitAt(f: Frame): Exit
    requires Terminal(f)
  {
    if f.Fails? then StreamEnded(f.fault) else ClassNotFound
  }

  /** The client socket, reduced to whether it is closed and how often `close` was called. */
  class Socket {
    var closed: bool
    var closeCount: nat

    constructor (closed: bool)
      ensures this.closed == closed && closeCount == 0
    {
      this.closed := closed;
      closeCount := 0;
    }

    method Close()
      modifies this
      ensures closed && closeCount == old(closeCount) + 1
    {
      closed := true;
      closeCount := closeCount + 1;
    }
  }

  // ------------------------------------------------------- specification

  /** The position of the first read that throws, or `|frames|` when none does before the stream runs out. */
  function FirstTerminal(frames: seq<Frame>): (k: nat)
    ensures k <= |frames|
    ensures forall j :: 0 <= j < k ==> !Terminal(frames[j])
    ensures k < |frames| ==> Terminal(frames[k])
  {
    if frames == [] then 0
    else if Terminal(frames[0]) then 0
    else 1 + FirstTerminal(frames[1..])
  }

  /** How the loop ends: at the first throwing read, or with `EOFException` after the last frame. */
  function ExitOf(frames: seq<Frame>): Exit {
    var k := FirstTerminal(frames);
    if k < |frames| then ExitAt(frames[k]) else StreamEnded(EndOfStream)
  }

  /** How many frames are read: all up to and including the one that throws. */
  function Consumed(frames: seq<Frame>): (n: nat)
    ensures n <= |frames|
  {
    var k := FirstTerminal(frames);
    if k < |frames| then k + 1 else k
  }

  /**
   * The records that the recorder receives for frames that do not throw: one
   * per item, with the verdict of `analyze` on its headline and the time
   * `clock` gives at its position.
   */
  function Records(frames: seq<Frame>, analyze: Option<string> -> AnalysisResult, clock: nat -> Timestamp): seq<AnalyzedRecord> {
    if frames == [] then []
    else
      var n := |frames| - 1;
      Records(frames[..n], analyze, clock)
      + (if frames[n].ItemFrame? then [AnalyzedRecord(Some(frames[n].item), analyze(frames[n].item.headline), clock(n))] else [])
  }

  /** The items among the frames, in order. */
  function Items(frames: seq<Frame>): seq<ReceivedItem> {
    if frames == [] then []
    else
      var n := |frames| - 1;
      Items(frames[..n]) + (if frames[n].ItemFrame? then [frames[n].item] else [])
  }

  // ------------------------------------------------------------- handler

  class Handler {
    const socket: Socket
    const analyze: Option<string> -> AnalysisResult
    /** The `analysisRecorder` callback: the server's `recordAnalysis`, or null. */
    const recorder: Option<NewsAnalyzerServer.Server>

    constructor (socket: Socket, analyze: Option<string> -> AnalysisResult, recorder: Option<NewsAnalyzerServer.Server>)
      ensures this.socket == socket && this.analyze == analyze && this.recorder == recorder
    {
      this.socket := socket;
      this.analyze := analyze;
      this.recorder := recorder;
    }

    /** The objects `run` may change: the socket, and the server behind the recorder. */
    function Footprint(): set<object> {
      {socket} + (if recorder.Some? then {recorder.value} else {})
    }

    /**
     * `run` on a connection whose stream header either reads (`header` is
     * `None`) or fails with a fault, followed by `frames`. `clock(j)` is the
     * instant at which the item at position `j` is recorded.
     */
    method Run(frames: seq<Frame>, header: Option<StreamFault>, clock: nat -> Timestamp) returns (exit: Exit, consumed: nat)
      modifies Footprint()
      ensures socket.closed
      ensures socket.closeCount == old(socket.closeCount) + (if old(socket.closed) then 0 else 1)
      ensures old(socket.closed) ==> exit == StreamEnded(SocketFault) && consumed == 0
      ensures !old(socket.closed) && header.Some? ==> exit == StreamEnded(header.value) && consumed == 0
      ensures !old(socket.closed) && header.None? ==> exit == ExitOf(frames) && consumed == Consumed(frames)
      ensures recorder.Some? ==>
        recorder.value.store == old(recorder.value.store)
          + (if old(socket.closed) || header.Some? then [] else Records(frames[..FirstTerminal(frames)], analyze, clock))
    {
      if socket.closed {
        // `getInputStream` throws `SocketException`; the `finally` sees a closed socket.
        return StreamEnded(SocketFault), 0;
      }
      if header.Some? {
        // No stream was opened, so only the `finally` closes the socket.
        exit := StreamEnded(header.value);
        socket.Close();
        return exit, 0;
      }
      var k := FirstTerminal(frames);
      var i := 0;
      while i < |frames| && !Terminal(frames[i])
        invariant 0 <= i <= k
        invariant !socket.closed && socket.closeCount == old(socket.closeCount)
        invariant recorder.Some? ==> recorder.value.store == old(recorder.value.store) + Records(frames[..i], analyze, clock)
        decreases |frames| - i
      {
        if frames[i].ItemFrame? {
          var item := frames[i].item;
          var result := analyze(item.headline);
          if recorder.Some? {
            recorder.value.RecordAnalysis(Some(item), result, clock(i));
          }
        }
        // any other object is reported and skipped
        assert frames[..i + 1][..i] == frames[..i];
        i := i + 1;
      }
      if i < |frames| {
        exit, consumed := ExitAt(frames[i]), i + 1;
      } else {
        exit, consumed := StreamEnded(EndOfStream), i;
      }
      // Closing the `ObjectInputStream` closes the socket, so the `finally`
      // finds it closed and does not close it again.
      socket.Close();
    }
  }

  // ---------------------------------------------------------- properties

  /** One record per item frame, in frame order, each carrying its item and the verdict on its headline. */
  lemma {:induction false} RecordsFollowItems(frames: seq<Frame>, analyze: Option<string> -> AnalysisResult, clock: nat -> Timestamp)
    ensures |Records(frames, analyze, clock)| == |Items(frames)|
    ensures forall j :: 0 <= j < |Items(frames)| ==>
      Records(frames, analyze, clock)[j].originalItem == Some(Items(frames)[j])
      && Records(frames, analyze, clock)[j].result == analyze(Items(frames)[j].headline)
  {
    if frames != [] {
      RecordsFollowItems(frames[..|frames| - 1], analyze, clock);
    }
  }

  /** Frames after the first throwing read change nothing: they are never read. */
  lemma {:induction false} LaterFramesUnread(frames: seq<Frame>, more: seq<Frame>)
    requires FirstTerminal(frames) < |frames|
    ensures FirstTerminal(frames + more) == FirstTerminal(frames)
    ensures ExitOf(frames + more) == ExitOf(frames)
    ensures Consumed(frames + more) == Consumed(frames)
    decreases |frames|
  {
    if !Terminal(frames[0]) {
      assert (frames + more)[1..] == frames[1..] + more;
      LaterFramesUnread(frames[1..], more);
    }
  }

  /** A frame that is not an item adds no record: the loop just reads on. */
  lemma SkippedFrame(frames: seq<Frame>, analyze: Option<string> -> AnalysisResult, clock: nat -> Timestamp)
    ensures Records(frames + [OtherObject], analyze, clock) == Records(frames, analyze, clock)
    ensures Items(frames + [OtherObject]) == Items(frames)
  {
    assert (frames + [OtherObject])[..|frames|] == frames;
  }

  /** An unexpected object, an item, then the end of the stream: exactly that item is recorded. */
  lemma OtherObjectThenItem(x: ReceivedItem, analyze: Option<string> -> AnalysisResult, clock: nat -> Timestamp)
    ensures ExitOf([OtherObject, ItemFrame(x)]) == StreamEnded(EndOfStream)
    ensures Consumed([OtherObject, ItemFrame(x)]) == 2
    ensures Records([OtherObject, ItemFrame(x)][..FirstTerminal([OtherObject, ItemFrame(x)])], analyze, clock)
            == [AnalyzedRecord(Some(x), analyze(x.headline), clock(1))]
  {
    var fs := [OtherObject, ItemFrame(x)];
    assert fs[1..] == [ItemFrame(x)];
    assert fs[1..][1..] == [];
    assert FirstTerminal(fs) == 2;
    assert fs[..2] == fs;
    assert fs[..1] == [OtherObject];
    assert [OtherObject][..0] == [];
    assert Records([OtherObject], analyze, clock) == [];
  }

  /** An unknown class stops the handler even when items follow: nothing after it is recorded. */
  lemma UnknownClassStops(x: ReceivedItem, analyze: Option<string> -> AnalysisResult, clock: nat -> Timestamp)
    ensures ExitOf([ItemFrame(x), UnknownClass, ItemFrame(x)]) == ClassNotFound
    ensures Consumed([ItemFrame(x), UnknownClass, ItemFrame(x)]) == 2
    ensures Records([ItemFrame(x), UnknownClass, ItemFrame(x)][..FirstTerminal([ItemFrame(x), UnknownClass, ItemFrame(x)])], analyze, clock)
            == [AnalyzedRecord(Some(x), analyze(x.headline), clock(0))]
  {
    var fs := [ItemFrame(x), UnknownClass, ItemFrame(x)];
    assert fs[1..] == [UnknownClass, ItemFrame(x)];
    assert FirstTerminal(fs) == 1;
    assert fs[..1] == [ItemFrame(x)];
    assert [ItemFrame(x)][..0] == [];
  }
}
