/**
 * The driver loop of main: read frames until the capture ends, count every
 * frame, send every stride-th frame to the detector and classifier, record
 * a row when RECORD_INTERVAL seconds have passed since the last record, and
 * stop when 'q' is pressed. The capture, the clock and the detector are
 * replaced by a script of frames.
 */
module Pipeline {
  import opened Wrappers
  import opened Settings
  import opened Taxonomy
  import opened Sampler
  import opened Classifier
  import opened CsvSink

  /**
   * One frame the capture delivers, with what the outside world supplies
   * for it when it is processed: time.time() (line 142), the formatted
   * datetime.now() (line 176), the detector's results, and whether
   * waitKey returned 'q'.
   */
  datatype Frame = Frame(time: real, timestamp: string, results: seq<seq<Detection>>, quit: bool)

  /** How a run of main ends. */
  datatype Outcome = SourceUnavailable | Finished(framesRead: nat, detectorCalls: nat)

  /** The record check: current_time - last_record_time >= RECORD_INTERVAL. */
  predicate ShouldRecord(currentTime: real, lastRecordTime: real) {
    currentTime - lastRecordTime >= RecordInterval
  }

  /** The 1-based frame k is processed and the quit key is seen after it. */
  predicate QuitsAt(frames: seq<Frame>, stride: nat, k: nat)
    requires stride >= 1
  {
    1 <= k <= |frames| && IsProcessed(k, stride) && frames[k - 1].quit
  }

  /**
   * frame_count when the loop ends: the first processed frame after which
   * the quit key is seen, or the number of frames when there is none.
   */
  function FramesRead(frames: seq<Frame>, stride: nat): (r: nat)
    requires stride >= 1
    ensures r <= |frames|
    ensures |frames| > 0 ==> r >= 1
    ensures forall k :: 1 <= k < r ==> !QuitsAt(frames, stride, k)
    ensures r == |frames| || QuitsAt(frames, stride, r)
  {
    if frames == [] then 0
    else
      var prefix := frames[..|frames| - 1];
      var p := FramesRead(prefix, stride);
      assert forall k :: 1 <= k <= |prefix| ==> (QuitsAt(prefix, stride, k) <==> QuitsAt(frames, stride, k));
      if p < |prefix| || (p >= 1 && QuitsAt(prefix, stride, p)) then p else |frames|
  }

  /** The loop stops at frame n exactly when n is the first processed frame with a quit, or the last frame. */
  lemma {:induction false} FramesReadIs(frames: seq<Frame>, stride: nat, n: nat)
    requires stride >= 1 && n <= |frames|
    requires forall k :: 1 <= k < n ==> !QuitsAt(frames, stride, k)
    requires n == |frames| || QuitsAt(frames, stride, n)
    ensures FramesRead(frames, stride) == n
  {
  }

  /**
   * The record state after the frames fs have been read: the time of the
   * last record (start_time before the first) and the 1-based indices of
   * the frames on which a record fired.
   */
  datatype Session = Session(lastRecordTime: real, recorded: seq<nat>)

  function Replay(fs: seq<Frame>, stride: nat, startTime: real): (s: Session)
    requires stride >= 1
    ensures forall j :: 0 <= j < |s.recorded| ==> 1 <= s.recorded[j] <= |fs| && IsProcessed(s.recorded[j], stride)
    ensures forall j, k :: 0 <= j < k < |s.recorded| ==> s.recorded[j] < s.recorded[k]
    ensures s.lastRecordTime == if s.recorded == [] then startTime
                                else fs[s.recorded[|s.recorded| - 1] - 1].time
  {
    if fs == [] then Session(startTime, [])
    else
      var prev := Replay(fs[..|fs| - 1], stride, startTime);
      var n := |fs|;
      if IsProcessed(n, stride) && ShouldRecord(fs[n - 1].time, prev.lastRecordTime) then
        Session(fs[n - 1].time, prev.recorded + [n])
      else prev
  }

  /** Reading frame n + 1 extends the record state of the first n frames. */
  lemma {:induction false} ReplayStep(frames: seq<Frame>, stride: nat, startTime: real, n: nat)
    requires stride >= 1 && n < |frames|
    ensures var prev := Replay(frames[..n], stride, startTime);
      Replay(frames[..n + 1], stride, startTime) ==
        if IsProcessed(n + 1, stride) && ShouldRecord(frames[n].time, prev.lastRecordTime) then
          Session(frames[n].time, prev.recorded + [n + 1])
        else prev
  {
    assert frames[..n + 1][..n] == frames[..n];
  }

  /**
   * The flush rule: frame k gets a record exactly when it is processed and
   * at least RECORD_INTERVAL has passed since the record before it.
   */
  lemma {:induction false} RecordedIff(fs: seq<Frame>, stride: nat, startTime: real, k: nat)
    requires stride >= 1 && 1 <= k <= |fs|
    ensures k in Replay(fs, stride, startTime).recorded <==>
      IsProcessed(k, stride) && ShouldRecord(fs[k - 1].time, Replay(fs[..k - 1], stride, startTime).lastRecordTime)
  {
    var prefix := fs[..|fs| - 1];
    var prev := Replay(prefix, stride, startTime);
    if k == |fs| {
      assert prefix == fs[..k - 1];
      assert k !in prev.recorded;
    } else {
      RecordedIff(prefix, stride, startTime, k);
      assert prefix[..k - 1] == fs[..k - 1];
      assert prefix[k - 1] == fs[k - 1];
    }
  }

  /**
   * The frames at the 1-based indices r are spaced in time: each comes at
   * least RECORD_INTERVAL after the start and at least RECORD_INTERVAL after
   * every earlier one.
   */
  predicate Spaced(fs: seq<Frame>, r: seq<nat>, startTime: real)
    requires forall j :: 0 <= j < |r| ==> 1 <= r[j] <= |fs|
  {
    (forall j :: 0 <= j < |r| ==> fs[r[j] - 1].time - startTime >= RecordInterval) &&
    (forall j, k :: 0 <= j < k < |r| ==> fs[r[k] - 1].time - fs[r[j] - 1].time >= RecordInterval)
  }

  /** Spacing only looks at the frames the indices name. */
  lemma {:induction false} SpacedExtend(prefix: seq<Frame>, fs: seq<Frame>, r: seq<nat>, startTime: real)
    requires prefix <= fs
    requires forall j :: 0 <= j < |r| ==> 1 <= r[j] <= |prefix|
    requires Spaced(prefix, r, startTime)
    ensures Spaced(fs, r, startTime)
  {
    forall j | 0 <= j < |r|
      ensures fs[r[j] - 1].time == prefix[r[j] - 1].time
    {
    }
  }

  /** A frame far enough from the last of the spaced frames keeps them spaced. */
  lemma {:induction false} SpacedSnoc(fs: seq<Frame>, r: seq<nat>, startTime: real, lastTime: real, n: nat)
    requires forall j :: 0 <= j < |r| ==> 1 <= r[j] <= |fs|
    requires 1 <= n <= |fs|
    requires Spaced(fs, r, startTime)
    requires lastTime == if r == [] then startTime else fs[r[|r| - 1] - 1].time
    requires ShouldRecord(fs[n - 1].time, lastTime)
    ensures Spaced(fs, r + [n], startTime)
  {
    var r' := r + [n];
    var t := fs[n - 1].time;
    if r != [] {
      var last := fs[r[|r| - 1] - 1].time;
      assert last - startTime >= RecordInterval;
      forall j | 0 <= j < |r|
        ensures t - fs[r[j] - 1].time >= RecordInterval
      {
        if j < |r| - 1 {
          assert last - fs[r[j] - 1].time >= RecordInterval;
        }
      }
    }
    forall j | 0 <= j < |r'|
      ensures fs[r'[j] - 1].time - startTime >= RecordInterval
    {
      if j < |r| {
        assert r'[j] == r[j];
      }
    }
    forall j, k | 0 <= j < k < |r'|
      ensures fs[r'[k] - 1].time - fs[r'[j] - 1].time >= RecordInterval
    {
      assert r'[j] == r[j];
      if k < |r| {
        assert r'[k] == r[k];
      }
    }
  }

  /** The record state before the last frame, read against the whole frame list. */
  lemma {:induction false} ReplayBeforeLast(fs: seq<Frame>, stride: nat, startTime: real)
    requires stride >= 1 && fs != []
    ensures var prev := Replay(fs[..|fs| - 1], stride, startTime);
      (forall j :: 0 <= j < |prev.recorded| ==> 1 <= prev.recorded[j] < |fs|) &&
      prev.lastRecordTime == if prev.recorded == [] then startTime
                             else fs[prev.recorded[|prev.recorded| - 1] - 1].time
  {
    var prefix := fs[..|fs| - 1];
    var prev := Replay(prefix, stride, startTime);
    if prev.recorded != [] {
      var last := prev.recorded[|prev.recorded| - 1];
      assert prefix[last - 1] == fs[last - 1];
    }
  }

  /** A record fired on the last frame keeps the records before it spaced. */
  lemma {:induction false} SpacedFire(fs: seq<Frame>, stride: nat, startTime: real)
    requires stride >= 1 && fs != []
    requires var prev := Replay(fs[..|fs| - 1], stride, startTime);
      Spaced(fs, prev.recorded, startTime) && ShouldRecord(fs[|fs| - 1].time, prev.lastRecordTime)
    ensures var prev := Replay(fs[..|fs| - 1], stride, startTime);
      Spaced(fs, prev.recorded + [|fs|], startTime)
  {
    var prev := Replay(fs[..|fs| - 1], stride, startTime);
    ReplayBeforeLast(fs, stride, startTime);
    SpacedSnoc(fs, prev.recorded, startTime, prev.lastRecordTime, |fs|);
  }

  /** Reading one more frame keeps the records spaced. */
  lemma {:induction false} SpacedStep(fs: seq<Frame>, stride: nat, startTime: real)
    requires stride >= 1 && fs != []
    requires Spaced(fs, Replay(fs[..|fs| - 1], stride, startTime).recorded, startTime)
    ensures Spaced(fs, Replay(fs, stride, startTime).recorded, startTime)
  {
    var n := |fs|;
    var prev := Replay(fs[..n - 1], stride, startTime);
    if IsProcessed(n, stride) && ShouldRecord(fs[n - 1].time, prev.lastRecordTime) {
      SpacedFire(fs, stride, startTime);
      assert Replay(fs, stride, startTime).recorded == prev.recorded + [n];
    } else {
      assert Replay(fs, stride, startTime).recorded == prev.recorded;
    }
  }

  /** Records are spaced by at least RECORD_INTERVAL, the first one from the start. */
  lemma {:induction false} RecordsSpaced(fs: seq<Frame>, stride: nat, startTime: real)
    requires stride >= 1
    ensures Spaced(fs, Replay(fs, stride, startTime).recorded, startTime)
  {
    if fs != [] {
      var prefix := fs[..|fs| - 1];
      RecordsSpaced(prefix, stride, startTime);
      SpacedExtend(prefix, fs, Replay(prefix, stride, startTime).recorded, startTime);
      SpacedStep(fs, stride, startTime);
    }
  }

  /**
   * What the detector hands back for a processed frame: at least one result,
   * so results[0].plot() does not raise, and a name for every class id, so
   * class_names[cls_id] does not raise.
   */
  predicate Detectable(f: Frame, classNames: map<int, string>) {
    |f.results| >= 1 && AllKnown(f.results, classNames)
  }

  /** Every processed frame that is read is one the script handles without raising. */
  predicate DetectableWhereProcessed(frames: seq<Frame>, stride: nat, classNames: map<int, string>)
    requires stride >= 1
  {
    forall k :: 1 <= k <= FramesRead(frames, stride) && IsProcessed(k, stride) ==>
      Detectable(frames[k - 1], classNames)
  }

  /** elapsed_time = current_time - start_time */
  function Elapsed(currentTime: real, startTime: real): real {
    currentTime - startTime
  }

  /** The record written on frame f: its timestamp, its elapsed time and its own counts. */
  function RecordOf(f: Frame, startTime: real, classNames: map<int, string>): Summary
    requires AllKnown(f.results, classNames)
  {
    Summary(f.timestamp, Elapsed(f.time, startTime), FrameTally(f.results, classNames))
  }

  /** The given 1-based frames exist and their class ids have names. */
  predicate RecordsDefined(frames: seq<Frame>, recorded: seq<nat>, classNames: map<int, string>) {
    forall j :: 0 <= j < |recorded| ==>
      1 <= recorded[j] <= |frames| && AllKnown(frames[recorded[j] - 1].results, classNames)
  }

  /** The records written on the given 1-based frames, in order. */
  function Records(frames: seq<Frame>, recorded: seq<nat>, startTime: real, classNames: map<int, string>): (r: seq<Summary>)
    requires RecordsDefined(frames, recorded, classNames)
    ensures |r| == |recorded|
    ensures forall j :: 0 <= j < |recorded| ==> r[j] == RecordOf(frames[recorded[j] - 1], startTime, classNames)
  {
    if recorded == [] then []
    else
      var prefix := recorded[..|recorded| - 1];
      assert RecordsDefined(frames, prefix, classNames);
      Records(frames, prefix, startTime, classNames) + [RecordOf(frames[recorded[|recorded| - 1] - 1], startTime, classNames)]
  }

  /** Recording on one more frame appends its record. */
  lemma {:induction false} RecordsSnoc(frames: seq<Frame>, recorded: seq<nat>, k: nat, startTime: real,
                                       classNames: map<int, string>)
    requires RecordsDefined(frames, recorded, classNames)
    requires 1 <= k <= |frames| && AllKnown(frames[k - 1].results, classNames)
    ensures RecordsDefined(frames, recorded + [k], classNames)
    ensures Records(frames, recorded + [k], startTime, classNames) ==
      Records(frames, recorded, startTime, classNames) + [RecordOf(frames[k - 1], startTime, classNames)]
  {
    var r := recorded + [k];
    assert r[..|r| - 1] == recorded && r[|r| - 1] == k;
    assert RecordsDefined(frames, r, classNames);
    assert Records(frames, r, startTime, classNames) ==
      Records(frames, r[..|r| - 1], startTime, classNames) + [RecordOf(frames[r[|r| - 1] - 1], startTime, classNames)];
  }

  /** Every frame the loop has recorded on, after reading m frames, is a processed frame that was read. */
  lemma {:induction false} ReplayRecordsDefined(frames: seq<Frame>, stride: nat, startTime: real, classNames: map<int, string>, m: nat)
    requires stride >= 1 && DetectableWhereProcessed(frames, stride, classNames)
    requires m <= FramesRead(frames, stride)
    ensures var rec := Replay(frames[..m], stride, startTime).recorded;
      RecordsDefined(frames, rec, classNames) &&
      forall j :: 0 <= j < |rec| ==> 1 <= rec[j] <= m && IsProcessed(rec[j], stride)
  {
    var rec := Replay(frames[..m], stride, startTime).recorded;
    forall j | 0 <= j < |rec|
      ensures 1 <= rec[j] <= m && IsProcessed(rec[j], stride)
      ensures AllKnown(frames[rec[j] - 1].results, classNames)
    {
      var k := rec[j];
      assert 1 <= k <= FramesRead(frames, stride) && IsProcessed(k, stride);
    }
  }

  /** The records of a whole run of the loop. */
  function SessionRecords(frames: seq<Frame>, stride: nat, startTime: real, classNames: map<int, string>): seq<Summary>
    requires stride >= 1 && DetectableWhereProcessed(frames, stride, classNames)
  {
    ReplayRecordsDefined(frames, stride, startTime, classNames, FramesRead(frames, stride));
    var n := FramesRead(frames, stride);
    Records(frames, Replay(frames[..n], stride, startTime).recorded, startTime, classNames)
  }

  /** The j-th row appended for the given records reads back as the j-th record. */
  lemma {:induction false} RowDecodes(init: FileState, recs: seq<Summary>, j: nat)
    requires j < |recs|
    ensures DecodeRow(AppendAll(init, recs).rows[|init.rows| + j]) == Some(recs[j])
  {
    assert AppendAll(init, recs).rows[|init.rows| + j] == EncodeRow(recs[j]);
    DecodeEncode(recs[j]);
  }

  /**
   * Row contents: the j-th row appended for the records of the given frames
   * reads back as the timestamp of the j-th of those frames, its time minus
   * the start, and that frame's own counts (not a running sum), whose total
   * is the sum of its categories.
   */
  lemma {:induction false} RowsCarryFrameCounts(init: FileState, frames: seq<Frame>, recorded: seq<nat>, startTime: real,
                             classNames: map<int, string>, j: nat)
    requires RecordsDefined(frames, recorded, classNames) && j < |recorded|
    ensures var f := frames[recorded[j] - 1];
      var g := AppendAll(init, Records(frames, recorded, startTime, classNames));
      DecodeRow(g.rows[|init.rows| + j]) ==
        Some(Summary(f.timestamp, Elapsed(f.time, startTime), FrameTally(f.results, classNames))) &&
      FrameTally(f.results, classNames).Consistent()
  {
    var f := frames[recorded[j] - 1];
    var recs := Records(frames, recorded, startTime, classNames);
    RowDecodes(init, recs, j);
    assert recs[j] == RecordOf(f, startTime, classNames);
    FrameTallyConsistent(f.results, classNames);
  }

  /** The file the loop has written once m frames have been read, from the file init it started with. */
  ghost function Written(init: FileState, frames: seq<Frame>, stride: nat, startTime: real,
                         classNames: map<int, string>, m: nat): FileState
    requires stride >= 1 && DetectableWhereProcessed(frames, stride, classNames)
    requires m <= FramesRead(frames, stride)
  {
    ReplayRecordsDefined(frames, stride, startTime, classNames, m);
    AppendAll(init, Records(frames, Replay(frames[..m], stride, startTime).recorded, startTime, classNames))
  }

  /** Reading frame m + 1 appends its record exactly when the record check fires on it. */
  lemma {:induction false} WrittenStep(init: FileState, frames: seq<Frame>, stride: nat, startTime: real,
                    classNames: map<int, string>, m: nat)
    requires stride >= 1 && DetectableWhereProcessed(frames, stride, classNames)
    requires m < FramesRead(frames, stride)
    ensures var prev := Replay(frames[..m], stride, startTime);
      var fires := IsProcessed(m + 1, stride) && ShouldRecord(frames[m].time, prev.lastRecordTime);
      (IsProcessed(m + 1, stride) ==> Detectable(frames[m], classNames)) &&
      Replay(frames[..m + 1], stride, startTime).lastRecordTime ==
        (if fires then frames[m].time else prev.lastRecordTime) &&
      Written(init, frames, stride, startTime, classNames, m + 1) ==
        if fires then AfterAppend(Written(init, frames, stride, startTime, classNames, m),
                                  RecordOf(frames[m], startTime, classNames))
        else Written(init, frames, stride, startTime, classNames, m)
  {
    ReplayStep(frames, stride, startTime, m);
    ReplayRecordsDefined(frames, stride, startTime, classNames, m);
    ReplayRecordsDefined(frames, stride, startTime, classNames, m + 1);
    var prev := Replay(frames[..m], stride, startTime);
    if IsProcessed(m + 1, stride) && ShouldRecord(frames[m].time, prev.lastRecordTime) {
      var recs := Records(frames, prev.recorded, startTime, classNames);
      var r := RecordOf(frames[m], startTime, classNames);
      RecordsSnoc(frames, prev.recorded, m + 1, startTime, classNames);
      AppendAllSnoc(init, recs, r);
    }
  }

  /**
   * One processed frame, lines 142-182 of main: take the time, run the
   * detector, count, and append a row when RECORD_INTERVAL has passed since
   * the last record. Returns the new last_record_time.
   */
  method ProcessFrame(file: CsvFile, frame: Frame, startTime: real, lastRecordTime: real,
                      classNames: map<int, string>) returns (newLastRecordTime: real)
    requires Detectable(frame, classNames)
    modifies file
    ensures var fires := ShouldRecord(frame.time, lastRecordTime);
      newLastRecordTime == (if fires then frame.time else lastRecordTime) &&
      file.State() == if fires then AfterAppend(old(file.State()), RecordOf(frame, startTime, classNames))
                      else old(file.State())
  {
    var currentTime := frame.time;
    var elapsedTime := Elapsed(currentTime, startTime);
    var counts := CountVehicles(frame.results, classNames);
    // results[0].plot(): the overlay is drawn on the first result; the drawing itself is not modelled
    var annotated := frame.results[0];
    newLastRecordTime := lastRecordTime;
    if ShouldRecord(currentTime, lastRecordTime) {
      file.SaveToCsv(frame.timestamp, elapsedTime, counts);
      newLastRecordTime := currentTime;
    }
  }

  /**
   * The frame loop of main, lines 130-190: read frames until the capture
   * ends, process every stride-th one, and stop after a processed frame on
   * which the quit key is seen. Returns frame_count and the number of
   * detector calls.
   */
  method ReadFrames(file: CsvFile, frameSkip: nat, startTime: real, frames: seq<Frame>,
                    classNames: map<int, string>) returns (frameCount: nat, detectorCalls: nat, ghost calls: seq<nat>)
    requires frameSkip >= 1 && DetectableWhereProcessed(frames, frameSkip, classNames)
    modifies file
    ensures var n := FramesRead(frames, frameSkip);
      frameCount == n && calls == Processed(n, frameSkip) && detectorCalls == |calls| == n / frameSkip &&
      file.State() == Written(old(file.State()), frames, frameSkip, startTime, classNames, n)
  {
    ghost var init := file.State();
    var lastRecordTime := startTime;
    frameCount := 0;
    detectorCalls := 0;
    calls := [];
    while frameCount < |frames|
      invariant frameCount < FramesRead(frames, frameSkip) || frameCount == FramesRead(frames, frameSkip) == |frames|
      invariant calls == Processed(frameCount, frameSkip)
      invariant detectorCalls == |calls| == frameCount / frameSkip
      invariant lastRecordTime == Replay(frames[..frameCount], frameSkip, startTime).lastRecordTime
      invariant file.State() == Written(init, frames, frameSkip, startTime, classNames, frameCount)
    {
      WrittenStep(init, frames, frameSkip, startTime, classNames, frameCount);
      DivStep(frameCount, frameSkip);
      var frame := frames[frameCount];
      frameCount := frameCount + 1;
      if frameCount % frameSkip != 0 {
        continue;
      }
      detectorCalls := detectorCalls + 1;
      calls := calls + [frameCount];
      lastRecordTime := ProcessFrame(file, frame, startTime, lastRecordTime, classNames);
      if frame.quit {
        assert QuitsAt(frames, frameSkip, frameCount);
        break;
      }
    }
  }

  /**
   * main() from initialize_csv on: the header is written before the
   * capture is opened; an unopenable capture ends the run there.
   */
  method Run(file: CsvFile, sourceOpened: bool, fps: int, startTime: real, frames: seq<Frame>,
             classNames: map<int, string>) returns (outcome: Outcome)
    requires file.Valid()
    requires DetectableWhereProcessed(frames, Stride(fps, ProcessFps), classNames)
    modifies file
    ensures file.Valid()
    ensures !sourceOpened ==> outcome == SourceUnavailable && file.State() == AfterInitialize(old(file.State()))
    ensures sourceOpened ==>
      var stride := Stride(fps, ProcessFps);
      var n := FramesRead(frames, stride);
      outcome == Finished(n, n / stride) &&
      file.State() == AppendAll(AfterInitialize(old(file.State())),
                                SessionRecords(frames, stride, startTime, classNames))
  {
    file.InitializeCsv();
    if !sourceOpened {
      return SourceUnavailable;
    }
    var frameSkip := Stride(fps, ProcessFps);
    var frameCount: nat, detectorCalls: nat;
    ghost var calls: seq<nat>;
    frameCount, detectorCalls, calls := ReadFrames(file, frameSkip, startTime, frames, classNames);
    return Finished(frameCount, detectorCalls);
  }
}
