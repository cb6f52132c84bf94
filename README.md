# Vehicle counting pipeline, modelled in Dafny

This project models the counting core of `detect_and_count.py`, a script that
reads a video, sends every stride-th frame to an object detector, counts the
vehicles the detector reports and appends a row to a CSV file whenever
`RECORD_INTERVAL` seconds have passed since the last one.

The model has seven modules:

- `Wrappers` holds the `Option` type.
- `Settings` holds the script's constants: `RECORD_INTERVAL = 5`, `PROCESS_FPS = 15` and `CONFIDENCE_THRESHOLD = 0.4`.
- `Taxonomy` holds the seven vehicle categories of `VEHICLE_CLASSES` and the `counts` record with its total.
- `Sampler` holds the frame-skip interval and the test that picks the frames the detector sees.
- `Classifier` holds `count_vehicles`. It is a method with the source's two nested loops, proved against a recursive specification `FrameTally`.
- `CsvSink` holds `initialize_csv` and `save_to_csv`. They are methods of a `CsvFile` class whose fields are the existence flag and the rows. Each method is proved against a pure file-state function.
- `Pipeline` holds the loop of `main`. The video capture, the clock, the detector and the keyboard are replaced by a script of frames. Each frame carries its `time.time()` value, its formatted timestamp, the detector's results and whether `q` was pressed.

The loop is `ReadFrames`, a method with a `while` loop. It is proved against three pure functions:

- `FramesRead`, the number of frames the loop reads;
- `Processed`, the frames the detector sees;
- `Written`, the file after a prefix of frames, built from `Replay`, the record state after that prefix.

`Run` is proved against `SessionRecords`, the records the whole run appends.

The lemmas about those functions state the rules:

- the flush rule;
- the spacing of records;
- the contents of each row;
- that the header is written once.

Four facts about the script shape the model:

- The stride is `max(1, int(fps / PROCESS_FPS))`, so it truncates. It does not round: fps 29 gives stride 1, not 2.
- A written row holds only the counts of the frame on which the record fired. There is no running window, and counts are not reset. `count_vehicles` builds a fresh dictionary for every frame.
- The quit key is read only on processed frames. Skipped frames `continue` before `waitKey`.
- `initialize_csv` runs before the capture is opened. A source that cannot be opened still leaves the file as `initialize_csv` left it. A new file then holds only the header. An existing file keeps its rows, and gets no header if it had none.

## Model

| member | source | states |
|---|---|---|
| Taxonomy.Ordinal | detect_and_count.py:22 | each category has one position, below 7, and `VEHICLE_CLASSES` holds its label at that position |
| Taxonomy.CategoryOf | detect_and_count.py:56-59 | a label names a counter exactly when it is in `VEHICLE_CLASSES`, and the counter it names carries that label |
| Taxonomy.LabelRoundTrip | detect_and_count.py:37-46 | looking up a category's label gives back that category |
| Taxonomy.Counts.IncTotal | detect_and_count.py:57 | `counts['total'] += 1` raises the total by one and leaves every category counter as it was |
| Taxonomy.Counts.Bump | detect_and_count.py:58-59 | `counts[cls_name] += 1` raises that category by one and changes neither the total nor any other category |
| Sampler.TruncDiv | detect_and_count.py:116 | `int(a / b)` for b > 0 truncates toward zero: q·b <= a < (q+1)·b for a >= 0, and (q-1)·b < a <= q·b with q <= 0 for a < 0 |
| Sampler.Stride | detect_and_count.py:115-121 | the frame skip is at least 1; it is 1 when `PROCESS_FPS` is unset or not positive, and 1 when fps is below `PROCESS_FPS` (including fps 0 and negative fps) |
| Sampler.StrideFits | detect_and_count.py:116-117 | when fps >= target, stride·target <= fps < (stride+1)·target, i.e. the quotient is truncated, and the achieved fps / stride stays below twice the target |
| Sampler.IsProcessed | detect_and_count.py:139 | the skip test `frame_count % frame_skip != 0`, negated (a specification predicate; Processed, ProcessedComplete and ReadFrames state its use) |
| Sampler.Processed | detect_and_count.py:136-140 | the frames that reach the detector among the first n are 1-based, within 1..n, have `frame_count % frame_skip == 0`, and are listed in increasing order |
| Sampler.ProcessedComplete | detect_and_count.py:136-140 | every frame i <= n with i mod stride = 0 is among them |
| Sampler.DivStep | detect_and_count.py:136-140 | reading frame n+1 adds one processed frame exactly when n+1 is a multiple of the stride |
| Sampler.ProcessedCount | detect_and_count.py:136-146 | after n reads, exactly n div stride frames were processed |
| Classifier.Lower | detect_and_count.py:54 | `lower()` keeps the length and leaves no upper-case letter |
| Classifier.LowerIdempotent | detect_and_count.py:54 | lower-casing a lower-cased name changes nothing |
| Classifier.LowerMatches | detect_and_count.py:54 | a name lower-cases to a lower-case target exactly when it has the target's length and each character is the target's or, for a letter, its upper-case form |
| Classifier.LabelsAreLower | detect_and_count.py:22 | every label in `VEHICLE_CLASSES` is already lower-case |
| Classifier.NameCountsAs | detect_and_count.py:54-58 | the class names counted under a category are exactly the spellings of its label with any letters in upper case |
| Classifier.NameOf | detect_and_count.py:54 | the class name `class_names[cls_id].lower()` (a specification function; ClassifyCounted and NameCountsAs state its use) |
| Classifier.Accepted | detect_and_count.py:56 | the filter `conf >= CONFIDENCE_THRESHOLD and cls_name in VEHICLE_CLASSES` (a specification predicate; ClassifyCounted and AcceptedIff state its role) |
| Classifier.Classify | detect_and_count.py:56-58 | the two tests of the loop body: the filter, then the counter the name is the key of (a specification function; ClassifyCounted and AcceptedIff state its meaning) |
| Classifier.Apply | detect_and_count.py:57-59 | the counter updates of one box (a specification function; ApplyEffect states its effect) |
| Classifier.FrameTally | detect_and_count.py:35-61 | what `count_vehicles` returns: the boxes' updates applied in order from all zeros (a specification function; CountVehicles returns it; FrameTallyConsistent, NothingAcceptedIsZero and TallyAppend state its properties) |
| Classifier.ClassifyCounted | detect_and_count.py:52-59 | a box is counted exactly when the filter accepts it, and then under the counter whose label is its lower-cased class name |
| Classifier.AcceptedIff | detect_and_count.py:52-56 | a box is counted iff conf >= 0.4 (inclusive) and its lower-cased class name is one of the seven vehicle labels |
| Classifier.ApplyEffect | detect_and_count.py:56-59 | an accepted box raises the total and exactly one category by 1 and leaves the other six alone; a rejected box changes nothing |
| Classifier.Tally | detect_and_count.py:49-59 | the loop body's updates applied to the verdicts in order, from all zeros (a specification function; TallyConsistent, TallySnoc and TallyAppend state its properties) |
| Classifier.TallyConsistent | detect_and_count.py:37-59 | starting from all zeros, the total always equals the sum of the seven category counters |
| Classifier.TallyNoneCounted | detect_and_count.py:37-59 | with no accepted box every counter stays 0 |
| Classifier.TallySnoc | detect_and_count.py:51-59 | counting one more box applies the loop body once more to the counts so far |
| Classifier.ApplyPlus | detect_and_count.py:56-59 | the loop body's update commutes with adding counts gathered earlier |
| Classifier.TallyAppend | detect_and_count.py:49-59 | counting two lists of boxes one after the other gives the counter-wise sum of their separate counts |
| Classifier.Verdicts | detect_and_count.py:51-56 | one verdict per box |
| Classifier.VerdictsWellKeyed | detect_and_count.py:56-59 | every accepted box's name is a key of `counts`, so the `if cls_name in counts` test never fails |
| Classifier.Flatten | detect_and_count.py:49-51 | the boxes in the order the nested loops visit them, result by result and box by box (a specification function; FlattenKnown and FlattenFrom state its properties) |
| Classifier.FlattenKnown | detect_and_count.py:49-54 | when every result's class ids have names, so do the boxes of all results taken together |
| Classifier.FlattenFrom | detect_and_count.py:49-51 | every box visited by the nested loops is a box of one of the results |
| Classifier.NothingAcceptedIsZero | detect_and_count.py:37-61 | a frame with no boxes, or with no box that passes the filter, yields all zeros |
| Classifier.FrameTallyConsistent | detect_and_count.py:37-61 | a frame's counts have total = buses + cars + jeepneys + motorcycles + pickup trucks + trucks + vans |
| Classifier.TallyVerdictsSnoc | detect_and_count.py:51-59 | the counts after one more box are the loop body applied to the counts before it |
| Classifier.CountVehicles | detect_and_count.py:35-61 | the nested loops return the frame's tally, whose total is the sum of its categories |
| CsvSink.Column | detect_and_count.py:31-32 | each category's column comes after Timestamp, Elapsed_Time_Seconds and Vehicle_Count |
| CsvSink.EncodeRow | detect_and_count.py:68-79 | a written row has as many fields as the header |
| CsvSink.DecodeEncode | detect_and_count.py:68-79 | a written row reads back, column by column, as the timestamp, elapsed time and counts it was written from (the elapsed cell stands for its `.2f` rendering) |
| CsvSink.HeaderIsNotData | detect_and_count.py:31-32 | the header row never reads back as a data row |
| CsvSink.ColumnsMatchHeader | detect_and_count.py:68-79 | under each category's header column (`Buses` … `Vans`) a row holds that category's count, and under `Vehicle_Count` the total |
| CsvSink.AfterInitialize | detect_and_count.py:24-32 | after `initialize_csv` the file exists; an existing file keeps its rows unchanged; a new file holds only the header |
| CsvSink.AfterAppend | detect_and_count.py:64-79 | `save_to_csv` leaves an existing file with one more row, at the end, with all earlier rows unchanged |
| CsvSink.InitializeIdempotent | detect_and_count.py:24-32 | a second `initialize_csv` changes nothing |
| CsvSink.AppendKeepsHeaderCount | detect_and_count.py:64-79 | appending a data row never adds a header row |
| CsvSink.HeaderOnce | detect_and_count.py:24-32 | starting from no file, initialising twice and then appending any records leaves exactly one header, in the first row |
| CsvSink.HeaderOnceFrom | detect_and_count.py:64-79 | a file whose only header is its first row keeps it so under any appends |
| CsvSink.Sessions | detect_and_count.py:24-79 | the file after a series of runs, each `initialize_csv` followed by that run's appends (a specification function; HeaderOnceAcrossRestarts states its property) |
| CsvSink.HeaderOnceAcrossRestarts | detect_and_count.py:24-79 | from no file, any number of runs, each initialising and then appending, leave exactly one header, in the first row |
| CsvSink.AppendAll | detect_and_count.py:64-79 | appending records in order keeps the earlier rows and puts record j's row at position j after them |
| CsvSink.AppendAllSnoc | detect_and_count.py:64-79 | appending one more record is one more `save_to_csv` |
| CsvSink.CsvFile.constructor | detect_and_count.py:26 | the file as found on disk, where a missing file has no rows |
| CsvSink.CsvFile.InitializeCsv | detect_and_count.py:24-32 | updates the file in place to its state after `initialize_csv` |
| CsvSink.CsvFile.SaveToCsv | detect_and_count.py:64-79 | updates the file in place to its state after appending the row |
| Pipeline.ShouldRecord | detect_and_count.py:175 | the record check `current_time - last_record_time >= RECORD_INTERVAL`, inclusive (a specification predicate; RecordedIff and RecordsSpaced state its effect) |
| Pipeline.Elapsed | detect_and_count.py:143 | `elapsed_time = current_time - start_time` (a specification function used by RecordOf and ProcessFrame) |
| Pipeline.RecordOf | detect_and_count.py:176-177 | the record saved on a frame: its timestamp, its elapsed time and its own counts (a specification function; RowsCarryFrameCounts states what the row holds) |
| Pipeline.Detectable | detect_and_count.py:152 | a processed frame has at least one detector result and a name for every class id, so lines 54 and 152 do not raise (a precondition predicate) |
| Pipeline.QuitsAt | detect_and_count.py:188 | the quit test, which only processed frames reach because skipped frames `continue` at line 140 (a specification predicate; FramesRead and FramesReadIs state its use) |
| Pipeline.FramesRead | detect_and_count.py:130-190 | the loop reads frames up to the end of the capture or the first processed frame with a quit key, whichever comes first, and no earlier frame quits |
| Pipeline.FramesReadIs | detect_and_count.py:130-190 | that stopping frame is unique |
| Pipeline.Replay | detect_and_count.py:124-178 | records fire only on processed frames, in increasing order, and `last_record_time` is the time of the last record, or `start_time` before the first |
| Pipeline.ReplayStep | detect_and_count.py:136-178 | reading one more frame fires a record exactly when that frame is processed and the interval check passes, which sets `last_record_time` to its time |
| Pipeline.RecordedIff | detect_and_count.py:175-178 | frame k gets a record iff it is processed and `current_time - last_record_time >= RECORD_INTERVAL` against the state left by the frames before it |
| Pipeline.SpacedExtend | detect_and_count.py:175-178 | the spacing of recorded frames does not depend on frames after them |
| Pipeline.SpacedSnoc | detect_and_count.py:175-178 | a frame at least `RECORD_INTERVAL` after the last record keeps the records spaced |
| Pipeline.ReplayBeforeLast | detect_and_count.py:175-178 | before the last frame, every record is on an earlier frame, and `last_record_time` is the time of the last of them, or `start_time` |
| Pipeline.SpacedFire | detect_and_count.py:175-178 | a record fired on the last frame keeps the records spaced |
| Pipeline.SpacedStep | detect_and_count.py:175-178 | reading one more frame keeps the records spaced, whether or not a record fires |
| Pipeline.RecordsSpaced | detect_and_count.py:125-178 | each record comes at least `RECORD_INTERVAL` after the start and after every earlier record |
| Pipeline.Records | detect_and_count.py:175-177 | the j-th record holds the j-th recorded frame's timestamp, its elapsed time and its own counts |
| Pipeline.RecordsSnoc | detect_and_count.py:175-177 | recording on one more frame appends that frame's record |
| Pipeline.ReplayRecordsDefined | detect_and_count.py:136-149 | every recorded frame is a processed frame that was read, so its detections were classified |
| Pipeline.SessionRecords | detect_and_count.py:175-177 | the records the session appends: one per recorded frame among those read (a specification function; Run appends it, and Records and RowsCarryFrameCounts state what its rows hold) |
| Pipeline.RowDecodes | detect_and_count.py:64-79 | the j-th row appended for a list of records reads back as the j-th record |
| Pipeline.RowsCarryFrameCounts | detect_and_count.py:142-177 | the j-th appended row reads back as that frame's timestamp, `current_time - start_time` (the cell stands for its `.2f` rendering), and that frame's own `count_vehicles` result, not a running sum, whose total is the sum of its categories |
| Pipeline.Written | detect_and_count.py:136-178 | the file after the first m frames: the initial file with the records fired so far appended (a specification function; WrittenStep and ReadFrames state its use) |
| Pipeline.WrittenStep | detect_and_count.py:136-178 | one more frame appends its record to the file exactly when the record fires on it, and otherwise leaves the file as it was |
| Pipeline.ProcessFrame | detect_and_count.py:142-178 | for a frame with at least one result whose class ids all have names, one processed frame appends its record when the interval has passed and otherwise leaves the file as it was, and returns the new `last_record_time` |
| Pipeline.ReadFrames | detect_and_count.py:124-190 | the loop reads `FramesRead` frames, calls the detector on exactly the frames `Processed` lists (those with i mod stride = 0), n div stride of them, and writes exactly the records `Replay` assigns |
| Pipeline.Run | detect_and_count.py:99-190 | an unopenable source leaves the file as `initialize_csv` left it; otherwise the run reads `FramesRead` frames, processes n div stride of them, and appends the session's records after what `initialize_csv` left |

## Left out

- `trainmodel.py`: a thin wrapper around the detector library's validation call, with no logic of its own.
- Model loading, inference and `model.names`: the detector is scripted, as the results of each frame. The class-name table is a parameter.
- Classifier.CountVehicles: an unknown class id raises `KeyError` at line 54 in the script. The model instead requires the ids of every processed frame that is read to have names (`AllKnown`, `Detectable`, `DetectableWhereProcessed`).
- Classifier.Lower: folds only the ASCII letters. Python's `str.lower()` also folds other Unicode letters.
- OpenCV: the capture, its frame properties, the drawing, the display and `cv2.destroyAllWindows` are left out.
  - The capture becomes a finite sequence of frames.
  - `cap.isOpened()` becomes a Boolean.
  - `int(cap.get(CAP_PROP_FPS))` becomes an integer input.
  - The `waitKey` quit check becomes a Boolean on each frame.
- Pipeline.ProcessFrame: an empty result list makes `results[0].plot()` at line 152 raise `IndexError`, which ends the run before the record check. The model instead requires every processed frame that is read to have at least one result (`Detectable`). The detector returns one result per image. Apart from that, the drawing and the on-screen overlay have no effect on the counts or the file.
- The wall clock: each frame carries its `time.time()` value, and `start_time` is an input. The `strftime` timestamp is an opaque string on each frame.
- CsvSink.EncodeRow: the elapsed field holds the real number. The `f"{elapsed_time:.2f}"` two-decimal rendering is not modelled.
- Floating point: times and confidences are exact reals. Float rounding in `fps / PROCESS_FPS` and in the time subtraction is not modelled.
- Settings.ProcessFps: an integer or none. A fractional `PROCESS_FPS` setting is not modelled.
- Console output and the `__main__` exception handler are not modelled.
  - The session summary's "Total Frames Processed" prints `frame_count`, which counts frames read, skipped ones included. The model's `framesRead` is that same value. `detectorCalls` is the number actually processed.
- Filesystem behaviour beyond the existence flag and the row list is not modelled: durability, concurrent writers, and quoting of the CSV text.
