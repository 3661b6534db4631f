# TrafficSense: speed-violation check and frame buffer

This project models the two stateful components of the TrafficSense
vehicle-tracking pipeline and proves properties of them in Dafny.

- **Speed check** (`violation.dfy`, module `Violation`). `check_speed(track_id, position)`
  keeps a module-level dictionary from track id to the last accepted
  `(position, time)` sample. On the first sighting of an id it stores the
  sample and reports `(False, 0)`. On later sightings it computes
  `|position - prev_pos| / (now - prev_time)`. If that is strictly greater
  than 12 it reports `(True, speed)` and keeps the stored sample. Otherwise it
  overwrites the sample and reports `(False, 0)`. The dictionary becomes the
  `memory` field of the class `SpeedMonitor`. The clock read becomes the
  parameter `now`. Positions and times are `real`. The pure function `Observe`
  specifies one call, and `SpeedMonitor.CheckSpeed` is proved to follow it.
- **Frame buffer** (`frame_buffer.dfy`, module `FrameBuffers`). `FrameBuffer`
  wraps a `deque(maxlen=size)` with default size 30. `push` appends at the back
  and silently drops the front element when the buffer is full. `pop` removes
  and returns the front element, or returns nothing when the buffer is empty.
  The class keeps the frames in an array used as a ring. The ghost field
  `Contents` holds the queue's contents, oldest first, and `Valid()` ties it to
  the array. `Push` and `Pop` are proved against the sequence functions
  `Appended` and `Popped`.

The code and the design description of this system disagree in three ways.
The model follows the code.
- The design rejects a non-positive elapsed time. The code divides anyway. An
  equal timestamp raises a division error, which is the `ZeroDivision` outcome
  here. An earlier timestamp gives a speed of at most 0, so no violation fires
  and the sample is overwritten (`ClockBackwards`).
- The design suppresses repeated violations with a cooldown. The code has no
  cooldown. A violation also leaves the old sample in place, so later frames
  keep being measured against it (`ViolationRepeats`, `RepeatedViolationScenario`).
- The design evicts ids that the tracker no longer reports. The code never
  removes an entry (`ReplayKeys`).

## Model

| member | source | states |
|---|---|---|
| `Violation.Speed` | ai_engine/logic/violation.py:10 | the speed times the elapsed time equals the absolute displacement; it is non-negative when time moves forward and non-positive when it moves back; defined only when the elapsed time is not zero |
| `Violation.Observe` | ai_engine/logic/violation.py:8-15 | one call never removes an id, always leaves the observed id stored, never changes another id's sample, and reports speed 0 whenever it reports no violation |
| `Violation.SpeedMonitor.constructor` | ai_engine/logic/violation.py:3 | the memory starts empty |
| `Violation.SpeedMonitor.CheckSpeed` | ai_engine/logic/violation.py:5-15 | the report and the new memory are those of `Observe` on the old memory; after an error or a violation the memory is unchanged, otherwise the id's entry becomes `(position, now)` |
| `Violation.FirstSighting` | ai_engine/logic/violation.py:8-15 | an unknown id yields `(False, 0)` and stores exactly `(position, now)` for it |
| `Violation.ZeroDivisionExactly` | ai_engine/logic/violation.py:9-10 | the division fails exactly when the id is known and `now` equals its stored time; the memory is then unchanged |
| `Violation.ViolationExactly` | ai_engine/logic/violation.py:9-12 | a violation is reported iff the id is known and its speed is strictly above 12; the reported speed is that speed and the memory is unchanged |
| `Violation.NoViolationRecords` | ai_engine/logic/violation.py:14-15 | a report without violation carries speed 0 and sets the id's entry to `(position, now)` |
| `Violation.ClockBackwards` | ai_engine/logic/violation.py:10-15 | a `now` earlier than the stored time gives no violation and overwrites the sample with the earlier timestamp |
| `Violation.ViolationRepeats` | ai_engine/logic/violation.py:11-12 | after a violation, the same observation reports the same violation again (no cooldown) |
| `Violation.ReplayKeys` | ai_engine/logic/violation.py:3-15 | after any sequence of observations the memory's ids are exactly the earlier ids plus every observed id; nothing is evicted |
| `Violation.ReplayUntouched` | ai_engine/logic/violation.py:14 | the sample of an id that is not observed is unchanged by any sequence of observations |
| `Violation.RepeatedViolationScenario` | ai_engine/logic/violation.py:8-15 | track 7 at 100 (t=0), 220 (t=0.5), 230 (t=1.0) gives no violation, then a violation at 240, then a violation at 130 measured from t=0 |
| `FrameBuffers.LastN` | ai_engine/logic/frame_buffer.py:6 | the result is a suffix of the input, no longer than the bound, and all of the input when that fits |
| `FrameBuffers.Appended` | ai_engine/logic/frame_buffer.py:6-9 | below capacity the frame is appended; at capacity above 0 the front is dropped and the frame appended; at capacity 0 the contents stay empty; the length never exceeds capacity |
| `FrameBuffers.Popped` | ai_engine/logic/frame_buffer.py:11-13 | nothing is returned iff the queue is empty, and then the queue is unchanged; otherwise the returned frame followed by the rest is the old queue |
| `FrameBuffers.FrameBuffer.Valid` | ai_engine/logic/frame_buffer.py:5-6 | the number of buffered frames never exceeds the capacity |
| `FrameBuffers.FrameBuffer.constructor` | ai_engine/logic/frame_buffer.py:5-6 | a new buffer has the given capacity, 30 when none is given, and is empty |
| `FrameBuffers.FrameBuffer.Push` | ai_engine/logic/frame_buffer.py:8-9 | the new contents are `Appended(old contents, frame, capacity)` and the ring stays valid |
| `FrameBuffers.FrameBuffer.Pop` | ai_engine/logic/frame_buffer.py:11-13 | the returned frame and the new contents are `Popped(old contents)` and the ring stays valid |
| `FrameBuffers.PushAll` | ai_engine/logic/frame_buffer.py:8-9 | any sequence of pushes keeps the length within capacity |
| `FrameBuffers.PushAllKeepsNewest` | ai_engine/logic/frame_buffer.py:6-9 | after any sequence of pushes the buffer holds the newest `capacity` frames seen, oldest first |
| `FrameBuffers.DrainAllInOrder` | ai_engine/logic/frame_buffer.py:11-13 | popping until empty returns the contents front to back |
| `FrameBuffers.FirstInFirstOut` | ai_engine/logic/frame_buffer.py:9-13 | frames pushed onto an empty buffer without overflow are popped in insertion order |

## Left out

- The wall clock: `time.time()` becomes the `now` parameter of `CheckSpeed`.
- Floating point: positions and times are exact reals, so rounding, infinities and NaN are not modelled.
- Return types: the Python `check_speed` returns the integer `0` for "no violation" and a float otherwise. The model returns the real `0.0`.
- Exceptions: the division error is the `ZeroDivision` outcome, with the memory unchanged. `Replay` continues past such an observation. In the camera loop the exception would end the loop instead.
- `FrameBuffers.FrameBuffer.constructor`: the size is a `nat`. A negative size, which makes the Python `deque` raise an error, cannot be written. `size=None`, which gives an unbounded deque whose `push` never drops a frame, is not modelled.
- Frame type: frames are a type parameter with a default value, which the array needs. Frames are otherwise opaque.
- Concurrency: the buffer has no locking, and its producer and consumer are not modelled.
- The camera loops in `ai_engine/stream/live_engine.py` and `ai_engine/stream/live_stream.py`: they call the detector, the tracker and the drawing library. The filter for confirmed tracks and the position passed to `check_speed` are part of that loop. That position is `left + right // 2`, because the loop unpacks a left/top/right/bottom box as left/top/width/height, so it is not the box centre. The model takes any real position.
- Evidence capture in `ai_engine/evidence/evidence.py`: it builds a file name from the clock and writes an image file.
- The backend in `backend/main.py` and `backend/database.py`: HTTP endpoints and database statements.
- Cooldown, purge of stale ids, and rejection of non-positive elapsed time: the design describes these, but the code has none of them, so the model has none.
