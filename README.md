# PiMovementDetector in Dafny

A model of the three pieces of sequential logic in PiMovementDetector, a
Raspberry Pi program that takes a still picture every few seconds and
compares each picture with the one before. Each piece comes with proofs about
it.

- **Detection** (`MovementDetector.dfy`) models the motion-detection
  algorithm of `MovementDetector`.
  - A bitmap is an `array2<Pixel>` indexed `[x, y]`.
  - The movement image has the current image's size. Each pixel is the
    per-channel absolute difference of the two images at that position, and
    a channel below 64 is set to 0.
  - The movement percent is the number of non-black pixels divided by
    width × height.
  - `HasMovement` fails on a size mismatch, and otherwise compares the
    percent with `DetectionPercentMin` inclusively.
  - The public `GetMovementPercent` has no size check. A previous image
    smaller than the current one makes `GetPixel` throw; this is modelled as
    `PixelOutOfRange`.
  - The methods are proved against value-level specification functions on
    `Cells(a)`, the bitmap viewed as a sequence of columns. The properties are
    proved about those functions.
- **FrameProcessing** (`Program.dfy`) models the frame pipeline of `Program`.
  - The state is a FIFO queue of `(time, bitmap)` frames and the optional
    reference frame.
  - `TakePicture` enqueues a frame.
  - `ProcessPictureQueueNew` is one timer tick of the pipeline.
  - The teardown at the end of `Main` releases the reference and drains the
    queue.
  - Releasing a bitmap (`Dispose`) is recorded in a `released` log.
  - Ghost histories of the frames taken and the frames processed state the
    FIFO order.
- **Subscribers** (`TcpConnector.dfy`) models the subscriber list of
  `TcpConnector`.
  - A client is a record: its `Connected` flag, whether it has been
    disposed, and the bytes written to its stream.
  - `CheckConnections` prunes disconnected clients with the source's index
    loop and its `i--`.
  - `Write` prunes and then writes to every remaining client.
  - Accepting appends a client and raises `ClientConnected`, recorded as an
    event log.
  - `Dispose` disposes every client.
  - The length-prefixed "app pattern" of the communication test writes a
    2-byte length and then the payload. It is modelled together with its
    reader.

The noise floor of `GetMovementImage` is the literal 64 compared at
`MovementDetector.cs:65-70`. The `threshold` argument passed down from
`MovementThreshold` is never read. The model keeps the literal (`NoiseFloor`)
and the unused parameter, so a detector built with another threshold still
filters at 64.

## Model

| member | source | states |
|---|---|---|
| Detection.ChannelDelta | PiMovementDetector/MovementDetector.cs:61-70 | a channel of the movement image is 0 or at least the noise floor 64 |
| Detection.Delta | PiMovementDetector/MovementDetector.cs:61-72 | each channel of the movement pixel is either 0 or the absolute difference of that channel, and then at least 64; the three channels are computed independently |
| Detection.DeltaIsBlackIff | PiMovementDetector/MovementDetector.cs:61-72 | a movement pixel is black exactly when all three channel differences are below 64 |
| Detection.MovementImageChannels | PiMovementDetector/MovementDetector.cs:58-72 | each channel of each cell is the absolute difference of the two images' channels when that is at least 64, and 0 otherwise, each channel on its own |
| Detection.MovementDetector.GetMovementImage | PiMovementDetector/MovementDetector.cs:51-76 | the result is a freshly allocated bitmap, not one of the inputs; it has the current image's width and height and every cell is the delta of the two images at that cell; it fails with an out-of-range read exactly when the previous image does not cover the current one |
| Detection.MovementDetector.MovementPercentOf | PiMovementDetector/MovementDetector.cs:34-49 | the nested counting loops compute the number of non-black pixels over width × height |
| Detection.ColumnCountBounds | PiMovementDetector/MovementDetector.cs:40-46 | a column's count is at most its height, and it is 0 exactly when the column is all black |
| Detection.MovingCountAtMost | PiMovementDetector/MovementDetector.cs:36-46 | the number of moving pixels never exceeds width × height |
| Detection.MovingCountZeroIff | PiMovementDetector/MovementDetector.cs:39-46 | the count is 0 exactly when every pixel is black |
| Detection.MovementPercentBounds | PiMovementDetector/MovementDetector.cs:34-48 | the movement percent lies in [0, 1], and it is 0 exactly when the movement image is all black |
| Detection.SelfComparisonIsStill | PiMovementDetector/MovementDetector.cs:28-32 | a frame compared with itself gives the percent 0, and `HasMovement` is true only for a minimum of at most 0 |
| Detection.ComparisonIsSymmetric | PiMovementDetector/MovementDetector.cs:61-63 | for same-size frames, swapping previous and current changes neither the movement image, the percent nor the decision |
| Detection.HasMovementIsPercentAtLeastMin | PiMovementDetector/MovementDetector.cs:18-32 | on same-size frames `HasMovement` is exactly `percent >= DetectionPercentMin`; on different sizes it fails with the size error, while `GetMovementPercent` fails only when the previous frame is too small |
| Detection.MovementDetector.HasMovement | PiMovementDetector/MovementDetector.cs:18-26 | the result is the size-mismatch error or the inclusive comparison of the movement percent with the detector's minimum |
| Detection.MovementDetector.GetMovementPercent | PiMovementDetector/MovementDetector.cs:28-32 | the result is the movement percent of the two bitmaps, or the out-of-range error, with no size check |
| Detection.MovementDetector.constructor | PiMovementDetector/MovementDetector.cs:8-16 | both parameters are stored unchanged; the defaults are 64 and 0.1 |
| Detection.FourWhitePixelsMove | PiMovementDetector.Tests/MovementDetectorTests.cs:12-26 | four white pixels on an 8×8 black frame give 4/64 |
| Detection.DarkGreyPixelIsNoise | PiMovementDetector.Tests/MovementDetectorTests.cs:32-46 | replacing one of them with (32, 32, 32) gives 3/64, because 32 is below the noise floor |
| Detection.MinimumIsInclusive | PiMovementDetector.Tests/MovementDetectorTests.cs:60-66 | on that pair the minimum 0.5 gives false, 4/64 gives true and 5/64 gives false |
| FrameProcessing.Program.constructor | PiMovementDetector/Program.cs:27-31 | an empty queue, no reference frame, and a detector with the default settings |
| FrameProcessing.Program.TakePicture | PiMovementDetector/Program.cs:73 | the frame joins the tail of the queue; the reference and the released frames are untouched |
| FrameProcessing.Program.ProcessPictureQueueNew | PiMovementDetector/Program.cs:76-95 | an empty queue changes nothing; without a reference the head becomes the reference, uncompared; otherwise exactly the head is dequeued and compared with the reference, then the old reference is released and the head replaces it whatever the movement, while a failed comparison leaves the head dequeued and the reference in place; frames are processed in the order they were taken (FIFO) |
| FrameProcessing.Program.Shutdown | PiMovementDetector/Program.cs:47-49 | the reference is released if there is one (and stays set), then every queued frame is released in queue order, and the queue ends empty; the frame histories are unchanged |
| Subscribers.WriteTo | PiMovementDetector/TcpConnector.cs:48 | a stream write appends exactly the buffer after the bytes already sent, and leaves the client's flags alone |
| Subscribers.DisposeOf | PiMovementDetector/TcpConnector.cs:102 | a disposed client is marked disposed, reads as not connected from then on, and keeps its stream's bytes |
| Subscribers.RemoveFirst | PiMovementDetector/TcpConnector.cs:103 | `List.Remove` leaves the list unchanged when the value is absent, and is one shorter when it is present |
| Subscribers.Prune | PiMovementDetector/TcpConnector.cs:97-107 | the index loop with its `i--` leaves exactly the connected clients in their original order, and disposes the others in the order they were removed; no client is skipped |
| Subscribers.PruneSplits | PiMovementDetector/TcpConnector.cs:97-106 | the kept clients are all connected, the removed ones are all disposed and disconnected, and together they account for the whole list; no kept client is disposed |
| Subscribers.PruneKeeps | PiMovementDetector/TcpConnector.cs:97-106 | every connected client is kept, at the position given by the connected clients before it |
| Subscribers.PruneRemoveStep | PiMovementDetector/TcpConnector.cs:99-105 | `List.Remove` of the disconnected client at the loop index removes that very index, because every client before it is connected |
| Subscribers.RemoveFirstAt | PiMovementDetector/TcpConnector.cs:103 | removing the first occurrence of a value is cutting out the index where it first occurs |
| Subscribers.PruneIdempotent | PiMovementDetector/TcpConnector.cs:95-108 | pruning an already pruned list removes nothing |
| Subscribers.TcpConnector.CheckConnections | PiMovementDetector/TcpConnector.cs:95-108 | the list becomes the connected clients in order; the removed ones are disposed and logged; no client left in the list is disposed |
| Subscribers.PruneWritten | PiMovementDetector/TcpConnector.cs:45-48 | writing does not change whether a client is connected, so pruning and writing commute |
| Subscribers.WrittenTwice | PiMovementDetector/TcpConnector.cs:48 | a stream receives two writes as their concatenation; the connector adds no framing |
| Subscribers.TcpConnector.Write | PiMovementDetector/TcpConnector.cs:43-49 | after pruning, every remaining client in list order has the buffer appended to its stream, and none of them is disposed; pruned clients receive nothing; the event log and listener state are unchanged |
| Subscribers.ConsecutiveWrites | PiMovementDetector/TcpConnector.cs:43-49 | two `Write` calls with nothing disconnecting in between deliver the first buffer then the second to every client the first prune kept |
| Subscribers.UInt16Bytes | PiMovementDetector.Tests/CommunicationTests.cs:91 | `BitConverter.GetBytes((ushort)n)` gives two bytes, low byte first, that together encode n modulo 2^16 |
| Subscribers.ToUInt16 | PiMovementDetector.Tests/CommunicationTests.cs:98 | `BitConverter.ToUInt16` gives a value below 2^16 whose low byte is the first byte and whose high byte is the second |
| Subscribers.ReadLengthPrefixed | PiMovementDetector.Tests/CommunicationTests.cs:96-101 | the reader succeeds exactly when the stream holds the 2-byte length and at least that many bytes after it; the data it returns has that length and is what follows the length in the stream |
| Subscribers.UInt16RoundTrip | PiMovementDetector.Tests/CommunicationTests.cs:91-98 | reading back the little-endian bytes of a `(ushort)` length gives the length modulo 2^16 |
| Subscribers.LengthPrefixedRoundTrip | PiMovementDetector.Tests/CommunicationTests.cs:91-103 | a payload shorter than 2^16 bytes, sent after its length, reads back whole whatever follows it |
| Subscribers.AppPatternArrives | PiMovementDetector.Tests/CommunicationTests.cs:91-103 | after the length write and the payload write, each client kept by the first prune holds its earlier bytes followed by the length and the payload, and reads the payload back from where its stream stood |
| Subscribers.TcpConnector.constructor | PiMovementDetector/TcpConnector.cs:32-41 | an empty client list and a running listener |
| Subscribers.TcpConnector.ClientAccepted | PiMovementDetector/TcpConnector.cs:86-93 | the accepted client joins the tail of the list, `ClientConnected` is raised once with it, and `ConnectedClientsCount` grows by one |
| Subscribers.TcpConnector.Dispose | PiMovementDetector/TcpConnector.cs:110-117 | the listener stops and every client of the list is disposed; the list keeps them |
| Subscribers.DisposedListPrunedAway | PiMovementDetector/TcpConnector.cs:100-104 | once `Dispose` has disposed the list, the next prune removes every client, so a later `Write` reaches none of them |
| Subscribers.TcpConnector.Disconnect | PiMovementDetector/TcpConnector.cs:100 | the environment: client `j`'s connection closes and its `Connected` then reads false; nothing else changes |

## Left out

- Camera capture, PNG decoding into a `Bitmap` and `Directory.CreateDirectory` are hardware and library calls. `TakePicture` takes the captured bitmap and the capture time as inputs.
- The `System.Timers.Timer` scheduling, the timer restart in `ClientAccepted` and the `_picLock` mutex are left out. They exist for concurrency and timing. The queue and the client list are modelled sequentially, one operation at a time.
- `TcpListener`, `NetworkStream` and socket I/O are left out, including the listener's port returned by the constructor. The network clearing a client's `Connected` flag is the environment, modelled by `Subscribers.TcpConnector.Disconnect`. A disposed client reads as not connected, as `TcpClient.Connected` does once its socket is gone.
- `WriteAsync` and `WriteAsync<T>` are left out. They repeat `Write` with `await`.
- `Write<T>` is left out. It needs the JSON serializer and the reflection check `IsSerializable`.
- `Console.WriteLine`, `Console.ReadLine` and the `Math.Round` of the printed percent are left out. `ProcessPictureQueueNew` returns the percent it would print.
- The percent is a `real`, not an IEEE double, so double rounding is not modelled.
- `Width * Height` is unbounded here, while the source uses 32-bit `int`. Captured frames are 256 × 256, far from overflow.
- The alpha channel is left out. The pixels of the movement image are written opaque by `Color.FromArgb(r, g, b)`, as `Color.Black` is, so comparing them with `ToArgb()` compares the three colour channels only. The differences read only R, G and B.
- Subscribers.TcpConnector.ClientAccepted: the handlers of `ClientConnected` are not modelled. The event is recorded as a log of the clients it announced. The method requires the listener to be running, because `EndAcceptTcpClient` throws after `Dispose` has stopped it.
- Subscribers.TcpConnector.CheckConnections: the index loop runs on the list's value, in `Subscribers.Prune`, and stores the result in the connector's field. A client's object identity is modelled as its record in the list, so `List.Remove` removes the first equal record. A client removed from the list is kept, disposed, in the `dropped` log.
- Subscribers.TcpConnector.Write: a stream write that fails is not modelled: every kept client receives the buffer. In the source the loop has no `try`, so an exception from one client's `GetStream().Write` (for instance an `IOException` after a reset that `Connected` did not yet report, or `ObjectDisposedException` on a disposed client) stops delivery to the clients after it and reaches the caller.
- Subscribers.UInt16Bytes: `BitConverter` is modelled as little-endian, the byte order of the Raspberry Pi.
- The `ConnectedClientsCount` property is the list's length. It is stated through the `ClientAccepted` contract and has no row of its own.
- FrameProcessing.Program.ProcessPictureQueueNew: the comparison is written before the queue fields are updated. It reads only the two bitmaps, so the resulting state is the one the source leaves, with the dequeue first.
