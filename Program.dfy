/**
  The frame pipeline of the program: a FIFO queue of captured frames, the
  frame kept as the reference for the next comparison, and the shutdown that
  releases every frame still held.

  The source keeps this state in static fields; here it is one `Program`
  object. Releasing a frame (`Bitmap.Dispose`) is recorded in `released`.
*/
module FrameProcessing {
  import opened Common
  import opened Detection

  /** A capture time, as the clock gives it; the model never inspects it. */
  type Timestamp = int

  /** A captured frame: when it was taken, and its bitmap. */
  datatype Frame = Frame(taken: Timestamp, image: array2<Pixel>)

  /** What one processing tick did. */
  datatype Tick =
    | Idle                           // the queue was empty
    | Adopted                        // the first frame became the reference, nothing compared
    | Compared(movement: real)       // the movement percent that the program prints
    | Failed(error: DetectorError)   // the comparison threw

  class Program {
    var imgData: seq<Frame>
    var lastImg: Option<Frame>
    var released: seq<Frame>
    const detector: MovementDetector

    /** Every frame ever enqueued, and every frame ever dequeued by processing, in order. */
    ghost var taken: seq<Frame>
    ghost var processed: seq<Frame>

    /**
      The queue is FIFO: the frames processed so far followed by the frames
      waiting are exactly the frames taken. There is a reference frame once
      any frame has been processed.
    */
    ghost predicate Valid()
      reads this
    {
      && taken == processed + imgData
      && (lastImg.None? <==> processed == [])
      && (forall f :: f in imgData ==> IsBitmap(f.image))
      && (lastImg.Some? ==> IsBitmap(lastImg.value.image))
    }

    /** The static initialisers: an empty queue, no reference, a default detector. */
    constructor ()
      ensures Valid()
      ensures imgData == [] && lastImg == None && released == []
      ensures detector.movementThreshold == DefaultMovementThreshold
      ensures detector.detectionPercentMin == DefaultDetectionPercentMin
    {
      imgData := [];
      lastImg := None;
      released := [];
      detector := new MovementDetector();
      taken := [];
      processed := [];
    }

    /** The enqueue step of `TakePicture`: the captured bitmap and the capture time are inputs. */
    method TakePicture(now: Timestamp, img: array2<Pixel>)
      requires Valid() && IsBitmap(img)
      modifies this
      ensures Valid()
      ensures imgData == old(imgData) + [Frame(now, img)]
      ensures lastImg == old(lastImg) && released == old(released)
      ensures taken == old(taken) + [Frame(now, img)] && processed == old(processed)
    {
      imgData := imgData + [Frame(now, img)];
      taken := taken + [Frame(now, img)];
    }

    /**
      One processing tick. An empty queue is left alone. Without a reference
      the head of the queue becomes the reference. Otherwise the head is
      compared with the reference, the reference is released and the head
      takes its place whatever the movement; if the comparison throws, the
      head has already left the queue and the reference stays.
    */
    method ProcessPictureQueueNew() returns (tick: Tick)
      requires Valid()
      modifies this
      ensures Valid()
      ensures old(imgData) == [] ==>
        tick == Idle && imgData == [] && lastImg == old(lastImg) && released == old(released) &&
        processed == old(processed)
      ensures old(imgData) != [] ==>
        imgData == old(imgData)[1..] && processed == old(processed) + [old(imgData)[0]]
      ensures old(imgData) != [] && old(lastImg).None? ==>
        tick == Adopted && lastImg == Some(old(imgData)[0]) && released == old(released)
      ensures old(imgData) != [] && old(lastImg).Some? ==>
        var prev, curr := old(lastImg).value, old(imgData)[0];
        match PercentBetween(Cells(prev.image), Cells(curr.image))
        case Success(movement) =>
          tick == Compared(movement) && lastImg == Some(curr) && released == old(released) + [prev]
        case Failure(error) =>
          tick == Failed(error) && lastImg == old(lastImg) && released == old(released)
      ensures taken == old(taken)
    {
      if |imgData| == 0 {
        return Idle;
      }

      if lastImg == None {
        lastImg := Some(imgData[0]);
        processed := processed + [imgData[0]];
        imgData := imgData[1..];
        return Adopted;
      }

      // The comparison reads only the two bitmaps, so it is written before
      // the field updates; the head leaves the queue on both outcomes, as it
      // does in the source, where the dequeue comes first.
      var currImg := imgData[0];
      var movement := detector.GetMovementPercent(lastImg.value.image, currImg.image);
      if movement.Failure? {
        imgData, processed := imgData[1..], processed + [currImg];
        return Failed(movement.error);
      }

      imgData, processed := imgData[1..], processed + [currImg];
      released, lastImg := released + [lastImg.value], Some(currImg);
      tick := Compared(movement.value);
    }

    /**
      The teardown at the end of `Main`: release the reference if there is
      one (it stays set), then dequeue and release every waiting frame.
    */
    method Shutdown()
      requires Valid()
      modifies this
      ensures imgData == [] && lastImg == old(lastImg)
      ensures taken == old(taken) && processed == old(processed)
      ensures released == old(released) + (if old(lastImg).Some? then [old(lastImg).value] else []) + old(imgData)
    {
      if lastImg.Some? {
        released := released + [lastImg.value];
      }
      ghost var releasedFirst := released;
      while imgData != []
        invariant |releasedFirst| <= |released| && released[..|releasedFirst|] == releasedFirst
        invariant old(imgData) == released[|releasedFirst|..] + imgData
        invariant lastImg == old(lastImg)
        invariant taken == old(taken) && processed == old(processed)
        decreases |imgData|
      {
        var disposingImg := imgData[0];
        imgData := imgData[1..];
        released := released + [disposingImg];
      }
      assert released == releasedFirst + released[|releasedFirst|..];
    }
  }
}
