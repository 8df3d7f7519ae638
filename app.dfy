/** The converter's state and the periodic tick that republishes the
    halftone overlay. The video and canvas elements, the 2D context and the
    pixels a frame renders to are supplied by the host page; here they are
    parameters of each tick. */
module App {
  import opened Tone
  import opened Sampler

  /** The hidden video element as seen through its ref: not mounted yet, or
      mounted with its playback flags. */
  datatype Video = Unmounted | Mounted(paused: bool, ended: bool)

  /** Largest value the dot-size slider allows. */
  const MaxDotSize := 50

  class HalftoneApp {
    var dotSize: int
    var sampleResolution: int
    var frameRate: int
    var width: nat
    var height: nat
    var halftoneData: seq<Circle>

    /** The sliders keep each setting in its range, and every published
        circle has a non-negative centre and a radius no larger than the
        largest dot size. */
    ghost predicate Valid()
      reads this
    {
      1 <= dotSize <= MaxDotSize && 2 <= sampleResolution <= 50 && 1 <= frameRate <= 60
      && forall c :: c in halftoneData ==> 0 <= c.x && 0 <= c.y && 0.0 <= c.r <= MaxDotSize as real
    }

    /** Initial state: dot size 4, step 10, 8 ticks per second, a 640 x 360
        frame and no circles. */
    constructor ()
      ensures Valid()
      ensures dotSize == 4 && sampleResolution == 10 && frameRate == 8
      ensures width == 640 && height == 360 && halftoneData == []
    {
      dotSize := 4;
      sampleResolution := 10;
      frameRate := 8;
      width := 640;
      height := 360;
      halftoneData := [];
    }

    /** The dot-size slider (1 to 50). The overlay keeps its circles until
        the next tick. */
    method SetDotSize(v: int)
      requires Valid() && 1 <= v <= MaxDotSize
      modifies this`dotSize
      ensures Valid() && dotSize == v
    {
      dotSize := v;
    }

    /** The sample-resolution slider (2 to 50). */
    method SetSampleResolution(v: int)
      requires Valid() && 2 <= v <= 50
      modifies this`sampleResolution
      ensures Valid() && sampleResolution == v
    {
      sampleResolution := v;
    }

    /** The frame-rate slider (1 to 60). */
    method SetFrameRate(v: int)
      requires Valid() && 1 <= v <= 60
      modifies this`frameRate
      ensures Valid() && frameRate == v
    {
      frameRate := v;
    }

    /** updateHalftoneData: when the video and canvas refs are set and a 2D
        context is available, the frame drawn at the current dimensions is
        sampled and its halftone replaces the published circles wholesale;
        otherwise nothing changes. `frame` is the buffer getImageData
        returns for the canvas after drawImage; on the paths that return
        early no frame is captured and `frame` is not read. */
    method UpdateHalftoneData(video: Video, canvasMounted: bool, contextAvailable: bool, frame: array<Byte>)
      requires Valid()
      requires frame.Length == 4 * width * height
      modifies this`halftoneData
      ensures Valid()
      ensures halftoneData ==
        if video.Mounted? && canvasMounted && contextAvailable
        then Halftone(frame[..], width, height, sampleResolution, dotSize as real)
        else old(halftoneData)
    {
      if video.Unmounted? || !canvasMounted {
        return;
      }
      if !contextAvailable {
        return;
      }
      var circles := SampleFrame(frame, width, height, sampleResolution, dotSize as real);
      HalftoneOnGrid(frame[..], width, height, sampleResolution, dotSize as real);
      HalftoneRadii(frame[..], width, height, sampleResolution, dotSize as real);
      halftoneData := circles;
    }

    /** One timer tick: the overlay is recomputed only while the video is
        mounted, playing and not ended; a paused or finished video keeps the
        last overlay on screen. `frame` is read only when the overlay is
        recomputed. */
    method Tick(video: Video, canvasMounted: bool, contextAvailable: bool, frame: array<Byte>)
      requires Valid()
      requires frame.Length == 4 * width * height
      modifies this`halftoneData
      ensures Valid()
      ensures halftoneData ==
        if video.Mounted? && !video.paused && !video.ended && canvasMounted && contextAvailable
        then Halftone(frame[..], width, height, sampleResolution, dotSize as real)
        else old(halftoneData)
    {
      if video.Mounted? && !video.paused && !video.ended {
        UpdateHalftoneData(video, canvasMounted, contextAvailable, frame);
      }
    }
  }
}
