/** Images, masks and the per-frame record (`FrameData`, main.py) shared by backgrounds and effects. */
module Frames {
  import opened Grids

  /** One pixel: its B, G, R samples. */
  type Pixel = seq<Byte>

  /** A colour image, row-major. */
  type Image = Grid<Pixel>

  /** A foreground mask of weights (a float array in the source). */
  type Mask = Grid<real>

  /** A resolution as OpenCV takes it: width first. */
  datatype Size = Size(width: int, height: int)

  /**
   * The record one iteration of the main loop fills in: the webcam
   * frame, the background frame, the output being composed and the
   * foreground mask, plus the capture resolution and frame rate.
   */
  class FrameData {
    var size: Size
    var fps: int
    var webcam: Image
    var background: Image
    var output: Image
    var mask: Mask

    constructor ()
      ensures webcam == [] && background == [] && output == [] && mask == []
      ensures size == Size(0, 0) && fps == 0
    {
      size := Size(0, 0);
      fps := 0;
      webcam := [];
      background := [];
      output := [];
      mask := [];
    }
  }
}
