/** The two kinds of picture the application handles.  Only their
    dimensions are modelled; pixel data and colour formats are not. */
module Imaging {

  /** A displayable image (`BufferedImage`): a decoded file, an encoded QR
      code or a converted camera frame. */
  datatype Image = Image(width: int, height: int)

  /** The frame buffer (an OpenCV `Mat`) as the camera left it after one
      read: a failed or empty read leaves it zero-sized. */
  datatype Frame = Frame(width: int, height: int)

  /** The capture path converts and publishes only frames of positive size. */
  predicate HasPixels(f: Frame) {
    f.height > 0 && f.width > 0
  }

  /** An image fit for display has positive dimensions. */
  predicate Displayable(img: Image) {
    img.width > 0 && img.height > 0
  }

  /** `MatToBufferedImage`: a new image of the frame's width and height
      (the byte copy of the pixels is not modelled). */
  function MatToBufferedImage(f: Frame): (img: Image)
    requires HasPixels(f)
    ensures img.width == f.width && img.height == f.height
    ensures Displayable(img)
  {
    Image(f.width, f.height)
  }
}
