/** The drawing surface as the decoders see it: every call they make is
    appended to a log, with the bytes the display reads from its
    arguments. */
module Display {
  import opened Bytes

  datatype Call =
    | FillRect(x: int, y: int, w: int, h: int, color: seq<byte>)
      /** `pixels` holds the `w*h*4` RGBA bytes the display reads. */
    | BlitImage(x: int, y: int, w: int, h: int, pixels: seq<byte>)
    | CopyImage(srcX: int, srcY: int, x: int, y: int, w: int, h: int)
      /** A compressed image (JPEG or PNG) the display decodes itself. */
    | ImageRect(x: int, y: int, w: int, h: int, mime: string, image: seq<byte>)
      /** An H.264 frame handed to the video decoder, named by the
          timestamp of its pending frame. */
    | VideoFrame(x: int, y: int, w: int, h: int, timestamp: int)

  class Display {
    var log: seq<Call>

    constructor()
      ensures log == []
    {
      log := [];
    }

    method FillRect(x: int, y: int, w: int, h: int, color: seq<byte>)
      modifies this
      ensures log == old(log) + [Call.FillRect(x, y, w, h, color)]
    {
      log := log + [Call.FillRect(x, y, w, h, color)];
    }

    method BlitImage(x: int, y: int, w: int, h: int, pixels: seq<byte>)
      modifies this
      ensures log == old(log) + [Call.BlitImage(x, y, w, h, pixels)]
    {
      log := log + [Call.BlitImage(x, y, w, h, pixels)];
    }

    method CopyImage(srcX: int, srcY: int, x: int, y: int, w: int, h: int)
      modifies this
      ensures log == old(log) + [Call.CopyImage(srcX, srcY, x, y, w, h)]
    {
      log := log + [Call.CopyImage(srcX, srcY, x, y, w, h)];
    }

    method ImageRect(x: int, y: int, w: int, h: int, mime: string, image: seq<byte>)
      modifies this
      ensures log == old(log) + [Call.ImageRect(x, y, w, h, mime, image)]
    {
      log := log + [Call.ImageRect(x, y, w, h, mime, image)];
    }

    method VideoFrame(x: int, y: int, w: int, h: int, timestamp: int)
      modifies this
      ensures log == old(log) + [Call.VideoFrame(x, y, w, h, timestamp)]
    {
      log := log + [Call.VideoFrame(x, y, w, h, timestamp)];
    }
  }
}
