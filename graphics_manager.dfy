/**
 * The frame store of the graphics manager: the latest camera frame, its dimensions, and the
 * flags that tell the render thread whether the video texture must be regenerated or only
 * respecified.
 */
module Graphics {
  import opened Bytes

  /** The texture work the render thread does for a pending frame (the graphics-library calls). */
  datatype TextureUpload =
    | Regenerate(width: nat, height: nat, data: seq<byte>)  // delete, create and specify a new texture
    | Respecify(width: nat, height: nat, data: seq<byte>)   // specify the existing texture again

  class GraphicsManager {
    var width: nat
    var height: nat
    /** The current frame, `width*height` single-channel samples. */
    var pixels: array<byte>
    var frameChanged: bool
    var dimensionsChanged: bool
    var updated: bool
    /** The texture uploads performed so far. */
    ghost var uploads: seq<TextureUpload>

    /** The buffer holds one frame of the current dimensions, and `updated` records whether anything was uploaded. */
    ghost predicate Valid()
      reads this
    {
      pixels.Length == width * height && (updated <==> uploads != [])
    }

    constructor (initialWidth: nat, initialHeight: nat)
      ensures Valid() && fresh(pixels)
      ensures width == initialWidth && height == initialHeight
      ensures !frameChanged && !dimensionsChanged && !updated && uploads == []
    {
      width, height := initialWidth, initialHeight;
      pixels := new byte[initialWidth * initialHeight];
      frameChanged, dimensionsChanged, updated := false, false, false;
      uploads := [];
    }

    /**
     * Stores a copy of the first `w*h` samples of `data` as the current frame. The buffer is
     * reallocated exactly when the dimensions changed since the texture was last updated.
     */
    method SetFrame(w: nat, h: nat, data: seq<byte>)
      requires Valid()
      requires w * h <= |data|
      modifies this, pixels
      ensures Valid()
      ensures width == w && height == h
      ensures pixels[..] == data[..w * h]
      ensures frameChanged
      ensures dimensionsChanged == (old(dimensionsChanged) || w != old(width) || h != old(height))
      ensures dimensionsChanged ==> fresh(pixels)
      ensures !dimensionsChanged ==> pixels == old(pixels)
      ensures updated == old(updated) && uploads == old(uploads)
    {
      if width != w || height != h {
        dimensionsChanged := true;
      }
      frameChanged := true;
      width, height := w, h;
      if dimensionsChanged {
        pixels := new byte[w * h];
      }
      forall i | 0 <= i < w * h {
        pixels[i] := data[i];
      }
    }

    /**
     * The render thread's step: if a frame is pending, upload it (regenerating the texture when
     * the dimensions changed, respecifying it otherwise), clear both flags and set `updated`.
     */
    method UpdateTexture()
      requires Valid()
      modifies this`frameChanged, this`dimensionsChanged, this`updated, this`uploads
      ensures Valid()
      ensures !old(frameChanged) ==>
                frameChanged == old(frameChanged) && dimensionsChanged == old(dimensionsChanged)
                && updated == old(updated) && uploads == old(uploads)
      ensures old(frameChanged) ==>
                && uploads == old(uploads) + [if old(dimensionsChanged) then Regenerate(width, height, pixels[..])
                                              else Respecify(width, height, pixels[..])]
                && !frameChanged && !dimensionsChanged && updated
    {
      if !frameChanged {
        return;
      }
      if dimensionsChanged {
        uploads := uploads + [Regenerate(width, height, pixels[..])];
      } else {
        uploads := uploads + [Respecify(width, height, pixels[..])];
      }
      updated := true;
      dimensionsChanged := false;
      frameChanged := false;
    }

    /** Whether the texture has ever been updated; the flag is not cleared. */
    method WasUpdated() returns (r: bool)
      ensures r == updated
    {
      r := updated;
    }
  }

  /** The placeholder frame: a fresh 100 by 100 buffer with every sample 255. */
  method PlaceholderPixels() returns (buffer: array<byte>)
    ensures fresh(buffer)
    ensures buffer.Length == 100 * 100
    ensures forall i :: 0 <= i < buffer.Length ==> buffer[i] == 255
  {
    buffer := new byte[100 * 100];
    var i := 0;
    while i < 100 * 100
      invariant 0 <= i <= 100 * 100
      invariant forall j :: 0 <= j < i ==> buffer[j] == 255
    {
      buffer[i] := 255;
      i := i + 1;
    }
  }

  /**
   * Two frames arrive before the render thread runs: only the second is uploaded, with one
   * upload, and afterwards `updated` reads true.
   */
  method LatestFrameWins(manager: GraphicsManager, w: nat, h: nat, first: seq<byte>, second: seq<byte>)
    requires manager.Valid() && w * h <= |first| && w * h <= |second|
    modifies manager, manager.pixels
    ensures manager.Valid()
    ensures |manager.uploads| == |old(manager.uploads)| + 1
    ensures manager.uploads[|manager.uploads| - 1].data == second[..w * h]
    ensures !manager.frameChanged && manager.updated
  {
    manager.SetFrame(w, h, first);
    manager.SetFrame(w, h, second);
    manager.UpdateTexture();
    var u := manager.WasUpdated();
    assert u;
  }

  /** Once the flags are consumed, a frame of unchanged dimensions reuses the buffer and is respecified. */
  method SameDimensionsReuseBuffer(manager: GraphicsManager, data: seq<byte>)
    requires manager.Valid() && !manager.dimensionsChanged
    requires manager.width * manager.height <= |data|
    modifies manager, manager.pixels
    ensures manager.pixels == old(manager.pixels)
    ensures manager.width == old(manager.width) && manager.height == old(manager.height)
    ensures manager.uploads == old(manager.uploads) + [Respecify(manager.width, manager.height, data[..manager.width * manager.height])]
  {
    manager.SetFrame(manager.width, manager.height, data);
    manager.UpdateTexture();
  }
}
