/** fill_texture: the solid fallback texture drawn when no image is set. */
module Texture {

  /** The fallback texture is 32 by 32 pixels. */
  const TextureSize: nat := 32
  /** The colour x11_blocker_source_load passes to fill_texture: opaque black. */
  const Black: bv32 := 0xFF00_0000

  /** Writes `pixel` into each of the 32 * 32 pixels, row by row; the
      buffer is taken to be tightly packed (the line size is not used). */
  method FillTexture(pixels: array<bv32>, pixel: bv32)
    requires pixels.Length >= TextureSize * TextureSize
    modifies pixels
    ensures forall i :: 0 <= i < TextureSize * TextureSize ==> pixels[i] == pixel
    ensures forall i :: TextureSize * TextureSize <= i < pixels.Length ==> pixels[i] == old(pixels[i])
  {
    for y := 0 to TextureSize
      invariant forall i :: 0 <= i < y * TextureSize ==> pixels[i] == pixel
      invariant forall i :: y * TextureSize <= i < pixels.Length ==> pixels[i] == old(pixels[i])
    {
      for x := 0 to TextureSize
        invariant forall i :: 0 <= i < y * TextureSize + x ==> pixels[i] == pixel
        invariant forall i :: y * TextureSize + x <= i < pixels.Length ==> pixels[i] == old(pixels[i])
      {
        pixels[y * TextureSize + x] := pixel;
      }
    }
  }

  /** The call in the no-image branch of x11_blocker_source_load: opaque
      black is written into the 32 x 32 pixels of the buffer it is given.
      (As written, that branch never maps a texture, so the call is not
      reached.) */
  method FillFallback(pixels: array<bv32>)
    requires pixels.Length >= TextureSize * TextureSize
    modifies pixels
    ensures forall i :: 0 <= i < TextureSize * TextureSize ==> pixels[i] == Black
    ensures forall i :: TextureSize * TextureSize <= i < pixels.Length ==> pixels[i] == old(pixels[i])
  {
    FillTexture(pixels, Black);
  }
}
