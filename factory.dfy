/** Factory::CheckSurfaceSize of Moz2D: decides whether a surface of a given
    size can be allocated, assuming 4 bytes per pixel and a row stride
    aligned to 16 bytes, without any int32_t computation overflowing. */
module Factory {
  import opened CheckedInt
  import opened Align

  /** gfx::IntSize: a width and a height in pixels, both int32_t. */
  datatype IntSize = IntSize(width: int32, height: int32)

  /** GetAlignedStride<16>: `stride` rounded up to a multiple of 16, computed
      in plain int32_t arithmetic. The rounded value is representable exactly
      when `stride <= INT32_MAX - 15`, because INT32_MAX - 15 is itself a
      multiple of 16. */
  function AlignedStride16(stride: int32): (r: int32)
    requires stride as int <= INT32_MAX - 15
    ensures r as int % 16 == 0
    ensures stride <= r && r as int < stride as int + 16
    ensures forall n :: n % 16 == 0 && stride as int <= n ==> r as int <= n
  {
    forall n | n % 16 == 0 && stride as int <= n ensures RoundUp(stride as int, 16) <= n {
      RoundUpIsLeast(stride as int, 16, n);
    }
    RoundUp(stride as int, 16) as int32
  }

  /** The conditions CheckSurfaceSize enforces, stated over unbounded integers:
      non-negative sides, sides within a non-zero limit, and an area, a
      4-bytes-per-pixel row plus 15 bytes of alignment slack, and a
      16-aligned row times the height that all stay within int32_t. */
  predicate Acceptable(sz: IntSize, limit: int32) {
    var w, h := sz.width as int, sz.height as int;
    && 0 <= w && 0 <= h
    && (limit != 0 ==> w <= limit as int && h <= limit as int)
    && w * h <= INT32_MAX
    && 4 * w + 15 <= INT32_MAX
    && RoundUp(4 * w, 16) * h <= INT32_MAX
  }

  /** The guard chain of Factory::CheckSurfaceSize, each early `return false`
      a branch, and each checked accumulator (`tmp`, `stride`, `numBytes`) a
      run of its compound assignments from its initial value. */
  function CheckSurfaceSize(sz: IntSize, limit: int32): (ok: bool)
    ensures ok <==> Acceptable(sz, limit)
  {
    if sz.width < 0 || sz.height < 0 then
      false
    else if limit != 0 && (sz.width > limit || sz.height > limit) then
      false
    else
      var w, h := sz.width as int, sz.height as int;
      MulMonotone(0, w, 0, h);
      var tmp := Run(FromInt32(sz.width), [MulBy(sz.height as int)]);
      RunIsExactAndValidIffFits(FromInt32(sz.width), [MulBy(sz.height as int)]);
      assert tmp.isValid <==> InInt32(sz.width as int * sz.height as int);
      if !tmp.isValid then
        false
      else
        var stride := Run(FromInt32(sz.width), [MulBy(4), AddBy(16 - 1)]);
        RunIsExactAndValidIffFits(FromInt32(sz.width), [MulBy(4), AddBy(16 - 1)]);
        assert stride.isValid <==> InInt32(sz.width as int * 4) && InInt32(sz.width as int * 4 + 15);
        if !stride.isValid then
          false
        else
          // the unchecked `sz.width * 4`: an int32 product, proved not to overflow
          var aligned := AlignedStride16(sz.width * 4);
          assert aligned as int == RoundUp(4 * w, 16);
          MulMonotone(0, aligned as int, 0, h);
          var numBytes := Run(FromInt32(aligned), [MulBy(sz.height as int)]);
          RunIsExactAndValidIffFits(FromInt32(aligned), [MulBy(sz.height as int)]);
          assert numBytes.isValid <==> InInt32(aligned as int * sz.height as int);
          numBytes.isValid
  }

  /** Each guard of CheckSurfaceSize, one by one: the reasons a size is
      rejected, and what an accepted size guarantees. */
  lemma CheckSurfaceSizeRejects(sz: IntSize, limit: int32)
    ensures sz.width < 0 || sz.height < 0 ==> !CheckSurfaceSize(sz, limit)
    ensures limit != 0 && (sz.width > limit || sz.height > limit) ==> !CheckSurfaceSize(sz, limit)
    ensures limit < 0 ==> !CheckSurfaceSize(sz, limit)
    ensures !InInt32(sz.width as int * sz.height as int) ==> !CheckSurfaceSize(sz, limit)
    ensures !InInt32(sz.width as int * 4 + 15) ==> !CheckSurfaceSize(sz, limit)
    ensures !InInt32(RoundUp(sz.width as int * 4, 16) * sz.height as int) ==> !CheckSurfaceSize(sz, limit)
    ensures CheckSurfaceSize(sz, limit) ==>
      0 <= sz.width && 0 <= sz.height && sz.width as int * sz.height as int <= INT32_MAX
  {
    var w, h := sz.width as int, sz.height as int;
    if 0 <= w && 0 <= h {
      MulMonotone(0, w, 0, h);
      MulMonotone(0, RoundUp(4 * w, 16), 0, h);
    }
  }

  /** Once the checked `stride` has passed, the plain `sz.width * 4` that
      follows cannot overflow, and neither can its 16-aligned round-up. */
  lemma UncheckedStrideFits(sz: IntSize)
    requires 0 <= sz.width
    requires Run(FromInt32(sz.width), [MulBy(4), AddBy(16 - 1)]).isValid
    ensures InInt32(sz.width as int * 4)
    ensures InInt32(RoundUp(sz.width as int * 4, 16))
    ensures RoundUp(sz.width as int * 4, 16) <= sz.width as int * 4 + 15
  {
    RunIsExactAndValidIffFits(FromInt32(sz.width), [MulBy(4), AddBy(16 - 1)]);
  }

  /** A limit of 0 caps no side: it accepts exactly what the widest possible
      limit accepts. */
  lemma ZeroLimitIsNoCap(sz: IntSize)
    ensures CheckSurfaceSize(sz, 0) == CheckSurfaceSize(sz, INT32_MAX as int32)
  {
  }

  /** Raising a positive limit, or dropping it, never turns an accepted size
      into a rejected one. */
  lemma LooserLimitAcceptsMore(sz: IntSize, tight: int32, loose: int32)
    requires 0 < tight <= loose
    requires CheckSurfaceSize(sz, tight)
    ensures CheckSurfaceSize(sz, loose)
    ensures CheckSurfaceSize(sz, 0)
  {
  }

  /** Every surface no larger than an accepted one is accepted too. */
  lemma {:induction false} SmallerSurfaceAccepted(sz: IntSize, small: IntSize, limit: int32)
    requires CheckSurfaceSize(sz, limit)
    requires 0 <= small.width <= sz.width && 0 <= small.height <= sz.height
    ensures CheckSurfaceSize(small, limit)
  {
    var w, h := sz.width as int, sz.height as int;
    var sw, sh := small.width as int, small.height as int;
    MulMonotone(sw, w, sh, h);
    RoundUpMonotone(4 * sw, 4 * w, 16);
    MulMonotone(RoundUp(4 * sw, 16), RoundUp(4 * w, 16), sh, h);
  }

  /** For an accepted size, the last byte of every pixel of a 4-bytes-per-pixel
      surface with a 16-aligned stride lies at an int32_t offset below the
      checked allocation size. */
  lemma {:induction false} PixelBytesAddressable(sz: IntSize, limit: int32, x: int, y: int)
    requires CheckSurfaceSize(sz, limit)
    requires 0 <= x < sz.width as int && 0 <= y < sz.height as int
    ensures var stride := RoundUp(4 * sz.width as int, 16);
      0 <= y * stride + 4 * x + 3 < stride * sz.height as int <= INT32_MAX
  {
    var stride := RoundUp(4 * sz.width as int, 16);
    var h := sz.height as int;
    assert 4 * x + 3 < stride;
    MulMonotone(y + 1, h, stride, stride);
    assert y * stride + stride == (y + 1) * stride;
    MulMonotone(0, y, 0, stride);
  }
}
