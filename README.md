# azureblur surface geometry, in Dafny

azureblur wraps Moz2D's `AlphaBoxBlur`, a triple box blur over an 8-bit alpha
surface. This project models the parts of it whose arithmetic is fully
visible and proves properties about them:

- **`Factory::CheckSurfaceSize`** (module `Factory`). This is Moz2D's
  validator for an `IntSize`. It rejects negative sides and sides above a
  non-zero caller limit. It also rejects any size for which one of these
  overflows `int32_t`: the area, the 4-bytes-per-pixel row plus 15 bytes of
  alignment slack, or the 16-aligned row times the height. The guard chain is
  modelled with `int32_t` as a newtype and `CheckedInt<int32_t>` as a
  value-plus-validity pair (module `CheckedInt`). Each checked accumulator is a run of its compound assignments. Because the model uses that
  newtype, the plain `sz.width * 4` is proved not to overflow. The function is
  proved equal to `Acceptable`, a statement of the same conditions over
  unbounded integers. Lemmas cover:
  - the limit (0 means no cap; a looser limit accepts more);
  - monotonicity in the size;
  - every pixel byte being addressable within `int32_t`.
- **The geometry of `AlphaBoxBlur.from_radiuses`** (module `AzureBlur`). The
  surface rect is the input rect grown by `spread + blur` on every side. The
  size is that rect's extent. The stride is the width rounded up to a multiple
  of 4. The allocation size is `stride * height + 3`, where the last 3 bytes
  are the "3 bytes for algorithm overflow" of the test. Rounding up is defined once
  in module `Align` and proved to give the least aligned value.
- **`blur_array`** (module `AzureBlur`). It raises `ValueError` when the items
  are not bytes, and again when the array is shorter than the allocation
  size. Both checks run before anything is written. Otherwise it runs the
  native blur once, in place, over the first allocation-size bytes. The
  Python `array.array` is a class with a fixed item size and a mutable `seq`
  of items. The native blur itself is a function parameter.

Assumptions about code that is not part of this model:
- `GetAlignedStride<16>` (Moz2D's `Tools.h`) is taken to be "round up to the
  next multiple of 16" in `int32_t` arithmetic.
- The native `AlphaBoxBlur` constructor is taken to compute its geometry by
  the formulas the Python tests check.
- Mozilla's `CheckedInt<int32_t>` (MFBT's `CheckedInt.h`) is taken to work
  like this: after `*=` or `+=`, the result is valid exactly when the
  accumulator was valid and the exact result fits `int32_t`. After an
  overflow, the model keeps the exact value. The library leaves that value
  unspecified and does not let it be read, so the model never reads it.

How the code behaves at its edges:
- `from_radiuses` does not check its arguments. It passes them straight to
  `azureblur_new_from_radiuses` (`src/azureblur.cpp:17-32`).
- `blur_array` raises `ValueError`. It checks the item size first, then the
  length (`azureblur/__init__.py:174-179`).
- The docstring of `get_surface_allocation_size` speaks of "stride * width".
  The test (`azureblur/__init__.py:242-244`) fixes it as `stride * height + 3`,
  and that is what is modelled.

## Model

| member | source | states |
|---|---|---|
| `CheckedInt.RunIsExactAndValidIffFits` | azureblur/moz2d/Factory.cpp:221-230 | a run of checked `*=`/`+=` steps yields the exact value and is valid exactly when it started valid and every intermediate result fits `int32_t`, so the single `isValid()` test after `stride *= 4; stride += 15` catches an overflow in either step |
| `Factory.CheckSurfaceSize` | azureblur/moz2d/Factory.cpp:197-240 | true exactly when `Acceptable` holds: both sides non-negative, both within a non-zero limit, and `w*h`, `4*w+15` and `RoundUp16(4*w)*h` all within `int32_t` |
| `Factory.CheckSurfaceSizeRejects` | azureblur/moz2d/Factory.cpp:198-239 | false for a negative side, for a side above a non-zero limit, for any negative non-zero limit, and when `w*h`, `4*w+15` or `RoundUp16(4*w)*h` leaves `int32_t`; true implies `0 <= w`, `0 <= h`, `w*h <= INT32_MAX` |
| `Factory.AlignedStride16` | azureblur/moz2d/Factory.cpp:232 | `GetAlignedStride<16>`: the least multiple of 16 that is `>= stride`, defined exactly when that value fits `int32_t` |
| `Factory.UncheckedStrideFits` | azureblur/moz2d/Factory.cpp:221-232 | once the checked `stride` (`4*w + 15`) is valid, the plain `w * 4` and its 16-aligned round-up both stay within `int32_t` |
| `Factory.ZeroLimitIsNoCap` | azureblur/moz2d/Factory.cpp:205-209 | limit 0 accepts exactly what limit `INT32_MAX` accepts: no side cap |
| `Factory.LooserLimitAcceptsMore` | azureblur/moz2d/Factory.cpp:205-209 | a size accepted under a positive limit is accepted under any larger limit and under limit 0 |
| `Factory.SmallerSurfaceAccepted` | azureblur/moz2d/Factory.cpp:198-239 | every non-negative size no larger on either side than an accepted size is accepted |
| `Factory.PixelBytesAddressable` | azureblur/moz2d/Factory.cpp:219-237 | for an accepted size, the last byte `y*stride + 4*x + 3` of every pixel at 4 bytes per pixel and 16-aligned stride is below `stride*height <= INT32_MAX` |
| `Align.RoundUp` | azureblur/__init__.py:228-230 | the result is a multiple of `m` in `[x, x+m)` |
| `Align.RoundUpIsLeast` | azureblur/__init__.py:228-230 | no multiple of `m` that is `>= x` is below `RoundUp(x, m)` |
| `AzureBlur.AlphaBoxBlur.GetRect` | azureblur/__init__.py:232-240 | each of the four edges of `get_rect()` lies `spread + blur` (per axis) outside the corresponding edge of the input rect |
| `AzureBlur.AlphaBoxBlur.GetSize` | azureblur/__init__.py:224-226 | `get_size()` is the width and height of `get_rect()` (test line 240), never smaller than the input rect |
| `AzureBlur.AlphaBoxBlur.GetStride` | azureblur/__init__.py:228-230 | `get_stride()` is a multiple of 4, at least the width, below width + 4, and the least such value |
| `AzureBlur.FromRadiuses` | azureblur/__init__.py:217-244 | size `(w + 2*(sx+bx), h + 2*(sy+by))`, stride `(width+3)//4*4`, rect `(x-(sx+bx), y-(sy+by), size)`, allocation `stride*height+3`, strictly above `stride*height` |
| `AzureBlur.AlphaBoxBlur.GetSurfaceAllocationSize` | azureblur/__init__.py:134-145 | the allocation size is strictly above `stride*height`, and the byte offset `row*stride + col` of every pixel, plus the 3 bytes for algorithm overflow, lies below it |
| `AzureBlur.GeometryDeterminedByInputs` | azureblur/__init__.py:225-244 | spread and blur radii affect the geometry only through their per-axis sum: two blurs over the same rect with equal `spread + blur` have the same rect, size, stride and allocation size |
| `AzureBlur.ParametersExample` | azureblur/__init__.py:217-244 | rect `(-16,32,64,128)`, spread `(1,2)`, blur `(4,8)` give size `(74,148)`, stride 76, rect `(-21,22,74,148)`, allocation 11251 |
| `AzureBlur.BlurExampleGeometry` | azureblur/__init__.py:247-256 | rect `(0,0,4,1)`, spread `(0,0)`, blur `(2,2)` give size `(8,5)`, stride 8, allocation 43 |
| `AzureBlur.BlurPointer` | azureblur/__init__.py:183-195 | with at least allocation-size items, the first allocation-size items are replaced by the native blur of them and the rest is untouched |
| `AzureBlur.BlurArray` | azureblur/__init__.py:147-181 | non-byte items give `Fail(NotBytes)`; byte items shorter than the allocation size give `Fail(TooShort)`; on either failure the items are unchanged; otherwise `Pass`, with the native blur applied once to the first allocation-size items |

## Left out

- The blur and spread pixel algorithms (Moz2D `Blur.cpp`, `BlurSSE2.cpp`, `DataSurfaceHelpers.cpp`) are not part of this model. `BlurArray` takes the native blur as a length-preserving function parameter. The expected bytes of `test_blur` (azureblur/__init__.py:262-272) and the spread behaviour in the class docstring are therefore not modelled.
- Dirty and skip rects (azureblur/__init__.py:90-93) are handled natively. `FromRadiuses` models construction without them, which is the case the tests fix. The native constructor may narrow the surface for a dirty rect, and that effect is not modelled.
- `calculate_blur_radius`, `from_sigma` and `test_calculate`: these convert a float sigma to a radius in native code. Floats and a foreign call are involved.
- Float rect coordinates and their rounding to whole pixels happen natively. Rects here are integer.
- `AzureBlur.AlphaBoxBlur.GetSurfaceAllocationSize`: rect extents and radii are non-negative (`nat`), and the geometry uses unbounded integers. The native `int32_t`/`size_t` overflow handling is not modelled, and neither is the "zero means not properly set up" case of the docstring (azureblur/__init__.py:136-137). The conditions for both are decided in native code.
- FFI plumbing is not modelled: `ffi.verify` at import, `ffi.gc` ownership, the C shim `src/azureblur.cpp`, the header, and the `dlopen` stub `azureblur.py`.
- The rest of `Factory.cpp` is not modelled: SSE2/CPUID detection, logging (the `gfxDebug()` messages of `CheckSurfaceSize` are dropped), and the Direct3D, FreeType and recorder globals.
- The cairo text-shadow sample, packaging, the docs config and the timing benchmark are not modelled.
