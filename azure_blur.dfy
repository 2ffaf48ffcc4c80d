/** The Python face of azureblur: the surface geometry of an AlphaBoxBlur
    built from explicit spread and blur radii, and the guard that
    `blur_array` puts in front of the native in-place blur. */
module AzureBlur {
  import opened Align

  /** A device-space rectangle `(x, y, width, height)` in whole pixels. */
  datatype Rect = Rect(x: int, y: int, width: nat, height: nat)

  /** A `(width, height)` pair: a surface size, or a per-axis radius. */
  datatype Size = Size(width: nat, height: nat)

  /** An AlphaBoxBlur as `from_radiuses` builds it. Its geometry is a
      function of these construction inputs alone. */
  datatype AlphaBoxBlur = AlphaBoxBlur(rect: Rect, spreadRadius: Size, blurRadius: Size)
  {
    /** How far the surface extends past `rect` on each side, per axis. */
    function Margin(): Size {
      Size(spreadRadius.width + blurRadius.width, spreadRadius.height + blurRadius.height)
    }

    /** `get_rect`: the device-space rectangle the alpha surface covers. */
    function GetRect(): (r: Rect)
      ensures rect.x - r.x == Margin().width
      ensures rect.y - r.y == Margin().height
      ensures (r.x + r.width) - (rect.x + rect.width) == Margin().width
      ensures (r.y + r.height) - (rect.y + rect.height) == Margin().height
    {
      var m := Margin();
      Rect(rect.x - m.width, rect.y - m.height, rect.width + 2 * m.width, rect.height + 2 * m.height)
    }

    /** `get_size`: the size in pixels of the alpha surface. */
    function GetSize(): (s: Size)
      ensures s.width == GetRect().width && s.height == GetRect().height
      ensures s.width >= rect.width && s.height >= rect.height
    {
      Size(rect.width + 2 * Margin().width, rect.height + 2 * Margin().height)
    }

    /** `get_stride`: bytes per surface row, the width rounded up to a
        multiple of 4. */
    function GetStride(): (n: nat)
      ensures n % 4 == 0
      ensures GetSize().width <= n < GetSize().width + 4
      ensures forall k :: k % 4 == 0 && GetSize().width <= k ==> n <= k
    {
      var w := GetSize().width;
      forall k | k % 4 == 0 && w <= k ensures RoundUp(w, 4) <= k {
        RoundUpIsLeast(w, 4, k);
      }
      RoundUp(w, 4)
    }

    /** Byte offset of pixel `(col, row)` in a surface laid out row by row
        at `get_stride()` bytes per row. */
    function Offset(col: int, row: int): int {
      row * GetStride() + col
    }

    /** `get_surface_allocation_size`: the minimum buffer size for the blur,
        the rows of the surface plus three bytes for algorithm overflow.
        Every pixel, and the three bytes after it, lie inside it. */
    function GetSurfaceAllocationSize(): (a: nat)
      ensures a > GetStride() * GetSize().height
      ensures forall col, row :: 0 <= col < GetSize().width && 0 <= row < GetSize().height ==>
        0 <= Offset(col, row) && Offset(col, row) + 3 < a
    {
      var stride, h := GetStride(), GetSize().height;
      forall col, row | 0 <= col < GetSize().width && 0 <= row < h
        ensures 0 <= Offset(col, row) && Offset(col, row) + 3 < stride * h + 3
      {
        RowMajorOffsetBelow(stride, h, col, row);
      }
      stride * h + 3
    }
  }

  /** `AlphaBoxBlur.from_radiuses` without dirty or skip rect: the surface is
      `rect` inflated by `spread + blur` on every side, as `test_parameters`
      spells out. */
  function FromRadiuses(rect: Rect, spreadRadius: Size, blurRadius: Size): (b: AlphaBoxBlur)
    ensures b.GetSize() == Size(rect.width + 2 * (spreadRadius.width + blurRadius.width),
                                rect.height + 2 * (spreadRadius.height + blurRadius.height))
    ensures b.GetStride() == (b.GetSize().width + 3) / 4 * 4
    ensures b.GetRect() == Rect(rect.x - (spreadRadius.width + blurRadius.width),
                                rect.y - (spreadRadius.height + blurRadius.height),
                                b.GetSize().width, b.GetSize().height)
    ensures b.GetSurfaceAllocationSize() == b.GetStride() * b.GetSize().height + 3
    ensures b.GetSurfaceAllocationSize() > b.GetStride() * b.GetSize().height
  {
    AlphaBoxBlur(rect, spreadRadius, blurRadius)
  }

  /** Spread and blur radii affect the geometry only through their sum per
      axis: two blurs over the same rect with equal `spread + blur` have the
      same rect, size, stride and allocation size. */
  lemma GeometryDeterminedByInputs(a: AlphaBoxBlur, b: AlphaBoxBlur)
    requires a.rect == b.rect && a.Margin() == b.Margin()
    ensures a.GetRect() == b.GetRect() && a.GetSize() == b.GetSize()
    ensures a.GetStride() == b.GetStride()
    ensures a.GetSurfaceAllocationSize() == b.GetSurfaceAllocationSize()
  {
  }

  /** The numbers `test_parameters` checks. */
  lemma ParametersExample()
    ensures var b := FromRadiuses(Rect(-16, 32, 64, 128), Size(1, 2), Size(4, 8));
      && b.GetSize() == Size(74, 148)
      && b.GetStride() == 76
      && b.GetRect() == Rect(-21, 22, 74, 148)
      && b.GetSurfaceAllocationSize() == 11251
  {
  }

  /** The geometry `test_blur` checks: a 4x1 rect blurred by 2 on both axes
      gives an 8x5 surface whose 40 bytes and 3 bytes for algorithm overflow make 43. */
  lemma BlurExampleGeometry()
    ensures var b := FromRadiuses(Rect(0, 0, 4, 1), Size(0, 0), Size(2, 2));
      && b.GetSize() == Size(8, 5)
      && b.GetStride() == 8
      && b.GetSurfaceAllocationSize() == 43
  {
  }

  /** Why `blur_array` raises ValueError. */
  datatype BlurError =
    | NotBytes   // 'Array must contain bytes.'
    | TooShort   // 'Array must be at least `blur.get_surface_allocation_size()` bytes long'

  datatype Outcome = Pass | Fail(error: BlurError)

  /** A Python `array.array`: a fixed item size in bytes and mutable items. */
  class TypedArray {
    const itemSize: nat
    var items: seq<int>

    constructor (itemSize: nat, items: seq<int>)
      ensures this.itemSize == itemSize && this.items == items
    {
      this.itemSize := itemSize;
      this.items := items;
    }
  }

  /** The native blur (`azureblur_blur`) is not part of this model: it is
      passed in as a function from the surface bytes to the blurred bytes.
      Being in place, it keeps the length of what it is given. */
  ghost predicate InPlace(nativeBlur: seq<int> -> seq<int>) {
    forall s :: |nativeBlur(s)| == |s|
  }

  /** `blur_pointer`: blurs the first `get_surface_allocation_size()` bytes in
      place; the caller must supply at least that many. */
  method BlurPointer(blur: AlphaBoxBlur, data: TypedArray, nativeBlur: seq<int> -> seq<int>)
    requires InPlace(nativeBlur)
    requires |data.items| >= blur.GetSurfaceAllocationSize()
    modifies data
    ensures var n := blur.GetSurfaceAllocationSize();
      data.items == nativeBlur(old(data.items)[..n]) + old(data.items)[n..]
    ensures |data.items| == |old(data.items)|
  {
    var n := blur.GetSurfaceAllocationSize();
    data.items := nativeBlur(data.items[..n]) + data.items[n..];
  }

  /** `blur_array`: refuses an array whose items are not bytes, then one
      shorter than the allocation size, before writing anything; otherwise
      blurs the surface in place, once. */
  method BlurArray(blur: AlphaBoxBlur, data: TypedArray, nativeBlur: seq<int> -> seq<int>)
    returns (r: Outcome)
    requires InPlace(nativeBlur)
    modifies data
    ensures data.itemSize != 1 ==> r == Fail(NotBytes)
    ensures data.itemSize == 1 && |old(data.items)| < blur.GetSurfaceAllocationSize() ==> r == Fail(TooShort)
    ensures r.Pass? <==> data.itemSize == 1 && |old(data.items)| >= blur.GetSurfaceAllocationSize()
    ensures r.Fail? ==> data.items == old(data.items)
    ensures r.Pass? ==> var n := blur.GetSurfaceAllocationSize();
      data.items == nativeBlur(old(data.items)[..n]) + old(data.items)[n..]
  {
    if data.itemSize != 1 {
      return Fail(NotBytes);
    }
    if |data.items| < blur.GetSurfaceAllocationSize() {
      return Fail(TooShort);
    }
    BlurPointer(blur, data, nativeBlur);
    return Pass;
  }
}
