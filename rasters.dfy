/** Single-band rasters and the cell-wise Earth Engine image operations the
    script applies to them (`eq`, `gt`, `lt`, `updateMask`, `multiply`).

    A raster is a finite sequence of cells on one common grid; a cell is either
    masked (`None`) or holds a value. A cell at or beyond a raster's length lies
    outside its footprint and reads as masked, so two rasters of different
    lengths can still be combined cell by cell. */
module Rasters {

  datatype Option<+T> = None | Some(value: T)

  type Raster = seq<Option<real>>

  /** The cell at index `k`, masked outside the footprint. */
  function At(r: Raster, k: nat): Option<real>
  {
    if k < |r| then r[k] else None
  }

  /** Earth Engine's 1/0 image for a boolean cell result. */
  function Indicator(b: bool): real
  {
    if b then 1.0 else 0.0
  }

  datatype Comparison = Eq | Lt | Gt

  function Holds(op: Comparison, x: real, c: real): bool
  {
    match op
    case Eq => x == c
    case Lt => x < c
    case Gt => x > c
  }

  /** `image.eq(c)`, `image.lt(c)`, `image.gt(c)`: 1 where the comparison
      holds, 0 where it does not, masked where the input is masked. */
  function CompareConst(r: Raster, op: Comparison, c: real): (out: Raster)
    ensures |out| == |r|
    ensures forall k :: 0 <= k < |r| ==> (out[k].Some? <==> r[k].Some?)
    ensures forall k :: 0 <= k < |r| ==> (out[k] == Some(1.0) <==> r[k].Some? && Holds(op, r[k].value, c))
    ensures forall k :: 0 <= k < |r| ==> (out[k] == Some(0.0) <==> r[k].Some? && !Holds(op, r[k].value, c))
  {
    seq(|r|, k requires 0 <= k < |r| =>
      if r[k].Some? then Some(Indicator(Holds(op, r[k].value, c))) else None)
  }

  /** A mask cell lets the image through when it is present and not zero. */
  predicate Admits(mask: Raster, k: nat)
  {
    At(mask, k).Some? && At(mask, k).value != 0.0
  }

  /** `image.updateMask(mask)`: cells the mask does not admit become masked;
      every other cell keeps its value. */
  function UpdateMask(image: Raster, mask: Raster): (out: Raster)
    ensures |out| == |image|
    ensures forall k :: 0 <= k < |image| ==> (out[k].Some? <==> image[k].Some? && Admits(mask, k))
    ensures forall k :: 0 <= k < |image| && out[k].Some? ==> out[k] == image[k]
  {
    seq(|image|, k requires 0 <= k < |image| => if Admits(mask, k) then image[k] else None)
  }

  /** `a.multiply(b)`: the product where both cells are present. */
  function Multiply(a: Raster, b: Raster): (out: Raster)
    ensures |out| == |a|
    ensures forall k :: 0 <= k < |a| ==> (out[k].Some? <==> a[k].Some? && At(b, k).Some?)
    ensures forall k :: 0 <= k < |a| && out[k].Some? ==> out[k].value == a[k].value * At(b, k).value
    ensures forall k :: k >= |a| ==> At(out, k).None?
  {
    seq(|a|, k requires 0 <= k < |a| =>
      if a[k].Some? && At(b, k).Some? then Some(a[k].value * At(b, k).value) else None)
  }
}
