/** The per-image size decision: deriving the missing dimension from the
    native aspect ratio (converter.py lines 128-131) and the sum-of-sides
    guard that decides whether to resize at all (lines 109-112). */
module Dimensions {
  import opened Wrappers
  import opened Arith

  /** A (width, height) pair in pixels. Requested and derived sizes are plain
      integers: argparse accepts any `int`, including zero and negatives. */
  datatype Dims = Dims(width: int, height: int)

  /** The global `WIDTH` and `HEIGHT` variables; `None` is Python's `None`. */
  datatype Request = Request(width: Option<int>, height: Option<int>)

  /** A decoded image always has positive sides. */
  predicate Native(d: Dims)
  {
    d.width > 0 && d.height > 0
  }

  /** `if WIDTH:` -- set and nonzero. */
  predicate WidthTruthy(req: Request)
  {
    req.width.Some? && req.width.value != 0
  }

  /** `t` keeps width `t.width` and takes its height from the native aspect ratio. */
  predicate FromWidth(native: Dims, t: Dims)
    requires Native(native)
  {
    t.height == TruncDiv(native.height * t.width, native.width)
  }

  /** `t` keeps height `t.height` and takes its width from the native aspect ratio. */
  predicate FromHeight(native: Dims, t: Dims)
    requires Native(native)
  {
    t.width == TruncDiv(native.width * t.height, native.height)
  }

  /** One pass of the loop body's dimension step: with a truthy `WIDTH` the
      height is recomputed from it, otherwise the width is computed from
      `HEIGHT`, which raises a TypeError when `HEIGHT` is `None`. */
  function Derive(req: Request, native: Dims): (r: Result<Dims>)
    requires Native(native)
    ensures r.Err? <==> !WidthTruthy(req) && req.height.None?
    ensures r.Err? ==> r.error == MissingHeight
    ensures r.Ok? && WidthTruthy(req) ==> r.value.width == req.width.value && FromWidth(native, r.value)
    ensures r.Ok? && !WidthTruthy(req) ==> r.value.height == req.height.value && FromHeight(native, r.value)
  {
    if WidthTruthy(req) then
      var w := req.width.value;
      Ok(Dims(w, TruncDiv(native.height * w, native.width)))
    else if req.height.None? then
      Err(MissingHeight)
    else
      var h := req.height.value;
      Ok(Dims(TruncDiv(native.width * h, native.height), h))
  }

  /** The globals after a step: both hold the dimensions just computed. */
  function Carry(t: Dims): Request
  {
    Request(Some(t.width), Some(t.height))
  }

  /** After a step the next image takes the width branch exactly when the
      width just computed is nonzero, and `HEIGHT` is always set. */
  lemma CarrySteersBranch(t: Dims)
    ensures WidthTruthy(Carry(t)) <==> t.width != 0
    ensures Carry(t).height.Some?
  {
  }

  /** The guard of resize_and_convert_to_webp: keep the native size when its
      side sum is smaller than the target's, otherwise take the target. A tie
      resizes. */
  function Fit(native: Dims, target: Dims): (r: Dims)
    ensures r == native || r == target
    ensures r.width + r.height <= native.width + native.height
    ensures target.width + target.height <= native.width + native.height ==> r == target
  {
    if native.width + native.height < target.width + target.height then native else target
  }

  /** Scaling a side of length `n` by `x / d` with `x <= d` cannot exceed `n`. */
  lemma ScaledWithin(n: int, d: int, x: int)
    requires n > 0 && d > 0 && x <= d
    ensures TruncDiv(n * x, d) <= n
  {
    var q := TruncDiv(n * x, d);
    TruncDivBounds(n * x, d);
    if x >= 0 {
      MulLeft(x, d, n);
      MulLeft(q, n, d);
    }
  }

  /** Scaling a side of length `n` by `x / d` with `x > d` gives at least `n`. */
  lemma ScaledBeyond(n: int, d: int, x: int)
    requires n > 0 && d > 0 && x > d
    ensures TruncDiv(n * x, d) >= n
  {
    var q := TruncDiv(n * x, d);
    TruncDivBounds(n * x, d);
    MulLeft(d, x, n);
    assert (q + 1) * d > n * d;
    MulLeft(q + 1, n, d);
  }

  /** With the height derived from a requested width, the sum guard resizes
      exactly when the width does not exceed the native width; otherwise the
      native size is kept. */
  lemma NoUpscaleByWidth(native: Dims, w: int)
    requires Native(native)
    ensures var t := Dims(w, TruncDiv(native.height * w, native.width));
            Fit(native, t) == (if w <= native.width then t else native)
  {
    var W, H := native.width, native.height;
    var h := TruncDiv(H * w, W);
    if w <= W {
      ScaledWithin(H, W, w);
    } else {
      ScaledBeyond(H, W, w);
    }
  }

  /** The mirror image for a requested height: the guard resizes exactly
      when the height does not exceed the native height. */
  lemma NoUpscaleByHeight(native: Dims, h: int)
    requires Native(native)
    ensures var t := Dims(TruncDiv(native.width * h, native.height), h);
            Fit(native, t) == (if h <= native.height then t else native)
  {
    var flipped := Dims(native.height, native.width);
    NoUpscaleByWidth(flipped, h);
  }

  /** For an aspect-derived target, equal side sums only happen when the
      target is the native size, so the guard's tie never changes an image. */
  lemma TieOnlyAtNative(native: Dims, t: Dims)
    requires Native(native)
    requires FromWidth(native, t) || FromHeight(native, t)
    requires t.width + t.height == native.width + native.height
    ensures t == native
  {
    if FromWidth(native, t) {
      NoUpscaleByWidth(native, t.width);
      ScaledWithin(native.height, native.width, t.width);
    } else {
      NoUpscaleByHeight(native, t.height);
      ScaledWithin(native.width, native.height, t.height);
    }
  }

  /** Whatever aspect-derived target reaches the guard, the saved image is no
      larger than the decoded one on either axis. */
  lemma FitWithinNative(native: Dims, t: Dims)
    requires Native(native)
    requires FromWidth(native, t) || FromHeight(native, t)
    ensures Fit(native, t).width <= native.width
    ensures Fit(native, t).height <= native.height
  {
    if FromWidth(native, t) {
      NoUpscaleByWidth(native, t.width);
      if t.width <= native.width {
        ScaledWithin(native.height, native.width, t.width);
      }
    } else {
      NoUpscaleByHeight(native, t.height);
      if t.height <= native.height {
        ScaledWithin(native.width, native.height, t.height);
      }
    }
  }
}
