/** The conversion loop (converter.py lines 106-116 and 126-134): each work-set
    entry is opened, its target size derived from the global `WIDTH` and
    `HEIGHT`, the guard applied, and the result saved as `{stem}.webp`. */
module Transcode {
  import opened Wrappers
  import opened Arith
  import opened Paths
  import opened Dimensions
  import opened WorkSet

  /** One saved file: its name, the `dimensions` tuple passed to the guard, the
      size actually saved, and the byte size read back from disk. */
  datatype Output = Output(name: string, target: Dims, size: Dims, bytes: nat)

  /** The files saved so far, and the failure that stopped the loop, if any.
      Files saved before a failure stay on disk. */
  datatype Batch = Batch(written: seq<Output>, failure: Option<Failure>)

  /** resize_and_convert_to_webp: apply the guard, save under the entry's stem,
      and report the encoder's on-disk size. The encoder is opaque. */
  function Save(e: Entry, native: Dims, target: Dims, encode: (Entry, Dims) -> nat): (o: Output)
    requires ValidEntry(e)
    ensures Stem(o.name) == Stem(e.name)
    ensures o.size == native || o.size == target
    ensures o.bytes == encode(e, o.size)
  {
    StemOfOutput(Stem(e.name));
    var size := Fit(native, target);
    Output(OutputName(Stem(e.name)), target, size, encode(e, size))
  }

  /** `o` is what converting `e` can produce: named after its stem, sized by
      the guard from an aspect-derived target. */
  predicate Converted(e: Entry, o: Output)
  {
    && e.pixels.Some? && Native(e.pixels.value)
    && o.name == OutputName(Stem(e.name))
    && (FromWidth(e.pixels.value, o.target) || FromHeight(e.pixels.value, o.target))
    && o.size == Fit(e.pixels.value, o.target)
  }

  predicate AllValid(images: seq<Entry>)
  {
    forall i :: 0 <= i < |images| ==> ValidEntry(images[i])
  }

  /** The loop over the work-set. With `carry` the globals keep the dimensions
      of the previous image, as the code does; without it every image starts
      from the original request. */
  function Process(req: Request, images: seq<Entry>, encode: (Entry, Dims) -> nat, carry: bool): (b: Batch)
    requires AllValid(images)
    ensures |b.written| <= |images|
    ensures forall i :: 0 <= i < |b.written| ==> images[i].pixels.Some?
    ensures b.failure.None? ==> |b.written| == |images|
    ensures b.failure.Some? ==> |b.written| < |images|
    decreases |images|
  {
    if |images| == 0 then Batch([], None)
    else
      var e := images[0];
      match e.pixels
      case None => Batch([], Some(Undecodable))
      case Some(native) =>
        match Derive(req, native)
        case Err(f) => Batch([], Some(f))
        case Ok(t) =>
          var rest := Process(if carry then Carry(t) else req, images[1..], encode, carry);
          Batch([Save(e, native, t, encode)] + rest.written, rest.failure)
  }

  /** The loop as converter.py runs it, carrying the globals from image to
      image. No saved image is larger than its decoded size on either axis. */
  function Convert(req: Request, images: seq<Entry>, encode: (Entry, Dims) -> nat): (b: Batch)
    requires AllValid(images)
    ensures |b.written| <= |images|
    ensures forall i :: 0 <= i < |b.written| ==>
              images[i].pixels.Some? &&
              b.written[i].size.width <= NativeOf(images[i]).width &&
              b.written[i].size.height <= NativeOf(images[i]).height
  {
    NeverUpscales(req, images, encode, true);
    Process(req, images, encode, true)
  }

  /** The native size of a decoded entry. */
  function NativeOf(e: Entry): (d: Dims)
    requires ValidEntry(e) && e.pixels.Some?
    ensures Native(d)
  {
    e.pixels.value
  }

  /** One turn of the loop as a single equation: the first image's file
      followed by whatever the rest of the listing produces. */
  lemma Unfold(req: Request, images: seq<Entry>, encode: (Entry, Dims) -> nat, carry: bool)
    requires AllValid(images) && |images| > 0 && images[0].pixels.Some?
    requires Derive(req, NativeOf(images[0])).Ok?
    ensures var t := Derive(req, NativeOf(images[0])).value;
            var rest := Process(if carry then Carry(t) else req, images[1..], encode, carry);
            Process(req, images, encode, carry)
              == Batch([Save(images[0], NativeOf(images[0]), t, encode)] + rest.written, rest.failure)
  {
  }

  /** `Unfold` read position by position: the first saved file, then the
      rest shifted by one. Stated separately so that the inductive proofs
      below never reason about sequence concatenation themselves, which
      keeps them fast. */
  lemma Step(req: Request, images: seq<Entry>, encode: (Entry, Dims) -> nat, carry: bool)
    requires AllValid(images) && |images| > 0 && images[0].pixels.Some?
    requires Derive(req, NativeOf(images[0])).Ok?
    ensures var t := Derive(req, NativeOf(images[0])).value;
            var b := Process(req, images, encode, carry);
            var rest := Process(if carry then Carry(t) else req, images[1..], encode, carry);
            && b.failure == rest.failure
            && |b.written| == |rest.written| + 1
            && b.written[0] == Save(images[0], NativeOf(images[0]), t, encode)
            && (forall k :: 1 <= k < |b.written| ==> b.written[k] == rest.written[k - 1] && images[k] == images[1..][k - 1])
  {
    Unfold(req, images, encode, carry);
    var t := Derive(req, NativeOf(images[0])).value;
    var rest := Process(if carry then Carry(t) else req, images[1..], encode, carry);
    var b := Process(req, images, encode, carry);
    var head := [Save(images[0], NativeOf(images[0]), t, encode)];
    assert b.written == head + rest.written;
    forall k | 1 <= k < |b.written|
      ensures b.written[k] == rest.written[k - 1] && images[k] == images[1..][k - 1]
    {
      assert (head + rest.written)[k] == rest.written[k - 1];
    }
  }

  /** Every saved file is the conversion of the entry at the same position
      of the work-set, and its byte count is the encoder's size for it. */
  lemma {:induction false} AllConverted(req: Request, images: seq<Entry>, encode: (Entry, Dims) -> nat, carry: bool)
    requires AllValid(images)
    ensures var b := Process(req, images, encode, carry);
            forall i :: 0 <= i < |b.written| ==>
              Converted(images[i], b.written[i]) && b.written[i].bytes == encode(images[i], b.written[i].size)
    decreases |images|
  {
    if |images| > 0 && images[0].pixels.Some? && Derive(req, NativeOf(images[0])).Ok? {
      Step(req, images, encode, carry);
      var t := Derive(req, NativeOf(images[0])).value;
      AllConverted(if carry then Carry(t) else req, images[1..], encode, carry);
    }
  }

  /** In this model the loop stops for exactly two reasons: the first
      undecodable entry, or a missing height on the very first image. PIL's
      refusal of a zero or negative target size is not modelled. */
  lemma {:induction false} FailureCause(req: Request, images: seq<Entry>, encode: (Entry, Dims) -> nat, carry: bool)
    requires AllValid(images)
    ensures var b := Process(req, images, encode, carry);
            b.failure.Some? ==>
              || (b.failure == Some(Undecodable) && images[|b.written|].pixels.None?)
              || (b.failure == Some(MissingHeight) && b.written == [] && !WidthTruthy(req) && req.height.None?)
    decreases |images|
  {
    if |images| > 0 && images[0].pixels.Some? && Derive(req, NativeOf(images[0])).Ok? {
      Step(req, images, encode, carry);
      var t := Derive(req, NativeOf(images[0])).value;
      FailureCause(if carry then Carry(t) else req, images[1..], encode, carry);
    }
  }

  /** In this model the loop converts the whole work-set exactly when every entry decodes
      and the first image finds a truthy width or a set height. */
  lemma {:induction false} CompletesIff(req: Request, images: seq<Entry>, encode: (Entry, Dims) -> nat, carry: bool)
    requires AllValid(images)
    ensures Process(req, images, encode, carry).failure.None? <==>
              (forall e :: e in images ==> e.pixels.Some?) &&
              (|images| == 0 || WidthTruthy(req) || req.height.Some?)
    decreases |images|
  {
    if |images| > 0 {
      assert images[0] in images;
      if images[0].pixels.Some? && Derive(req, NativeOf(images[0])).Ok? {
        Step(req, images, encode, carry);
        var t := Derive(req, NativeOf(images[0])).value;
        CompletesIff(if carry then Carry(t) else req, images[1..], encode, carry);
        assert forall x :: x in images ==> x == images[0] || x in images[1..];
      }
    }
  }

  /** `t` is `w` wide with the height scaled from the native aspect ratio. */
  predicate SizedByWidth(native: Dims, w: int, t: Dims)
    requires Native(native)
  {
    t.width == w && FromWidth(native, t)
  }

  /** `t` is `h` high with the width scaled from the native aspect ratio. */
  predicate SizedByHeight(native: Dims, h: int, t: Dims)
    requires Native(native)
  {
    t.height == h && FromHeight(native, t)
  }

  /** A truthy width request sizes every image from that width: the width
      branch recomputes only `HEIGHT`, so `WIDTH` never changes. */
  lemma {:induction false} WidthRequestSizesAll(req: Request, images: seq<Entry>, encode: (Entry, Dims) -> nat, carry: bool)
    requires AllValid(images) && WidthTruthy(req)
    ensures var b := Process(req, images, encode, carry);
            forall i :: 0 <= i < |b.written| ==>
              SizedByWidth(NativeOf(images[i]), req.width.value, b.written[i].target)
    decreases |images|
  {
    if |images| > 0 && images[0].pixels.Some? {
      Step(req, images, encode, carry);
      var t := Derive(req, NativeOf(images[0])).value;
      WidthRequestSizesAll(if carry then Carry(t) else req, images[1..], encode, carry);
    }
  }

  /** Carried state: once some image was given a nonzero width, every later
      image takes the width branch with that same width, whatever height was
      requested. */
  lemma {:induction false} CarriedWidth(req: Request, images: seq<Entry>, encode: (Entry, Dims) -> nat, i: nat, j: nat)
    requires AllValid(images)
    requires i < j < |Process(req, images, encode, true).written|
    requires Process(req, images, encode, true).written[i].target.width != 0
    ensures var b := Process(req, images, encode, true);
            SizedByWidth(NativeOf(images[j]), b.written[i].target.width, b.written[j].target)
    decreases i
  {
    Step(req, images, encode, true);
    var t := Derive(req, NativeOf(images[0])).value;
    if i == 0 {
      WidthRequestSizesAll(Carry(t), images[1..], encode, true);
    } else {
      CarriedWidth(Carry(t), images[1..], encode, i - 1, j - 1);
    }
  }

  /** Until an image receives a nonzero width, a height-only run keeps
      taking the height branch with the requested height. */
  lemma {:induction false} HeightUntilWidth(req: Request, images: seq<Entry>, encode: (Entry, Dims) -> nat, h: int, i: nat)
    requires AllValid(images)
    requires !WidthTruthy(req) && req.height == Some(h)
    requires i < |Process(req, images, encode, true).written|
    requires forall j :: 0 <= j < i ==> Process(req, images, encode, true).written[j].target.width == 0
    ensures SizedByHeight(NativeOf(images[i]), h, Process(req, images, encode, true).written[i].target)
    decreases i
  {
    Step(req, images, encode, true);
    var t := Derive(req, NativeOf(images[0])).value;
    if i > 0 {
      var b := Process(req, images, encode, true);
      var rest := Process(Carry(t), images[1..], encode, true);
      assert forall j :: 0 <= j < i - 1 ==> rest.written[j] == b.written[j + 1];
      HeightUntilWidth(Carry(t), images[1..], encode, h, i - 1);
    }
  }

  /** A run never saves an image larger than its decoded size on either axis. */
  lemma NeverUpscales(req: Request, images: seq<Entry>, encode: (Entry, Dims) -> nat, carry: bool)
    requires AllValid(images)
    ensures var b := Process(req, images, encode, carry);
            forall i :: 0 <= i < |b.written| ==>
              b.written[i].size.width <= NativeOf(images[i]).width &&
              b.written[i].size.height <= NativeOf(images[i]).height
  {
    var b := Process(req, images, encode, carry);
    AllConverted(req, images, encode, carry);
    forall i | 0 <= i < |b.written|
      ensures b.written[i].size.width <= NativeOf(images[i]).width
      ensures b.written[i].size.height <= NativeOf(images[i]).height
    {
      assert Converted(images[i], b.written[i]);
      FitWithinNative(NativeOf(images[i]), b.written[i].target);
    }
  }

  /** A height-only run over a square 100x100 image and a 100x200 portrait
      image with `--height 50`: the second image is saved at 50x100, not at
      the requested height of 50, because `WIDTH` kept the 50 computed for
      the first image. */
  lemma CarriedWidthCounterexample(encode: (Entry, Dims) -> nat)
    ensures var images := [Entry("a.jpg", 1000, Some(Dims(100, 100))), Entry("b.jpg", 1000, Some(Dims(100, 200)))];
            var b := Convert(Request(None, Some(50)), images, encode);
            |b.written| == 2 && b.written[1].size == Dims(50, 100)
  {
    var a := Entry("a.jpg", 1000, Some(Dims(100, 100)));
    var c := Entry("b.jpg", 1000, Some(Dims(100, 200)));
    var req := Request(None, Some(50));
    Step(req, [a, c], encode, true);
    assert [a, c][1..] == [c];
    Step(Carry(Dims(50, 50)), [c], encode, true);
  }

  /** The same height-only run over a 100x100 image and then a 60x40 one:
      the 40-high image, smaller than the requested 50, is still resized, to
      50x33, because it is sized from the carried width. */
  lemma CarriedWidthResizesSmaller(encode: (Entry, Dims) -> nat)
    ensures var images := [Entry("a.jpg", 1000, Some(Dims(100, 100))), Entry("b.jpg", 1000, Some(Dims(60, 40)))];
            var b := Convert(Request(None, Some(50)), images, encode);
            |b.written| == 2 && b.written[1].size == Dims(50, 33)
  {
    var a := Entry("a.jpg", 1000, Some(Dims(100, 100)));
    var c := Entry("b.jpg", 1000, Some(Dims(60, 40)));
    var req := Request(None, Some(50));
    Step(req, [a, c], encode, true);
    assert [a, c][1..] == [c];
    Step(Carry(Dims(50, 50)), [c], encode, true);
  }

  /** The evidently intended loop: each image is sized from the original
      request. A height-only run then gives every image the requested height
      unless that would enlarge it, in which case the image keeps its size. */
  lemma {:induction false} IntendedKeepsRequestedHeight(req: Request, images: seq<Entry>, encode: (Entry, Dims) -> nat, h: int)
    requires AllValid(images)
    requires !WidthTruthy(req) && req.height == Some(h)
    ensures var b := Process(req, images, encode, false);
            forall i :: 0 <= i < |b.written| ==>
              && SizedByHeight(NativeOf(images[i]), h, b.written[i].target)
              && b.written[i].size == (if h <= NativeOf(images[i]).height then b.written[i].target else NativeOf(images[i]))
    decreases |images|
  {
    if |images| > 0 && images[0].pixels.Some? {
      Step(req, images, encode, false);
      NoUpscaleByHeight(NativeOf(images[0]), h);
      IntendedKeepsRequestedHeight(req, images[1..], encode, h);
    }
  }
}
