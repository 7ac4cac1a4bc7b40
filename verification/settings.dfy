/**
  The object-detection configuration held by a model: image size, YOLO grid, class
  count, anchor priors and the three thresholds, with the setters that change them.
  Scaled anchors are state derived from the raw anchors, the grid and the image size;
  both setters that touch those inputs recompute them.
 */
module Settings {
  import opened Wrappers

  /** An anchor prior as the user gives it: width and height in image pixels. */
  datatype RawAnchor = RawAnchor(w: int, h: int)

  /** An anchor prior in grid-cell units. */
  datatype Anchor = Anchor(w: real, h: real)

  datatype Dims = Dims(width: int, height: int)

  datatype Config = Config(
    image: Option<Dims>,
    gridW: int,
    gridH: int,
    numClasses: nat,
    rawAnchors: seq<RawAnchor>,
    anchors: Option<seq<Anchor>>,
    numBoxes: nat,
    threshSig: real,
    threshOverlap: real,
    threshCorrect: real)

  datatype ConfigError =
    | NonPositiveHeight
    | NonPositiveWidth
    | NonPositiveDepth
    | DimensionsNotChosen

  const DefaultAnchors: seq<RawAnchor> :=
    [RawAnchor(159, 157), RawAnchor(103, 133), RawAnchor(91, 89), RawAnchor(64, 65), RawAnchor(142, 101)]

  /** The state a freshly constructed model starts in: 7x7 grid, one class, default anchors, no image size. */
  function Initial(): Config {
    Config(None, 7, 7, 1, DefaultAnchors, None, 5, 0.6, 0.3, 0.5)
  }

  /** Anchors converted from pixels to grid units: multiplied by grid size over image size. */
  function ScaleAnchors(raw: seq<RawAnchor>, gridW: int, gridH: int, dims: Dims): (r: seq<Anchor>)
    requires dims.width != 0 && dims.height != 0
    ensures |r| == |raw|
    ensures gridW > 0 && gridH > 0 ==> forall k :: 0 <= k < |r| ==>
      r[k].w * (dims.width as real / gridW as real) == raw[k].w as real &&
      r[k].h * (dims.height as real / gridH as real) == raw[k].h as real
  {
    var sw := gridW as real / dims.width as real;
    var sh := gridH as real / dims.height as real;
    seq(|raw|, k requires 0 <= k < |raw| => Anchor(raw[k].w as real * sw, raw[k].h as real * sh))
  }

  /**
    The invariant the setters maintain: anchors exist, the box count is their number, and
    once the image size is known the scaled anchors match the raw ones for the current grid.
   */
  predicate Consistent(c: Config) {
    && |c.rawAnchors| > 0
    && c.numBoxes == |c.rawAnchors|
    && (c.image.None? ==> c.anchors.None?)
    && (c.image.Some? ==>
          c.image.value.width > 0 && c.image.value.height > 0 &&
          c.anchors == Some(ScaleAnchors(c.rawAnchors, c.gridW, c.gridH, c.image.value)))
  }

  lemma InitialConsistent()
    ensures Consistent(Initial())
  {
  }

  /** Records the image size (each dimension must be positive) and rescales the anchors. */
  function SetImageDimensions(c: Config, height: int, width: int, depth: int): (r: Result<Config, ConfigError>)
    ensures r.Success? <==> height > 0 && width > 0 && depth > 0
    ensures height <= 0 ==> r == Failure(NonPositiveHeight)
    ensures height > 0 && width <= 0 ==> r == Failure(NonPositiveWidth)
    ensures height > 0 && width > 0 && depth <= 0 ==> r == Failure(NonPositiveDepth)
    ensures r.Success? ==> r.value.image == Some(Dims(width, height))
    ensures r.Success? && |c.rawAnchors| > 0 ==>
      r.value.anchors.Some? && |r.value.anchors.value| == |c.rawAnchors| &&
      forall k :: 0 <= k < |c.rawAnchors| ==>
        r.value.anchors.value[k].w == c.rawAnchors[k].w as real * (c.gridW as real / width as real) &&
        r.value.anchors.value[k].h == c.rawAnchors[k].h as real * (c.gridH as real / height as real)
    ensures r.Success? && |c.rawAnchors| == 0 ==> r.value.anchors == c.anchors
    ensures r.Success? ==> r.value.(image := c.image, anchors := c.anchors) == c
    ensures r.Success? && Consistent(c) ==> Consistent(r.value)
  {
    if height <= 0 then Failure(NonPositiveHeight)
    else if width <= 0 then Failure(NonPositiveWidth)
    else if depth <= 0 then Failure(NonPositiveDepth)
    else
      var dims := Dims(width, height);
      var anchors := if |c.rawAnchors| > 0 then Some(ScaleAnchors(c.rawAnchors, c.gridW, c.gridH, dims)) else c.anchors;
      Success(c.(image := Some(dims), anchors := anchors))
  }

  /**
    Sets grid size, class count and anchors, each falling back to its default when not
    given (an empty list counts as not given), and rescales the anchors. Fails when the
    image size has not been chosen yet.
   */
  function SetYoloParameters(c: Config, gridSize: Option<(int, int)>, labels: seq<string>, anchors: seq<RawAnchor>)
    : (r: Result<Config, ConfigError>)
    ensures r.Success? <==> c.image.Some? && c.image.value.width != 0 && c.image.value.height != 0
    ensures r.Success? ==> (r.value.gridW, r.value.gridH) == (if gridSize.Some? then gridSize.value else (7, 7))
    ensures r.Success? ==> r.value.rawAnchors == (if |anchors| > 0 then anchors else DefaultAnchors)
    ensures r.Success? ==> r.value.numBoxes == (if |anchors| > 0 then |anchors| else |DefaultAnchors|)
    ensures r.Success? ==> r.value.numClasses == (if |labels| > 0 then |labels| else 1)
    ensures r.Success? ==>
      r.value.anchors.Some? && |r.value.anchors.value| == r.value.numBoxes &&
      forall k :: 0 <= k < r.value.numBoxes ==>
        r.value.anchors.value[k].w == r.value.rawAnchors[k].w as real * (r.value.gridW as real / c.image.value.width as real) &&
        r.value.anchors.value[k].h == r.value.rawAnchors[k].h as real * (r.value.gridH as real / c.image.value.height as real)
    ensures r.Success? ==>
      r.value.image == c.image && r.value.threshSig == c.threshSig &&
      r.value.threshOverlap == c.threshOverlap && r.value.threshCorrect == c.threshCorrect
    ensures r.Success? && c.image.value.width > 0 && c.image.value.height > 0 ==> Consistent(r.value)
  {
    if c.image.None? || c.image.value.width == 0 || c.image.value.height == 0 then
      Failure(DimensionsNotChosen)
    else
      var (gw, gh) := if gridSize.Some? then gridSize.value else (7, 7);
      var numClasses := if |labels| > 0 then |labels| else 1;
      var raw := if |anchors| > 0 then anchors else DefaultAnchors;
      Success(c.(gridW := gw, gridH := gh, numClasses := numClasses, rawAnchors := raw,
                 numBoxes := |raw|, anchors := Some(ScaleAnchors(raw, gw, gh, c.image.value))))
  }

  /** Sets the three thresholds; no range check is made on any of them. */
  function SetYoloThresholds(c: Config, sig: real, overlap: real, correct: real): (r: Config)
    ensures Consistent(c) ==> Consistent(r)
    ensures r.threshSig == sig && r.threshOverlap == overlap && r.threshCorrect == correct
    ensures r.(threshSig := c.threshSig, threshOverlap := c.threshOverlap, threshCorrect := c.threshCorrect) == c
  {
    c.(threshSig := sig, threshOverlap := overlap, threshCorrect := correct)
  }

  /** The geometry the decoders need: grid size and image size. */
  datatype Grid = Grid(gridW: int, gridH: int, imageW: int, imageH: int)

  predicate ValidGrid(g: Grid) {
    g.gridW > 0 && g.gridH > 0 && g.imageW > 0 && g.imageH > 0
  }

  function GridOf(c: Config): Grid
    requires c.image.Some?
  {
    Grid(c.gridW, c.gridH, c.image.value.width, c.image.value.height)
  }

  /** Pixels per grid cell along x (`image_width / grid_w`). */
  function CellWidth(g: Grid): real
    requires g.gridW > 0
  {
    g.imageW as real / g.gridW as real
  }

  /** Pixels per grid cell along y (`image_height / grid_h`). */
  function CellHeight(g: Grid): real
    requires g.gridH > 0
  {
    g.imageH as real / g.gridH as real
  }
}
