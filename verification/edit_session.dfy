/**
 * The editing screen: the filter menu, the dispatch of a chosen filter id
 * to a native filter or to another editing screen, and the two-slot
 * preview/commit state behind the Save and Cancel buttons.
 *
 * A session holds the committed image `current`, the preview `temp` (absent
 * before the first preview and after Save recycles it), the image on
 * display, and whether the Save/Cancel buttons are visible. Every native
 * filter reads `current`; only Save moves a preview into `current`, and the
 * other editing screens replace `current` when they return an image.
 */
module EditSession {
  import opened Pixels
  import PointFilters

  datatype Option<T> = None | Some(value: T)

  /** Why a step of the screen throws. */
  datatype Failure =
    | PixelsTooShort   // `setPixels` given fewer than `newWidth * newHeight` pixels
    | NoPreview        // Save with `tempBitmap` uninitialised or recycled
    | BadDimensions    // `createBitmap` given a width or height that is not positive

  datatype Result<T> = Ok(value: T) | Fail(failure: Failure)

  /** A bitmap: its dimensions and its `width * height` ARGB pixels in
      row-major order. The words are kept as given; a real ARGB_8888 bitmap
      premultiplies colour by alpha, so the two agree on opaque pixels. */
  datatype Bitmap = Bitmap(width: int, height: int, pixels: seq<Pixel>)

  /** Android bitmaps have positive dimensions, and the screen allocates
      `IntArray(width * height)`, so the pixel count is a valid `Int`. */
  predicate ValidBitmap(b: Bitmap)
  {
    0 < b.width && 0 < b.height && b.width * b.height <= MaxJint && |b.pixels| == b.width * b.height
  }

  // ------------------------------------------------------------- filter ids

  const GrayscaleId: string := "grayscale"
  const InvertId: string := "invert"
  const SepiaId: string := "sepia"
  const BrightnessId: string := "brightness"
  const ContrastId: string := "contrast"
  const BlurId: string := "blur"
  const EdgeId: string := "edge"
  const Rotate90Id: string := "rotate90"
  const Rotate180Id: string := "rotate180"
  const Rotate270Id: string := "rotate270"
  const CropId: string := "crop"

  /** The ids of the filter menu, in the order it offers them. */
  const MenuIds: seq<string> :=
    [GrayscaleId, InvertId, SepiaId, BrightnessId, ContrastId, BlurId,
     EdgeId, Rotate90Id, Rotate180Id, Rotate270Id, CropId]

  /** The native filters the screen calls itself. */
  datatype NativeOp = GrayscaleOp | InvertOp | SepiaOp | EdgeOp | RotateOp(degrees: int)

  /** The editing screens the screen hands the current image to. */
  datatype Screen = BrightnessScreen | ContrastScreen | BlurScreen

  /** The branch of `applyFilter` an id selects. */
  datatype Branch = RunNative(op: NativeOp) | OpenScreen(screen: Screen) | NotImplemented

  /** The `when (filterId)` of `applyFilter`: string equality against the
      ten handled ids, everything else (crop included) to the
      not-implemented toast. */
  function Dispatch(id: string): (b: Branch)
    ensures !b.NotImplemented? ==> id in MenuIds && id != CropId
    ensures b.RunNative? && b.op.RotateOp? ==> b.op.degrees == 90 || b.op.degrees == 180 || b.op.degrees == 270
    ensures b == RunNative(EdgeOp) <==> id == EdgeId
    ensures b == RunNative(RotateOp(90)) <==> id == Rotate90Id
    ensures b == RunNative(RotateOp(180)) <==> id == Rotate180Id
    ensures b == RunNative(RotateOp(270)) <==> id == Rotate270Id
  {
    if id == GrayscaleId then RunNative(GrayscaleOp)
    else if id == InvertId then RunNative(InvertOp)
    else if id == SepiaId then RunNative(SepiaOp)
    else if id == BrightnessId then OpenScreen(BrightnessScreen)
    else if id == ContrastId then OpenScreen(ContrastScreen)
    else if id == BlurId then OpenScreen(BlurScreen)
    else if id == EdgeId then RunNative(EdgeOp)
    else if id == Rotate90Id then RunNative(RotateOp(90))
    else if id == Rotate180Id then RunNative(RotateOp(180))
    else if id == Rotate270Id then RunNative(RotateOp(270))
    else NotImplemented
  }

  /** Every menu entry but crop reaches a filter or an editing screen; crop
      is offered but falls to the not-implemented branch. */
  lemma MenuDispatch(i: int)
    requires 0 <= i < |MenuIds|
    ensures Dispatch(MenuIds[i]).NotImplemented? <==> MenuIds[i] == CropId
  {
  }

  /** An id the menu does not offer changes nothing either. */
  lemma UnknownIdNotImplemented(id: string)
    requires forall i :: 0 <= i < |MenuIds| ==> MenuIds[i] != id
    ensures Dispatch(id) == NotImplemented
  {
    assert MenuIds[0] == GrayscaleId && MenuIds[1] == InvertId && MenuIds[2] == SepiaId;
    assert MenuIds[3] == BrightnessId && MenuIds[4] == ContrastId && MenuIds[5] == BlurId;
    assert MenuIds[6] == EdgeId && MenuIds[7] == Rotate90Id && MenuIds[8] == Rotate180Id;
    assert MenuIds[9] == Rotate270Id;
  }

  // ----------------------------------------------------------- native engine

  /** The native entry points the dispatch calls. The sepia tone is the
      floating-point step of the sepia filter; `edgeDetect` and `rotate`
      are declared by the screen but have no body in this model, so they
      are arbitrary functions here. */
  datatype Engine = Engine(
    tone: Argb -> PointFilters.Tone,
    edgeDetect: (seq<Pixel>, int, int) -> seq<Pixel>,
    rotate: (seq<Pixel>, int, int, int) -> seq<Pixel>)

  /** The buffer a native call returns for the `width * height` pixels of
      the current image. */
  function CallNative(engine: Engine, op: NativeOp, pixels: seq<Pixel>, width: int, height: int): (out: seq<Pixel>)
    requires HoldsImage(pixels, width, height)
    ensures !op.EdgeOp? && !op.RotateOp? ==> |out| == width * height
  {
    match op
    case GrayscaleOp => PointFilters.Grayscale(pixels, width, height)
    case InvertOp => PointFilters.Invert(pixels, width, height)
    case SepiaOp => PointFilters.Sepia(pixels, width, height, engine.tone)
    case EdgeOp => engine.edgeDetect(pixels, width, height)
    case RotateOp(degrees) => engine.rotate(pixels, width, height, degrees)
  }

  /** `(newWidth, newHeight)` as each native branch assigns them. */
  function NewDims(op: NativeOp, width: int, height: int): (d: (int, int))
    ensures d == (width, height) || d == (height, width)
    ensures d.0 * d.1 == width * height
    ensures d != (width, height) ==> op.RotateOp?
  {
    match op
    case RotateOp(degrees) => if degrees == 90 || degrees == 270 then (height, width) else (width, height)
    case _ => (width, height)
  }

  /** `createBitmap(w, h)` then `setPixels(newPixels, 0, w, 0, 0, w, h)`:
      a width or height below 1 makes `createBitmap` throw; otherwise the
      first `w * h` pixels become the bitmap, and fewer make `setPixels`
      throw. */
  function SetPixels(width: int, height: int, newPixels: seq<Pixel>): (r: Result<Bitmap>)
    ensures r.Fail? && r.failure == BadDimensions <==> width <= 0 || height <= 0
    ensures r.Ok? <==> 0 < width && 0 < height && width * height <= |newPixels|
    ensures r.Ok? ==> r.value.width == width && r.value.height == height
    ensures r.Ok? ==> |r.value.pixels| == width * height
    ensures r.Ok? ==> forall i :: 0 <= i < width * height ==> r.value.pixels[i] == newPixels[i]
  {
    if width <= 0 || height <= 0 then Fail(BadDimensions)
    else if |newPixels| < width * height then Fail(PixelsTooShort)
    else Ok(Bitmap(width, height, newPixels[..width * height]))
  }

  /** The ids whose native filter has no body in this model, so nothing is
      known of the length of its result. */
  predicate UnverifiedNative(id: string)
  {
    Dispatch(id).RunNative? && (Dispatch(id).op.EdgeOp? || Dispatch(id).op.RotateOp?)
  }

  // ----------------------------------------------------------------- session

  datatype Session = Session(current: Bitmap, temp: Option<Bitmap>, shown: Bitmap, actionsVisible: bool)

  /** What `applyFilter` did besides its state change. */
  datatype Effect =
    | Previewed                                 // a new preview is on display
    | Launched(screen: Screen, image: Bitmap)   // another screen got `image`
    | NotImplementedToast

  datatype Outcome = Outcome(session: Session, effect: Effect)

  /** The state the screen keeps between events: the committed image is a
      valid bitmap, so is any preview, the Save/Cancel buttons are only
      visible while a preview exists, and the image on display is the
      committed one or the preview. */
  predicate Consistent(s: Session)
  {
    && ValidBitmap(s.current)
    && (s.temp.Some? ==> ValidBitmap(s.temp.value))
    && (s.actionsVisible ==> s.temp.Some?)
    && (s.shown == s.current || (s.temp.Some? && s.shown == s.temp.value))
  }

  /** The screen after `onCreate` has decoded the chosen image: nothing
      previewed, buttons hidden. */
  function Initial(image: Bitmap): (s: Session)
    requires ValidBitmap(image)
    ensures Consistent(s) && s.current == image && s.shown == image && !s.actionsVisible
    ensures s.temp.None?
  {
    Session(image, None, image, false)
  }

  /** `applyFilter(filterId)`. */
  function ApplyFilter(engine: Engine, s: Session, id: string): (r: Result<Outcome>)
    requires ValidBitmap(s.current)
    ensures r.Ok? ==> r.value.session.current == s.current
    ensures r.Ok? && !r.value.effect.Previewed? ==> r.value.session == s
    ensures r.Ok? && r.value.effect.Previewed? ==>
              && r.value.session.temp.Some?
              && r.value.session.shown == r.value.session.temp.value
              && r.value.session.actionsVisible
    ensures r.Ok? && r.value.effect.Previewed? ==> ValidBitmap(r.value.session.temp.value)
    ensures r.Fail? ==> r.failure == PixelsTooShort
    ensures r.Fail? ==> UnverifiedNative(id)
  {
    var width, height := s.current.width, s.current.height;
    match Dispatch(id)
    case NotImplemented => Ok(Outcome(s, NotImplementedToast))
    case OpenScreen(screen) => Ok(Outcome(s, Launched(screen, s.current)))
    case RunNative(op) =>
      var newPixels := CallNative(engine, op, s.current.pixels, width, height);
      var (newWidth, newHeight) := NewDims(op, width, height);
      match SetPixels(newWidth, newHeight, newPixels)
      case Fail(f) => Fail(f)
      case Ok(t) => Ok(Outcome(s.(temp := Some(t), shown := t, actionsVisible := true), Previewed))
  }

  /** The Save button: the preview becomes the committed image, is
      recycled, and the buttons disappear. */
  function Save(s: Session): (r: Result<Session>)
    ensures r.Fail? <==> s.temp.None?
    ensures r.Ok? ==> r.value.current == s.temp.value && r.value.shown == s.temp.value
    ensures r.Ok? ==> r.value.temp.None? && !r.value.actionsVisible
  {
    match s.temp
    case None => Fail(NoPreview)
    case Some(t) => Ok(Session(t, None, t, false))
  }

  /** The Cancel button: the committed image is displayed again and the
      buttons disappear; the preview itself is neither committed nor
      recycled. */
  function Cancel(s: Session): (r: Session)
    ensures r.current == s.current && r.shown == s.current && r.temp == s.temp && !r.actionsVisible
  {
    s.(shown := s.current, actionsVisible := false)
  }

  /** The result callback of the other editing screens: an image they hand
      back (result OK with a URI, decoded) replaces the committed image and
      is displayed; the preview and the buttons are left as they were. */
  function EditorReturned(s: Session, returned: Option<Bitmap>): (r: Session)
    ensures returned.None? ==> r == s
    ensures returned.Some? ==> r.current == returned.value && r.shown == returned.value
    ensures r.temp == s.temp && r.actionsVisible == s.actionsVisible
  {
    match returned
    case None => s
    case Some(b) => s.(current := b, shown := b)
  }

  // ------------------------------------------------------------- properties

  /** The ids whose branch swaps width and height. */
  predicate Swaps(id: string)
  {
    id == Rotate90Id || id == Rotate270Id
  }

  /** A preview keeps the pixel count; rotate90 and rotate270 swap the
      dimensions and every other native filter keeps them. */
  lemma PreviewDimensions(engine: Engine, s: Session, id: string)
    requires ValidBitmap(s.current)
    requires ApplyFilter(engine, s, id).Ok? && ApplyFilter(engine, s, id).value.effect.Previewed?
    ensures var t := ApplyFilter(engine, s, id).value.session.temp.value;
            var c := s.current;
            && t.width * t.height == c.width * c.height
            && (Swaps(id) ==> t.width == c.height && t.height == c.width)
            && (!Swaps(id) ==> t.width == c.width && t.height == c.height)
  {
    var c := s.current;
    assert c.height * c.width == c.width * c.height;
  }

  /** Brightness, contrast and blur hand the committed image to their
      screen and leave the session as it was; crop and every id outside the
      menu change nothing. */
  lemma ApplyFilterEffects(engine: Engine, s: Session, id: string)
    requires ValidBitmap(s.current)
    ensures var r := ApplyFilter(engine, s, id);
            && (id == BrightnessId ==> r == Ok(Outcome(s, Launched(BrightnessScreen, s.current))))
            && (id == ContrastId ==> r == Ok(Outcome(s, Launched(ContrastScreen, s.current))))
            && (id == BlurId ==> r == Ok(Outcome(s, Launched(BlurScreen, s.current))))
            && (id == CropId ==> r == Ok(Outcome(s, NotImplementedToast)))
            && ((forall i :: 0 <= i < |MenuIds| ==> MenuIds[i] != id) ==> r == Ok(Outcome(s, NotImplementedToast)))
  {
    if forall i :: 0 <= i < |MenuIds| ==> MenuIds[i] != id {
      UnknownIdNotImplemented(id);
    }
  }

  /** The grayscale, invert and sepia previews never fail, and the preview
      holds exactly what the native filter computes from the committed
      image. */
  lemma BuiltInPreview(engine: Engine, s: Session, id: string)
    requires ValidBitmap(s.current)
    requires id == GrayscaleId || id == InvertId || id == SepiaId
    ensures var r := ApplyFilter(engine, s, id);
            var c := s.current;
            && r.Ok? && r.value.effect.Previewed?
            && ValidBitmap(r.value.session.temp.value)
            && r.value.session.temp.value.width == c.width
            && r.value.session.temp.value.height == c.height
            && (id == GrayscaleId ==> r.value.session.temp.value.pixels == PointFilters.Grayscale(c.pixels, c.width, c.height))
            && (id == InvertId ==> r.value.session.temp.value.pixels == PointFilters.Invert(c.pixels, c.width, c.height))
            && (id == SepiaId ==> r.value.session.temp.value.pixels == PointFilters.Sepia(c.pixels, c.width, c.height, engine.tone))
  {
    var c := s.current;
    var out := CallNative(engine, Dispatch(id).op, c.pixels, c.width, c.height);
    assert |out| == c.width * c.height;
    assert out[..c.width * c.height] == out;
  }

  /** A preview is computed from the committed image alone: two sessions
      with the same committed image give the same outcome kind and the same
      preview, whatever preview either was showing. */
  lemma PreviewDependsOnlyOnCurrent(engine: Engine, s1: Session, s2: Session, id: string)
    requires ValidBitmap(s1.current) && s1.current == s2.current
    ensures var r1, r2 := ApplyFilter(engine, s1, id), ApplyFilter(engine, s2, id);
            && r1.Ok? == r2.Ok?
            && (r1.Ok? ==> r1.value.effect == r2.value.effect)
            && (r1.Ok? && r1.value.effect.Previewed? ==> r1.value.session == r2.value.session.(current := s1.current))
  {
  }

  /** Unsaved previews never compound: choosing `b` while the preview of
      `a` is showing gives the preview `b` gives on the committed image. */
  lemma UnsavedPreviewsDoNotCompound(engine: Engine, s: Session, a: string, b: string)
    requires ValidBitmap(s.current)
    requires ApplyFilter(engine, s, a).Ok?
    ensures var s1 := ApplyFilter(engine, s, a).value.session;
            var r1, r := ApplyFilter(engine, s1, b), ApplyFilter(engine, s, b);
            && r1.Ok? == r.Ok?
            && (r.Ok? && r.value.effect.Previewed? ==> r1.value.session == r.value.session)
  {
    PreviewDependsOnlyOnCurrent(engine, ApplyFilter(engine, s, a).value.session, s, b);
  }

  /** Cancel after any preview leaves the committed image exactly as it
      was before the preview. */
  lemma CancelDiscardsPreview(engine: Engine, s: Session, id: string)
    requires ValidBitmap(s.current)
    requires ApplyFilter(engine, s, id).Ok?
    ensures var c := Cancel(ApplyFilter(engine, s, id).value.session);
            c.current == s.current && c.shown == s.current && !c.actionsVisible
  {
  }

  /** Save after a preview commits exactly the preview. */
  lemma SaveCommitsPreview(engine: Engine, s: Session, id: string)
    requires ValidBitmap(s.current)
    requires ApplyFilter(engine, s, id).Ok? && ApplyFilter(engine, s, id).value.effect.Previewed?
    ensures var p := ApplyFilter(engine, s, id).value.session;
            Save(p).Ok? && Save(p).value.current == p.temp.value
  {
  }

  /** Invert, Save, invert, Save gives back the image the session started
      with. */
  lemma InvertSavedTwiceRestores(engine: Engine, s: Session)
    requires ValidBitmap(s.current)
    ensures var p1 := ApplyFilter(engine, s, InvertId);
            && p1.Ok? && Save(p1.value.session).Ok?
            && var s1 := Save(p1.value.session).value;
               && ValidBitmap(s1.current)
               && var p2 := ApplyFilter(engine, s1, InvertId);
                  && p2.Ok? && Save(p2.value.session).Ok?
                  && Save(p2.value.session).value.current == s.current
  {
    var c := s.current;
    BuiltInPreview(engine, s, InvertId);
    var s1 := Save(ApplyFilter(engine, s, InvertId).value.session).value;
    BuiltInPreview(engine, s1, InvertId);
    PointFilters.InvertInvolution(c.pixels, c.width, c.height);
    assert c.pixels[..c.width * c.height] == c.pixels;
  }

  // --------------------------------------------------------------- events

  /** What can happen on the screen. The Save and Cancel buttons are `GONE`
      while hidden, so a click on them only arrives while they are
      visible. */
  datatype Event =
    | FilterChosen(id: string)
    | SaveClicked
    | CancelClicked
    | EditorResult(returned: Option<Bitmap>)

  /** A decoded bitmap is a valid one. */
  predicate WellFormed(e: Event)
  {
    e.EditorResult? && e.returned.Some? ==> ValidBitmap(e.returned.value)
  }

  /** One event. Failures come only from a native filter whose result is
      too short for its bitmap: Save never finds the preview missing,
      because the buttons are only visible while a preview exists. */
  function Step(engine: Engine, s: Session, e: Event): (r: Result<Session>)
    requires Consistent(s) && WellFormed(e)
    ensures r.Ok? ==> Consistent(r.value)
    ensures r.Fail? ==> e.FilterChosen? && UnverifiedNative(e.id)
    ensures r.Fail? ==> r.failure == PixelsTooShort
  {
    match e
    case FilterChosen(id) =>
      (match ApplyFilter(engine, s, id)
       case Fail(f) => Fail(f)
       case Ok(o) => Ok(o.session))
    case SaveClicked => if s.actionsVisible then Save(s) else Ok(s)
    case CancelClicked => if s.actionsVisible then Ok(Cancel(s)) else Ok(s)
    case EditorResult(returned) => Ok(EditorReturned(s, returned))
  }

  /** A sequence of events from a consistent state. */
  function Run(engine: Engine, s: Session, events: seq<Event>): (r: Result<Session>)
    requires Consistent(s)
    requires forall i :: 0 <= i < |events| ==> WellFormed(events[i])
    ensures r.Ok? ==> Consistent(r.value)
    ensures r.Fail? ==> r.failure == PixelsTooShort
    ensures r.Fail? ==> exists i :: 0 <= i < |events| && events[i].FilterChosen? && UnverifiedNative(events[i].id)
    decreases |events|
  {
    if |events| == 0 then Ok(s)
    else
      match Step(engine, s, events[0])
      case Fail(f) => Fail(f)
      case Ok(next) =>
        assert forall j :: 0 <= j < |events| - 1 ==> events[1..][j] == events[j + 1];
        Run(engine, next, events[1..])
  }

  /** Only edge detection and the rotations have no model of their result. */
  lemma BuiltInIdVerified(id: string)
    requires id != EdgeId && !Swaps(id) && id != Rotate180Id
    ensures !UnverifiedNative(id)
  {
  }

  /** Without edge detection and rotation, no sequence of events makes the
      screen throw. */
  lemma BuiltInFiltersNeverFail(engine: Engine, s: Session, events: seq<Event>)
    requires Consistent(s)
    requires forall i :: 0 <= i < |events| ==> WellFormed(events[i])
    requires forall i :: 0 <= i < |events| && events[i].FilterChosen? ==>
               events[i].id != EdgeId && !Swaps(events[i].id) && events[i].id != Rotate180Id
    ensures Run(engine, s, events).Ok?
  {
    forall i | 0 <= i < |events| && events[i].FilterChosen?
      ensures !UnverifiedNative(events[i].id)
    {
      BuiltInIdVerified(events[i].id);
    }
  }

  /** A preview still open when another editing screen returns is what Save
      then commits: the returned image is replaced by the older preview. */
  lemma SaveAfterEditorResultCommitsPreview(s: Session, b: Bitmap)
    requires Consistent(s) && s.actionsVisible && ValidBitmap(b)
    ensures var s1 := EditorReturned(s, Some(b));
            s1.current == b && Save(s1).Ok? && Save(s1).value.current == s.temp.value
  {
  }
}
