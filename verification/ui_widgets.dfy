/** Two small interactive widgets: the mobile bottom sheet's snap states
    (app/components/UI/BottomSheet.tsx) and the image gallery's ordering,
    wrap-around navigation and thumbnails (app/components/UI/ImageGallery.tsx). */

/** The bottom sheet. Each handler is modelled as one step from the state it
    reads to the state it writes; whether `onClose` is called is part of the
    step's result. */
module BottomSheet {

  datatype SheetState = Closed | Peek | Half | Full

  /** `STATE_HEIGHTS`, as a percentage of the viewport. */
  function HeightPercent(s: SheetState): nat {
    match s
    case Closed => 0
    case Peek => 20
    case Half => 50
    case Full => 90
  }

  /** The component's state; `initial` and `enableDrag` are its props. */
  datatype Sheet = Sheet(
    state: SheetState,
    dragging: bool,
    offset: real,
    startY: real,
    initial: SheetState,
    enableDrag: bool)

  const Threshold: real := 50.0

  /** The sheet as first rendered, with props `initialState` (default half)
      and `enableDrag` (default true). */
  function Initial(initial: SheetState, enableDrag: bool): (s: Sheet)
    ensures s.state == initial && !s.dragging && s.offset == 0.0
  {
    Sheet(initial, false, 0.0, 0.0, initial, enableDrag)
  }

  datatype Event =
    | Open                   // `isOpen` becomes true
    | TouchStart(y: real)
    | TouchMove(y: real)
    | TouchEnd
    | Tap                    // `cycleState`
    | Escape(isOpen: bool)

  datatype Outcome = Outcome(sheet: Sheet, closeRequested: bool)

  /** The state a completed drag snaps to; `onClose` is requested by a
      downward drag from peek. */
  function SnapAfterDrag(state: SheetState, offset: real): (o: (SheetState, bool))
    ensures o.1 <==> offset > Threshold && state == Peek
    ensures -Threshold <= offset <= Threshold ==> o.0 == state
    ensures offset > Threshold ==> HeightPercent(o.0) <= HeightPercent(state)
    ensures offset < -Threshold ==> HeightPercent(o.0) >= HeightPercent(state)
    ensures o.0 == Closed <==> state == Closed
    ensures offset > Threshold && state == Full ==> o.0 == Half
    ensures offset > Threshold && state == Half ==> o.0 == Peek
    ensures offset > Threshold && state == Peek ==> o.0 == Peek
    ensures offset < -Threshold && state == Peek ==> o.0 == Half
    ensures offset < -Threshold && state == Half ==> o.0 == Full
    ensures offset < -Threshold && state == Full ==> o.0 == Full
  {
    if offset > Threshold then
      match state
      case Full => (Half, false)
      case Half => (Peek, false)
      case Peek => (Peek, true)
      case Closed => (Closed, false)
    else if offset < -Threshold then
      match state
      case Peek => (Half, false)
      case Half => (Full, false)
      case Full => (Full, false)
      case Closed => (Closed, false)
    else (state, false)
  }

  /** A drag down undoes a drag up from peek or half, and a drag up undoes
      a drag down from half or full. */
  lemma DragUndoes(state: SheetState, down: real, up: real)
    requires down > Threshold && up < -Threshold
    ensures state == Peek || state == Half ==> SnapAfterDrag(SnapAfterDrag(state, up).0, down).0 == state
    ensures state == Half || state == Full ==> SnapAfterDrag(SnapAfterDrag(state, down).0, up).0 == state
  {
  }

  /** `cycleState`: peek opens to half, half to full, full falls back to half. */
  function CycleState(s: SheetState): (t: SheetState)
    ensures s != Closed ==> t == Half || t == Full
    ensures s == Closed ==> t == Closed
    ensures s == Half <==> t == Full
  {
    match s
    case Peek => Half
    case Half => Full
    case Full => Half
    case Closed => Closed
  }

  /** Tapping twice from half or full comes back to where it started. */
  lemma CycleTwice(s: SheetState)
    requires s == Half || s == Full
    ensures CycleState(CycleState(s)) == s
  {
  }

  function Step(s: Sheet, e: Event): (o: Outcome)
    ensures o.sheet.initial == s.initial && o.sheet.enableDrag == s.enableDrag
    ensures o.closeRequested ==> (e.Escape? && e.isOpen) || (e == TouchEnd && s.state == Peek)
  {
    match e
    case Open =>
      Outcome(s.(state := s.initial, offset := 0.0), false)
    case TouchStart(y) =>
      if !s.enableDrag then Outcome(s, false)
      else Outcome(s.(dragging := true, startY := y), false)
    case TouchMove(y) =>
      if !s.dragging || !s.enableDrag then Outcome(s, false)
      else Outcome(s.(offset := y - s.startY), false)
    case TouchEnd =>
      if !s.dragging || !s.enableDrag then Outcome(s, false)
      else
        var snap := SnapAfterDrag(s.state, s.offset);
        Outcome(s.(state := snap.0, dragging := false, offset := 0.0), snap.1)
    case Tap =>
      Outcome(s.(state := CycleState(s.state)), false)
    case Escape(isOpen) =>
      Outcome(s, isOpen)
  }

  /** A drag-end clears the drag and the offset; without a drag under way,
      or with dragging disabled, it changes nothing. */
  lemma TouchEndEffect(s: Sheet)
    ensures (s.dragging && s.enableDrag) ==>
              !Step(s, TouchEnd).sheet.dragging && Step(s, TouchEnd).sheet.offset == 0.0
    ensures !(s.dragging && s.enableDrag) ==> Step(s, TouchEnd) == Outcome(s, false)
    ensures (s.dragging && s.enableDrag && s.offset > Threshold && s.state == Peek) <==> Step(s, TouchEnd).closeRequested
    ensures s.dragging && s.enableDrag ==> Step(s, TouchEnd).sheet.state == SnapAfterDrag(s.state, s.offset).0
  {
  }

  /** Opening restores the initial state and clears the offset. */
  lemma OpenResets(s: Sheet)
    ensures Step(s, Open).sheet.state == s.initial && Step(s, Open).sheet.offset == 0.0
  {
  }

  /** The states the handlers maintain: the sheet is closed only when it
      was opened closed, a resting sheet has no offset, and a sheet whose
      drag is disabled is never dragged. */
  predicate Consistent(s: Sheet) {
    && (s.state == Closed ==> s.initial == Closed)
    && (!s.dragging ==> s.offset == 0.0)
    && (!s.enableDrag ==> !s.dragging)
  }

  function Run(s: Sheet, es: seq<Event>): Sheet
    decreases |es|
  {
    if |es| == 0 then s else Run(Step(s, es[0]).sheet, es[1..])
  }

  lemma StepConsistent(s: Sheet, e: Event)
    requires Consistent(s)
    ensures Consistent(Step(s, e).sheet)
  {
  }

  /** Whatever events arrive, the sheet stays consistent. */
  lemma {:induction false} RunConsistent(initial: SheetState, enableDrag: bool, es: seq<Event>)
    ensures Consistent(Run(Initial(initial, enableDrag), es))
  {
    RunFromConsistent(Initial(initial, enableDrag), es);
  }

  lemma {:induction false} RunFromConsistent(s: Sheet, es: seq<Event>)
    requires Consistent(s)
    ensures Consistent(Run(s, es))
    decreases |es|
  {
    if |es| > 0 {
      StepConsistent(s, es[0]);
      RunFromConsistent(Step(s, es[0]).sheet, es[1..]);
    }
  }

  /** `translateY(max(0, dragOffset))` while dragging: the sheet follows a
      downward drag but never rises above its snap height. */
  function Translation(s: Sheet): (t: real)
    ensures t >= 0.0
    ensures s.dragging && s.offset >= 0.0 ==> t == s.offset
    ensures !s.dragging || s.offset <= 0.0 ==> t == 0.0
  {
    if s.dragging && s.offset > 0.0 then s.offset else 0.0
  }
}

module ImageGallery {
  import opened Optional
  import opened Seqs
  import opened Types

  datatype ImageKind = HeroImage | Dish | Interior

  datatype GalleryImage = GalleryImage(src: string, kind: ImageKind)

  /** `images.hero` is truthy: present and not the empty string. */
  predicate HasHero(im: RestaurantImages) {
    im.hero.Some? && im.hero.value != ""
  }

  function HeroCount(im: RestaurantImages): nat {
    if HasHero(im) then 1 else 0
  }

  function Tagged(srcs: seq<string>, kind: ImageKind): (r: seq<GalleryImage>)
    ensures |r| == |srcs| && forall k :: 0 <= k < |srcs| ==> r[k] == GalleryImage(srcs[k], kind)
  {
    seq(|srcs|, k requires 0 <= k < |srcs| => GalleryImage(srcs[k], kind))
  }

  /** `allImages`: the hero if truthy, then every dish, then every interior
      shot, each in order. */
  function AllImages(im: RestaurantImages): (r: seq<GalleryImage>)
    ensures var h, d, n := HeroCount(im), im.dishes.GetOr([]), im.interior.GetOr([]);
      && |r| == h + |d| + |n|
      && (HasHero(im) ==> r[0] == GalleryImage(im.hero.value, HeroImage))
      && (forall k :: 0 <= k < |d| ==> r[h + k] == GalleryImage(d[k], Dish))
      && (forall k :: 0 <= k < |n| ==> r[h + |d| + k] == GalleryImage(n[k], Interior))
  {
    (if HasHero(im) then [GalleryImage(im.hero.value, HeroImage)] else [])
      + Tagged(im.dishes.GetOr([]), Dish)
      + Tagged(im.interior.GetOr([]), Interior)
  }

  /** `nextImage`: one step forward, wrapping from the last to the first. */
  function NextIndex(i: nat, n: nat): (j: nat)
    requires n > 0
    ensures j < n
    ensures i < n - 1 ==> j == i + 1
    ensures i == n - 1 ==> j == 0
  {
    (i + 1) % n
  }

  /** `prevImage`: one step back, wrapping from the first to the last. */
  function PrevIndex(i: nat, n: nat): (j: nat)
    requires n > 0
    ensures j < n
    ensures 0 < i < n ==> j == i - 1
    ensures i == 0 ==> j == n - 1
  {
    (i - 1 + n) % n
  }

  /** Forward then back, or back then forward, returns to the same image. */
  lemma NextPrevInverse(i: nat, n: nat)
    requires i < n
    ensures PrevIndex(NextIndex(i, n), n) == i
    ensures NextIndex(PrevIndex(i, n), n) == i
  {
  }

  /** One grid thumbnail: the image it opens, and the "+N" overlay text. */
  datatype Thumb = Thumb(imageIndex: nat, overlay: Option<nat>)

  const GridLimit: nat := 5

  /** `allImages.slice(images.hero ? 1 : 0, 5)` mapped to thumbnails, shown
      only when there are at least two images. */
  function Thumbnails(im: RestaurantImages): (ts: seq<Thumb>)
    ensures var n, h := |AllImages(im)|, HeroCount(im);
      && (n <= 1 ==> |ts| == 0)
      && (n > 1 ==> |ts| == Min(GridLimit, n) - h)
      && (forall k :: 0 <= k < |ts| ==> ts[k].imageIndex == k + h && ts[k].imageIndex < n)
      && (forall k :: 0 <= k < |ts| ==> (ts[k].overlay.Some? <==> k == 3 && n > GridLimit))
      && (forall k :: 0 <= k < |ts| && ts[k].overlay.Some? ==> ts[k].overlay.value == n - GridLimit)
  {
    var n, h := |AllImages(im)|, HeroCount(im);
    if n <= 1 then []
    else
      seq(Min(GridLimit, n) - h, k requires 0 <= k < Min(GridLimit, n) - h =>
        Thumb(k + h, if k == 3 && n > GridLimit then Some(n - GridLimit) else None))
  }

  /** The overlay number counts exactly the images the grid does not show:
      neither as the hero nor as a thumbnail. */
  lemma OverlayCountsHidden(im: RestaurantImages)
    requires |AllImages(im)| > GridLimit
    ensures var ts := Thumbnails(im);
      |ts| > 3 && ts[3].overlay == Some(|AllImages(im)| - HeroCount(im) - |ts|)
  {
  }

  /** Without a hero five thumbnails are shown and the overlay sits on the
      fourth, not the last. */
  lemma OverlayWithoutHero(im: RestaurantImages)
    requires !HasHero(im) && |AllImages(im)| > GridLimit
    ensures |Thumbnails(im)| == 5 && Thumbnails(im)[3].overlay.Some? && Thumbnails(im)[4].overlay.None?
  {
  }

  /** The lightbox: whether it is open and which image it shows. */
  datatype Lightbox = Lightbox(open: bool, active: nat)

  datatype GalleryEvent = OpenAt(index: nat) | CloseBox | NextImage | PrevImage

  /** The places that call `openLightbox`: the hero opens image 0 and each
      thumbnail opens the image it shows. */
  predicate Opener(im: RestaurantImages, k: nat) {
    (HasHero(im) && k == 0) || exists t :: t in Thumbnails(im) && t.imageIndex == k
  }

  function LightboxStep(lb: Lightbox, e: GalleryEvent, n: nat): (out: Lightbox)
    requires n > 0
    ensures e.OpenAt? ==> out == Lightbox(true, e.index)
    ensures e == CloseBox ==> out == lb.(open := false)
    ensures (e == NextImage || e == PrevImage) ==> out.open == lb.open && out.active < n
  {
    match e
    case OpenAt(k) => Lightbox(true, k)
    case CloseBox => lb.(open := false)
    case NextImage => lb.(active := NextIndex(lb.active, n))
    case PrevImage => lb.(active := PrevIndex(lb.active, n))
  }

  function RunLightbox(lb: Lightbox, es: seq<GalleryEvent>, n: nat): Lightbox
    requires n > 0
    decreases |es|
  {
    if |es| == 0 then lb else RunLightbox(LightboxStep(lb, es[0], n), es[1..], n)
  }

  /** Every image the hero or a thumbnail opens exists. */
  lemma OpenersInRange(im: RestaurantImages, k: nat)
    requires Opener(im, k)
    ensures k < |AllImages(im)|
  {
  }

  /** Starting from index 0 and opening only through the hero and the
      thumbnails, the shown image `allImages[activeIndex]` always exists. */
  lemma {:induction false} ActiveIndexInRange(im: RestaurantImages, lb: Lightbox, es: seq<GalleryEvent>)
    requires |AllImages(im)| > 0 && lb.active < |AllImages(im)|
    requires forall i :: 0 <= i < |es| && es[i].OpenAt? ==> Opener(im, es[i].index)
    ensures RunLightbox(lb, es, |AllImages(im)|).active < |AllImages(im)|
    decreases |es|
  {
    var n := |AllImages(im)|;
    if |es| > 0 {
      if es[0].OpenAt? {
        OpenersInRange(im, es[0].index);
      }
      assert forall i :: 0 <= i < |es[1..]| ==> es[1..][i] == es[i + 1];
      ActiveIndexInRange(im, LightboxStep(lb, es[0], n), es[1..]);
    }
  }

  /** The counter `activeIndex + 1 / allImages.length`. */
  function Counter(lb: Lightbox, n: nat): (c: (nat, nat))
    requires lb.active < n
    ensures 1 <= c.0 <= c.1 && c.1 == n
    ensures c.0 == n <==> lb.active == n - 1
  {
    (lb.active + 1, n)
  }

  datatype GalleryView = NoImages | Gallery(images: seq<GalleryImage>, thumbs: seq<Thumb>)

  /** "No images available" when nothing is assembled. */
  function Render(im: RestaurantImages): (v: GalleryView)
    ensures v.NoImages? <==> !HasHero(im) && |im.dishes.GetOr([])| == 0 && |im.interior.GetOr([])| == 0
    ensures v.Gallery? ==> v.images == AllImages(im) && v.thumbs == Thumbnails(im)
  {
    var all := AllImages(im);
    if |all| == 0 then NoImages else Gallery(all, Thumbnails(im))
  }
}
