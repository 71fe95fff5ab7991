/** The crop region: `performCalibration` (src/helpers.ts) picks it once, and
    each screenshot in `scrapeOrders` (src/scraper.ts) uses it shifted by the
    current scroll offset when it has a positive size. Coordinates are
    integers here. */
module Calibration {
  import opened Common
  import opened Types

  /** `window.innerWidth` and `window.innerHeight`. */
  datatype Viewport = Viewport(innerWidth: int, innerHeight: int)

  /** How far in from the right and bottom edges of the viewport
      `performCalibration` probes for an element. */
  const ProbeInset: int := 50

  /** The width of the fallback strip along the right edge. */
  const FallbackWidth: int := 500

  /** `performCalibration`. `elementAt` stands for `document.elementFromPoint`
      followed by `getBoundingClientRect` of the element found, if any. When
      an element is there its box is the region; otherwise the region is the
      full-height strip of fixed width flush with the right edge. */
  function Calibrate(v: Viewport, elementAt: (int, int) -> Option<Rect>): (clip: Rect)
    ensures elementAt(v.innerWidth - 50, v.innerHeight - 50).Some? ==>
      clip == elementAt(v.innerWidth - 50, v.innerHeight - 50).value
    ensures elementAt(v.innerWidth - 50, v.innerHeight - 50).None? ==>
      && clip.width == 500
      && clip.x + clip.width == v.innerWidth
      && clip.y == 0
      && clip.height == v.innerHeight
  {
    match elementAt(v.innerWidth - ProbeInset, v.innerHeight - ProbeInset)
    case Some(box) => box
    case None => Rect(v.innerWidth - FallbackWidth, 0, FallbackWidth, v.innerHeight)
  }

  /** The locked region is used for cropping only when both sides are positive. */
  predicate Usable(clip: Rect) {
    clip.width > 0 && clip.height > 0
  }

  /** Same width and height. */
  predicate SameSize(a: Rect, b: Rect) {
    a.width == b.width && a.height == b.height
  }

  /** What a screenshot captured: the viewport, or the given page region. */
  datatype Shot = FullViewport | Clipped(region: Rect)

  /** The screenshot step. With a usable region the shot is that region moved
      by the scroll offset, keeping its size; a region the browser rejects
      falls back to the viewport shot, as does an unusable region. */
  function Screenshot(clip: Rect, scrollX: int, scrollY: int, clipRejected: bool): (s: Shot)
    ensures s.Clipped? <==> Usable(clip) && !clipRejected
    ensures s.Clipped? ==>
      && s.region.width == clip.width
      && s.region.height == clip.height
      && s.region.x - scrollX == clip.x
      && s.region.y - scrollY == clip.y
  {
    if Usable(clip) && !clipRejected then
      Clipped(Rect(clip.x + scrollX, clip.y + scrollY, clip.width, clip.height))
    else
      FullViewport
  }

  /** The region state of a run: the locked region, if any, and how many
      times calibration ran. */
  datatype Lock = Lock(clip: Option<Rect>, calibrations: nat)

  /** `if (!CALIBRATED_CLIP) CALIBRATED_CLIP = await performCalibration(page)`:
      calibrates only while nothing is locked. The lock is on presence, not on
      usability, so a zero-size region stays locked too. */
  function EnsureCalibrated(l: Lock, v: Viewport, elementAt: (int, int) -> Option<Rect>): (l': Lock)
    ensures l'.clip.Some?
    ensures l.clip.None? ==> l'.clip == Some(Calibrate(v, elementAt))
    ensures l.clip.Some? ==> l' == l
    ensures l.clip.None? ==> l'.calibrations == l.calibrations + 1
  {
    if l.clip.None? then Lock(Some(Calibrate(v, elementAt)), l.calibrations + 1) else l
  }
}
