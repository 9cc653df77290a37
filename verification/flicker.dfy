/** The flicker compositor `startFlickering` (index.js:113-138) as a state
    machine over the module-level `flickerInterval` variable, the host's
    table of live intervals and the visible canvas. Real time is left out:
    a tick is one call of an interval's callback. */
module Flicker {
  import opened Wrappers
  import opened Bitmaps

  /** A `setInterval` handle; the host hands out positive integers, so a
      held handle is always truthy for the test on line 128. */
  type Handle = h: int | h > 0 witness 1

  /** The state captured by one interval callback: its own `showFirst`
      flag (line 126) and the two rendered shares `c1`, `c2`. */
  datatype Session = Session(showFirst: bool, first: Bitmap, second: Bitmap)

  /** What the visible canvas holds: nothing since its last resize (setting
      `width`/`height` resets a canvas), or the last buffer drawn onto it. */
  datatype Content = Cleared | Shows(frame: Bitmap)

  datatype Surface = Surface(width: nat, height: nat, content: Content)

  /** `flickerInterval` is null (`None`) or the handle last installed;
      `timers` are the intervals the host still calls back; `nextHandle`
      is the handle the next `setInterval` returns. */
  datatype Compositor = Compositor(
    flickerInterval: Option<Handle>,
    timers: map<Handle, Session>,
    nextHandle: Handle,
    surface: Surface)

  /** The page before any captcha: no interval, an untouched canvas. */
  function Init(surface: Surface): (c: Compositor)
    ensures Valid(c) && c.timers == map[]
  {
    Compositor(None, map[], 1, surface)
  }

  /** At most one session: the live intervals are exactly the one the
      variable holds, and every handle issued so far is below `nextHandle`. */
  ghost predicate Valid(c: Compositor) {
    && (c.flickerInterval.None? ==> c.timers == map[])
    && (c.flickerInterval.Some? ==> c.timers.Keys == {c.flickerInterval.value})
    && forall h :: h in c.timers ==> h < c.nextHandle
  }

  /** `startFlickering` once both shares are rendered, in the code's order:
      resize the visible canvas to `c1` (which clears it), clear the held
      interval if any, then install a fresh interval whose first tick shows
      `c1`. The old interval can fire no more, the new one is the only one
      live, and nothing is drawn until the first tick. */
  function Start(c: Compositor, first: Bitmap, second: Bitmap): (d: Compositor)
    ensures d.flickerInterval.Some? && d.flickerInterval.value in d.timers
    ensures d.timers[d.flickerInterval.value] == Session(true, first, second)
    ensures Valid(c) && c.flickerInterval.Some? ==> c.flickerInterval.value !in d.timers
    ensures d.surface == Surface(first.width, first.height, Cleared)
    ensures Valid(c) ==> Valid(d) && d.timers.Keys == {d.flickerInterval.value}
    ensures Valid(c) ==> d.flickerInterval.value !in c.timers
  {
    var surface := Surface(first.width, first.height, Cleared);
    var timers := if c.flickerInterval.Some? then c.timers - {c.flickerInterval.value} else c.timers;
    var h := c.nextHandle;
    Compositor(Some(h), timers[h := Session(true, first, second)], h + 1, surface)
  }

  /** `drawImage` accepts a source canvas only when neither its width nor
      its height is zero; otherwise it throws an InvalidStateError. */
  predicate Blittable(b: Bitmap) {
    b.width > 0 && b.height > 0
  }

  /** The buffer the next callback of session `s` draws (line 132). */
  function NextFrame(s: Session): Bitmap {
    if s.showFirst then s.first else s.second
  }

  /** One callback of interval `h` (lines 130-137): draw `c1` if its flag is
      set, else `c2`, then flip the flag. A handle that is no longer live is
      never called back, so its tick changes nothing. When the buffer to
      draw has a zero dimension, `drawImage` throws before line 136, so the
      callback neither draws nor flips the flag. */
  function Tick(c: Compositor, h: Handle): (d: Compositor)
    ensures h !in c.timers ==> d == c
    ensures h in c.timers && !Blittable(NextFrame(c.timers[h])) ==> d == c
    ensures h in c.timers && Blittable(NextFrame(c.timers[h])) ==>
      && d.surface.content == Shows(NextFrame(c.timers[h]))
      && h in d.timers
      && d.timers[h].showFirst == !c.timers[h].showFirst
      && d.timers[h].first == c.timers[h].first && d.timers[h].second == c.timers[h].second
    ensures forall k :: k in c.timers && k != h ==> k in d.timers && d.timers[k] == c.timers[k]
    ensures d.flickerInterval == c.flickerInterval && d.nextHandle == c.nextHandle
    ensures d.timers.Keys == c.timers.Keys
    ensures d.surface.width == c.surface.width && d.surface.height == c.surface.height
    ensures Valid(c) ==> Valid(d)
  {
    if h !in c.timers then c
    else
      var s := c.timers[h];
      var frame := if s.showFirst then s.first else s.second;
      if frame.width == 0 || frame.height == 0 then c
      else
        c.(timers := c.timers[h := s.(showFirst := !s.showFirst)],
           surface := c.surface.(content := Shows(frame)))
  }

  /** `n` consecutive callbacks of interval `h`. */
  function Ticks(c: Compositor, h: Handle, n: nat): Compositor
  {
    if n == 0 then c else Tick(Ticks(c, h, n - 1), h)
  }

  /** Counting from the start of a session, tick number n (0-based) draws
      `c1` when n is even and `c2` when n is odd; between ticks the flag
      says which comes next, and the canvas keeps the size of `c1`. Both
      buffers must be drawable; see EmptyFrameStalls for the other case. */
  lemma {:induction false} Alternation(c: Compositor, first: Bitmap, second: Bitmap, n: nat)
    requires Blittable(first) && Blittable(second)
    ensures var d := Start(c, first, second);
      var t := Ticks(d, d.flickerInterval.value, n);
      && d.flickerInterval.value in t.timers
      && t.timers[d.flickerInterval.value] == Session(n % 2 == 0, first, second)
      && t.surface.width == first.width && t.surface.height == first.height
      && (n == 0 <==> t.surface.content == Cleared)
      && (n > 0 ==> t.surface.content == Shows(if (n - 1) % 2 == 0 then first else second))
  {
    if n > 0 {
      Alternation(c, first, second, n - 1);
    }
  }

  /** A session whose first buffer has a zero dimension never shows
      anything: every callback throws at the first `drawImage`, so the flag
      stays set and the canvas stays cleared, however many ticks pass. */
  lemma {:induction false} EmptyFrameStalls(c: Compositor, first: Bitmap, second: Bitmap, n: nat)
    requires !Blittable(first)
    ensures var d := Start(c, first, second);
      Ticks(d, d.flickerInterval.value, n) == d
  {
    if n > 0 {
      EmptyFrameStalls(c, first, second, n - 1);
    }
  }

  /** Once a new session has started, the previous interval's callbacks do
      nothing, however many ticks of the new session have happened: no
      frame of the old challenge is drawn again. */
  lemma {:induction false} StaleTicksInert(c: Compositor, first: Bitmap, second: Bitmap, n: nat, stale: Handle)
    requires Valid(c) && c.flickerInterval == Some(stale)
    ensures var d := Start(c, first, second);
      var t := Ticks(d, d.flickerInterval.value, n);
      Tick(t, stale) == t
  {
    var d := Start(c, first, second);
    TicksKeepKeys(d, d.flickerInterval.value, n);
  }

  lemma {:induction false} TicksKeepKeys(c: Compositor, h: Handle, n: nat)
    ensures Ticks(c, h, n).timers.Keys == c.timers.Keys
    ensures Ticks(c, h, n).flickerInterval == c.flickerInterval
  {
    if n > 0 {
      TicksKeepKeys(c, h, n - 1);
    }
  }

  /** Starting twice in a row leaves exactly one live interval, the second
      one, and the first session's interval is gone. */
  lemma StartTwice(c: Compositor, a1: Bitmap, b1: Bitmap, a2: Bitmap, b2: Bitmap)
    requires Valid(c)
    ensures var d1 := Start(c, a1, b1);
      var d2 := Start(d1, a2, b2);
      && Valid(d2)
      && d2.timers.Keys == {d2.flickerInterval.value}
      && d2.timers[d2.flickerInterval.value] == Session(true, a2, b2)
      && d1.flickerInterval.value !in d2.timers
  {
  }
}
