/**
 The discrete parts of the particle background: the device-class
 configuration and the order in which one animation frame visits the
 particles and the particle pairs.

 A frame walks the particles in array order. For particle `i` it first
 moves it (position, reflection, mouse nudge and drawing, all of which are
 floating-point geometry and are abstracted to one `Move(i)` event), then
 tests it against every LATER particle `j` (`particles.slice(index + 1)`),
 abstracted to one `Check(i, j)` event. The frame is the resulting sequence
 of events.
 */
module Particles {

  /** Colour palette shared by both device classes. */
  const Palette: seq<string> := ["#667eea", "#764ba2", "#f093fb"]

  datatype ParticleConfig = ParticleConfig(
    count: nat,
    speed: real,
    size: nat,
    colors: seq<string>,
    maxDistance: nat)

  /** A device counts as touch-capable when it exposes a touch-start
      handler or reports at least one touch point. */
  predicate IsMobileDevice(hasTouchStart: bool, maxTouchPoints: int) {
    hasTouchStart || maxTouchPoints > 0
  }

  /** The configuration chosen once at start-up from the device class. */
  function SelectConfig(isMobile: bool): (c: ParticleConfig)
    ensures c.size == 2 && c.colors == Palette
    ensures isMobile ==> c.count == 50 && c.speed == 0.3 && c.maxDistance == 60
    ensures !isMobile ==> c.count == 150 && c.speed == 0.5 && c.maxDistance == 100
  {
    if isMobile then ParticleConfig(50, 0.3, 2, Palette, 60)
    else ParticleConfig(150, 0.5, 2, Palette, 100)
  }

  /** The configuration the page builds from what the browser reports: a
      touch-start handler, or a positive number of touch points, selects
      the touch configuration; a device with neither gets the full one. */
  function DeviceConfig(hasTouchStart: bool, maxTouchPoints: int): (c: ParticleConfig)
    ensures c == SelectConfig(IsMobileDevice(hasTouchStart, maxTouchPoints))
    ensures hasTouchStart || maxTouchPoints > 0 ==> c.count == 50 && c.speed == 0.3 && c.maxDistance == 60
    ensures !hasTouchStart && maxTouchPoints <= 0 ==> c.count == 150 && c.speed == 0.5 && c.maxDistance == 100
    ensures c.size == 2 && c.colors == Palette
  {
    SelectConfig(IsMobileDevice(hasTouchStart, maxTouchPoints))
  }

  /** Touch-capable devices get strictly fewer, slower particles and a
      smaller mouse-interaction radius, and share everything else. */
  lemma MobileConfigIsLighter()
    ensures SelectConfig(true).count < SelectConfig(false).count
    ensures SelectConfig(true).speed < SelectConfig(false).speed
    ensures SelectConfig(true).maxDistance < SelectConfig(false).maxDistance
    ensures SelectConfig(true).size == SelectConfig(false).size
    ensures SelectConfig(true).colors == SelectConfig(false).colors
  {
  }

  // ---------------------------------------------------------------------
  // One frame as a sequence of events
  // ---------------------------------------------------------------------

  datatype FrameEvent =
    | Move(i: nat)          // particle i is updated and drawn
    | Check(i: nat, j: nat) // particle i is tested against particle j

  /** Tests of particle `i` against particles `j .. n-1`. */
  function Checks(i: nat, j: nat, n: nat): seq<FrameEvent>
    decreases n - j
  {
    if j >= n then [] else [Check(i, j)] + Checks(i, j + 1, n)
  }

  /** What the frame does for particle `i`: move it, then test it against
      every later particle. */
  function Row(i: nat, n: nat): seq<FrameEvent> {
    [Move(i)] + Checks(i, i + 1, n)
  }

  /** Rows `i .. n-1` in order. */
  function FrameFrom(i: nat, n: nat): seq<FrameEvent>
    decreases n - i
  {
    if i >= n then [] else Row(i, n) + FrameFrom(i + 1, n)
  }

  /** The events of one frame over `n` particles. */
  function Frame(n: nat): seq<FrameEvent> {
    FrameFrom(0, n)
  }

  /** The events an event sequence holds, restricted to pair tests. */
  function CheckEvents(s: seq<FrameEvent>): seq<FrameEvent> {
    if s == [] then []
    else Keep(s[0]) + CheckEvents(s[1..])
  }

  function Keep(e: FrameEvent): seq<FrameEvent> {
    if e.Check? then [e] else []
  }

  /** The event is one a frame over `n` particles is meant to contain:
      each particle, and each pair `i < j`. */
  predicate Expected(e: FrameEvent, n: nat) {
    match e
    case Move(i) => i < n
    case Check(i, j) => i < j < n
  }

  /** Lexicographic order on (particle, partner), with a move keyed as
      (i, i). A frame lists its events in strictly increasing order. */
  function Partner(e: FrameEvent): nat {
    match e
    case Move(i) => i
    case Check(_, j) => j
  }

  predicate Precedes(a: FrameEvent, b: FrameEvent) {
    a.i < b.i || (a.i == b.i && Partner(a) < Partner(b))
  }

  predicate StrictlyOrdered(s: seq<FrameEvent>) {
    forall p, q | 0 <= p < q < |s| :: Precedes(s[p], s[q])
  }

  lemma {:induction false} ChecksShape(i: nat, j: nat, n: nat)
    ensures |Checks(i, j, n)| == (if j < n then n - j else 0)
    ensures forall p | 0 <= p < |Checks(i, j, n)| :: Checks(i, j, n)[p] == Check(i, j + p)
    decreases n - j
  {
    if j < n {
      ChecksShape(i, j + 1, n);
    }
  }

  lemma OrderedConcat(a: seq<FrameEvent>, b: seq<FrameEvent>)
    requires StrictlyOrdered(a) && StrictlyOrdered(b)
    requires forall x, y | x in a && y in b :: Precedes(x, y)
    ensures StrictlyOrdered(a + b)
  {
    var s := a + b;
    forall p, q | 0 <= p < q < |s|
      ensures Precedes(s[p], s[q])
    {
      if q < |a| {
        assert s[p] == a[p] && s[q] == a[q];
      } else if p >= |a| {
        assert s[p] == b[p - |a|] && s[q] == b[q - |a|];
      } else {
        assert s[p] in a && s[q] in b;
      }
    }
  }

  lemma {:induction false} FrameFromSound(i: nat, n: nat)
    ensures forall e | e in FrameFrom(i, n) :: i <= e.i && Expected(e, n)
    decreases n - i
  {
    if i < n {
      FrameFromSound(i + 1, n);
      ChecksShape(i, i + 1, n);
      var row := Row(i, n);
      assert forall p | 1 <= p < |row| :: row[p] == Check(i, i + p);
      assert forall e | e in row :: e.i == i && Expected(e, n);
    }
  }

  lemma {:induction false} FrameFromComplete(i: nat, n: nat)
    ensures forall e | Expected(e, n) && i <= e.i :: e in FrameFrom(i, n)
    decreases n - i
  {
    if i < n {
      FrameFromComplete(i + 1, n);
      ChecksShape(i, i + 1, n);
      var row := Row(i, n);
      forall e | Expected(e, n) && i <= e.i
        ensures e in FrameFrom(i, n)
      {
        if e.i == i {
          if e.Move? {
            assert e == row[0];
          } else {
            assert e == row[e.j - i];
          }
          assert e in row;
        } else {
          assert e in FrameFrom(i + 1, n);
        }
      }
    }
  }

  lemma RowShape(i: nat, n: nat)
    ensures StrictlyOrdered(Row(i, n))
    ensures forall e | e in Row(i, n) :: e.i == i
  {
    ChecksShape(i, i + 1, n);
    var row := Row(i, n);
    assert forall p | 1 <= p < |row| :: row[p] == Check(i, i + p);
  }

  lemma {:induction false} FrameFromOrdered(i: nat, n: nat)
    ensures StrictlyOrdered(FrameFrom(i, n))
    decreases n - i
  {
    if i < n {
      FrameFromOrdered(i + 1, n);
      FrameFromSound(i + 1, n);
      RowShape(i, n);
      OrderedConcat(Row(i, n), FrameFrom(i + 1, n));
    }
  }

  lemma FrameFromContents(i: nat, n: nat)
    ensures forall e | e in FrameFrom(i, n) :: i <= e.i && Expected(e, n)
    ensures forall e | Expected(e, n) && i <= e.i :: e in FrameFrom(i, n)
    ensures StrictlyOrdered(FrameFrom(i, n))
  {
    FrameFromSound(i, n);
    FrameFromComplete(i, n);
    FrameFromOrdered(i, n);
  }

  lemma {:induction false} CheckEventsConcat(a: seq<FrameEvent>, b: seq<FrameEvent>)
    ensures CheckEvents(a + b) == CheckEvents(a) + CheckEvents(b)
  {
    if a == [] {
      assert a + b == b;
    } else {
      var ab := a + b;
      assert ab[0] == a[0];
      assert ab[1..] == a[1..] + b;
      CheckEventsConcat(a[1..], b);
      assert CheckEvents(ab) == Keep(a[0]) + CheckEvents(a[1..] + b);
    }
  }

  lemma {:induction false} ChecksAreChecks(i: nat, j: nat, n: nat)
    ensures CheckEvents(Checks(i, j, n)) == Checks(i, j, n)
    decreases n - j
  {
    if j < n {
      var c := Checks(i, j, n);
      assert c[1..] == Checks(i, j + 1, n);
      ChecksAreChecks(i, j + 1, n);
    }
  }

  /** `0 + 1 + ... + (m - 1)`: the number of unordered pairs among `m`
      particles. */
  function Pairs(m: nat): nat {
    if m == 0 then 0 else Pairs(m - 1) + (m - 1)
  }

  lemma {:induction false} PairsClosedForm(m: nat)
    ensures 2 * Pairs(m) == m * (m - 1)
  {
    if m > 0 {
      PairsClosedForm(m - 1);
      assert (m - 1) * (m - 2) + 2 * (m - 1) == m * (m - 1);
    }
  }

  lemma {:induction false} FrameFromSize(i: nat, n: nat)
    requires i <= n
    ensures |FrameFrom(i, n)| == (n - i) + Pairs(n - i)
    ensures |CheckEvents(FrameFrom(i, n))| == Pairs(n - i)
    decreases n - i
  {
    if i < n {
      FrameFromSize(i + 1, n);
      ChecksShape(i, i + 1, n);
      ChecksAreChecks(i, i + 1, n);
      CheckEventsConcat(Row(i, n), FrameFrom(i + 1, n));
      CheckEventsConcat([Move(i)], Checks(i, i + 1, n));
      assert CheckEvents([Move(i)]) == [];
    }
  }

  /** A frame contains exactly the moves of the `n` particles and the tests
      of the unordered pairs `i < j`: never a pair `(i, i)`, never `(j, i)`
      after `(i, j)`. */
  lemma FrameVisits(n: nat)
    ensures forall e | e in Frame(n) :: Expected(e, n)
    ensures forall e | Expected(e, n) :: e in Frame(n)
    ensures forall e | e in Frame(n) && e.Check? :: e.i != e.j && Check(e.j, e.i) !in Frame(n)
  {
    FrameFromContents(0, n);
  }

  /** Every event of a frame occurs once: each particle is moved once and
      each pair is tested once per frame. */
  lemma FrameExactlyOnce(n: nat)
    ensures forall p, q | 0 <= p < q < |Frame(n)| :: Frame(n)[p] != Frame(n)[q]
  {
    FrameFromContents(0, n);
    forall p, q | 0 <= p < q < |Frame(n)|
      ensures Frame(n)[p] != Frame(n)[q]
    {
      assert Precedes(Frame(n)[p], Frame(n)[q]);
    }
  }

  /** Number of events: `n` moves and `n(n-1)/2` pair tests. */
  lemma FrameSize(n: nat)
    ensures |Frame(n)| == n + n * (n - 1) / 2
    ensures |CheckEvents(Frame(n))| == n * (n - 1) / 2
  {
    FrameFromSize(0, n);
    PairsClosedForm(n);
  }

  /** In a strictly ordered sequence, an element that does not precede
      another sits after it. */
  lemma OrderedIndex(s: seq<FrameEvent>, p: nat, q: nat)
    requires StrictlyOrdered(s) && p < |s| && q < |s|
    requires s[p] != s[q] && !Precedes(s[p], s[q])
    ensures q < p
  {
    assert forall r | p < r < |s| :: Precedes(s[p], s[r]);
  }

  /** When the pair `(i, j)` is tested, particle `i` has already been moved
      in this frame and particle `j` has not. */
  lemma CheckSeesMovedAndUnmoved(n: nat, p: nat)
    requires p < |Frame(n)| && Frame(n)[p].Check?
    ensures exists q | 0 <= q < p :: Frame(n)[q] == Move(Frame(n)[p].i)
    ensures exists q | p < q < |Frame(n)| :: Frame(n)[q] == Move(Frame(n)[p].j)
    ensures forall q | 0 <= q < p :: Frame(n)[q] != Move(Frame(n)[p].j)
  {
    var f := Frame(n);
    FrameFromContents(0, n);
    var e := f[p];
    assert e in f;
    assert Expected(e, n);
    assert Expected(Move(e.i), n) && Expected(Move(e.j), n);
    assert Move(e.i) in f && Move(e.j) in f;
    var qi :| 0 <= qi < |f| && f[qi] == Move(e.i);
    var qj :| 0 <= qj < |f| && f[qj] == Move(e.j);
    OrderedIndex(f, p, qi);
    OrderedIndex(f, qj, p);
    FrameExactlyOnce(n);
    assert forall q | 0 <= q < p :: f[q] != f[qj];
  }
}
