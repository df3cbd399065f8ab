/**
 What a timeline shows when it is played: which frame is on screen at each instant of
 the window, how long the clip lasts, and exactly when the two are what the window
 asks for.
 */
module ClipShowing {
  import opened Wrappers
  import opened Sequences
  import opened ClipTimeline

  /**
   How long an entry is held: until the stamp of the next, and the last until the end of
   the window, when that is a millisecond or more; otherwise a millisecond.
   */
  lemma EntryLasts(out: seq<Entry>, keep: seq<Frame>, from: real, end: real, i: nat)
    requires Chain(keep, from, end) && Holds(out, keep, end) && i < |out|
    ensures out[i].path == keep[i].path
    ensures var gap := (if i + 1 < |keep| then keep[i + 1].time else end) - keep[i].time;
            out[i].duration == if gap >= 0.001 then gap else 0.001
  {
  }

  // ---- playing a timeline ----

  /** When entry `n` comes on screen, from the start of the clip. */
  ghost function Offset(out: seq<Entry>, n: nat): real
    requires n <= |out|
  {
    if n == 0 then 0.0 else Offset(out, n - 1) + out[n - 1].duration
  }

  ghost function Total(out: seq<Entry>): real
  {
    Offset(out, |out|)
  }

  /** Entry `i` is on screen at time `at` of the clip. */
  ghost predicate OnAt(out: seq<Entry>, i: nat, at: real)
  {
    i < |out| && Offset(out, i) <= at < Offset(out, i + 1)
  }

  /** `path` is on screen at time `at` of the clip. */
  ghost predicate Shows(out: seq<Entry>, at: real, path: string)
  {
    exists i: nat :: OnAt(out, i, at) && out[i].path == path
  }

  ghost predicate Ticking(out: seq<Entry>)
  {
    forall i :: 0 <= i < |out| ==> out[i].duration >= TICK
  }

  lemma HoldsTicks(out: seq<Entry>, keep: seq<Frame>, end: real)
    requires Holds(out, keep, end)
    ensures Ticking(out)
  {
  }

  lemma {:induction false} OffsetGrows(out: seq<Entry>, i: nat, j: nat)
    requires Ticking(out) && i <= j <= |out|
    ensures Offset(out, i) <= Offset(out, j)
    decreases j
  {
    if i < j {
      OffsetGrows(out, i, j - 1);
    }
  }

  lemma NotLater(out: seq<Entry>, at: real, i: nat, j: nat)
    requires Ticking(out) && i < |out| && j < |out|
    requires at < Offset(out, i + 1) && Offset(out, j) <= at
    ensures j <= i
  {
    if i < j {
      OffsetGrows(out, i + 1, j);
    }
  }

  /** One entry is on screen at a time. */
  lemma ShowsOne(out: seq<Entry>, at: real, i: nat, j: nat)
    requires Ticking(out) && OnAt(out, i, at) && OnAt(out, j, at)
    ensures i == j
  {
    NotLater(out, at, i, j);
    NotLater(out, at, j, i);
  }

  /** And one is, at every moment of the clip. */
  lemma {:induction false} ShowsSome(out: seq<Entry>, at: real, n: nat) returns (i: nat)
    requires n <= |out| && 0.0 <= at < Offset(out, n)
    ensures OnAt(out, i, at)
    decreases n
  {
    if Offset(out, n - 1) <= at {
      i := n - 1;
    } else {
      i := ShowsSome(out, at, n - 1);
    }
  }

  // ---- delays ----

  lemma DurationBounds(keep: seq<Frame>, from: real, end: real, i: nat)
    requires Chain(keep, from, end) && i < |keep|
    ensures var gap := Stamp(keep, end, i + 1) - keep[i].time;
            && Duration(keep, end, i) >= gap
            && (Duration(keep, end, i) == gap <==> gap >= TICK)
            && (from <= end ==> Duration(keep, end, i) <= gap + TICK)
  {
  }

  /** The first `n` entries are each held at least a tick before the next is due. */
  ghost predicate GapsUpto(keep: seq<Frame>, end: real, n: nat)
    requires n <= |keep|
  {
    forall i :: 0 <= i < n ==> Stamp(keep, end, i + 1) - keep[i].time >= TICK
  }

  /**
   The stretching of short entries only ever delays, by at most a tick each, and an
   entry is on time exactly when none before it was stretched.
   */
  lemma {:induction false} OffsetBounds(out: seq<Entry>, keep: seq<Frame>, from: real, end: real, n: nat)
    requires Chain(keep, from, end) && Holds(out, keep, end) && n <= |out|
    ensures Offset(out, n) >= Stamp(keep, end, n) - from
    ensures Offset(out, n) == Stamp(keep, end, n) - from <==> GapsUpto(keep, end, n)
    ensures from <= end ==> Offset(out, n) <= Stamp(keep, end, n) - from + n as real * TICK
  {
    if n > 0 {
      OffsetBounds(out, keep, from, end, n - 1);
      DurationBounds(keep, from, end, n - 1);
      assert Offset(out, n) == Offset(out, n - 1) + Duration(keep, end, n - 1);
      assert GapsUpto(keep, end, n) <==>
        GapsUpto(keep, end, n - 1) && Stamp(keep, end, n - 1 + 1) - keep[n - 1].time >= TICK;
    }
  }

  // ---- the entry kept for an instant ----

  /** The window asks for entry `i` at the instant `x`. */
  ghost predicate KeptFor(keep: seq<Frame>, end: real, i: nat, x: real)
  {
    i < |keep| && keep[i].time <= x < Stamp(keep, end, i + 1)
  }

  /** At every instant of the window the entry on screen is the one asked for. */
  ghost predicate InStep(out: seq<Entry>, keep: seq<Frame>, start: real, end: real)
  {
    forall x, i :: start <= x < end && KeptFor(keep, end, i, x) ==> OnAt(out, i, x - start)
  }

  lemma {:induction false} SomeKeptFor(keep: seq<Frame>, from: real, end: real, x: real, n: nat) returns (i: nat)
    requires Chain(keep, from, end) && n < |keep| && from <= x < Stamp(keep, end, n + 1)
    ensures KeptFor(keep, end, i, x)
    decreases n
  {
    if keep[n].time <= x {
      i := n;
    } else {
      i := SomeKeptFor(keep, from, end, x, n - 1);
    }
  }

  /** On time up to the last entry, the entry asked for is on screen. */
  lemma GapsKeepStep(out: seq<Entry>, keep: seq<Frame>, start: real, end: real, i: nat, x: real)
    requires Chain(keep, start, end) && Holds(out, keep, end) && GapsUpto(keep, end, |keep| - 1)
    requires KeptFor(keep, end, i, x)
    ensures OnAt(out, i, x - start)
  {
    OffsetBounds(out, keep, start, end, i);
    OffsetBounds(out, keep, start, end, i + 1);
  }

  /** After a short gap, the next entry is asked for before it comes on screen. */
  lemma ShortGapBreaksStep(out: seq<Entry>, keep: seq<Frame>, start: real, end: real, i: nat)
    returns (x: real, j: nat)
    requires Chain(keep, start, end) && Holds(out, keep, end)
    requires i + 1 < |keep| && keep[i + 1].time - keep[i].time < TICK
    ensures start <= x < end && KeptFor(keep, end, j, x) && !OnAt(out, j, x - start)
  {
    x := keep[i + 1].time;
    j := SomeKeptFor(keep, start, end, x, |keep| - 1);
    OffsetBounds(out, keep, start, end, i + 1);
    assert !GapsUpto(keep, end, i + 1) by {
      assert Stamp(keep, end, i + 1) == keep[i + 1].time;
    }
    NotAfter(keep, start, end, j, i + 1);
    HoldsTicks(out, keep, end);
    OffsetGrows(out, i + 1, j);
  }

  /** The entry on screen is the one asked for, throughout, exactly when no entry but the last is stretched. */
  lemma InStepExactly(out: seq<Entry>, keep: seq<Frame>, start: real, end: real)
    requires Chain(keep, start, end) && Holds(out, keep, end)
    ensures InStep(out, keep, start, end) <==> GapsUpto(keep, end, |keep| - 1)
  {
    if GapsUpto(keep, end, |keep| - 1) {
      forall x, i | start <= x < end && KeptFor(keep, end, i, x)
        ensures OnAt(out, i, x - start)
      {
        GapsKeepStep(out, keep, start, end, i, x);
      }
    } else {
      var i :| 0 <= i < |keep| - 1 && Stamp(keep, end, i + 1) - keep[i].time < TICK;
      var x, j := ShortGapBreaksStep(out, keep, start, end, i);
    }
  }

  // ---- spacing, said of the unsorted frames ----

  /** The stamps inside the window are a tick from each other and from its start. */
  ghost predicate SpacedInside(frames: seq<Frame>, start: real, end: real)
  {
    && (forall f :: f in frames && Within(f, start, end) ==> f.time - start >= TICK && multiset(frames)[f] == 1)
    && (forall f, g :: f in frames && g in frames && Within(f, start, end) && Within(g, start, end) && f != g ==>
          f.time - g.time >= TICK || g.time - f.time >= TICK)
  }

  /** And all of them, the start included, are a tick from its end. */
  ghost predicate Spaced(frames: seq<Frame>, start: real, end: real)
  {
    && SpacedInside(frames, start, end) && end - start >= TICK
    && (forall f :: f in frames && Within(f, start, end) ==> end - f.time >= TICK)
  }

  lemma InTail(keep: seq<Frame>, frames: seq<Frame>, start: real, end: real, i: nat)
    requires keep != [] && SameInside(keep[1..], frames, start, end) && 0 < i < |keep|
    ensures keep[i] in frames && Within(keep[i], start, end)
    ensures multiset(keep[1..])[keep[i]] == multiset(frames)[keep[i]]
  {
    assert keep[i] == keep[1..][i - 1];
    InsideMember(keep[1..], frames, start, end, keep[i]);
  }

  lemma KeptAt(keep: seq<Frame>, frames: seq<Frame>, start: real, end: real, f: Frame) returns (i: nat)
    requires keep != [] && SameInside(keep[1..], frames, start, end) && f in frames && Within(f, start, end)
    ensures 0 < i < |keep| && keep[i] == f && f in keep[1..]
    ensures multiset(frames)[f] == multiset(keep[1..])[f]
  {
    InsideMember(keep[1..], frames, start, end, f);
    i :| 0 <= i < |keep[1..]| && keep[1..][i] == f;
    i := i + 1;
  }

  lemma SpacedGivesGaps(keep: seq<Frame>, frames: seq<Frame>, start: real, end: real)
    requires Chain(keep, start, end) && SameInside(keep[1..], frames, start, end)
    requires SpacedInside(frames, start, end)
    ensures GapsUpto(keep, end, |keep| - 1)
  {
    forall i | 0 <= i < |keep| - 1
      ensures Stamp(keep, end, i + 1) - keep[i].time >= TICK
    {
      InTail(keep, frames, start, end, i + 1);
      if i > 0 {
        InTail(keep, frames, start, end, i);
        CountsTwice(keep[1..], i - 1, i);
      }
    }
  }

  lemma {:induction false} GapsAdd(keep: seq<Frame>, end: real, n: nat, i: nat, j: nat)
    requires n <= |keep| && GapsUpto(keep, end, n) && i < j <= n
    ensures Stamp(keep, end, j) - keep[i].time >= TICK
    decreases j
  {
    if i + 1 < j {
      GapsAdd(keep, end, n, i, j - 1);
      assert Stamp(keep, end, j - 1 + 1) - keep[j - 1].time >= TICK;
    }
  }

  lemma OnceKept(keep: seq<Frame>, end: real, f: Frame)
    requires keep != [] && GapsUpto(keep, end, |keep| - 1) && f in keep[1..]
    ensures multiset(keep[1..])[f] == 1
  {
    var tail := keep[1..];
    forall i, j | 0 <= i < j < |tail|
      ensures tail[i] != tail[j]
    {
      GapsAdd(keep, end, |keep| - 1, i + 1, j + 1);
    }
    CountsOnce(tail, f);
  }

  lemma GapsSeparate(keep: seq<Frame>, frames: seq<Frame>, start: real, end: real, f: Frame, g: Frame)
    requires Chain(keep, start, end) && SameInside(keep[1..], frames, start, end)
    requires GapsUpto(keep, end, |keep| - 1)
    requires f in frames && g in frames && Within(f, start, end) && Within(g, start, end) && f != g
    ensures f.time - g.time >= TICK || g.time - f.time >= TICK
  {
    var i := KeptAt(keep, frames, start, end, f);
    var j := KeptAt(keep, frames, start, end, g);
    if i < j {
      GapsAdd(keep, end, |keep| - 1, i, j);
    } else {
      GapsAdd(keep, end, |keep| - 1, j, i);
    }
  }

  lemma GapsGiveSpaced(keep: seq<Frame>, frames: seq<Frame>, start: real, end: real)
    requires Chain(keep, start, end) && SameInside(keep[1..], frames, start, end)
    requires GapsUpto(keep, end, |keep| - 1)
    ensures SpacedInside(frames, start, end)
  {
    forall f | f in frames && Within(f, start, end)
      ensures f.time - start >= TICK && multiset(frames)[f] == 1
    {
      var i := KeptAt(keep, frames, start, end, f);
      GapsAdd(keep, end, |keep| - 1, 0, i);
      OnceKept(keep, end, f);
    }
    forall f, g | f in frames && g in frames && Within(f, start, end) && Within(g, start, end) && f != g
      ensures f.time - g.time >= TICK || g.time - f.time >= TICK
    {
      GapsSeparate(keep, frames, start, end, f, g);
    }
  }

  lemma SpacedInsideGaps(keep: seq<Frame>, frames: seq<Frame>, start: real, end: real)
    requires Chain(keep, start, end) && SameInside(keep[1..], frames, start, end)
    ensures SpacedInside(frames, start, end) <==> GapsUpto(keep, end, |keep| - 1)
  {
    if SpacedInside(frames, start, end) {
      SpacedGivesGaps(keep, frames, start, end);
    }
    if GapsUpto(keep, end, |keep| - 1) {
      GapsGiveSpaced(keep, frames, start, end);
    }
  }

  /** The last entry has its tick exactly when every stamp has one before the end. */
  lemma LastGap(keep: seq<Frame>, frames: seq<Frame>, start: real, end: real)
    requires Chain(keep, start, end) && SameInside(keep[1..], frames, start, end)
    ensures end - keep[|keep| - 1].time >= TICK
            <==> end - start >= TICK && forall f :: f in frames && Within(f, start, end) ==> end - f.time >= TICK
  {
    var n := |keep| - 1;
    assert forall i :: 0 <= i < n ==> keep[i].time <= keep[n].time;
    if n > 0 {
      InTail(keep, frames, start, end, n);
    }
    if end - keep[n].time >= TICK {
      forall f | f in frames && Within(f, start, end)
        ensures end - f.time >= TICK
      {
        var i := KeptAt(keep, frames, start, end, f);
      }
    }
  }

  lemma SpacedGaps(keep: seq<Frame>, frames: seq<Frame>, start: real, end: real)
    requires Chain(keep, start, end) && SameInside(keep[1..], frames, start, end)
    ensures Spaced(frames, start, end) <==> GapsUpto(keep, end, |keep|)
  {
    var n := |keep| - 1;
    SpacedInsideGaps(keep, frames, start, end);
    LastGap(keep, frames, start, end);
    assert GapsUpto(keep, end, |keep|) <==> GapsUpto(keep, end, n) && Stamp(keep, end, n + 1) - keep[n].time >= TICK;
  }

  // ---- how long the clip lasts ----

  /**
   A clip that opens on a frame lasts as long as its window exactly when the stamps in
   the window are at least a tick apart. Otherwise it lasts longer, by at most a tick
   for each entry exactly when the window is not reversed.
   */
  lemma TotalIsTheWindow(frames: seq<Frame>, start: real, end: real, out: seq<Entry>)
    requires FrameBefore(frames, start) && Holds(out, Keep(Sort(frames), start, end), end)
    ensures Total(out) == end - start <==> Spaced(frames, start, end)
    ensures Total(out) >= end - start
    ensures Total(out) <= end - start + |out| as real * TICK <==> start <= end
  {
    var keep := Keep(Sort(frames), start, end);
    var opening := KeepsOpening(frames, start, end);
    SpacedGaps(keep, frames, start, end);
    OffsetBounds(out, keep, start, end, |out|);
    if end < start {
      ReversedWindow(out, keep, start, end);
    }
  }

  /** A window that ends before it starts still shows one entry, for one tick. */
  lemma ReversedWindow(out: seq<Entry>, keep: seq<Frame>, start: real, end: real)
    requires Chain(keep, start, end) && Holds(out, keep, end) && end < start
    ensures |out| == 1 && Total(out) == TICK
  {
    assert forall i :: 0 < i < |keep| ==> keep[0].time <= keep[i].time < end;
    assert |out| == 1 && out[0].duration == TICK;
    assert Offset(out, 1) == Offset(out, 0) + out[0].duration;
  }

  // ---- which frame is on screen ----

  /**
   The frame behind entry `i` is, of all frames stamped no later than some `y` before the
   next entry is due, the last.
   */
  lemma FrameBehind(keep: seq<Frame>, opening: Frame, frames: seq<Frame>, start: real, end: real, i: nat, y: real)
    returns (f: Frame)
    requires Kept(keep, opening, frames, start, end) && i < |keep| && y < Stamp(keep, end, i + 1)
    requires start <= end
    ensures f in frames && f.path == keep[i].path && f.time <= keep[i].time
    ensures i > 0 ==> f == keep[i]
    ensures i == 0 ==> f == opening
    ensures forall g :: g in frames && g.time <= y ==> !Precedes(f, g)
  {
    NoneAfterIsLatest(opening, frames, start);
    if i == 0 {
      f := opening;
    } else {
      f := keep[i];
      InTail(keep, frames, start, end, i);
    }
    forall g | g in frames && g.time <= y
      ensures !Precedes(f, g)
    {
      if g.time > start {
        var j := KeptAt(keep, frames, start, end, g);
        NotAfter(keep, start, end, i, j);
        assert keep[i] == keep[1..][i - 1] && keep[j] == keep[1..][j - 1];
        PrecedesAsymmetric(f, g);
      }
    }
  }

  lemma NotAfter(keep: seq<Frame>, start: real, end: real, i: nat, j: nat)
    requires Chain(keep, start, end) && i < |keep| && j < |keep| && keep[j].time < Stamp(keep, end, i + 1)
    ensures j <= i
  {
    if i < j {
      StampsRise(keep, start, end, i, j);
    }
  }

  lemma StampsRise(keep: seq<Frame>, start: real, end: real, i: nat, j: nat)
    requires Chain(keep, start, end) && i < j < |keep|
    ensures Stamp(keep, end, i + 1) <= keep[j].time
  {
  }

  /** Some frame is the last stamped at or before `x`, and it is on screen. */
  ghost predicate ShowsLatestAt(out: seq<Entry>, frames: seq<Frame>, start: real, x: real)
  {
    exists f :: IsLatest(f, frames, x) && Shows(out, x - start, f.path)
  }

  /** Every instant of the window shows the last frame stamped at or before it. */
  ghost predicate AlwaysLatest(out: seq<Entry>, frames: seq<Frame>, start: real, end: real)
  {
    forall x :: start <= x < end ==> ShowsLatestAt(out, frames, start, x)
  }

  /** No two captured frames share a path. */
  ghost predicate PathsDiffer(frames: seq<Frame>)
  {
    forall i, j :: 0 <= i < j < |frames| ==> frames[i].path != frames[j].path
  }

  lemma LatestIsOne(f: Frame, g: Frame, frames: seq<Frame>, x: real)
    requires IsLatest(f, frames, x) && IsLatest(g, frames, x)
    ensures f == g
  {
    NoneAfterIsLatest(f, frames, x);
    NoneAfterIsLatest(g, frames, x);
    NeitherPrecedes(f, g);
  }

  /** The frame asked for at `x` is the last stamped at or before it. */
  lemma KeptForIsLatest(keep: seq<Frame>, opening: Frame, frames: seq<Frame>, start: real, end: real, i: nat, x: real)
    returns (f: Frame)
    requires Kept(keep, opening, frames, start, end) && start <= x < end && KeptFor(keep, end, i, x)
    ensures IsLatest(f, frames, x) && f.path == keep[i].path
  {
    f := FrameBehind(keep, opening, frames, start, end, i, x);
    NoneAfterIsLatest(f, frames, x);
  }

  lemma SpacedShowsLatest(keep: seq<Frame>, opening: Frame, frames: seq<Frame>, start: real, end: real,
                          out: seq<Entry>, x: real)
    requires Kept(keep, opening, frames, start, end) && Holds(out, keep, end)
    requires GapsUpto(keep, end, |keep| - 1) && start <= x < end
    ensures ShowsLatestAt(out, frames, start, x)
  {
    var i := SomeKeptFor(keep, start, end, x, |keep| - 1);
    GapsKeepStep(out, keep, start, end, i, x);
    var f := KeptForIsLatest(keep, opening, frames, start, end, i, x);
    assert Shows(out, x - start, f.path);
  }

  /** Entries are different frames, so their paths differ when those of the frames do. */
  lemma EntriesDiffer(keep: seq<Frame>, opening: Frame, frames: seq<Frame>, start: real, end: real, a: nat, b: nat)
    requires Kept(keep, opening, frames, start, end) && PathsDiffer(frames) && a < b < |keep|
    ensures keep[a].path != keep[b].path
  {
    InTail(keep, frames, start, end, b);
    if a > 0 {
      InTail(keep, frames, start, end, a);
      assert keep[a] == keep[1..][a - 1] && keep[b] == keep[1..][b - 1];
      CountsTwice(keep[1..], a - 1, b - 1);
      assert Distinct(frames);
      CountsOnce(frames, keep[b]);
      SamePathSameFrame(frames, keep[a], keep[b]);
    } else {
      SamePathSameFrame(frames, opening, keep[b]);
    }
  }

  lemma SamePathSameFrame(frames: seq<Frame>, f: Frame, g: Frame)
    requires PathsDiffer(frames) && f in frames && g in frames
    ensures f.path == g.path ==> f == g
  {
    var i :| 0 <= i < |frames| && frames[i] == f;
    var j :| 0 <= j < |frames| && frames[j] == g;
  }

  lemma ShortGapShowsOlder(keep: seq<Frame>, opening: Frame, frames: seq<Frame>, start: real, end: real,
                           out: seq<Entry>)
    requires Kept(keep, opening, frames, start, end) && Holds(out, keep, end) && PathsDiffer(frames)
    requires !GapsUpto(keep, end, |keep| - 1)
    ensures !AlwaysLatest(out, frames, start, end)
  {
    var i :| 0 <= i < |keep| - 1 && Stamp(keep, end, i + 1) - keep[i].time < TICK;
    var x, j := ShortGapBreaksStep(out, keep, start, end, i);
    OlderAt(keep, opening, frames, start, end, out, x, j);
  }

  /** Where the entry asked for is not on screen, the last frame stamped so far is not shown. */
  lemma OlderAt(keep: seq<Frame>, opening: Frame, frames: seq<Frame>, start: real, end: real, out: seq<Entry>,
                x: real, j: nat)
    requires Kept(keep, opening, frames, start, end) && Holds(out, keep, end) && PathsDiffer(frames)
    requires start <= x < end && KeptFor(keep, end, j, x) && !OnAt(out, j, x - start)
    ensures !ShowsLatestAt(out, frames, start, x)
  {
    var g := KeptForIsLatest(keep, opening, frames, start, end, j, x);
    forall f | IsLatest(f, frames, x)
      ensures !Shows(out, x - start, f.path)
    {
      LatestIsOne(f, g, frames, x);
      forall m: nat | OnAt(out, m, x - start)
        ensures out[m].path != f.path
      {
        if keep[m].path == keep[j].path {
          SameEntry(keep, opening, frames, start, end, m, j);
        }
      }
    }
  }

  lemma SameEntry(keep: seq<Frame>, opening: Frame, frames: seq<Frame>, start: real, end: real, a: nat, b: nat)
    requires Kept(keep, opening, frames, start, end) && PathsDiffer(frames)
    requires a < |keep| && b < |keep| && keep[a].path == keep[b].path
    ensures a == b
  {
    if a < b {
      EntriesDiffer(keep, opening, frames, start, end, a, b);
    } else if b < a {
      EntriesDiffer(keep, opening, frames, start, end, b, a);
    }
  }

  /**
   With the stamps inside the window a tick from each other and from its start, every
   instant shows the last frame stamped at or before it. With frames of different paths,
   this is exactly the condition.
   */
  lemma ShowsTheLatest(frames: seq<Frame>, start: real, end: real, out: seq<Entry>)
    requires FrameBefore(frames, start) && Holds(out, Keep(Sort(frames), start, end), end)
    ensures SpacedInside(frames, start, end) ==> AlwaysLatest(out, frames, start, end)
    ensures PathsDiffer(frames) ==>
              (AlwaysLatest(out, frames, start, end) <==> SpacedInside(frames, start, end))
  {
    var keep := Keep(Sort(frames), start, end);
    var opening := KeepsOpening(frames, start, end);
    SpacedInsideGaps(keep, frames, start, end);
    if SpacedInside(frames, start, end) {
      forall x | start <= x < end
        ensures ShowsLatestAt(out, frames, start, x)
      {
        SpacedShowsLatest(keep, opening, frames, start, end, out, x);
      }
    } else if PathsDiffer(frames) {
      ShortGapShowsOlder(keep, opening, frames, start, end, out);
    }
  }

  /** Two frames half a tick apart: for the rest of the tick the older one is still shown. */
  lemma ShortGapExample(out: seq<Entry>)
    requires Holds(out, Keep(Sort([Frame(0.0, "a"), Frame(0.0005, "b")]), 0.0, 1.0), 1.0)
    ensures !AlwaysLatest(out, [Frame(0.0, "a"), Frame(0.0005, "b")], 0.0, 1.0)
  {
    var frames := [Frame(0.0, "a"), Frame(0.0005, "b")];
    assert frames[0] in frames && frames[1] in frames;
    assert frames[0].path[0] != frames[1].path[0];
    assert Within(frames[1], 0.0, 1.0) && frames[1].time - 0.0 < TICK;
    ShowsTheLatest(frames, 0.0, 1.0, out);
  }

  /**
   In general, at any moment of any clip that opens on a frame, the frame on screen is
   stamped no later than that moment, and no frame stamped a tick for each entry shown
   so far before it, or earlier, comes after the one on screen.
   */
  lemma ShowsNoOlder(frames: seq<Frame>, start: real, end: real, out: seq<Entry>, x: real)
    returns (i: nat, f: Frame)
    requires FrameBefore(frames, start) && Holds(out, Keep(Sort(frames), start, end), end)
    requires start <= end && start <= x < start + Total(out)
    ensures OnAt(out, i, x - start) && out[i].path == f.path
    ensures f in frames && f.time <= x
    ensures forall g :: g in frames && g.time <= x - (i + 1) as real * TICK ==> !Precedes(f, g)
  {
    var keep := Keep(Sort(frames), start, end);
    var opening := KeepsOpening(frames, start, end);
    i := ShowsSome(out, x - start, |out|);
    OffsetBounds(out, keep, start, end, i);
    OffsetBounds(out, keep, start, end, i + 1);
    f := FrameBehind(keep, opening, frames, start, end, i, x - (i + 1) as real * TICK);
  }

  // ---- a window no frame precedes ----

  /**
   With frames inside the window and none before it, the clip opens on the first frame
   at once and is cut short: the wait for that frame is not shown.
   */
  lemma LateFirstFrame(frames: seq<Frame>, start: real, end: real, out: seq<Entry>, first: Frame)
    requires !FrameBefore(frames, start) && Holds(out, Keep(Sort(frames), start, end), end)
    requires IsFirst(first, frames) && first.time < end
    ensures out != [] && out[0].path == first.path
    ensures end - first.time <= Total(out) <= end - first.time + |out| as real * TICK
  {
    KeepsInside(frames, start, end, first);
    OffsetBounds(out, Keep(Sort(frames), start, end), first.time, end, |out|);
  }

  /** With no frame before the end of the window, the first one stands in for all of it. */
  lemma FirstStandsIn(frames: seq<Frame>, start: real, end: real, out: seq<Entry>, first: Frame)
    requires !FrameBefore(frames, start) && Holds(out, Keep(Sort(frames), start, end), end)
    requires IsFirst(first, frames) && first.time >= end
    ensures out == [Entry(first.path, Max(end - start, TICK))]
    ensures Total(out) == Max(end - start, TICK)
  {
    KeepsFirst(frames, start, end, first);
    var keep := [Frame(start, first.path)];
    assert Stamp(keep, end, 1) == end;
    assert Offset(out, 1) == Offset(out, 0) + out[0].duration;
  }

  // ---- the window after trimming ----

  /** The window of the encoded clip after the trim at both ends; nothing if none is left. */
  function TrimWindow(start: real, end: real, head: real, tail: real, min: Option<real>): Option<(real, real)>
  {
    var s, e := start + head, end - tail;
    if e <= s then None
    else if min.Some? && min.value != 0.0 && e - s < min.value then Some((s, s + min.value))
    else Some((s, e))
  }

  /**
   The trim takes its head off the start and its tail off the end, and leaves nothing
   exactly when it takes everything; only a minimum that is not met moves the end, to meet it.
   */
  lemma TrimExactly(start: real, end: real, head: real, tail: real, min: Option<real>)
    ensures TrimWindow(start, end, head, tail, min).None? <==> head + tail >= end - start
    ensures TrimWindow(start, end, head, tail, min).Some? ==>
              var (s, e) := TrimWindow(start, end, head, tail, min).value;
              var short := min.Some? && min.value > end - start - head - tail;
              && s - start == head
              && (!short ==> end - e == tail)
              && (short ==> e - s == min.value)
  {
  }

  /** When what a clip shows begins: with its window, or with a first frame inside it. */
  ghost predicate Opens(frames: seq<Frame>, s: real, e: real, at: real)
  {
    if FrameBefore(frames, s) then at == s
    else exists first :: IsFirst(first, frames) && at == if first.time < e then first.time else s
  }

  /**
   A trim that leaves anything leaves a window of at least the minimum asked for. A clip
   of any frames cut to it lasts from its opening to its end, and longer by at most a
   tick for each entry; so it reaches the minimum whenever it opens with its window.
   */
  lemma TrimmedClip(frames: seq<Frame>, start: real, end: real, head: real, tail: real, min: Option<real>,
                    out: seq<Entry>, at: real)
    requires TrimWindow(start, end, head, tail, min).Some?
    requires var (s, e) := TrimWindow(start, end, head, tail, min).value;
             Opens(frames, s, e, at) && Holds(out, Keep(Sort(frames), s, e), e)
    ensures var (s, e) := TrimWindow(start, end, head, tail, min).value;
            && s < e && (min.Some? ==> e - s >= min.value)
            && s <= at && e - at <= Total(out) <= e - at + |out| as real * TICK
            && (at == s && min.Some? ==> Total(out) >= min.value)
  {
    var (s, e) := TrimWindow(start, end, head, tail, min).value;
    if FrameBefore(frames, s) {
      TotalIsTheWindow(frames, s, e, out);
    } else {
      var first :| IsFirst(first, frames) && at == if first.time < e then first.time else s;
      if first.time < e {
        LateFirstFrame(frames, s, e, out, first);
      } else {
        FirstStandsIn(frames, s, e, out, first);
      }
    }
  }

  /** And one of no frames shows nothing. */
  lemma NoFramesNoClip(start: real, end: real, out: seq<Entry>)
    requires Holds(out, Keep(Sort([]), start, end), end)
    ensures out == []
  {
  }
}
