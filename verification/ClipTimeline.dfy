/**
 The clip timeline: which captured frame is on screen when, and for how long, in the
 window a clip is cut to. Times are exact; a frame's duration is at least one tick.
 */
module ClipTimeline {
  import opened Sequences
  import opened StringOrder

  datatype Frame = Frame(time: real, path: string)

  datatype Entry = Entry(path: string, duration: real)

  const TICK := 0.001

  // ---- the order frames are sorted in ----

  predicate Precedes(f: Frame, g: Frame)
  {
    f.time < g.time || (f.time == g.time && Less(f.path, g.path))
  }

  ghost predicate Sorted(fs: seq<Frame>)
  {
    forall i, j :: 0 <= i < j < |fs| ==> !Precedes(fs[j], fs[i])
  }

  function Sort(fs: seq<Frame>): seq<Frame>
  {
    SortBy(Precedes, fs)
  }

  lemma NotPrecedesTransitive(f: Frame, g: Frame, h: Frame)
    requires !Precedes(g, f) && !Precedes(h, g)
    ensures !Precedes(h, f)
  {
    LessTotal(f.path, g.path);
    LessTotal(g.path, h.path);
    if f.path != g.path && g.path != h.path && Less(f.path, g.path) && Less(g.path, h.path) {
      LessTransitive(f.path, g.path, h.path);
    }
    LessTotal(f.path, h.path);
  }

  lemma PrecedesAsymmetric(f: Frame, g: Frame)
    ensures !(Precedes(f, g) && Precedes(g, f))
  {
    LessTotal(f.path, g.path);
  }

  lemma SortSorted(fs: seq<Frame>)
    ensures Sorted(Sort(fs)) && multiset(Sort(fs)) == multiset(fs)
  {
    forall f, g
      ensures Precedes(f, g) ==> !Precedes(g, f)
    {
      PrecedesAsymmetric(f, g);
    }
    forall f, g, h | !Precedes(g, f) && !Precedes(h, g)
      ensures !Precedes(h, f)
    {
      NotPrecedesTransitive(f, g, h);
    }
    assert Orders(Precedes);
    SortBySorts(Precedes, fs);
  }

  // ---- the frames a window keeps ----

  predicate Within(f: Frame, start: real, end: real)
  {
    start < f.time < end
  }

  /** The frames stamped at or before `start`, in their order. */
  function Upto(fs: seq<Frame>, start: real): seq<Frame>
  {
    if fs == [] then []
    else (if fs[0].time <= start then [fs[0]] else []) + Upto(fs[1..], start)
  }

  /** The frames stamped strictly inside the window, in their order. */
  function Inside(fs: seq<Frame>, start: real, end: real): seq<Frame>
  {
    if fs == [] then []
    else (if Within(fs[0], start, end) then [fs[0]] else []) + Inside(fs[1..], start, end)
  }

  /** The window keeps every frame inside it as often as it was captured. */
  ghost predicate SameInside(inside: seq<Frame>, fs: seq<Frame>, start: real, end: real)
  {
    forall f :: multiset(inside)[f] == if Within(f, start, end) then multiset(fs)[f] else 0
  }

  lemma {:induction false} InsideCounts(fs: seq<Frame>, start: real, end: real)
    ensures SameInside(Inside(fs, start, end), fs, start, end)
    decreases |fs|
  {
    if fs != [] {
      InsideCounts(fs[1..], start, end);
      assert fs == [fs[0]] + fs[1..];
    }
  }

  lemma InsideMember(inside: seq<Frame>, fs: seq<Frame>, start: real, end: real, f: Frame)
    requires SameInside(inside, fs, start, end)
    ensures f in inside <==> f in fs && Within(f, start, end)
  {
    assert f in inside <==> f in multiset(inside);
    assert f in fs <==> f in multiset(fs);
  }

  lemma {:induction false} InsideSorted(fs: seq<Frame>, start: real, end: real)
    requires Sorted(fs)
    ensures Sorted(Inside(fs, start, end))
    decreases |fs|
  {
    if fs != [] {
      InsideSorted(fs[1..], start, end);
      InsideCounts(fs[1..], start, end);
      var t := Inside(fs[1..], start, end);
      forall j | 0 <= j < |t|
        ensures !Precedes(t[j], fs[0])
      {
        InsideMember(t, fs[1..], start, end, t[j]);
      }
    }
  }

  lemma {:induction false} UptoHas(fs: seq<Frame>, start: real)
    ensures forall f :: f in Upto(fs, start) <==> f in fs && f.time <= start
    ensures Sorted(fs) ==> Sorted(Upto(fs, start))
    decreases |fs|
  {
    if fs != [] {
      UptoHas(fs[1..], start);
      assert fs == [fs[0]] + fs[1..];
      var t := Upto(fs[1..], start);
      if Sorted(fs) {
        forall j | 0 <= j < |t|
          ensures !Precedes(t[j], fs[0])
        {
          assert t[j] in fs[1..];
        }
      }
    }
  }

  /** The entries of the timeline with the time each is stamped with. */
  function Keep(sorted: seq<Frame>, start: real, end: real): seq<Frame>
  {
    var before := Upto(sorted, start);
    var inside := Inside(sorted, start, end);
    var keep := (if before != [] then [Frame(start, before[|before| - 1].path)] else []) + inside;
    if keep == [] && sorted != [] then [Frame(start, sorted[0].path)] else keep
  }

  /** When entry `i` gives way: to the next one, or at the end of the window. */
  function Stamp(keep: seq<Frame>, end: real, i: nat): real
  {
    if i < |keep| then keep[i].time else end
  }

  /** `out` shows what `keep` holds, each entry for the time to the next, but at least a tick. */
  ghost predicate Holds(out: seq<Entry>, keep: seq<Frame>, end: real)
  {
    && |out| == |keep|
    && forall i :: 0 <= i < |out| ==>
         && out[i].path == keep[i].path
         && out[i].duration == Duration(keep, end, i)
  }

  /** How long entry `i` is shown. */
  function Duration(keep: seq<Frame>, end: real, i: nat): real
    requires i < |keep|
  {
    Max(Min(Stamp(keep, end, i + 1), end) - keep[i].time, TICK)
  }

  function Min(a: real, b: real): real
  {
    if b < a then b else a
  }

  function Max(a: real, b: real): real
  {
    if b > a then b else a
  }

  method BuildTimeline(frames: seq<Frame>, start: real, end: real) returns (out: seq<Entry>)
    ensures Holds(out, Keep(Sort(frames), start, end), end)
  {
    var sorted := Sort(frames);
    var before := Upto(sorted, start);
    var inside := Inside(sorted, start, end);
    var keep := (if before != [] then [Frame(start, before[|before| - 1].path)] else []) + inside;
    if keep == [] && sorted != [] {
      keep := [Frame(start, sorted[0].path)];
    }
    assert keep == Keep(Sort(frames), start, end);
    out := HoldFrames(keep, end);
  }

  /** Each frame until the next arrives, and the last until the end. */
  method HoldFrames(keep: seq<Frame>, end: real) returns (out: seq<Entry>)
    ensures Holds(out, keep, end)
  {
    out := [];
    for i := 0 to |keep|
      invariant |out| == i
      invariant forall j :: 0 <= j < i ==>
        && out[j].path == keep[j].path
        && out[j].duration == Duration(keep, end, j)
    {
      var next := if i + 1 < |keep| then keep[i + 1].time else end;
      out := out + [Entry(keep[i].path, Max(Min(next, end) - keep[i].time, TICK))];
    }
  }

  // ---- what the window keeps, whatever order the frames came in ----

  ghost predicate FrameBefore(frames: seq<Frame>, start: real)
  {
    exists f :: f in frames && f.time <= start
  }

  /** The last frame stamped at or before `x`; of several stamped alike, the one whose path comes last. */
  ghost predicate IsLatest(f: Frame, frames: seq<Frame>, x: real)
  {
    && f in frames && f.time <= x
    && forall g :: g in frames && g.time <= x ==>
         g.time < f.time || (g.time == f.time && (g.path == f.path || Less(g.path, f.path)))
  }

  /** The first frame; of several stamped alike, the one whose path comes first. */
  ghost predicate IsFirst(f: Frame, frames: seq<Frame>)
  {
    && f in frames
    && forall g :: g in frames ==>
         f.time < g.time || (g.time == f.time && (g.path == f.path || Less(f.path, g.path)))
  }

  /** Not to precede is to be stamped later, or alike with a path that does not come first. */
  lemma NotBefore(f: Frame, g: Frame)
    ensures !Precedes(f, g) <==> g.time < f.time || (g.time == f.time && (g.path == f.path || Less(g.path, f.path)))
  {
    LessTotal(f.path, g.path);
  }

  lemma NoneAfterIsLatest(f: Frame, frames: seq<Frame>, x: real)
    ensures IsLatest(f, frames, x) <==>
            f in frames && f.time <= x && forall g :: g in frames && g.time <= x ==> !Precedes(f, g)
  {
    forall g
      ensures !Precedes(f, g) <==> g.time < f.time || (g.time == f.time && (g.path == f.path || Less(g.path, f.path)))
    {
      NotBefore(f, g);
    }
  }

  lemma NoneBeforeIsFirst(f: Frame, frames: seq<Frame>)
    ensures IsFirst(f, frames) <==> f in frames && forall g :: g in frames ==> !Precedes(g, f)
  {
    forall g
      ensures !Precedes(g, f) <==> f.time < g.time || (g.time == f.time && (g.path == f.path || Less(f.path, g.path)))
    {
      NotBefore(g, f);
    }
  }

  /** Entries in order of time, the first at `from` and all before the end of the window. */
  ghost predicate Chain(keep: seq<Frame>, from: real, end: real)
  {
    && keep != [] && keep[0].time == from
    && (forall i :: 0 < i < |keep| ==> keep[i].time < end)
    && (forall i, j :: 0 <= i < j < |keep| ==> keep[i].time <= keep[j].time)
  }

  /** A window that opens on the frame `opening`: that frame from the start on, then those inside in their order. */
  ghost predicate Kept(keep: seq<Frame>, opening: Frame, frames: seq<Frame>, start: real, end: real)
  {
    && Chain(keep, start, end)
    && keep[0].path == opening.path && IsLatest(opening, frames, start)
    && SameInside(keep[1..], frames, start, end) && Sorted(keep[1..])
  }

  /** The frames inside the window of any capture: in order, each as often as captured. */
  lemma InsideOf(frames: seq<Frame>, start: real, end: real)
    ensures var inside := Inside(Sort(frames), start, end);
            SameInside(inside, frames, start, end) && Sorted(inside)
  {
    SortSorted(frames);
    InsideCounts(Sort(frames), start, end);
    InsideSorted(Sort(frames), start, end);
  }

  /** The last of the frames at or before the start is the one the timeline opens on. */
  lemma LastBefore(frames: seq<Frame>, start: real) returns (f: Frame)
    requires FrameBefore(frames, start)
    ensures IsLatest(f, frames, start)
    ensures var before := Upto(Sort(frames), start); before != [] && before[|before| - 1] == f
  {
    var before := Upto(Sort(frames), start);
    SortSorted(frames);
    SameMembers(Sort(frames), frames);
    UptoHas(Sort(frames), start);
    var e :| e in frames && e.time <= start;
    assert e in before;
    f := before[|before| - 1];
    forall g | g in frames && g.time <= start
      ensures !Precedes(f, g)
    {
      assert g in before;
      LastOf(before, g);
    }
    NoneAfterIsLatest(f, frames, start);
  }

  lemma LastOf(fs: seq<Frame>, g: Frame)
    requires Sorted(fs) && g in fs
    ensures !Precedes(fs[|fs| - 1], g)
  {
    PrecedesAsymmetric(g, g);
    var i :| 0 <= i < |fs| && fs[i] == g;
  }

  lemma OpeningChains(keep: seq<Frame>, frames: seq<Frame>, start: real, end: real)
    requires keep != [] && keep[0].time == start
    requires SameInside(keep[1..], frames, start, end) && Sorted(keep[1..])
    ensures Chain(keep, start, end)
  {
    var inside := keep[1..];
    forall i | 0 < i < |keep|
      ensures start < keep[i].time < end
    {
      assert keep[i] == inside[i - 1];
      InsideMember(inside, frames, start, end, keep[i]);
    }
    forall i, j | 0 <= i < j < |keep|
      ensures keep[i].time <= keep[j].time
    {
      if i > 0 {
        assert keep[i] == inside[i - 1] && keep[j] == inside[j - 1];
      }
    }
  }

  /** A window with a frame at or before its start opens on the last of those. */
  lemma KeepsOpening(frames: seq<Frame>, start: real, end: real) returns (opening: Frame)
    requires FrameBefore(frames, start)
    ensures Kept(Keep(Sort(frames), start, end), opening, frames, start, end)
  {
    opening := LastBefore(frames, start);
    InsideOf(frames, start, end);
    var keep := Keep(Sort(frames), start, end);
    assert keep[1..] == Inside(Sort(frames), start, end);
    OpeningChains(keep, frames, start, end);
  }

  // ---- a window no frame precedes ----

  lemma NothingBefore(frames: seq<Frame>, start: real)
    requires !FrameBefore(frames, start)
    ensures Upto(Sort(frames), start) == []
  {
    SortSorted(frames);
    SameMembers(Sort(frames), frames);
    UptoHas(Sort(frames), start);
    var before := Upto(Sort(frames), start);
    assert Elements(before) == {};
    NonEmptyElements(before);
  }

  lemma NeitherPrecedes(f: Frame, g: Frame)
    ensures Precedes(f, g) || Precedes(g, f) || f == g
  {
    LessTotal(f.path, g.path);
  }

  lemma FirstInside(frames: seq<Frame>, start: real, end: real, inside: seq<Frame>, first: Frame)
    requires SameInside(inside, frames, start, end) && Sorted(inside)
    requires IsFirst(first, frames) && Within(first, start, end)
    ensures Chain(inside, first.time, end) && inside[0] == first
  {
    NoneBeforeIsFirst(first, frames);
    InsideMember(inside, frames, start, end, first);
    var i :| 0 <= i < |inside| && inside[i] == first;
    forall k | 0 <= k < |inside|
      ensures inside[k].time < end && inside[k] in frames
    {
      InsideMember(inside, frames, start, end, inside[k]);
    }
    NeitherPrecedes(inside[0], first);
  }

  /** With frames inside the window and none before it, the timeline is those inside. */
  lemma KeepsInside(frames: seq<Frame>, start: real, end: real, first: Frame)
    requires !FrameBefore(frames, start) && IsFirst(first, frames) && first.time < end
    ensures Chain(Keep(Sort(frames), start, end), first.time, end)
    ensures Keep(Sort(frames), start, end)[0] == first
  {
    var inside := Inside(Sort(frames), start, end);
    NothingBefore(frames, start);
    InsideOf(frames, start, end);
    FirstInside(frames, start, end, inside, first);
    assert Keep(Sort(frames), start, end) == inside;
  }

  lemma NothingInside(frames: seq<Frame>, start: real, end: real, first: Frame)
    requires IsFirst(first, frames) && first.time >= end
    ensures Inside(Sort(frames), start, end) == []
  {
    var inside := Inside(Sort(frames), start, end);
    InsideOf(frames, start, end);
    forall f
      ensures f !in inside
    {
      InsideMember(inside, frames, start, end, f);
    }
    assert Elements(inside) == {};
    NonEmptyElements(inside);
  }

  lemma FirstOfSorted(frames: seq<Frame>, first: Frame)
    requires IsFirst(first, frames)
    ensures Sort(frames) != [] && Sort(frames)[0] == first
  {
    var s := Sort(frames);
    NoneBeforeIsFirst(first, frames);
    SortSorted(frames);
    SameMembers(s, frames);
    var i :| 0 <= i < |s| && s[i] == first;
    assert s[0] in frames;
    NeitherPrecedes(s[0], first);
  }

  /** With no frame before the end of the window, the first one stands in for all of it. */
  lemma KeepsFirst(frames: seq<Frame>, start: real, end: real, first: Frame)
    requires !FrameBefore(frames, start) && IsFirst(first, frames) && first.time >= end
    ensures Keep(Sort(frames), start, end) == [Frame(start, first.path)]
  {
    NothingBefore(frames, start);
    NothingInside(frames, start, end, first);
    FirstOfSorted(frames, first);
  }
}
