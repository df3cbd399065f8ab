/**
 Stall episodes: the broker's log lines that mark a stall or a leader change, grouped
 into episodes of lines no further apart than `gap`, each placed against the measured
 window. Times are seconds since the epoch.
 */
module StallEpisodes {
  import opened Wrappers
  import opened Sequences

  /** A log line as the two patterns see it: its time stamp, whether it marks a stall, and the words in it. */
  datatype Line = Line(stamp: Option<real>, matches: bool, leader: bool, quorum: bool)

  datatype Kind = Stall | LeaderChange

  datatype Mark = Mark(time: real, kind: Kind)

  datatype Episode = Episode(start: real, end: real, lines: nat, kind: Kind)

  datatype Placed = Placed(episode: Episode, startRel: real, endRel: real, inWindow: bool)

  // ---- the matching lines, in order of time ----

  predicate Counts(line: Line)
  {
    line.stamp.Some? && line.matches
  }

  function KindOf(line: Line): Kind
  {
    if line.leader && !line.quorum then LeaderChange else Stall
  }

  function Marks(log: seq<Line>): seq<Mark>
  {
    if log == [] then []
    else
      var last := log[|log| - 1];
      Marks(log[..|log| - 1]) + if Counts(last) then [Mark(last.stamp.value, KindOf(last))] else []
  }

  /** Each line is read by itself, in its turn. */
  lemma {:induction false} MarksLineByLine(a: seq<Line>, b: seq<Line>)
    ensures Marks(a + b) == Marks(a) + Marks(b)
    decreases |b|
  {
    if b == [] {
      assert a + b == a;
    } else {
      MarksLineByLine(a, b[..|b| - 1]);
      assert (a + b)[..|a + b| - 1] == a + b[..|b| - 1];
    }
  }

  /**
   What one line comes to: nothing unless it carries a time stamp and matches; a leader
   change exactly when it speaks of a leader and not of a quorum, and a stall otherwise.
   */
  lemma MarkOfOne(time: real, leader: bool, quorum: bool, matches: bool)
    ensures Marks([Line(None, matches, leader, quorum)]) == []
    ensures Marks([Line(Some(time), false, leader, quorum)]) == []
    ensures var ms := Marks([Line(Some(time), true, leader, quorum)]);
            |ms| == 1 && ms[0].time == time && (ms[0].kind == LeaderChange <==> leader && !quorum)
  {
    var silent, other := Line(None, matches, leader, quorum), Line(Some(time), false, leader, quorum);
    assert [silent][..0] == [] && [other][..0] == [] && [Line(Some(time), true, leader, quorum)][..0] == [];
  }

  ghost predicate InOrder(ms: seq<Mark>)
  {
    forall i, j :: 0 <= i < j < |ms| ==> ms[i].time <= ms[j].time
  }

  predicate Earlier(m: Mark, n: Mark)
  {
    m.time < n.time
  }

  /** A stable sort by time. */
  function Sort(ms: seq<Mark>): seq<Mark>
  {
    SortBy(Earlier, ms)
  }

  lemma SortInOrder(ms: seq<Mark>)
    ensures InOrder(Sort(ms)) && multiset(Sort(ms)) == multiset(ms)
  {
    assert Orders(Earlier);
    SortBySorts(Earlier, ms);
    var s := Sort(ms);
    forall i, j | 0 <= i < j < |s|
      ensures s[i].time <= s[j].time
    {
      assert !Earlier(s[j], s[i]);
    }
  }

  // ---- groupings ----

  function Flatten(runs: seq<seq<Mark>>): seq<Mark>
  {
    if runs == [] then [] else Flatten(runs[..|runs| - 1]) + runs[|runs| - 1]
  }

  /** A run of lines each within the gap of the one before. */
  ghost predicate Run(run: seq<Mark>, gap: real)
  {
    run != [] && forall i :: 0 < i < |run| ==> run[i].time - run[i - 1].time <= gap
  }

  ghost predicate Apart(run: seq<Mark>, next: seq<Mark>, gap: real)
    requires run != [] && next != []
  {
    next[0].time - run[|run| - 1].time > gap
  }

  /** `runs` cuts `ms` exactly where two neighbours are further apart than the gap. */
  ghost predicate Groups(runs: seq<seq<Mark>>, ms: seq<Mark>, gap: real)
  {
    && Flatten(runs) == ms
    && (forall k :: 0 <= k < |runs| ==> Run(runs[k], gap))
    && (forall k :: 0 < k < |runs| ==> Apart(runs[k - 1], runs[k], gap))
  }

  function Summary(run: seq<Mark>): Episode
    requires run != []
  {
    Episode(run[0].time, run[|run| - 1].time, |run|, if AnyStall(run) then Stall else LeaderChange)
  }

  predicate AnyStall(run: seq<Mark>)
  {
    exists i :: 0 <= i < |run| && run[i].kind == Stall
  }

  ghost predicate Summaries(eps: seq<Episode>, runs: seq<seq<Mark>>)
  {
    |eps| == |runs| && forall k :: 0 <= k < |eps| ==> runs[k] != [] && eps[k] == Summary(runs[k])
  }

  function Place(e: Episode, w0: real, w1: real): Placed
  {
    Placed(e, e.start - w0, e.end - w0, e.end >= w0 && e.start <= w1)
  }

  // ---- the scan ----

  method ReadMarks(log: seq<Line>) returns (ms: seq<Mark>)
    ensures ms == Marks(log)
  {
    ms := [];
    for i := 0 to |log|
      invariant ms == Marks(log[..i])
    {
      assert log[..i + 1][..i] == log[..i];
      if Counts(log[i]) {
        ms := ms + [Mark(log[i].stamp.value, KindOf(log[i]))];
      }
    }
    assert log[..|log|] == log;
  }

  /** The last run takes one more line, or a new run starts with it. */
  ghost function Extend(runs: seq<seq<Mark>>, m: Mark, gap: real): seq<seq<Mark>>
    requires forall k :: 0 <= k < |runs| ==> runs[k] != []
  {
    var n := |runs|;
    if n > 0 && m.time - runs[n - 1][|runs[n - 1]| - 1].time <= gap
    then runs[..n - 1] + [runs[n - 1] + [m]]
    else runs + [[m]]
  }

  lemma ExtendGroups(runs: seq<seq<Mark>>, ms: seq<Mark>, m: Mark, gap: real)
    requires Groups(runs, ms, gap)
    ensures Groups(Extend(runs, m, gap), ms + [m], gap)
  {
    var n := |runs|;
    if n > 0 && m.time - runs[n - 1][|runs[n - 1]| - 1].time <= gap {
      LastRunGrows(runs, ms, m, gap);
    } else {
      NewRunStarts(runs, ms, m, gap);
    }
  }

  lemma LastRunGrows(runs: seq<seq<Mark>>, ms: seq<Mark>, m: Mark, gap: real)
    requires Groups(runs, ms, gap) && runs != []
    requires m.time - runs[|runs| - 1][|runs[|runs| - 1]| - 1].time <= gap
    ensures Groups(runs[..|runs| - 1] + [runs[|runs| - 1] + [m]], ms + [m], gap)
  {
    var n := |runs| - 1;
    var run := runs[n];
    var next := runs[..n] + [run + [m]];
    assert Flatten(next) == ms + [m] by {
      assert next[..n] == runs[..n];
    }
    assert Run(run, gap);
    assert Run(next[n], gap);
    forall k | 0 < k < |next|
      ensures Apart(next[k - 1], next[k], gap)
    {
      assert Apart(runs[k - 1], runs[k], gap);
    }
  }

  lemma NewRunStarts(runs: seq<seq<Mark>>, ms: seq<Mark>, m: Mark, gap: real)
    requires Groups(runs, ms, gap)
    requires runs != [] ==> m.time - runs[|runs| - 1][|runs[|runs| - 1]| - 1].time > gap
    ensures Groups(runs + [[m]], ms + [m], gap)
  {
    var n := |runs|;
    var next := runs + [[m]];
    assert Flatten(next) == ms + [m] by {
      assert next[..n] == runs;
    }
    forall k | 0 <= k < |next|
      ensures Run(next[k], gap)
    {
      if k < n {
        assert Run(runs[k], gap);
      }
    }
    forall k | 0 < k < |next|
      ensures Apart(next[k - 1], next[k], gap)
    {
      if k < n {
        assert Apart(runs[k - 1], runs[k], gap);
      }
    }
  }

  lemma SummaryExtends(run: seq<Mark>, m: Mark)
    requires run != []
    ensures Summary(run + [m])
            == Episode(Summary(run).start, m.time, Summary(run).lines + 1,
                       if m.kind == Stall then Stall else Summary(run).kind)
  {
    var longer := run + [m];
    assert longer[|run|] == m;
    if AnyStall(run) {
      var i :| 0 <= i < |run| && run[i].kind == Stall;
      assert longer[i].kind == Stall;
    }
  }

  lemma SummariesExtend(eps: seq<Episode>, runs: seq<seq<Mark>>, run: seq<Mark>, e: Episode)
    requires Summaries(eps, runs) && run != [] && e == Summary(run)
    ensures Summaries(eps + [e], runs + [run])
    ensures eps != [] ==> Summaries(eps[..|eps| - 1] + [e], runs[..|eps| - 1] + [run])
  {
  }

  /** The episodes after one more line. */
  function AddMark(eps: seq<Episode>, m: Mark, gap: real): seq<Episode>
  {
    var n := |eps|;
    if n > 0 && m.time - eps[n - 1].end <= gap then
      var e := eps[n - 1];
      eps[..n - 1] + [Episode(e.start, m.time, e.lines + 1, if m.kind == Stall then Stall else e.kind)]
    else eps + [Episode(m.time, m.time, 1, m.kind)]
  }

  lemma AddMarkSummarises(eps: seq<Episode>, runs: seq<seq<Mark>>, m: Mark, gap: real)
    requires Summaries(eps, runs)
    ensures Summaries(AddMark(eps, m, gap), Extend(runs, m, gap))
  {
    var n := |eps|;
    if n > 0 && m.time - eps[n - 1].end <= gap {
      assert eps[n - 1] == Summary(runs[n - 1]);
      SummaryExtends(runs[n - 1], m);
      SummariesExtend(eps, runs, runs[n - 1] + [m], Summary(runs[n - 1] + [m]));
    } else {
      if n > 0 {
        assert eps[n - 1] == Summary(runs[n - 1]);
      }
      SummaryOfOne(m);
      SummariesExtend(eps, runs, [m], Summary([m]));
    }
  }

  lemma SummaryOfOne(m: Mark)
    ensures Summary([m]) == Episode(m.time, m.time, 1, m.kind)
  {
    if m.kind == Stall {
      assert [m][0].kind == Stall;
    }
  }

  /** The episodes of lines in order of time. */
  function EpisodesOf(ms: seq<Mark>, gap: real): seq<Episode>
  {
    if ms == [] then [] else AddMark(EpisodesOf(ms[..|ms| - 1], gap), ms[|ms| - 1], gap)
  }

  method GroupMarks(ms: seq<Mark>, gap: real) returns (eps: seq<Episode>)
    ensures eps == EpisodesOf(ms, gap)
  {
    eps := [];
    for i := 0 to |ms|
      invariant eps == EpisodesOf(ms[..i], gap)
    {
      var m, n := ms[i], |eps|;
      assert ms[..i + 1][..i] == ms[..i];
      ghost var next := AddMark(eps, m, gap);
      if n > 0 && m.time - eps[n - 1].end <= gap {
        eps := eps[n - 1 := eps[n - 1].(end := m.time)];
        eps := eps[n - 1 := eps[n - 1].(lines := eps[n - 1].lines + 1)];
        if m.kind == Stall {
          eps := eps[n - 1 := eps[n - 1].(kind := Stall)];
        }
      } else {
        eps := eps + [Episode(m.time, m.time, 1, m.kind)];
      }
      assert eps == next;
    }
    assert ms[..|ms|] == ms;
  }

  /** The episodes of a log; nothing when there is no log. */
  method FindEpisodes(log: Option<seq<Line>>, w0: real, w1: real, gap: real) returns (r: Option<seq<Placed>>)
    ensures r.None? <==> log.None?
    ensures log.Some? ==>
      var eps := EpisodesOf(Sort(Marks(log.value)), gap);
      && |r.value| == |eps|
      && forall k :: 0 <= k < |eps| ==>
           && r.value[k].episode == eps[k]
           && r.value[k].startRel + w0 == eps[k].start && r.value[k].endRel + w0 == eps[k].end
           && r.value[k].inWindow == Place(eps[k], w0, w1).inWindow
  {
    if log.None? {
      return None;
    }
    var ms := ReadMarks(log.value);
    var eps := GroupMarks(Sort(ms), gap);
    var placed: seq<Placed> := [];
    for k := 0 to |eps|
      invariant |placed| == k && forall j :: 0 <= j < k ==> placed[j] == Place(eps[j], w0, w1)
    {
      placed := placed + [Place(eps[k], w0, w1)];
    }
    return Some(placed);
  }

  // ---- the scan groups the lines ----

  /** The lines of each episode. */
  ghost function RunsOf(ms: seq<Mark>, gap: real): (runs: seq<seq<Mark>>)
    ensures forall k :: 0 <= k < |runs| ==> runs[k] != []
  {
    if ms == [] then [] else Extend(RunsOf(ms[..|ms| - 1], gap), ms[|ms| - 1], gap)
  }

  /**
   The scan cuts lines in order exactly where two neighbours are further apart than the
   gap, and each episode sums up the lines between two cuts.
   */
  lemma {:induction false} ScanGroups(ms: seq<Mark>, gap: real)
    ensures Groups(RunsOf(ms, gap), ms, gap) && Summaries(EpisodesOf(ms, gap), RunsOf(ms, gap))
    decreases |ms|
  {
    if ms != [] {
      var front, m := ms[..|ms| - 1], ms[|ms| - 1];
      ScanGroups(front, gap);
      ExtendGroups(RunsOf(front, gap), front, m, gap);
      AddMarkSummarises(EpisodesOf(front, gap), RunsOf(front, gap), m, gap);
      assert ms == front + [m];
    }
  }

  // ---- the grouping is the only one ----

  lemma {:induction false} FlattenLength(runs: seq<seq<Mark>>)
    requires forall k :: 0 <= k < |runs| ==> runs[k] != []
    ensures |Flatten(runs)| >= |runs|
    decreases |runs|
  {
    if runs != [] {
      FlattenLength(runs[..|runs| - 1]);
    }
  }

  /** There is one way to cut lines exactly where they are further apart than the gap. */
  lemma {:induction false} GroupingIsUnique(runs: seq<seq<Mark>>, others: seq<seq<Mark>>, ms: seq<Mark>, gap: real)
    requires Groups(runs, ms, gap) && Groups(others, ms, gap)
    ensures runs == others
    decreases |runs|
  {
    FlattenLength(runs);
    FlattenLength(others);
    if runs != [] && others != [] {
      var n, m := |runs| - 1, |others| - 1;
      NotShorter(runs, others, ms, gap);
      NotShorter(others, runs, ms, gap);
      var front := |ms| - |runs[n]|;
      assert Flatten(runs[..n]) == ms[..front] == Flatten(others[..m]);
      assert runs[n] == ms[front..] == others[m];
      GroupsFront(runs, ms, gap);
      GroupsFront(others, ms, gap);
      GroupingIsUnique(runs[..n], others[..m], ms[..front], gap);
      assert runs == runs[..n] + [runs[n]];
      assert others == others[..m] + [others[m]];
    }
  }

  lemma GroupsFront(runs: seq<seq<Mark>>, ms: seq<Mark>, gap: real)
    requires Groups(runs, ms, gap) && runs != []
    ensures |runs[|runs| - 1]| <= |ms|
    ensures Groups(runs[..|runs| - 1], ms[..|ms| - |runs[|runs| - 1]|], gap)
  {
    var n := |runs| - 1;
    assert ms == Flatten(runs[..n]) + runs[n];
    assert ms[..|ms| - |runs[n]|] == Flatten(runs[..n]);
    assert forall k :: 0 < k < |runs| ==> Apart(runs[k - 1], runs[k], gap);
  }

  lemma NotShorter(runs: seq<seq<Mark>>, others: seq<seq<Mark>>, ms: seq<Mark>, gap: real)
    requires Groups(runs, ms, gap) && Groups(others, ms, gap) && runs != [] && others != []
    ensures |runs[|runs| - 1]| >= |others[|others| - 1]|
  {
    var n, m := |runs| - 1, |others| - 1;
    var run, other := runs[n], others[m];
    EndsWith(runs, ms, gap);
    EndsWith(others, ms, gap);
    if |run| < |other| {
      RunIsNarrow(others, ms, gap, |ms| - |run|);
      CutIsWide(runs, ms, gap);
    }
  }

  /** Neighbours in the last run are within the gap. */
  lemma RunIsNarrow(runs: seq<seq<Mark>>, ms: seq<Mark>, gap: real, i: nat)
    requires Groups(runs, ms, gap) && runs != [] && |ms| - |runs[|runs| - 1]| < i < |ms|
    ensures i > 0 && ms[i].time - ms[i - 1].time <= gap
  {
    var run := runs[|runs| - 1];
    EndsWith(runs, ms, gap);
    assert Run(run, gap);
    var k := i - (|ms| - |run|);
    assert run[k] == ms[i] && run[k - 1] == ms[i - 1];
  }

  lemma EndsWith(runs: seq<seq<Mark>>, ms: seq<Mark>, gap: real)
    requires Groups(runs, ms, gap) && runs != []
    ensures var run := runs[|runs| - 1];
            |run| <= |ms| && forall i :: 0 <= i < |run| ==> run[i] == ms[|ms| - |run| + i]
  {
    assert ms == Flatten(runs[..|runs| - 1]) + runs[|runs| - 1];
  }

  /** The lines on both sides of the last cut are further apart than the gap. */
  lemma CutIsWide(runs: seq<seq<Mark>>, ms: seq<Mark>, gap: real)
    requires Groups(runs, ms, gap) && runs != [] && |runs[|runs| - 1]| < |ms|
    ensures var cut := |ms| - |runs[|runs| - 1]|;
            ms[cut].time - ms[cut - 1].time > gap
  {
    var n := |runs| - 1;
    var front := runs[..n];
    assert ms == Flatten(front) + runs[n];
    assert front != [];
    assert Flatten(front) == Flatten(front[..n - 1]) + front[n - 1];
    assert Apart(runs[n - 1], runs[n], gap);
  }

  // ---- the episodes without the order of the lines ----

  ghost predicate Covers(e: Episode, t: real)
  {
    e.start <= t <= e.end
  }

  ghost predicate At(ms: seq<Mark>, t: real)
  {
    exists m :: m in ms && m.time == t
  }

  /** How many lines fall within the episode. */
  function LinesIn(ms: seq<Mark>, start: real, end: real): nat
  {
    if ms == [] then 0
    else LinesIn(ms[..|ms| - 1], start, end) + if start <= ms[|ms| - 1].time <= end then 1 else 0
  }

  /** Some line after `t` comes within the gap. */
  ghost predicate Followed(ms: seq<Mark>, t: real, gap: real)
  {
    exists m :: m in ms && t < m.time <= t + gap
  }

  /** What an episode says of the lines, in whatever order they are. */
  ghost predicate Tells(e: Episode, ms: seq<Mark>, gap: real)
  {
    && At(ms, e.start) && At(ms, e.end) && e.start <= e.end
    && (forall t {:trigger Followed(ms, t, gap)} ::
          At(ms, t) && Covers(e, t) && t < e.end ==> Followed(ms, t, gap))
    && e.lines == LinesIn(ms, e.start, e.end)
    && (e.kind == Stall <==> exists m :: m in ms && Covers(e, m.time) && m.kind == Stall)
  }

  ghost predicate InSome(eps: seq<Episode>, t: real)
  {
    exists k :: 0 <= k < |eps| && Covers(eps[k], t)
  }

  ghost predicate AllTell(eps: seq<Episode>, ms: seq<Mark>, gap: real)
  {
    forall k {:trigger Tells(eps[k], ms, gap)} :: 0 <= k < |eps| ==> Tells(eps[k], ms, gap)
  }

  ghost predicate AllInSome(eps: seq<Episode>, ms: seq<Mark>)
  {
    forall m {:trigger InSome(eps, m.time)} :: m in ms ==> InSome(eps, m.time)
  }

  ghost predicate AllApart(eps: seq<Episode>, gap: real)
  {
    forall i, j :: 0 <= i < j < |eps| ==> eps[j].start - eps[i].end > gap
  }

  /** The maximal groups of lines: every line is in one, and no line falls near two. */
  ghost predicate Describes(eps: seq<Episode>, ms: seq<Mark>, gap: real)
  {
    AllTell(eps, ms, gap) && AllInSome(eps, ms) && AllApart(eps, gap)
  }

  /** An episode of one description cannot end in the middle of an episode of another. */
  lemma NoEarlyEnd(eps: seq<Episode>, others: seq<Episode>, ms: seq<Mark>, gap: real, i: nat, j: nat)
    requires gap >= 0.0 && Describes(eps, ms, gap) && Describes(others, ms, gap)
    requires i < |eps| && j < |others| && Covers(others[j], eps[i].end)
    ensures others[j].end == eps[i].end
  {
    assert Tells(eps[i], ms, gap) && Tells(others[j], ms, gap);
    var t := eps[i].end;
    if t < others[j].end {
      assert Followed(ms, t, gap);
      var m :| m in ms && t < m.time <= t + gap;
      assert InSome(eps, m.time);
      var k :| 0 <= k < |eps| && Covers(eps[k], m.time);
      NotNear(eps, ms, gap, i, k, m.time);
    }
  }

  /** Past the end of an episode, nothing within the gap is in an episode. */
  lemma NotNear(eps: seq<Episode>, ms: seq<Mark>, gap: real, i: nat, k: nat, t: real)
    requires gap >= 0.0 && Describes(eps, ms, gap) && i < |eps| && k < |eps|
    requires eps[i].end < t <= eps[i].end + gap
    ensures !Covers(eps[k], t)
  {
    assert Tells(eps[i], ms, gap) && Tells(eps[k], ms, gap);
  }

  /** Every episode of one description is in any other. */
  lemma SameEpisode(eps: seq<Episode>, others: seq<Episode>, ms: seq<Mark>, gap: real, i: nat)
    requires gap >= 0.0 && Describes(eps, ms, gap) && Describes(others, ms, gap) && i < |eps|
    ensures eps[i] in others
  {
    assert Tells(eps[i], ms, gap);
    var m :| m in ms && m.time == eps[i].start;
    assert InSome(others, m.time);
    var j :| 0 <= j < |others| && Covers(others[j], m.time);
    assert Tells(others[j], ms, gap);
    StartsTogether(eps, others, ms, gap, i, j);
    if eps[i].end <= others[j].end {
      NoEarlyEnd(eps, others, ms, gap, i, j);
    } else {
      NoEarlyEnd(others, eps, ms, gap, j, i);
    }
    assert eps[i].kind == others[j].kind;
    assert eps[i] == others[j];
  }

  lemma StartsTogether(eps: seq<Episode>, others: seq<Episode>, ms: seq<Mark>, gap: real, i: nat, j: nat)
    requires gap >= 0.0 && Describes(eps, ms, gap) && Describes(others, ms, gap)
    requires i < |eps| && j < |others| && Covers(others[j], eps[i].start)
    ensures others[j].start == eps[i].start
  {
    assert Tells(eps[i], ms, gap) && Tells(others[j], ms, gap);
    if others[j].start < eps[i].start {
      var m :| m in ms && m.time == others[j].start;
      assert InSome(eps, m.time);
      var k :| 0 <= k < |eps| && Covers(eps[k], m.time);
      assert Tells(eps[k], ms, gap);
      assert k < i;
      NoEarlyEnd(eps, others, ms, gap, k, j);
    }
  }

  ghost predicate Rising(eps: seq<Episode>)
  {
    forall i, j :: 0 <= i < j < |eps| ==> eps[i].start < eps[j].start
  }

  lemma {:induction false} RisingUnique(eps: seq<Episode>, others: seq<Episode>)
    requires Rising(eps) && Rising(others)
    requires Elements(eps) == Elements(others)
    ensures eps == others
    decreases |eps|
  {
    NonEmptyElements(eps);
    NonEmptyElements(others);
    if eps != [] {
      FirstIsFirst(eps, others);
      var e := eps[0];
      assert Elements(eps[1..]) == Elements(eps) - {e};
      assert Elements(others[1..]) == Elements(others) - {e};
      RisingUnique(eps[1..], others[1..]);
      assert eps == [e] + eps[1..] && others == [e] + others[1..];
    }
  }

  lemma FirstIsFirst(eps: seq<Episode>, others: seq<Episode>)
    requires Rising(eps) && Rising(others) && eps != [] && others != []
    requires Elements(eps) == Elements(others)
    ensures eps[0] == others[0]
  {
    assert eps[0] in Elements(others) && others[0] in Elements(eps);
    var i :| 0 <= i < |others| && others[i] == eps[0];
    var j :| 0 <= j < |eps| && eps[j] == others[0];
  }

  lemma DescribedRises(eps: seq<Episode>, ms: seq<Mark>, gap: real)
    requires gap >= 0.0 && Describes(eps, ms, gap)
    ensures Rising(eps)
  {
    forall i, j | 0 <= i < j < |eps|
      ensures eps[i].start < eps[j].start
    {
      assert Tells(eps[i], ms, gap);
    }
  }

  /** The maximal groups of a set of lines are determined by it. */
  lemma DescriptionIsUnique(eps: seq<Episode>, others: seq<Episode>, ms: seq<Mark>, gap: real)
    requires gap >= 0.0 && Describes(eps, ms, gap) && Describes(others, ms, gap)
    ensures eps == others
  {
    forall e
      ensures e in Elements(eps) <==> e in Elements(others)
    {
      if e in eps {
        var i :| 0 <= i < |eps| && eps[i] == e;
        SameEpisode(eps, others, ms, gap, i);
      }
      if e in others {
        var j :| 0 <= j < |others| && others[j] == e;
        SameEpisode(others, eps, ms, gap, j);
      }
    }
    DescribedRises(eps, ms, gap);
    DescribedRises(others, ms, gap);
    RisingUnique(eps, others);
  }

  // ---- counting lines ----

  lemma {:induction false} LinesAdd(a: seq<Mark>, b: seq<Mark>, start: real, end: real)
    ensures LinesIn(a + b, start, end) == LinesIn(a, start, end) + LinesIn(b, start, end)
    decreases |b|
  {
    if b == [] {
      assert a + b == a;
    } else {
      LinesAdd(a, b[..|b| - 1], start, end);
      assert (a + b)[..|a + b| - 1] == a + b[..|b| - 1];
    }
  }

  lemma {:induction false} LinesAll(a: seq<Mark>, start: real, end: real)
    requires forall i :: 0 <= i < |a| ==> start <= a[i].time <= end
    ensures LinesIn(a, start, end) == |a|
    decreases |a|
  {
    if a != [] {
      LinesAll(a[..|a| - 1], start, end);
    }
  }

  lemma {:induction false} LinesNone(a: seq<Mark>, start: real, end: real)
    requires forall i :: 0 <= i < |a| ==> !(start <= a[i].time <= end)
    ensures LinesIn(a, start, end) == 0
    decreases |a|
  {
    if a != [] {
      LinesNone(a[..|a| - 1], start, end);
    }
  }

  /** The count does not depend on the order of the lines. */
  lemma {:induction false} LinesInAnyOrder(a: seq<Mark>, b: seq<Mark>, start: real, end: real)
    requires multiset(a) == multiset(b)
    ensures LinesIn(a, start, end) == LinesIn(b, start, end)
    decreases |a|
  {
    assert |multiset(a)| == |a| && |multiset(b)| == |b|;
    if a != [] {
      var n := |a| - 1;
      var front, x := a[..n], a[n];
      assert a == front + [x];
      assert x in multiset(b);
      var i :| 0 <= i < |b| && b[i] == x;
      var rest := b[..i] + b[i + 1..];
      WithoutLine(b, i, start, end);
      assert multiset(a) == multiset(front) + multiset{x};
      assert multiset(front) == multiset(a) - multiset{x} == multiset(rest);
      LinesInAnyOrder(front, rest, start, end);
    }
  }

  lemma WithoutLine(b: seq<Mark>, i: nat, start: real, end: real)
    requires i < |b|
    ensures multiset(b) == multiset(b[..i] + b[i + 1..]) + multiset{b[i]}
    ensures LinesIn(b, start, end)
            == LinesIn(b[..i] + b[i + 1..], start, end) + if start <= b[i].time <= end then 1 else 0
  {
    assert b == b[..i + 1] + b[i + 1..] && b[..i + 1] == b[..i] + [b[i]] && b[..i + 1][..i] == b[..i];
    LinesAdd(b[..i + 1], b[i + 1..], start, end);
    LinesAdd(b[..i], b[i + 1..], start, end);
  }

  // ---- the runs give the maximal groups ----

  /** All of `front` is more than the gap before all of `run`. */
  ghost predicate Before(front: seq<Mark>, run: seq<Mark>, gap: real)
  {
    forall x, y :: x in front && y in run ==> y.time - x.time > gap
  }

  lemma OldEpisodeTells(e: Episode, front: seq<Mark>, run: seq<Mark>, gap: real)
    requires gap >= 0.0 && Tells(e, front, gap) && Before(front, run, gap)
    ensures Tells(e, front + run, gap)
  {
    var ms := front + run;
    var a :| a in front && a.time == e.start;
    var b :| b in front && b.time == e.end;
    assert a in ms && b in ms;
    assert forall y :: y in run ==> y.time - b.time > gap;
    forall t | At(ms, t) && Covers(e, t) && t < e.end
      ensures Followed(ms, t, gap)
    {
      assert At(front, t);
      assert Followed(front, t, gap);
      StillFollowed(front, run, t, gap);
    }
    LinesAdd(front, run, e.start, e.end);
    LinesNone(run, e.start, e.end);
    OldKind(e, front, run);
  }

  lemma StillFollowed(front: seq<Mark>, run: seq<Mark>, t: real, gap: real)
    requires Followed(front, t, gap)
    ensures Followed(front + run, t, gap)
  {
    var m :| m in front && t < m.time <= t + gap;
    assert m in front + run;
  }

  lemma OldKind(e: Episode, front: seq<Mark>, run: seq<Mark>)
    requires forall y :: y in run ==> !Covers(e, y.time)
    ensures (exists m :: m in front && Covers(e, m.time) && m.kind == Stall)
            <==> exists m :: m in front + run && Covers(e, m.time) && m.kind == Stall
  {
    if m :| m in front && Covers(e, m.time) && m.kind == Stall {
      assert m in front + run;
    }
  }

  /** Within a run, every line before its end is followed within the gap. */
  lemma {:induction false} RunFollows(run: seq<Mark>, gap: real, i: nat)
    requires Run(run, gap) && InOrder(run) && i < |run| && run[i].time < run[|run| - 1].time
    ensures Followed(run, run[i].time, gap)
    decreases |run| - i
  {
    assert run[i + 1].time - run[i + 1 - 1].time <= gap;
    if run[i + 1].time > run[i].time {
      assert run[i + 1] in run;
    } else {
      RunFollows(run, gap, i + 1);
    }
  }

  ghost predicate Spanned(run: seq<Mark>, e: Episode)
  {
    forall y :: y in run ==> Covers(e, y.time)
  }

  lemma SummaryTells(front: seq<Mark>, run: seq<Mark>, gap: real)
    requires gap >= 0.0 && Run(run, gap) && InOrder(run) && Before(front, run, gap)
    ensures Tells(Summary(run), front + run, gap)
  {
    var ms, e := front + run, Summary(run);
    assert run[0] in run && run[|run| - 1] in run;
    assert run[0] in ms && run[|run| - 1] in ms;
    assert Spanned(run, e);
    NoneCovered(front, run, gap);
    forall t | At(ms, t) && Covers(e, t) && t < e.end
      ensures Followed(ms, t, gap)
    {
      NewFollows(front, run, gap, t);
    }
    NewLines(front, run);
    NewKind(front, run);
  }

  lemma NewFollows(front: seq<Mark>, run: seq<Mark>, gap: real, t: real)
    requires Run(run, gap) && InOrder(run) && At(front + run, t) && Covers(Summary(run), t) && t < Summary(run).end
    requires forall x :: x in front ==> !Covers(Summary(run), x.time)
    ensures Followed(front + run, t, gap)
  {
    var m :| m in front + run && m.time == t;
    assert m in run;
    var i :| 0 <= i < |run| && run[i] == m;
    RunFollows(run, gap, i);
    var next :| next in run && t < next.time <= t + gap;
    assert next in front + run;
  }

  lemma NewLines(front: seq<Mark>, run: seq<Mark>)
    requires run != [] && Spanned(run, Summary(run))
    requires forall x :: x in front ==> !Covers(Summary(run), x.time)
    ensures LinesIn(front + run, Summary(run).start, Summary(run).end) == |run|
  {
    var e := Summary(run);
    LinesAdd(front, run, e.start, e.end);
    LinesNone(front, e.start, e.end);
    LinesAll(run, e.start, e.end);
  }

  lemma NoneCovered(front: seq<Mark>, run: seq<Mark>, gap: real)
    requires gap >= 0.0 && run != [] && Before(front, run, gap)
    ensures forall x :: x in front ==> !Covers(Summary(run), x.time)
  {
    assert run[0] in run;
  }

  lemma NewKind(front: seq<Mark>, run: seq<Mark>)
    requires run != [] && Spanned(run, Summary(run))
    requires forall x :: x in front ==> !Covers(Summary(run), x.time)
    ensures Summary(run).kind == Stall
            <==> exists m :: m in front + run && Covers(Summary(run), m.time) && m.kind == Stall
  {
    if AnyStall(run) {
      var i :| 0 <= i < |run| && run[i].kind == Stall;
      assert run[i] in run;
      assert run[i] in front + run;
    }
    if m :| m in front + run && Covers(Summary(run), m.time) && m.kind == Stall {
      assert m in run;
    }
  }

  lemma StillInSome(eps: seq<Episode>, e: Episode, t: real)
    requires InSome(eps, t)
    ensures InSome(eps + [e], t)
  {
    var k :| 0 <= k < |eps| && Covers(eps[k], t);
    assert (eps + [e])[k] == eps[k];
  }

  lemma StillTell(eps: seq<Episode>, front: seq<Mark>, run: seq<Mark>, gap: real)
    requires gap >= 0.0 && AllTell(eps, front, gap)
    requires Run(run, gap) && InOrder(run) && Before(front, run, gap)
    ensures AllTell(eps + [Summary(run)], front + run, gap)
  {
    var all := eps + [Summary(run)];
    forall k | 0 <= k < |all|
      ensures Tells(all[k], front + run, gap)
    {
      if k < |eps| {
        assert Tells(eps[k], front, gap);
        OldEpisodeTells(eps[k], front, run, gap);
      } else {
        SummaryTells(front, run, gap);
      }
    }
  }

  lemma StillAllInSome(eps: seq<Episode>, front: seq<Mark>, run: seq<Mark>)
    requires AllInSome(eps, front) && run != [] && InOrder(run)
    ensures AllInSome(eps + [Summary(run)], front + run)
  {
    var all := eps + [Summary(run)];
    forall m | m in front + run
      ensures InSome(all, m.time)
    {
      if m in front {
        assert InSome(eps, m.time);
        StillInSome(eps, Summary(run), m.time);
      } else {
        assert Covers(all[|eps|], m.time);
      }
    }
  }

  lemma StillApart(eps: seq<Episode>, front: seq<Mark>, run: seq<Mark>, gap: real)
    requires AllTell(eps, front, gap) && AllApart(eps, gap) && run != [] && Before(front, run, gap)
    ensures AllApart(eps + [Summary(run)], gap)
  {
    forall i | 0 <= i < |eps|
      ensures Summary(run).start - eps[i].end > gap
    {
      assert Tells(eps[i], front, gap);
      var x :| x in front && x.time == eps[i].end;
      assert run[0] in run;
    }
  }

  lemma DescribesOneMore(eps: seq<Episode>, front: seq<Mark>, run: seq<Mark>, gap: real)
    requires gap >= 0.0 && Describes(eps, front, gap)
    requires Run(run, gap) && InOrder(run) && Before(front, run, gap)
    ensures Describes(eps + [Summary(run)], front + run, gap)
  {
    StillTell(eps, front, run, gap);
    StillAllInSome(eps, front, run);
    StillApart(eps, front, run, gap);
  }

  /** The episodes of a grouping are the maximal groups of its lines. */
  lemma {:induction false} GroupsDescribe(runs: seq<seq<Mark>>, eps: seq<Episode>, ms: seq<Mark>, gap: real)
    requires gap >= 0.0 && InOrder(ms) && Groups(runs, ms, gap) && Summaries(eps, runs)
    ensures Describes(eps, ms, gap)
    decreases |runs|
  {
    if runs != [] {
      var n := |runs| - 1;
      var front, run := Flatten(runs[..n]), runs[n];
      LastRun(runs, ms, gap);
      GroupsDescribe(runs[..n], eps[..n], front, gap);
      LastRunIsAfter(runs, ms, gap);
      DescribesOneMore(eps[..n], front, run, gap);
      assert eps == eps[..n] + [Summary(run)];
    }
  }

  lemma LastRun(runs: seq<seq<Mark>>, ms: seq<Mark>, gap: real)
    requires InOrder(ms) && Groups(runs, ms, gap) && runs != []
    ensures var front, run := Flatten(runs[..|runs| - 1]), runs[|runs| - 1];
            && ms == front + run && Groups(runs[..|runs| - 1], front, gap)
            && InOrder(front) && InOrder(run) && Run(run, gap)
  {
    var n := |runs| - 1;
    var front, run := Flatten(runs[..n]), runs[n];
    assert ms == front + run;
    assert Run(run, gap);
    GroupsFront(runs, ms, gap);
    assert ms[..|ms| - |run|] == front;
    PartsInOrder(front, run);
  }

  lemma PartsInOrder(front: seq<Mark>, run: seq<Mark>)
    requires InOrder(front + run)
    ensures InOrder(front) && InOrder(run)
  {
    var ms := front + run;
    assert forall i :: 0 <= i < |front| ==> front[i] == ms[i];
    assert forall i :: 0 <= i < |run| ==> run[i] == ms[|front| + i];
  }

  lemma LastRunIsAfter(runs: seq<seq<Mark>>, ms: seq<Mark>, gap: real)
    requires InOrder(ms) && Groups(runs, ms, gap) && runs != []
    ensures Before(Flatten(runs[..|runs| - 1]), runs[|runs| - 1], gap)
  {
    var n := |runs| - 1;
    var front, run := Flatten(runs[..n]), runs[n];
    assert ms == front + run;
    forall x, y | x in front && y in run
      ensures y.time - x.time > gap
    {
      var i :| 0 <= i < |front| && front[i] == x;
      var j :| 0 <= j < |run| && run[j] == y;
      CutIsWide(runs, ms, gap);
      assert ms[i] == x && ms[|front| + j] == y;
      assert ms[i].time <= ms[|front| - 1].time;
    }
  }

  // ---- the episodes do not depend on the order of the log ----

  lemma TellsInAnyOrder(e: Episode, a: seq<Mark>, b: seq<Mark>, gap: real)
    requires multiset(a) == multiset(b) && Tells(e, a, gap)
    ensures Tells(e, b, gap)
  {
    SameMembers(a, b);
    LinesInAnyOrder(a, b, e.start, e.end);
    forall t | At(b, t) && Covers(e, t) && t < e.end
      ensures Followed(b, t, gap)
    {
      assert At(a, t);
      assert Followed(a, t, gap);
    }
  }

  lemma DescribesInAnyOrder(eps: seq<Episode>, a: seq<Mark>, b: seq<Mark>, gap: real)
    requires multiset(a) == multiset(b) && Describes(eps, a, gap)
    ensures Describes(eps, b, gap)
  {
    SameMembers(a, b);
    forall k | 0 <= k < |eps|
      ensures Tells(eps[k], b, gap)
    {
      assert Tells(eps[k], a, gap);
      TellsInAnyOrder(eps[k], a, b, gap);
    }
    forall m | m in b
      ensures InSome(eps, m.time)
    {
      assert m in a;
    }
  }

  /**
   The episodes found are the maximal groups of the log's lines, described without
   reference to the order they were written in, and the only such description.
   */
  lemma EpisodesAreTheMaximalGroups(ms: seq<Mark>, gap: real)
    requires gap >= 0.0
    ensures forall eps :: Describes(eps, ms, gap) <==> eps == EpisodesOf(Sort(ms), gap)
  {
    var found := EpisodesOf(Sort(ms), gap);
    SortInOrder(ms);
    ScanGroups(Sort(ms), gap);
    GroupsDescribe(RunsOf(Sort(ms), gap), found, Sort(ms), gap);
    DescribesInAnyOrder(found, Sort(ms), ms, gap);
    forall eps | Describes(eps, ms, gap)
      ensures eps == found
    {
      DescriptionIsUnique(eps, found, ms, gap);
    }
  }

  /** Lines written in another order give the same episodes. */
  lemma OrderDoesNotMatter(ms: seq<Mark>, others: seq<Mark>, gap: real)
    requires gap >= 0.0 && multiset(ms) == multiset(others)
    ensures EpisodesOf(Sort(ms), gap) == EpisodesOf(Sort(others), gap)
  {
    EpisodesAreTheMaximalGroups(ms, gap);
    EpisodesAreTheMaximalGroups(others, gap);
    DescribesInAnyOrder(EpisodesOf(Sort(others), gap), others, ms, gap);
  }

  /** How many lines the episodes hold between them. */
  ghost function LinesOf(eps: seq<Episode>): nat
  {
    if eps == [] then 0 else LinesOf(eps[..|eps| - 1]) + eps[|eps| - 1].lines
  }

  /** Every matching line is counted once, whatever the gap. */
  lemma EveryLineCountsOnce(ms: seq<Mark>, gap: real)
    ensures LinesOf(EpisodesOf(Sort(ms), gap)) == |ms|
  {
    SortInOrder(ms);
    ScanGroups(Sort(ms), gap);
    LinesOfRuns(RunsOf(Sort(ms), gap), EpisodesOf(Sort(ms), gap));
    assert |Sort(ms)| == |multiset(ms)| == |ms|;
  }

  lemma {:induction false} LinesOfRuns(runs: seq<seq<Mark>>, eps: seq<Episode>)
    requires Summaries(eps, runs)
    ensures LinesOf(eps) == |Flatten(runs)|
    decreases |runs|
  {
    if runs != [] {
      var n := |runs| - 1;
      LinesOfRuns(runs[..n], eps[..n]);
      assert eps[n] == Summary(runs[n]);
    }
  }

  // ---- the measured window ----

  ghost predicate Intersects(e: Episode, w0: real, w1: real)
  {
    exists t :: Covers(e, t) && w0 <= t <= w1
  }

  lemma {:induction false} RunsInOrder(runs: seq<seq<Mark>>, ms: seq<Mark>, gap: real, k: nat)
    requires InOrder(ms) && Groups(runs, ms, gap) && k < |runs|
    ensures InOrder(runs[k])
    decreases |runs|
  {
    LastRun(runs, ms, gap);
    var n := |runs| - 1;
    if k < n {
      RunsInOrder(runs[..n], Flatten(runs[..n]), gap, k);
    }
  }

  /**
   An episode found is in the window when the two share an instant; the test is wrong
   exactly for a reversed window that lies within the episode.
   */
  lemma InWindowIsIntersection(ms: seq<Mark>, gap: real, e: Episode, w0: real, w1: real)
    requires e in EpisodesOf(Sort(ms), gap)
    ensures (Place(e, w0, w1).inWindow <==> Intersects(e, w0, w1)) <==> !(e.start <= w1 < w0 <= e.end)
  {
    var s := Sort(ms);
    SortInOrder(ms);
    ScanGroups(s, gap);
    var k :| 0 <= k < |EpisodesOf(s, gap)| && EpisodesOf(s, gap)[k] == e;
    RunsInOrder(RunsOf(s, gap), s, gap, k);
    assert e.start <= e.end;
    if w0 <= w1 && e.end >= w0 && e.start <= w1 {
      assert Covers(e, if e.start >= w0 then e.start else w0);
    }
  }
}
