/**
 The language of archive paths: what dcctl names an event store's archive, and which
 paths count as an instance's own. A path accepted here becomes the argument of a
 recursive delete.
 */
module ArchivePaths {

  const TSDB_CLUSTER_NAME := "dc-tsdb"
  const RESTORED := "-restored-"
  const STAMP_LENGTH := 26

  predicate Digit(c: char)
  {
    '0' <= c <= '9'
  }

  predicate Hex(c: char)
  {
    Digit(c) || 'a' <= c <= 'f'
  }

  predicate AllDigits(s: string)
  {
    forall i :: 0 <= i < |s| ==> Digit(s[i])
  }

  /** One restore stamp: -restored-[0-9]{8}T[0-9]{6}Z. */
  predicate IsStamp(s: string)
  {
    && |s| == STAMP_LENGTH
    && s[..10] == RESTORED
    && AllDigits(s[10..18]) && s[18] == 'T'
    && AllDigits(s[19..25]) && s[25] == 'Z'
  }

  /** Any number of restore stamps, one after another. */
  predicate Stamps(s: string)
    decreases |s|
  {
    s == "" || (|s| >= STAMP_LENGTH && IsStamp(s[..STAMP_LENGTH]) && Stamps(s[STAMP_LENGTH..]))
  }

  /** The half of a path that comes from a declaration's UID: - and eight hex characters. */
  predicate IsUidHalf(s: string)
  {
    |s| == 9 && s[0] == '-' && forall i :: 1 <= i < 9 ==> Hex(s[i])
  }

  /** The start of every path named for an instance. */
  function OwnName(instance: string): string
  {
    TSDB_CLUSTER_NAME + "-" + instance
  }

  /** instanceArchivePaths: ^dc-tsdb-<instance>(-[0-9a-f]{8})?(stamp)*$ */
  predicate NamedFor(instance: string, path: string)
  {
    var head := OwnName(instance);
    && head <= path
    && var tail := path[|head|..];
       Stamps(tail) || (|tail| >= 9 && IsUidHalf(tail[..9]) && Stamps(tail[9..]))
  }

  /** restoredArchiveSuffix: the path ends in a restore stamp. */
  predicate EndsInStamp(path: string)
  {
    |path| >= STAMP_LENGTH && IsStamp(path[|path| - STAMP_LENGTH..])
  }

  /** Not a single path segment. */
  predicate NotOneSegment(path: string)
  {
    '/' in path || '\\' in path || '*' in path || '?' in path || path == "." || path == ".."
  }

  datatype PathVerdict = SharedOwnName | ManySegments | Accepted | NotOurs

  /** One path segment: nothing a store or a shell would read as more. */
  predicate OneSegment(path: string)
  {
    && path != "" && path != "." && path != ".."
    && forall i :: 0 <= i < |path| ==> path[i] != '/' && path[i] != '\\' && path[i] != '*' && path[i] != '?'
  }

  /** archivePathRefusal, with Accepted where it returns the empty reason. */
  function Judge(instance: string, path: string): (v: PathVerdict)
    ensures v.Accepted? <==> OneSegment(path) && (NamedFor(instance, path) || EndsInStamp(path))
    ensures v.SharedOwnName? <==> path == ""
    ensures v.ManySegments? <==> path != "" && !OneSegment(path)
  {
    if path == "" then SharedOwnName
    else if NotOneSegment(path) then ManySegments
    else if NamedFor(instance, path) || EndsInStamp(path) then Accepted
    else NotOurs
  }

  /** The path a current dcctl gives instance `b` with UID half `h`, after any number of restores. */
  function CurrentPath(b: string, h: string, stamps: string): string
  {
    OwnName(b) + "-" + h + stamps
  }

  /** An instance name: no upper-case letter. */
  predicate LowerCase(s: string)
  {
    forall i :: 0 <= i < |s| ==> !('A' <= s[i] <= 'Z')
  }

  // ---- stamps carry the only upper-case letters of a path ----

  lemma StampLetters(s: string)
    requires Stamps(s) && s != ""
    ensures |s| >= STAMP_LENGTH && s[18] == 'T'
    ensures forall i :: 0 <= i < 18 ==> !('A' <= s[i] <= 'Z')
  {
    var f := s[..STAMP_LENGTH];
    assert IsStamp(f);
    forall i | 0 <= i < 18
      ensures !('A' <= s[i] <= 'Z')
    {
      assert s[i] == f[i];
      if i < 10 {
        assert f[..10][i] == RESTORED[i];
      } else {
        assert f[10..18][i - 10] == f[i];
      }
    }
  }

  predicate Upper(c: char)
  {
    'A' <= c <= 'Z'
  }

  /** Where the first upper-case letter is, or |x|. */
  function FirstUpper(x: string): (i: nat)
    ensures i <= |x|
    ensures i < |x| ==> Upper(x[i])
    ensures forall k :: 0 <= k < i ==> !Upper(x[k])
  {
    if x == "" || Upper(x[0]) then 0 else 1 + FirstUpper(x[1..])
  }

  lemma FirstUpperIs(x: string, i: nat)
    requires i <= |x| && (i < |x| ==> Upper(x[i])) && forall k :: 0 <= k < i ==> !Upper(x[k])
    ensures FirstUpper(x) == i
  {
  }

  /** In a lower-case name followed by stamps, the first upper-case letter is the T of the first stamp. */
  lemma FirstUpperAfterName(p: string, s: string)
    requires LowerCase(p) && Stamps(s)
    ensures FirstUpper(p + s) == if s == "" then |p| else |p| + 18
  {
    if s == "" {
      assert p + s == p;
      FirstUpperIs(p, |p|);
    } else {
      StampLetters(s);
      FirstUpperIs(p + s, |p| + 18);
    }
  }

  /** A lower-case name followed by stamps can be read in one way only. */
  lemma NameAndStampsUnique(p: string, s: string, q: string, t: string)
    requires LowerCase(p) && LowerCase(q) && Stamps(s) && Stamps(t)
    requires p + s == q + t
    ensures p == q && s == t
  {
    FirstUpperAfterName(p, s);
    FirstUpperAfterName(q, t);
    assert s != "" ==> |s| >= STAMP_LENGTH;
    assert t != "" ==> |t| >= STAMP_LENGTH;
    assert |p| + |s| == |q| + |t|;
    assert |p| == |q|;
    assert p == (p + s)[..|p|] && q == (q + t)[..|q|];
    assert s == (p + s)[|p|..] && t == (q + t)[|q|..];
  }

  /** What a matching path is made of. */
  lemma NamedForParts(a: string, path: string) returns (uid: string, stamps: string)
    requires NamedFor(a, path)
    ensures path == OwnName(a) + uid + stamps && (uid == "" || IsUidHalf(uid)) && Stamps(stamps)
  {
    var n := |OwnName(a)|;
    var tail := path[n..];
    assert path == OwnName(a) + tail;
    if Stamps(tail) {
      uid, stamps := "", tail;
      assert OwnName(a) + uid == OwnName(a);
    } else {
      uid, stamps := tail[..9], tail[9..];
      assert tail == uid + stamps;
      assert OwnName(a) + (uid + stamps) == OwnName(a) + uid + stamps;
    }
  }

  lemma PartsAreNamedFor(a: string, uid: string, stamps: string)
    requires (uid == "" || IsUidHalf(uid)) && Stamps(stamps)
    ensures NamedFor(a, OwnName(a) + uid + stamps)
  {
    var path := OwnName(a) + uid + stamps;
    var tail := path[|OwnName(a)|..];
    assert tail == uid + stamps;
    assert OwnName(a) == path[..|OwnName(a)|];
    if uid == "" {
      assert tail == stamps;
    } else {
      assert tail[..9] == uid && tail[9..] == stamps;
    }
  }

  /** The names of lower-case instances, with a UID half or without, have no upper-case letter. */
  lemma NamesAreLowerCase(a: string, uid: string)
    requires LowerCase(a) && (uid == "" || IsUidHalf(uid))
    ensures LowerCase(OwnName(a) + uid)
  {
    var x := OwnName(a) + uid;
    assert LowerCase("dc-tsdb-");
    assert OwnName(a) == "dc-tsdb-" + a;
  }

  /**
   Ownership of a path is unambiguous: among lower-case names, the current-form path
   of instance `b`, restored any number of times, is named for `b`, for an instance
   called "<b>-<uid half>", and for nobody else.
   */
  lemma OwnershipIsUnambiguous(a: string, b: string, h: string, stamps: string)
    requires LowerCase(a) && LowerCase(b) && IsUidHalf("-" + h) && Stamps(stamps)
    ensures NamedFor(a, CurrentPath(b, h, stamps)) <==> a == b || a == b + "-" + h
  {
    var path := CurrentPath(b, h, stamps);
    assert path == OwnName(b) + ("-" + h) + stamps;
    NamesAreLowerCase(b, "-" + h);
    if NamedFor(a, path) {
      var uid, more := NamedForParts(a, path);
      NamesAreLowerCase(a, uid);
      NameAndStampsUnique(OwnName(a) + uid, more, OwnName(b) + ("-" + h), stamps);
      SameOwnName(a, uid, b, "-" + h);
    }
    PartsAreNamedFor(b, "-" + h, stamps);
    if a == b + "-" + h {
      assert OwnName(a) == OwnName(b) + ("-" + h);
      assert OwnName(a) + "" + stamps == path;
      PartsAreNamedFor(a, "", stamps);
    }
  }

  lemma SameOwnName(a: string, uid: string, b: string, half: string)
    requires OwnName(a) + uid == OwnName(b) + half && IsUidHalf(half) && (uid == "" || IsUidHalf(uid))
    ensures a == b || a == b + half
  {
    var x, y := OwnName(a) + uid, OwnName(b) + half;
    assert OwnName(a) == "dc-tsdb-" + a && OwnName(b) == "dc-tsdb-" + b;
    assert x[8..] == a + uid && y[8..] == b + half;
    if uid == "" {
      assert a + uid == a;
    } else {
      assert (a + uid)[..|a|] == a && (b + half)[..|b|] == b;
    }
  }

  /** A path that ends in stamps ends in one. */
  lemma {:induction false} StampsEndInStamp(head: string, stamps: string)
    requires Stamps(stamps) && stamps != ""
    ensures EndsInStamp(head + stamps)
    decreases |stamps|
  {
    var rest := stamps[STAMP_LENGTH..];
    if rest == "" {
      assert (head + stamps)[|head|..] == stamps;
      assert stamps == stamps[..STAMP_LENGTH];
    } else {
      StampsEndInStamp(head + stamps[..STAMP_LENGTH], rest);
      assert head + stamps[..STAMP_LENGTH] + rest == head + stamps;
    }
  }

  /**
   Which current-form paths destroy accepts as instance `a`'s: those named for it,
   and every path a restore minted, whosever name it starts with.
   */
  lemma AcceptedExactly(a: string, b: string, h: string, stamps: string)
    requires LowerCase(a) && LowerCase(b) && IsUidHalf("-" + h) && Stamps(stamps)
    ensures Judge(a, CurrentPath(b, h, stamps)).Accepted?
            <==> !NotOneSegment(CurrentPath(b, h, stamps)) && (stamps != "" || a == b || a == b + "-" + h)
  {
    var path := CurrentPath(b, h, stamps);
    OwnershipIsUnambiguous(a, b, h, stamps);
    if stamps != "" {
      StampsEndInStamp(OwnName(b) + "-" + h, stamps);
    } else {
      NoStampNoUpper(b, h);
    }
  }

  lemma NoStampNoUpper(b: string, h: string)
    requires LowerCase(b) && IsUidHalf("-" + h)
    ensures !EndsInStamp(CurrentPath(b, h, ""))
  {
    var path := CurrentPath(b, h, "");
    assert path == OwnName(b) + ("-" + h);
    NamesAreLowerCase(b, "-" + h);
    assert |path| > 0 && path[|path| - 1] != 'Z';
  }

  /** Any number of strings, one after another. */
  function Chained(parts: seq<string>): string
  {
    if parts == [] then "" else parts[0] + Chained(parts[1..])
  }

  lemma {:induction false} StampsExactly(s: string)
    ensures Stamps(s) <==> exists parts: seq<string> :: s == Chained(parts) && forall i :: 0 <= i < |parts| ==> IsStamp(parts[i])
    decreases |s|
  {
    if Stamps(s) {
      var parts := StampsOf(s);
    }
    if parts: seq<string> :| s == Chained(parts) && forall i :: 0 <= i < |parts| ==> IsStamp(parts[i]) {
      ChainedStamps(parts);
    }
  }

  lemma {:induction false} StampsOf(s: string) returns (parts: seq<string>)
    requires Stamps(s)
    ensures s == Chained(parts) && forall i :: 0 <= i < |parts| ==> IsStamp(parts[i])
    decreases |s|
  {
    if s == "" {
      parts := [];
    } else {
      var rest := StampsOf(s[STAMP_LENGTH..]);
      parts := [s[..STAMP_LENGTH]] + rest;
      assert parts[1..] == rest;
    }
  }

  lemma {:induction false} ChainedStamps(parts: seq<string>)
    requires forall i :: 0 <= i < |parts| ==> IsStamp(parts[i])
    ensures Stamps(Chained(parts))
    decreases |parts|
  {
    if parts != [] {
      ChainedStamps(parts[1..]);
      var s := Chained(parts);
      assert s[..STAMP_LENGTH] == parts[0] && s[STAMP_LENGTH..] == Chained(parts[1..]);
    }
  }

  /** The half of a UID, spelled out. */
  lemma UidHalfExactly(uid: string)
    ensures IsUidHalf(uid) <==>
            exists hex: string :: && |hex| == 8 && uid == "-" + hex
                                  && forall i :: 0 <= i < 8 ==> '0' <= hex[i] <= '9' || 'a' <= hex[i] <= 'f'
  {
    if IsUidHalf(uid) {
      var hex := uid[1..];
      assert uid == "-" + hex;
      assert forall i :: 0 <= i < 8 ==> hex[i] == uid[i + 1];
    }
  }

  /** The path spelled out: dc-tsdb-, the instance's name, a UID half or none, and restore stamps. */
  ghost predicate SpelledOwn(path: string, instance: string, uid: string, stamps: string)
  {
    path == "dc-tsdb-" + instance + uid + stamps && (uid == "" || IsUidHalf(uid)) && Stamps(stamps)
  }

  /** A path is an instance's own exactly when it can be spelled so. */
  lemma NamedForExactly(instance: string, path: string)
    ensures NamedFor(instance, path) <==> exists uid, stamps :: SpelledOwn(path, instance, uid, stamps)
  {
    assert OwnName(instance) == "dc-tsdb-" + instance;
    if NamedFor(instance, path) {
      var uid, stamps := NamedForParts(instance, path);
      assert SpelledOwn(path, instance, uid, stamps);
    }
    if uid, stamps :| SpelledOwn(path, instance, uid, stamps) {
      PartsAreNamedFor(instance, uid, stamps);
      assert path == OwnName(instance) + uid + stamps;
    }
  }

  // ---- the paths dcctl mints ----

  /** A restore's stamp, spelled out. */
  lemma StampExactly(s: string)
    ensures IsStamp(s) <==>
            exists day, hour :: |day| == 8 && |hour| == 6 && AllDigits(day) && AllDigits(hour)
                                && s == "-restored-" + day + "T" + hour + "Z"
  {
    if IsStamp(s) {
      var day, hour := s[10..18], s[19..25];
      assert s == s[..10] + day + [s[18]] + hour + [s[25]];
      assert s == "-restored-" + day + "T" + hour + "Z";
    }
    if day, hour :| |day| == 8 && |hour| == 6 && AllDigits(day) && AllDigits(hour)
                    && s == "-restored-" + day + "T" + hour + "Z" {
      SpelledIsStamp(day, hour);
    }
  }

  lemma SpelledIsStamp(day: string, hour: string)
    requires |day| == 8 && |hour| == 6 && AllDigits(day) && AllDigits(hour)
    ensures IsStamp("-restored-" + day + "T" + hour + "Z")
  {
    var s := "-restored-" + day + "T" + hour + "Z";
    assert s[..10] == "-restored-" && s[10..18] == day && s[19..25] == hour;
  }

  /** RestoredArchivePath: the source's path with the time of the restore. */
  function RestoredPath(source: string, day: string, hour: string): string
  {
    source + ("-restored-" + day + "T" + hour + "Z")
  }

  /** freshTsdbArchivePath: the instance's name, with the first half of its declaration's UID when there is one. */
  function FreshPath(instance: string, uid: string): string
  {
    OwnName(instance) + if |uid| >= 8 then "-" + uid[..8] else ""
  }

  lemma {:induction false} MoreStamps(s: string, stamp: string)
    requires Stamps(s) && IsStamp(stamp)
    ensures Stamps(s + stamp)
    decreases |s|
  {
    if s == "" {
      assert s + stamp == stamp && stamp[..STAMP_LENGTH] == stamp;
    } else {
      MoreStamps(s[STAMP_LENGTH..], stamp);
      assert (s + stamp)[..STAMP_LENGTH] == s[..STAMP_LENGTH];
      assert (s + stamp)[STAMP_LENGTH..] == s[STAMP_LENGTH..] + stamp;
    }
  }

  /** The path of a fresh event store is recognised as its instance's, with a UID half or without. */
  lemma FreshPathIsOwn(instance: string, uid: string)
    requires forall i :: 0 <= i < |uid| ==> '0' <= uid[i] <= '9' || 'a' <= uid[i] <= 'f' || uid[i] == '-'
    requires |uid| >= 8 ==> '-' !in uid[..8]
    ensures NamedFor(instance, FreshPath(instance, uid))
  {
    var half := if |uid| >= 8 then "-" + uid[..8] else "";
    if |uid| >= 8 {
      assert forall i :: 1 <= i < 9 ==> half[i] == uid[..8][i - 1] == uid[i - 1];
    }
    PartsAreNamedFor(instance, half, "");
    assert OwnName(instance) + half + "" == FreshPath(instance, uid);
  }

  /** And so is a restore of any path recognised so far, generation after generation. */
  lemma RestoredPathIsOwn(instance: string, source: string, day: string, hour: string)
    requires NamedFor(instance, source) && |day| == 8 && |hour| == 6 && AllDigits(day) && AllDigits(hour)
    ensures NamedFor(instance, RestoredPath(source, day, hour))
  {
    SpelledIsStamp(day, hour);
    StampedPathIsOwn(instance, source, "-restored-" + day + "T" + hour + "Z");
  }

  lemma StampedPathIsOwn(instance: string, source: string, stamp: string)
    requires NamedFor(instance, source) && IsStamp(stamp)
    ensures NamedFor(instance, source + stamp)
  {
    var uid, stamps := NamedForParts(instance, source);
    MoreStamps(stamps, stamp);
    PartsAreNamedFor(instance, uid, stamps + stamp);
    assert OwnName(instance) + uid + (stamps + stamp) == source + stamp;
  }

  /** A restore's path is accepted as the restored instance's own, whatever it was restored from. */
  lemma RestoredPathIsAccepted(instance: string, source: string, day: string, hour: string)
    requires OneSegment(source) && |day| == 8 && |hour| == 6 && AllDigits(day) && AllDigits(hour)
    ensures Judge(instance, RestoredPath(source, day, hour)).Accepted?
  {
    var stamp := "-restored-" + day + "T" + hour + "Z";
    var path := RestoredPath(source, day, hour);
    SpelledIsStamp(day, hour);
    assert path[|path| - STAMP_LENGTH..] == stamp;
    forall i | 0 <= i < |path|
      ensures path[i] != '/' && path[i] != '\\' && path[i] != '*' && path[i] != '?'
    {
      if i >= |source| {
        StampLettersOnly(stamp, i - |source|);
      }
    }
  }

  lemma StampLettersOnly(stamp: string, i: nat)
    requires IsStamp(stamp) && i < |stamp|
    ensures stamp[i] != '/' && stamp[i] != '\\' && stamp[i] != '*' && stamp[i] != '?'
  {
    if i < 10 {
      assert stamp[i] == RESTORED[i];
    } else if 10 <= i < 18 {
      assert stamp[i] == stamp[10..18][i - 10];
    } else if 19 <= i < 25 {
      assert stamp[i] == stamp[19..25][i - 19];
    }
  }
}
