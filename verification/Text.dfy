/** Splitting, joining and searching strings, as the standard libraries of the source languages do. */
module Text {

  /** The position of the first `c` in `s`, or |s|. */
  function IndexOf(s: string, c: char): (i: nat)
    ensures i <= |s|
    ensures i < |s| ==> s[i] == c
    ensures forall k :: 0 <= k < i ==> s[k] != c
  {
    if s == "" || s[0] == c then 0 else 1 + IndexOf(s[1..], c)
  }

  lemma IndexIsFirst(s: string, c: char, i: nat)
    requires i < |s| && s[i] == c && forall k :: 0 <= k < i ==> s[k] != c
    ensures IndexOf(s, c) == i
  {
  }

  lemma IndexAbsent(s: string, c: char)
    ensures IndexOf(s, c) == |s| <==> c !in s
  {
  }

  /** The pieces of `s` between the separators; always at least one. */
  function Split(s: string, sep: char): (parts: seq<string>)
    ensures |parts| > 0
    ensures forall i :: 0 <= i < |parts| ==> sep !in parts[i]
    decreases |s|
  {
    var i := IndexOf(s, sep);
    if i == |s| then [s] else [s[..i]] + Split(s[i + 1..], sep)
  }

  function Join(parts: seq<string>, sep: char): string
  {
    if parts == [] then ""
    else if |parts| == 1 then parts[0]
    else parts[0] + [sep] + Join(parts[1..], sep)
  }

  lemma {:induction false} JoinOfSplit(s: string, sep: char)
    ensures Join(Split(s, sep), sep) == s
    decreases |s|
  {
    var i := IndexOf(s, sep);
    if i < |s| {
      var rest := Split(s[i + 1..], sep);
      var parts := [s[..i]] + rest;
      JoinOfSplit(s[i + 1..], sep);
      assert parts[0] == s[..i] && parts[1..] == rest && |parts| > 1;
      assert Split(s, sep) == parts;
      assert Join(parts, sep) == s[..i] + [sep] + Join(rest, sep);
      assert s == s[..i] + [sep] + s[i + 1..];
    }
  }

  lemma {:induction false} SplitOfJoin(parts: seq<string>, sep: char)
    requires parts != [] && forall i :: 0 <= i < |parts| ==> sep !in parts[i]
    ensures Split(Join(parts, sep), sep) == parts
    decreases |parts|
  {
    var s := Join(parts, sep);
    if |parts| == 1 {
      IndexAbsent(s, sep);
    } else {
      SplitOfJoin(parts[1..], sep);
      var i := |parts[0]|;
      assert s[..i] == parts[0] && s[i] == sep && s[i + 1..] == Join(parts[1..], sep);
      IndexIsFirst(s, sep, i);
    }
  }

  /** Joining pieces free of a character gives a string free of it, unless it is the separator. */
  lemma {:induction false} JoinFree(parts: seq<string>, sep: char, c: char)
    requires c != sep && forall i :: 0 <= i < |parts| ==> c !in parts[i]
    ensures c !in Join(parts, sep)
    decreases |parts|
  {
    if |parts| > 1 {
      JoinFree(parts[1..], sep, c);
    }
  }

  lemma {:induction false} SplitFree(s: string, sep: char, c: char)
    requires c !in s
    ensures forall i :: 0 <= i < |Split(s, sep)| ==> c !in Split(s, sep)[i]
    decreases |s|
  {
    var i := IndexOf(s, sep);
    if i < |s| {
      SplitFree(s[i + 1..], sep, c);
    }
  }

  /** `s` without one trailing `c`, if it has one. */
  function TrimSuffix(s: string, c: char): string
  {
    if s != "" && s[|s| - 1] == c then s[..|s| - 1] else s
  }
}
