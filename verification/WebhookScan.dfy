/**
 Recognising, in an error message, that the API server could not reach (or was
 refused by) a CloudNativePG admission webhook: a loop over a shrinking string,
 against the plain statement that some occurrence of the marker is followed by a
 quoted name in the cnpg.io domain.
 */
module WebhookScan {
  import Text

  const CALL_FAILURE := "failed calling webhook "
  const DENIAL := "admission webhook "
  const DOMAIN := ".cnpg.io"

  predicate IsSpace(c: char)
  {
    || c == '\t' || c == '\n' || c == '\U{000B}' || c == '\U{000C}' || c == '\r' || c == ' '
    || c == '\U{0085}' || c == '\U{00A0}' || c == '\U{1680}' || ('\U{2000}' <= c <= '\U{200A}')
    || c == '\U{2028}' || c == '\U{2029}' || c == '\U{202F}' || c == '\U{205F}' || c == '\U{3000}'
  }

  /** The characters with Unicode's White_Space property, by their numbers. */
  lemma SpacesExactly(c: char)
    ensures IsSpace(c) <==>
            var n := c as int;
            || 9 <= n <= 13 || n == 32 || n == 133 || n == 160 || n == 5760
            || 8192 <= n <= 8202 || n == 8232 || n == 8233 || n == 8239 || n == 8287 || n == 12288
  {
  }

  /** strings.Fields: the words between the runs of white space; `word` is the one being read. */
  function Fields(s: string, word: string): (words: seq<string>)
    requires forall i :: 0 <= i < |word| ==> !IsSpace(word[i])
    ensures forall w :: w in words ==> w != "" && forall i :: 0 <= i < |w| ==> !IsSpace(w[i])
    decreases |s|
  {
    if s == "" then Finish(word)
    else if IsSpace(s[0]) then Finish(word) + Fields(s[1..], "")
    else Fields(s[1..], word + [s[0]])
  }

  function Finish(word: string): seq<string>
  {
    if word == "" then [] else [word]
  }

  /** The message with every run of white space collapsed to one space. */
  function Normalised(msg: string): string
  {
    Text.Join(Fields(msg, ""), ' ')
  }

  /** `pat` occurs in `s` at `i`. */
  predicate OccursAt(s: string, pat: string, i: nat)
  {
    i + |pat| <= |s| && s[i..i + |pat|] == pat
  }

  /** At `i` the text has a quoted name ending in the CloudNativePG domain. */
  predicate QuotedNameAt(s: string, i: nat)
  {
    i < |s| && s[i] == '"' && exists end :: i < end < |s| && ClosesAt(s, i, end)
  }

  /** The name opened by the quote at `i` closes at `end` and is in the domain. */
  predicate ClosesAt(s: string, i: nat, end: nat)
    requires i < end < |s|
  {
    s[end] == '"' && '"' !in s[i + 1..end] && EndsWith(s[i + 1..end], DOMAIN)
  }

  predicate EndsWith(s: string, suffix: string)
  {
    |suffix| <= |s| && s[|s| - |suffix|..] == suffix
  }

  /** The statement the scanner is to decide. */
  ghost predicate NamesWebhook(s: string, marker: string)
  {
    exists i: nat :: OccursAt(s, marker, i) && QuotedNameAt(s, i + |marker|)
  }

  /** The text with the marker, and a quoted name that ends in the domain, spelled out. */
  ghost predicate Spelled(s: string, marker: string, before: string, name: string, rest: string)
  {
    s == before + (marker + ("\"" + name + ".cnpg.io\"" + rest)) && '"' !in name
  }

  /** The statement, spelled out: some marker is followed by a quoted name ending in ".cnpg.io". */
  lemma NamesWebhookExactly(s: string, marker: string)
    ensures NamesWebhook(s, marker) <==> exists before, name, rest :: Spelled(s, marker, before, name, rest)
  {
    if NamesWebhook(s, marker) {
      var i: nat :| OccursAt(s, marker, i) && QuotedNameAt(s, i + |marker|);
      var m := i + |marker|;
      var end :| m < end < |s| && ClosesAt(s, m, end);
      var before, name, rest := SpellOut(s, marker, i, end);
    }
    if before, name, rest :| Spelled(s, marker, before, name, rest) {
      SpelledNames(s, marker, before, name, rest);
    }
  }

  lemma SpellOut(s: string, marker: string, i: nat, end: nat) returns (before: string, name: string, rest: string)
    requires OccursAt(s, marker, i) && i + |marker| < end < |s| && s[i + |marker|] == '"'
    requires ClosesAt(s, i + |marker|, end)
    ensures Spelled(s, marker, before, name, rest)
  {
    var m := i + |marker|;
    name := NameOf(s[m + 1..end]);
    var tail := CutAround(s, i, m);
    assert tail[end - m] == s[end];
    assert tail[1..end - m] == s[m + 1..end];
    QuotedTail(tail, end - m, name);
    before, rest := s[..i], tail[end - m + 1..];
  }

  lemma NameOf(quoted: string) returns (name: string)
    requires '"' !in quoted && EndsWith(quoted, DOMAIN)
    ensures quoted == name + DOMAIN && '"' !in name
  {
    name := quoted[..|quoted| - |DOMAIN|];
    assert forall k :: 0 <= k < |name| ==> name[k] == quoted[k];
  }

  lemma CutAround(s: string, i: nat, m: nat) returns (tail: string)
    requires i <= m <= |s|
    ensures tail == s[m..] && s == s[..i] + (s[i..m] + tail)
  {
    tail := s[m..];
  }

  lemma QuotedTail(t: string, k: nat, name: string)
    requires 0 < k < |t| && t[0] == '"' && t[k] == '"' && t[1..k] == name + DOMAIN
    ensures t == "\"" + name + ".cnpg.io\"" + t[k + 1..]
  {
    assert t == [t[0]] + t[1..k] + [t[k]] + t[k + 1..];
    assert name + DOMAIN + "\"" == name + ".cnpg.io\"";
    assert [t[0]] + (name + DOMAIN) + [t[k]] == "\"" + name + ".cnpg.io\"";
  }

  lemma SpelledNames(s: string, marker: string, before: string, name: string, rest: string)
    requires Spelled(s, marker, before, name, rest)
    ensures NamesWebhook(s, marker)
  {
    var i := |before|;
    var m := i + |marker|;
    var end := m + 1 + |name| + |DOMAIN|;
    assert s[i..m] == marker;
    assert s[m..] == "\"" + name + ".cnpg.io\"" + rest;
    assert s[m..][1..end - m] == name + DOMAIN;
    assert s[m + 1..end] == name + DOMAIN;
    assert s[end] == s[m..][end - m] == '"';
    assert ClosesAt(s, m, end);
    assert OccursAt(s, marker, i) && QuotedNameAt(s, m);
  }

  /** strings.Index: the first occurrence, or None. */
  method Index(s: string, pat: string) returns (found: bool, at: nat)
    ensures found ==> OccursAt(s, pat, at) && forall k: nat :: k < at ==> !OccursAt(s, pat, k)
    ensures !found ==> forall k: nat :: !OccursAt(s, pat, k)
  {
    at := 0;
    while at + |pat| <= |s|
      invariant forall k: nat :: k < at ==> !OccursAt(s, pat, k)
    {
      if s[at..at + |pat|] == pat {
        return true, at;
      }
      at := at + 1;
    }
    found := false;
  }

  /** No proper suffix of the marker is also its prefix, so two occurrences never overlap. */
  ghost predicate Unbordered(pat: string)
  {
    pat != "" && forall n :: 0 < n < |pat| ==> pat[..|pat| - n] != pat[n..]
  }

  lemma OverlapMakesABorder(s: string, pat: string, i: nat, j: nat)
    requires OccursAt(s, pat, i) && OccursAt(s, pat, j) && i < j < i + |pat|
    ensures pat[..|pat| - (j - i)] == pat[j - i..]
  {
    var n := j - i;
    assert pat[n..] == s[i..i + |pat|][n..] == s[j..i + |pat|];
    assert pat[..|pat| - n] == s[j..j + |pat|][..|pat| - n] == s[j..i + |pat|];
  }

  lemma OccurrencesDoNotOverlap(s: string, pat: string, i: nat, j: nat)
    requires Unbordered(pat) && OccursAt(s, pat, i) && OccursAt(s, pat, j) && i < j
    ensures i + |pat| <= j
  {
    if j < i + |pat| {
      OverlapMakesABorder(s, pat, i, j);
      assert false;
    }
  }

  lemma ShiftOccurrence(s: string, k: nat, pat: string, i: nat)
    requires k <= |s|
    ensures OccursAt(s[k..], pat, i) <==> OccursAt(s, pat, k + i)
  {
    if k + i + |pat| <= |s| {
      assert s[k..][i..i + |pat|] == s[k + i..k + i + |pat|];
    }
  }

  lemma ShiftClose(s: string, k: nat, i: nat, end: nat)
    requires k <= |s| && i < end && k + end < |s|
    ensures ClosesAt(s[k..], i, end) <==> ClosesAt(s, k + i, k + end)
  {
    assert s[k..][i + 1..end] == s[k + i + 1..k + end];
  }

  lemma ShiftQuote(s: string, k: nat, i: nat)
    requires k <= |s|
    ensures QuotedNameAt(s[k..], i) <==> QuotedNameAt(s, k + i)
  {
    var t := s[k..];
    if QuotedNameAt(t, i) {
      var end :| i < end < |t| && ClosesAt(t, i, end);
      ShiftClose(s, k, i, end);
    }
    if QuotedNameAt(s, k + i) {
      var end :| k + i < end < |s| && ClosesAt(s, k + i, end);
      ShiftClose(s, k, i, end - k);
    }
  }

  lemma AheadMeansNamed(s: string, marker: string, m: nat)
    requires m <= |s| && NamesWebhook(s[m..], marker)
    ensures NamesWebhook(s, marker)
  {
    var i: nat :| OccursAt(s[m..], marker, i) && QuotedNameAt(s[m..], i + |marker|);
    ShiftOccurrence(s, m, marker, i);
    ShiftQuote(s, m, i + |marker|);
    assert OccursAt(s, marker, m + i) && QuotedNameAt(s, m + i + |marker|);
  }

  lemma LaterIsAhead(s: string, marker: string, at: nat, i: nat)
    requires Unbordered(marker) && OccursAt(s, marker, at) && at < i
    requires OccursAt(s, marker, i) && QuotedNameAt(s, i + |marker|)
    ensures NamesWebhook(s[at + |marker|..], marker)
  {
    var m := at + |marker|;
    OccurrencesDoNotOverlap(s, marker, at, i);
    ShiftOccurrence(s, m, marker, i - m);
    ShiftQuote(s, m, i - m + |marker|);
    assert OccursAt(s[m..], marker, i - m) && QuotedNameAt(s[m..], i - m + |marker|);
  }

  /**
   What skipping from one occurrence to the next decides: whether some occurrence that
   does not overlap an earlier one counted is followed by a quoted name in the domain.
   */
  ghost predicate Scan(s: string, marker: string)
    requires marker != ""
    decreases |s|, 0
  {
    exists at: nat :: FirstAt(s, marker, at) && ScanFrom(s[at + |marker|..], marker)
  }

  ghost predicate ScanFrom(rest: string, marker: string)
    requires marker != ""
    decreases |rest|, 1
  {
    QuotedNameAt(rest, 0) || Scan(rest, marker)
  }

  ghost predicate FirstAt(s: string, marker: string, at: nat)
  {
    OccursAt(s, marker, at) && forall k: nat :: k < at ==> !OccursAt(s, marker, k)
  }

  lemma FirstIsOne(s: string, marker: string, i: nat, j: nat)
    requires FirstAt(s, marker, i) && FirstAt(s, marker, j)
    ensures i == j
  {
  }

  lemma ScanAt(s: string, marker: string, at: nat)
    requires marker != "" && FirstAt(s, marker, at)
    ensures Scan(s, marker) <==> ScanFrom(s[at + |marker|..], marker)
  {
    if Scan(s, marker) {
      var i: nat :| FirstAt(s, marker, i) && ScanFrom(s[i + |marker|..], marker);
      FirstIsOne(s, marker, i, at);
    }
  }

  lemma NamedHere(s: string, marker: string, at: nat)
    requires OccursAt(s, marker, at) && QuotedNameAt(s[at + |marker|..], 0)
    ensures NamesWebhook(s, marker)
  {
    ShiftQuote(s, at + |marker|, 0);
    assert OccursAt(s, marker, at) && QuotedNameAt(s, at + |marker|);
  }

  /** What the scan finds is there, whatever the marker. */
  lemma {:induction false} ScanIsSound(s: string, marker: string)
    requires marker != "" && Scan(s, marker)
    ensures NamesWebhook(s, marker)
    decreases |s|
  {
    var at: nat :| FirstAt(s, marker, at) && ScanFrom(s[at + |marker|..], marker);
    var rest := s[at + |marker|..];
    if QuotedNameAt(rest, 0) {
      NamedHere(s, marker, at);
    } else {
      ScanIsSound(rest, marker);
      AheadMeansNamed(s, marker, at + |marker|);
    }
  }

  lemma NotNamedNotScanned(rest: string, marker: string)
    requires marker != "" && !QuotedNameAt(rest, 0) && !NamesWebhook(rest, marker)
    ensures !ScanFrom(rest, marker)
  {
    if Scan(rest, marker) {
      ScanIsSound(rest, marker);
    }
  }

  lemma FirstOccurrence(s: string, marker: string, i: nat) returns (at: nat)
    requires OccursAt(s, marker, i)
    ensures at <= i && FirstAt(s, marker, at)
  {
    at := 0;
    while at < i && !OccursAt(s, marker, at)
      invariant at <= i && forall k: nat :: k < at ==> !OccursAt(s, marker, k)
    {
      at := at + 1;
    }
  }

  /** The scan misses no occurrence of a marker that cannot overlap itself. */
  lemma {:induction false} ScanIsComplete(s: string, marker: string)
    requires Unbordered(marker) && NamesWebhook(s, marker)
    ensures Scan(s, marker)
    decreases |s|
  {
    var i: nat :| OccursAt(s, marker, i) && QuotedNameAt(s, i + |marker|);
    var at := FirstOccurrence(s, marker, i);
    var rest := s[at + |marker|..];
    if i == at {
      ShiftQuote(s, at + |marker|, 0);
    } else {
      LaterIsAhead(s, marker, at, i);
      ScanIsComplete(rest, marker);
    }
    assert ScanFrom(rest, marker);
  }

  /** A text in which the scan steps over the one occurrence that counts. */
  function Overlapping(marker: string, n: nat): string
    requires n <= |marker|
  {
    marker[..n] + marker + "\"" + DOMAIN + "\""
  }

  lemma MissedFromStart(s: string, marker: string)
    requires marker != "" && OccursAt(s, marker, 0) && !ScanFrom(s[|marker|..], marker)
    ensures !Scan(s, marker)
  {
    assert FirstAt(s, marker, 0);
    ScanAt(s, marker, 0);
  }

  /** A marker that overlaps itself is missed in some text. */
  lemma BorderedIsMissed(marker: string, n: nat, s: string)
    requires 0 < n < |marker| && marker[..|marker| - n] == marker[n..] && '"' !in marker
    requires s == Overlapping(marker, n)
    ensures NamesWebhook(s, marker) && !Scan(s, marker)
  {
    var q := marker[|marker| - n..];
    OccursTwice(marker, n);
    RestOfOverlap(marker, n);
    NothingBehindOverlap(q, marker);
    NotNamedNotScanned(q + "\"" + DOMAIN + "\"", marker);
    MissedFromStart(s, marker);
  }

  lemma RestOfOverlap(marker: string, n: nat)
    requires 0 < n < |marker| && marker[..|marker| - n] == marker[n..]
    ensures Overlapping(marker, n)[|marker|..] == marker[|marker| - n..] + "\"" + DOMAIN + "\""
  {
    var m, name := |marker|, "\"" + DOMAIN + "\"";
    assert marker == marker[..m - n] + marker[m - n..];
    assert marker[..n] + marker[..m - n] == marker;
    assert marker[..n] + marker == marker + marker[m - n..];
    assert Overlapping(marker, n) == marker + (marker[m - n..] + name);
    assert marker[m - n..] + "\"" + DOMAIN + "\"" == marker[m - n..] + name;
  }

  lemma OccursTwice(marker: string, n: nat)
    requires 0 < n < |marker| && marker[..|marker| - n] == marker[n..]
    ensures OccursAt(Overlapping(marker, n), marker, 0)
    ensures NamesWebhook(Overlapping(marker, n), marker)
  {
    var s, m := Overlapping(marker, n), |marker|;
    assert s[..m] == marker[..n] + marker[..m - n] == marker[..n] + marker[n..] == marker;
    assert s[n..n + m] == marker;
    var i, end := n + m, n + m + 1 + |DOMAIN|;
    assert s[i + 1..end] == DOMAIN;
    assert ClosesAt(s, i, end);
    assert OccursAt(s, marker, n) && QuotedNameAt(s, n + m);
  }

  /** After less than a marker and a quoted name, no marker is followed by a quoted name. */
  lemma NothingBehindOverlap(q: string, marker: string)
    requires 0 < |q| < |marker| && '"' !in q
    ensures var rest := q + "\"" + DOMAIN + "\"";
            !QuotedNameAt(rest, 0) && !NamesWebhook(rest, marker)
  {
    var rest := q + "\"" + DOMAIN + "\"";
    assert forall i :: 0 <= i < |q| ==> rest[i] == q[i];
    assert forall i :: |q| < i < |rest| - 1 ==> rest[i] == DOMAIN[i - |q| - 1];
  }

  /**
   The scan decides the plain statement on every text exactly when no proper suffix of
   the marker is also its prefix. Both markers the classifiers use are of that kind.
   */
  lemma ScanIsExact(marker: string)
    requires marker != "" && '"' !in marker
    ensures (forall s :: Scan(s, marker) <==> NamesWebhook(s, marker)) <==> Unbordered(marker)
  {
    if Unbordered(marker) {
      forall s
        ensures Scan(s, marker) <==> NamesWebhook(s, marker)
      {
        if Scan(s, marker) {
          ScanIsSound(s, marker);
        }
        if NamesWebhook(s, marker) {
          ScanIsComplete(s, marker);
        }
      }
    } else {
      var n :| 0 < n < |marker| && marker[..|marker| - n] == marker[n..];
      BorderedIsMissed(marker, n, Overlapping(marker, n));
    }
  }

  /** A name needs a closing quote: with no quote after the first character there is none anywhere ahead. */
  lemma NoQuoteNoName(rest: string, marker: string)
    requires marker != "" && rest != "" && '"' !in rest[1..]
    ensures !QuotedNameAt(rest, 0) && !NamesWebhook(rest, marker)
  {
    assert forall k :: 1 <= k < |rest| ==> rest[k] == rest[1..][k - 1];
  }

  lemma NoQuoteNoScan(rest: string, marker: string)
    requires marker != "" && rest != "" && '"' !in rest[1..]
    ensures !ScanFrom(rest, marker)
  {
    NoQuoteNoName(rest, marker);
    NotNamedNotScanned(rest, marker);
  }

  /** The name that opens at the start is the one up to the next quote. */
  lemma NameUpToNextQuote(rest: string, end: nat)
    requires rest != "" && rest[0] == '"' && 1 + end < |rest| && rest[1 + end] == '"' && '"' !in rest[1..1 + end]
    ensures QuotedNameAt(rest, 0) <==> EndsWith(rest[1..1 + end], DOMAIN)
  {
    if QuotedNameAt(rest, 0) {
      var e :| 0 < e < |rest| && ClosesAt(rest, 0, e);
      assert e >= 1 + end by { assert forall k :: 1 <= k < 1 + end ==> rest[k] == rest[1..1 + end][k - 1]; }
      assert e <= 1 + end by { assert forall k :: 1 <= k < e ==> rest[k] == rest[1..e][k - 1]; }
    }
    if EndsWith(rest[1..1 + end], DOMAIN) {
      assert ClosesAt(rest, 0, 1 + end);
    }
  }

  /** namesCNPGWebhook. It is never called with an empty marker, on which it would not return. */
  method NamesCnpgWebhook(msg: string, marker: string) returns (named: bool)
    requires marker != ""
    ensures named <==> Scan(Normalised(msg), marker)
  {
    var rest := Normalised(msg);
    while true
      invariant Scan(Normalised(msg), marker) <==> Scan(rest, marker)
      decreases |rest|
    {
      var found, i := Index(rest, marker);
      if !found {
        return false;
      }
      ScanAt(rest, marker, i);
      rest := rest[i + |marker|..];
      if rest == "" || rest[0] != '"' {
        continue;
      }
      var closed, end := Index(rest[1..], "\"");
      if !closed {
        assert '"' !in rest[1..] by {
          forall k | 0 <= k < |rest[1..]|
            ensures rest[1..][k] != '"'
          {
            assert !OccursAt(rest[1..], "\"", k);
            assert rest[1..][k..k + 1] == [rest[1..][k]];
          }
        }
        NoQuoteNoScan(rest, marker);
        return false;
      }
      FirstQuote(rest, end);
      NameUpToNextQuote(rest, end);
      var name := rest[1..1 + end];
      if EndsWith(name, DOMAIN) {
        return true;
      }
    }
  }

  lemma FirstQuote(rest: string, end: nat)
    requires rest != "" && OccursAt(rest[1..], "\"", end)
    requires forall k: nat :: k < end ==> !OccursAt(rest[1..], "\"", k)
    ensures 1 + end < |rest| && rest[1 + end] == '"' && '"' !in rest[1..1 + end]
  {
    var t := rest[1..];
    assert t[end..end + 1] == [t[end]];
    var name := rest[1..1 + end];
    forall k | 0 <= k < |name|
      ensures name[k] != '"'
    {
      assert !OccursAt(t, "\"", k);
      assert t[k..k + 1] == [t[k]];
    }
  }

  /** A marker whose first character occurs in it once cannot overlap itself. */
  lemma OneInitialUnbordered(pat: string)
    requires pat != "" && forall i :: 0 < i < |pat| ==> pat[i] != pat[0]
    ensures Unbordered(pat)
  {
    forall n | 0 < n < |pat|
      ensures pat[..|pat| - n] != pat[n..]
    {
      assert pat[..|pat| - n][0] == pat[0] && pat[n..][0] == pat[n];
    }
  }

  method IsCnpgWebhookUnavailable(msg: string) returns (r: bool)
    ensures r <==> NamesWebhook(Normalised(msg), "failed calling webhook ")
  {
    OneInitialUnbordered(CALL_FAILURE);
    ScanIsExact(CALL_FAILURE);
    r := NamesCnpgWebhook(msg, CALL_FAILURE);
  }

  method IsCnpgWebhookDenial(msg: string) returns (r: bool)
    ensures r <==> NamesWebhook(Normalised(msg), "admission webhook ")
  {
    OneInitialUnbordered(DENIAL);
    ScanIsExact(DENIAL);
    r := NamesCnpgWebhook(msg, DENIAL);
  }

  // ---- white space does not matter ----

  predicate AllSpace(s: string)
  {
    forall i :: 0 <= i < |s| ==> IsSpace(s[i])
  }

  /** A run of white space ends the word before it, whatever it is made of. */
  lemma {:induction false} SpaceEndsAWord(v: string, b: string, word: string)
    requires v != "" && AllSpace(v) && forall i :: 0 <= i < |word| ==> !IsSpace(word[i])
    ensures Fields(v + b, word) == Finish(word) + Fields(b, "")
    decreases |v|
  {
    assert (v + b)[0] == v[0] && (v + b)[1..] == v[1..] + b;
    if |v| == 1 {
      assert v[1..] + b == b;
    } else {
      SpaceEndsAWord(v[1..], b, "");
      assert Finish("") + Fields(b, "") == Fields(b, "");
    }
  }

  lemma {:induction false} SameFields(a: string, v: string, w: string, b: string, word: string)
    requires v != "" && w != "" && AllSpace(v) && AllSpace(w)
    requires forall i :: 0 <= i < |word| ==> !IsSpace(word[i])
    ensures Fields(a + v + b, word) == Fields(a + w + b, word)
    decreases |a|
  {
    if a == "" {
      assert a + v + b == v + b && a + w + b == w + b;
      SpaceEndsAWord(v, b, word);
      SpaceEndsAWord(w, b, word);
    } else {
      assert (a + v + b)[0] == a[0] == (a + w + b)[0];
      assert (a + v + b)[1..] == a[1..] + v + b && (a + w + b)[1..] == a[1..] + w + b;
      SameFields(a[1..], v, w, b, if IsSpace(a[0]) then "" else word + [a[0]]);
    }
  }

  /** Replacing a run of white space by any other, wherever it is, never changes the collapsed text or the verdict. */
  lemma WhiteSpaceDoesNotMatter(a: string, v: string, w: string, b: string, marker: string)
    requires v != "" && w != "" && AllSpace(v) && AllSpace(w)
    ensures Normalised(a + v + b) == Normalised(a + w + b)
    ensures NamesWebhook(Normalised(a + v + b), marker) <==> NamesWebhook(Normalised(a + w + b), marker)
  {
    SameFields(a, v, w, b, "");
  }

  /** White space at the edges is dropped. */
  lemma EdgesAreTrimmed(a: string, v: string)
    requires AllSpace(v)
    ensures Normalised(v + a) == Normalised(a) == Normalised(a + v)
  {
    if v == "" {
      assert v + a == a == a + v;
    } else {
      SpaceEndsAWord(v, a, "");
      assert Finish("") + Fields(a, "") == Fields(a, "");
      SpaceAtTheEnd(a, v, "");
    }
  }

  lemma {:induction false} SpaceAtTheEnd(a: string, v: string, word: string)
    requires v != "" && AllSpace(v) && forall i :: 0 <= i < |word| ==> !IsSpace(word[i])
    ensures Fields(a + v, word) == Fields(a, word)
    decreases |a|
  {
    if a == "" {
      assert a + v == v == v + "";
      SpaceEndsAWord(v, "", word);
    } else {
      assert (a + v)[0] == a[0] && (a + v)[1..] == a[1..] + v;
      SpaceAtTheEnd(a[1..], v, if IsSpace(a[0]) then "" else word + [a[0]]);
    }
  }

  /** Words with one space between each two: no other white space, none at the edges, no two together. */
  ghost predicate Tidy(s: string)
  {
    && (forall i :: 0 <= i < |s| && IsSpace(s[i]) ==> s[i] == ' ')
    && (s != "" ==> s[0] != ' ' && s[|s| - 1] != ' ')
    && (forall i :: 0 < i < |s| && s[i] == ' ' ==> s[i - 1] != ' ')
  }

  /** The words of a text that is tidy from here on, joined again, are the text. */
  lemma {:induction false} TidyWords(s: string, word: string)
    requires Tidy(word + s) && forall i :: 0 <= i < |word| ==> !IsSpace(word[i])
    ensures Text.Join(Fields(s, word), ' ') == word + s
    decreases |s|
  {
    if s == "" {
      assert word + s == word;
    } else if IsSpace(s[0]) {
      TidyAtABlank(s, word);
      TidyWords(s[1..], "");
      assert "" + s[1..] == s[1..];
      JoinAfterWord(word, Fields(s[1..], ""), s);
    } else {
      assert word + [s[0]] + s[1..] == word + s;
      TidyWords(s[1..], word + [s[0]]);
    }
  }

  lemma TidyAtABlank(s: string, word: string)
    requires Tidy(word + s) && s != "" && IsSpace(s[0])
    ensures word != "" && s[0] == ' ' && s[1..] != "" && Tidy("" + s[1..])
  {
    var t, n := word + s, |word|;
    assert t[n] == s[0];
    assert t[|t| - 1] == s[|s| - 1];
    var rest := "" + s[1..];
    assert forall k :: 0 <= k < |rest| ==> rest[k] == t[n + 1 + k];
  }

  lemma JoinAfterWord(word: string, words: seq<string>, s: string)
    requires word != "" && s != "" && s[0] == ' ' && s[1..] != "" && Text.Join(words, ' ') == s[1..]
    ensures Text.Join([word] + words, ' ') == word + s
  {
    assert words != [];
    assert ([word] + words)[1..] == words;
    assert s == [' '] + s[1..];
    assert word + [' '] + s[1..] == word + s;
  }

  /** A tidy text is left as it is. */
  lemma TidyIsKept(s: string)
    requires Tidy(s)
    ensures Normalised(s) == s
  {
    assert "" + s == s;
    TidyWords(s, "");
  }

  lemma {:induction false} JoinIsTidy(words: seq<string>)
    requires forall w :: w in words ==> w != "" && forall i :: 0 <= i < |w| ==> !IsSpace(w[i])
    ensures Tidy(Text.Join(words, ' ')) && (words != [] ==> Text.Join(words, ' ') != "")
    decreases |words|
  {
    if |words| == 1 {
      assert words[0] in words;
    } else if words != [] {
      assert words[0] in words;
      JoinIsTidy(words[1..]);
      TidyAfterWord(words[0], Text.Join(words[1..], ' '));
    }
  }

  lemma TidyAfterWord(w: string, rest: string)
    requires w != "" && (forall i :: 0 <= i < |w| ==> !IsSpace(w[i])) && Tidy(rest) && rest != ""
    ensures Tidy(w + [' '] + rest)
  {
    var s := w + [' '] + rest;
    assert forall i :: 0 <= i < |w| ==> s[i] == w[i];
    assert forall i :: 0 <= i < |rest| ==> s[|w| + 1 + i] == rest[i];
    forall i | 0 < i < |s| && s[i] == ' '
      ensures s[i - 1] != ' '
    {
      if i > |w| {
        assert s[i] == rest[i - |w| - 1];
      }
    }
  }

  /** The collapsed text is tidy, and only a tidy text is its own: collapsing is idempotent. */
  lemma CollapsedIsTidy(msg: string)
    ensures Tidy(Normalised(msg)) && Normalised(Normalised(msg)) == Normalised(msg)
    ensures Normalised(msg) == msg <==> Tidy(msg)
  {
    JoinIsTidy(Fields(msg, ""));
    TidyIsKept(Normalised(msg));
    if Tidy(msg) {
      TidyIsKept(msg);
    }
  }
}
