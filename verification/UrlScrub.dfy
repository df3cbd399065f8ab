/**
 The URL scrubber of the documentation site's analytics: parameters with a sensitive
 name are removed from the query, and from a fragment that holds parameters, before an
 address is reported. Every result holds for any set of sensitive names and for any
 function that decodes and lower-cases a name.
 */
module UrlScrub {
  import Text

  /** What is sensitive: the names, and how a pair's name is decoded before it is looked up. */
  datatype Rules = Rules(name: string -> string, sensitive: set<string>)

  /** The site's own list: what was searched for, and secrets. */
  const SENSITIVE_PARAMS: set<string> := {
    "q", "_highlight", "token", "access_token", "refresh_token", "id_token", "api_key", "apikey", "key",
    "client_secret", "secret", "password", "passwd", "pwd", "auth", "code", "signature", "sig"
  }

  // ---- the parts of a URL (sections 3.4 and 3.5 of RFC 3986) ----

  /** Everything before the first `c`. */
  function UpTo(s: string, c: char): string
  {
    s[..Text.IndexOf(s, c)]
  }

  /** Everything after the first `c`; nothing when there is none. */
  function After(s: string, c: char): string
  {
    var i := Text.IndexOf(s, c);
    if i == |s| then "" else s[i + 1..]
  }

  function Path(url: string): string
  {
    UpTo(UpTo(url, '#'), '?')
  }

  function Query(url: string): string
  {
    After(UpTo(url, '#'), '?')
  }

  function Fragment(url: string): string
  {
    After(url, '#')
  }

  /** The parameters of a query or of a fragment that holds some. */
  function Pairs(s: string): seq<string>
  {
    if s == "" then [] else Text.Split(s, '&')
  }

  /** A fragment with no '=' is a heading's anchor, not parameters. */
  predicate HoldsParameters(fragment: string)
  {
    '=' in fragment
  }

  // ---- the scrubber ----

  predicate Sensitive(rules: Rules, pair: string)
  {
    rules.name(UpTo(pair, '=')) in rules.sensitive
  }

  /** The pairs that are not sensitive, in their order. */
  function Harmless(rules: Rules, pairs: seq<string>): seq<string>
  {
    if pairs == [] then []
    else (if Sensitive(rules, pairs[0]) then [] else [pairs[0]]) + Harmless(rules, pairs[1..])
  }

  function ScrubPairs(rules: Rules, s: string): string
  {
    if s == "" then s else Text.Join(Harmless(rules, Text.Split(s, '&')), '&')
  }

  function Optional(mark: char, s: string): string
  {
    if s == "" then "" else [mark] + s
  }

  function ScrubUrl(rules: Rules, url: string): string
  {
    if '?' !in url && '#' !in url then url
    else
      var hashAt := Text.IndexOf(url, '#');
      var head := url[..hashAt];
      var frag := if hashAt == |url| then "" else url[hashAt + 1..];
      var qAt := Text.IndexOf(head, '?');
      var path := head[..qAt];
      var query := if qAt == |head| then "" else ScrubPairs(rules, head[qAt + 1..]);
      var fragment := if '=' in frag then ScrubPairs(rules, frag) else frag;
      path + Optional('?', query) + Optional('#', fragment)
  }

  // ---- filtering ----

  ghost predicate NoneSensitive(rules: Rules, pairs: seq<string>)
  {
    forall i :: 0 <= i < |pairs| ==> !Sensitive(rules, pairs[i])
  }

  ghost predicate FreeOf(c: char, parts: seq<string>)
  {
    forall i :: 0 <= i < |parts| ==> c !in parts[i]
  }

  lemma {:induction false} HarmlessKeeps(rules: Rules, pairs: seq<string>)
    ensures NoneSensitive(rules, Harmless(rules, pairs))
    ensures NoneSensitive(rules, pairs) <==> Harmless(rules, pairs) == pairs
    ensures |Harmless(rules, pairs)| <= |pairs|
    decreases |pairs|
  {
    if pairs != [] {
      HarmlessKeeps(rules, pairs[1..]);
      assert pairs == [pairs[0]] + pairs[1..];
      assert Harmless(rules, pairs[1..]) == Harmless(rules, pairs)[if Sensitive(rules, pairs[0]) then 0 else 1..];
    }
  }

  /** Every harmless pair is kept as often as it was there, and no sensitive one is. */
  lemma {:induction false} HarmlessCounts(rules: Rules, pairs: seq<string>, p: string)
    ensures multiset(Harmless(rules, pairs))[p] == if Sensitive(rules, p) then 0 else multiset(pairs)[p]
    decreases |pairs|
  {
    if pairs != [] {
      HarmlessCounts(rules, pairs[1..], p);
      assert pairs == [pairs[0]] + pairs[1..];
    }
  }

  /** And in its place: what is kept of two runs of pairs is what is kept of each, in turn. */
  lemma {:induction false} HarmlessInOrder(rules: Rules, a: seq<string>, b: seq<string>)
    ensures Harmless(rules, a + b) == Harmless(rules, a) + Harmless(rules, b)
    decreases |a|
  {
    if a == [] {
      assert a + b == b;
    } else {
      HarmlessInOrder(rules, a[1..], b);
      assert (a + b)[1..] == a[1..] + b;
    }
  }

  /** `kept` holds every pair that is not sensitive as often as `pairs`, and no other. */
  ghost predicate KeptCounts(rules: Rules, kept: seq<string>, pairs: seq<string>)
  {
    forall p :: multiset(kept)[p] == if Sensitive(rules, p) then 0 else multiset(pairs)[p]
  }

  /** `kept` is exactly the pairs that are not sensitive, each as often as it was there, in their order. */
  ghost predicate KeptInOrder(rules: Rules, kept: seq<string>, pairs: seq<string>)
  {
    KeptCounts(rules, kept, pairs) && exists places: seq<nat> :: Places(places, kept, pairs)
  }

  /** Where in `pairs` each of `kept` stands, from left to right. */
  ghost predicate Places(places: seq<nat>, kept: seq<string>, pairs: seq<string>)
  {
    && |places| == |kept|
    && (forall i :: 0 <= i < |kept| ==> places[i] < |pairs| && pairs[places[i]] == kept[i])
    && (forall i, j :: 0 <= i < j < |kept| ==> places[i] < places[j])
  }

  lemma {:induction false} HarmlessPlaces(rules: Rules, pairs: seq<string>) returns (places: seq<nat>)
    ensures Places(places, Harmless(rules, pairs), pairs)
    decreases |pairs|
  {
    if pairs == [] {
      places := [];
    } else {
      var n := |pairs| - 1;
      var front := pairs[..n];
      var before := HarmlessPlaces(rules, front);
      assert pairs == front + [pairs[n]];
      HarmlessInOrder(rules, front, [pairs[n]]);
      assert [pairs[n]][1..] == [];
      assert Harmless(rules, [pairs[n]]) == if Sensitive(rules, pairs[n]) then [] else [pairs[n]];
      places := before + if Sensitive(rules, pairs[n]) then [] else [n];
    }
  }

  lemma HarmlessKeptInOrder(rules: Rules, pairs: seq<string>)
    ensures KeptInOrder(rules, Harmless(rules, pairs), pairs)
  {
    assert KeptCounts(rules, Harmless(rules, pairs), pairs) by {
      forall p
        ensures multiset(Harmless(rules, pairs))[p] == if Sensitive(rules, p) then 0 else multiset(pairs)[p]
      {
        HarmlessCounts(rules, pairs, p);
      }
    }
    var places := HarmlessPlaces(rules, pairs);
  }

  lemma HarmlessAppend(rules: Rules, front: seq<string>, last: string)
    ensures Harmless(rules, front + [last]) == Harmless(rules, front) + if Sensitive(rules, last) then [] else [last]
  {
    HarmlessInOrder(rules, front, [last]);
    assert [last][1..] == [];
  }

  /** A list of pairs has one such part. */
  lemma {:induction false} KeptInOrderIsOne(rules: Rules, kept: seq<string>, pairs: seq<string>)
    requires KeptInOrder(rules, kept, pairs)
    ensures kept == Harmless(rules, pairs)
    decreases |pairs|
  {
    var places :| Places(places, kept, pairs);
    PlacesFit(places, kept, pairs);
    if pairs != [] {
      var n := |pairs| - 1;
      assert pairs == pairs[..n] + [pairs[n]];
      HarmlessAppend(rules, pairs[..n], pairs[n]);
      if Sensitive(rules, pairs[n]) {
        LastIsDropped(rules, kept, pairs, places);
        KeptInOrderIsOne(rules, kept, pairs[..n]);
      } else {
        LastIsKept(rules, kept, pairs, places);
        KeptInOrderIsOne(rules, kept[..|kept| - 1], pairs[..n]);
      }
    }
  }

  lemma {:induction false} PlacesFit(places: seq<nat>, kept: seq<string>, pairs: seq<string>)
    requires Places(places, kept, pairs)
    ensures |kept| <= |pairs|
    decreases |kept|
  {
    if kept != [] {
      var m := |kept| - 1;
      assert Places(places[..m], kept[..m], pairs[..places[m]]);
      PlacesFit(places[..m], kept[..m], pairs[..places[m]]);
    }
  }

  lemma LastIsDropped(rules: Rules, kept: seq<string>, pairs: seq<string>, places: seq<nat>)
    requires pairs != [] && Sensitive(rules, pairs[|pairs| - 1])
    requires KeptCounts(rules, kept, pairs) && Places(places, kept, pairs)
    ensures KeptInOrder(rules, kept, pairs[..|pairs| - 1])
  {
    var n := |pairs| - 1;
    assert pairs == pairs[..n] + [pairs[n]];
    forall i | 0 <= i < |kept|
      ensures places[i] < n
    {
      assert kept[i] in multiset(kept);
    }
    assert Places(places, kept, pairs[..n]);
  }

  lemma LastIsKept(rules: Rules, kept: seq<string>, pairs: seq<string>, places: seq<nat>)
    requires pairs != [] && !Sensitive(rules, pairs[|pairs| - 1])
    requires KeptCounts(rules, kept, pairs) && Places(places, kept, pairs)
    ensures kept != [] && kept == kept[..|kept| - 1] + [pairs[|pairs| - 1]]
    ensures KeptInOrder(rules, kept[..|kept| - 1], pairs[..|pairs| - 1])
  {
    var n, m := |pairs| - 1, |kept| - 1;
    AllPlacesTaken(rules, kept, pairs, places, n);
    assert kept == kept[..m] + [pairs[n]];
    assert pairs == pairs[..n] + [pairs[n]];
    CountsWithoutLast(rules, kept[..m], pairs[..n], pairs[n]);
    assert Places(places[..m], kept[..m], pairs[..n]);
  }

  lemma CountsWithoutLast(rules: Rules, kept: seq<string>, pairs: seq<string>, last: string)
    requires !Sensitive(rules, last) && KeptCounts(rules, kept + [last], pairs + [last])
    ensures KeptCounts(rules, kept, pairs)
  {
    forall p
      ensures multiset(kept)[p] == if Sensitive(rules, p) then 0 else multiset(pairs)[p]
    {
      assert multiset(kept + [last])[p] == multiset(kept)[p] + if p == last then 1 else 0;
      assert multiset(pairs + [last])[p] == multiset(pairs)[p] + if p == last then 1 else 0;
    }
  }

  /** The last pair, being harmless, has the last place: without it one occurrence would be missing. */
  lemma AllPlacesTaken(rules: Rules, kept: seq<string>, pairs: seq<string>, places: seq<nat>, n: nat)
    requires n + 1 == |pairs| && !Sensitive(rules, pairs[n])
    requires KeptCounts(rules, kept, pairs) && Places(places, kept, pairs)
    ensures kept != [] && places[|kept| - 1] == n
  {
    assert pairs == pairs[..n] + [pairs[n]];
    assert multiset(kept)[pairs[n]] == multiset(pairs)[pairs[n]] == multiset(pairs[..n])[pairs[n]] + 1;
    if forall i :: 0 <= i < |places| ==> places[i] < n {
      assert Places(places, kept, pairs[..n]);
      FewerPlaces(places, kept, pairs[..n], pairs[n]);
    }
  }

  /** A part of a list holds nothing more often than the list. */
  lemma {:induction false} FewerPlaces(places: seq<nat>, kept: seq<string>, pairs: seq<string>, p: string)
    requires Places(places, kept, pairs)
    ensures multiset(kept)[p] <= multiset(pairs)[p]
    decreases |kept|
  {
    if kept != [] {
      var m := |kept| - 1;
      var at := places[m];
      assert kept == kept[..m] + [kept[m]];
      assert pairs == pairs[..at] + [pairs[at]] + pairs[at + 1..];
      assert Places(places[..m], kept[..m], pairs[..at]);
      FewerPlaces(places[..m], kept[..m], pairs[..at], p);
    }
  }

  lemma {:induction false} HarmlessFree(rules: Rules, pairs: seq<string>, c: char)
    requires FreeOf(c, pairs)
    ensures FreeOf(c, Harmless(rules, pairs))
    decreases |pairs|
  {
    if pairs != [] {
      HarmlessFree(rules, pairs[1..], c);
    }
  }

  // ---- scrubbed parameters ----

  /** Scrubbing leaves nothing but one empty pair, which the address cannot show. */
  ghost predicate OnlyEmptyLeft(rules: Rules, s: string)
  {
    Harmless(rules, Pairs(s)) == [""]
  }

  /** The scrubbed parameters read back as the harmless ones, in order. */
  lemma ScrubbedPairs(rules: Rules, s: string)
    ensures OnlyEmptyLeft(rules, s) ==> ScrubPairs(rules, s) == ""
    ensures !OnlyEmptyLeft(rules, s) ==> Pairs(ScrubPairs(rules, s)) == Harmless(rules, Pairs(s))
  {
    if s != "" {
      var kept := Harmless(rules, Text.Split(s, '&'));
      HarmlessFree(rules, Text.Split(s, '&'), '&');
      if kept != [] {
        Text.SplitOfJoin(kept, '&');
        assert Text.Split("", '&') == [""];
      }
    }
  }

  lemma ScrubbedIsHarmless(rules: Rules, s: string)
    ensures NoneSensitive(rules, Pairs(ScrubPairs(rules, s)))
  {
    ScrubbedPairs(rules, s);
    HarmlessKeeps(rules, Pairs(s));
  }

  /** Parameters are left as they are exactly when none is sensitive. */
  lemma UnchangedPairs(rules: Rules, s: string)
    ensures ScrubPairs(rules, s) == s <==> NoneSensitive(rules, Pairs(s))
  {
    HarmlessKeeps(rules, Pairs(s));
    ScrubbedPairs(rules, s);
    Text.JoinOfSplit(s, '&');
  }

  lemma ScrubbedFree(rules: Rules, s: string, c: char)
    requires c !in s && c != '&'
    ensures c !in ScrubPairs(rules, s)
  {
    if s != "" {
      Text.SplitFree(s, '&', c);
      HarmlessFree(rules, Text.Split(s, '&'), c);
      Text.JoinFree(Harmless(rules, Text.Split(s, '&')), '&', c);
    }
  }

  // ---- taking an address apart and putting it together ----

  function Assembled(path: string, query: string, fragment: string): string
  {
    path + Optional('?', query) + Optional('#', fragment)
  }

  lemma CutAt(a: string, b: string, c: char)
    requires c !in a
    ensures UpTo(a + Optional(c, b), c) == a && After(a + Optional(c, b), c) == b
  {
    var s := a + Optional(c, b);
    if b == "" {
      assert s == a;
      Text.IndexAbsent(s, c);
      assert s[..|s|] == a;
    } else {
      assert s == a + [c] + b;
      assert s[|a|] == c && forall k :: 0 <= k < |a| ==> s[k] == a[k];
      Text.IndexIsFirst(s, c, |a|);
      assert s[..|a|] == a && s[|a| + 1..] == b;
    }
  }

  lemma PartsOfAssembled(path: string, query: string, fragment: string)
    requires '?' !in path && '#' !in path && '#' !in query
    ensures var u := Assembled(path, query, fragment);
            Path(u) == path && Query(u) == query && Fragment(u) == fragment
  {
    var head := path + Optional('?', query);
    CutAt(head, fragment, '#');
    CutAt(path, query, '?');
  }

  lemma PartsAreSeparate(url: string)
    ensures '?' !in Path(url) && '#' !in Path(url) && '#' !in Query(url)
  {
    var head := UpTo(url, '#');
    assert '#' !in head;
  }

  /** The fragment as it is reported. */
  function ScrubFragment(rules: Rules, fragment: string): string
  {
    if HoldsParameters(fragment) then ScrubPairs(rules, fragment) else fragment
  }

  lemma ScrubIsAssembled(rules: Rules, url: string)
    ensures ScrubUrl(rules, url)
            == Assembled(Path(url), ScrubPairs(rules, Query(url)), ScrubFragment(rules, Fragment(url)))
  {
    if '?' !in url && '#' !in url {
      Text.IndexAbsent(url, '#');
      Text.IndexAbsent(url, '?');
      assert UpTo(url, '#') == url;
    }
  }

  // ---- the promises ----

  /**
   The parts of a scrubbed address: the path is the path, a plain anchor is kept, and the
   parameters are scrubbed.
   */
  lemma ScrubbedParts(rules: Rules, url: string)
    ensures Path(ScrubUrl(rules, url)) == Path(url)
    ensures Query(ScrubUrl(rules, url)) == ScrubPairs(rules, Query(url))
    ensures Fragment(ScrubUrl(rules, url)) == ScrubFragment(rules, Fragment(url))
  {
    ScrubIsAssembled(rules, url);
    PartsAreSeparate(url);
    ScrubbedFree(rules, Query(url), '#');
    PartsOfAssembled(Path(url), ScrubPairs(rules, Query(url)), ScrubFragment(rules, Fragment(url)));
  }

  /** Of these pairs, the one that is not sensitive is one empty pair. */
  ghost predicate OneEmptyKept(rules: Rules, pairs: seq<string>)
  {
    KeptInOrder(rules, [""], pairs)
  }

  /**
   The reported query holds exactly the pairs of the original that are not sensitive, each
   as often and in their order, unless all that is left is one empty pair; so does a
   fragment that holds parameters.
   */
  lemma KeepsExactlyTheHarmless(rules: Rules, url: string)
    ensures KeptInOrder(rules, Pairs(Query(ScrubUrl(rules, url))), Pairs(Query(url)))
            <==> !OneEmptyKept(rules, Pairs(Query(url)))
    ensures HoldsParameters(Fragment(url)) ==>
              (KeptInOrder(rules, Pairs(Fragment(ScrubUrl(rules, url))), Pairs(Fragment(url)))
               <==> !OneEmptyKept(rules, Pairs(Fragment(url))))
    ensures !HoldsParameters(Fragment(url)) ==> Fragment(ScrubUrl(rules, url)) == Fragment(url)
  {
    ScrubbedParts(rules, url);
    KeptExactly(rules, Query(url));
    KeptExactly(rules, Fragment(url));
  }

  lemma KeptExactly(rules: Rules, s: string)
    ensures KeptInOrder(rules, Pairs(ScrubPairs(rules, s)), Pairs(s)) <==> !OneEmptyKept(rules, Pairs(s))
  {
    ScrubbedPairs(rules, s);
    HarmlessKeptInOrder(rules, Pairs(s));
    if OneEmptyKept(rules, Pairs(s)) {
      KeptInOrderIsOne(rules, [""], Pairs(s));
      if KeptInOrder(rules, Pairs(ScrubPairs(rules, s)), Pairs(s)) {
        KeptInOrderIsOne(rules, Pairs(ScrubPairs(rules, s)), Pairs(s));
      }
    }
  }

  /** A pair is sensitive by what is before its first '=', or by all of it when it has none. */
  lemma SensitiveByName(rules: Rules, key: string, value: string)
    requires '=' !in key
    ensures Sensitive(rules, key + "=" + value) <==> rules.name(key) in rules.sensitive
    ensures Sensitive(rules, key) <==> rules.name(key) in rules.sensitive
  {
    var pair := key + "=" + value;
    assert pair[|key|] == '=' && forall k :: 0 <= k < |key| ==> pair[k] == key[k];
    Text.IndexIsFirst(pair, '=', |key|);
    assert pair[..|key|] == key;
    Text.IndexAbsent(key, '=');
    assert key[..|key|] == key;
  }

  /** Such an address: of the two pairs in "?token=1&" the empty one is harmless, and is dropped all the same. */
  lemma LoneEmptyPairIsDropped(name: string -> string)
    requires name("token") == "token" && name("") == ""
    ensures var rules := Rules(name, SENSITIVE_PARAMS);
            OnlyEmptyLeft(rules, "token=1&") && ScrubPairs(rules, "token=1&") == ""
  {
    var rules, pairs := Rules(name, SENSITIVE_PARAMS), ["token=1", ""];
    TokenPairs();
    TokenIsListed();
    assert UpTo("", '=') == "";
    HarmlessLast(rules, pairs[0], "");
    ScrubbedPairs(rules, "token=1&");
  }

  lemma HarmlessLast(rules: Rules, pair: string, last: string)
    requires Sensitive(rules, pair) && !Sensitive(rules, last)
    ensures Harmless(rules, [pair, last]) == [last]
  {
    assert [pair, last][1..] == [last] && [last][1..] == [];
    assert Harmless(rules, [last]) == [last] + Harmless(rules, []);
  }

  lemma TokenIsListed()
    ensures "token" in SENSITIVE_PARAMS && "" !in SENSITIVE_PARAMS
  {
  }

  lemma TokenPairs()
    ensures Text.Split("token=1&", '&') == ["token=1", ""] && UpTo("token=1", '=') == "token"
  {
    var pairs := ["token=1", ""];
    assert Text.Join(pairs[1..], '&') == "";
    assert Text.Join(pairs, '&') == "token=1&";
    Text.SplitOfJoin(pairs, '&');
    Text.IndexIsFirst("token=1", '=', 5);
  }

  /** An address as the scrubber leaves it. */
  ghost predicate Reportable(rules: Rules, url: string)
  {
    && NoneSensitive(rules, Pairs(Query(url)))
    && (HoldsParameters(Fragment(url)) ==> NoneSensitive(rules, Pairs(Fragment(url))))
  }

  /** No sensitive parameter is left anywhere the reported address is read for parameters. */
  lemma NothingSensitiveIsReported(rules: Rules, url: string)
    ensures Reportable(rules, ScrubUrl(rules, url))
  {
    ScrubbedParts(rules, url);
    ScrubbedIsHarmless(rules, Query(url));
    ScrubbedIsHarmless(rules, Fragment(url));
  }

  /** No mark is left with nothing after it. */
  ghost predicate NoEmptyPart(url: string)
  {
    && ('?' in UpTo(url, '#') ==> Query(url) != "")
    && ('#' in url ==> Fragment(url) != "")
  }

  lemma AssembledAgain(url: string)
    ensures NoEmptyPart(url) <==> Assembled(Path(url), Query(url), Fragment(url)) == url
  {
    var head := UpTo(url, '#');
    Text.IndexAbsent(url, '#');
    Text.IndexAbsent(head, '?');
    AssembledCut(url, '#');
    AssembledCut(head, '?');
    if Assembled(Path(url), Query(url), Fragment(url)) == url {
      var h := Path(url) + Optional('?', Query(url));
      PartsAreSeparate(url);
      CutAt(h, Fragment(url), '#');
      assert h == head;
    }
  }

  lemma AssembledCut(s: string, c: char)
    ensures (c in s ==> After(s, c) != "") <==> UpTo(s, c) + Optional(c, After(s, c)) == s
  {
    Text.IndexAbsent(s, c);
  }

  /** An address is reported unchanged exactly when there is nothing in it to remove. */
  lemma UnchangedExactlyWhenClean(rules: Rules, url: string)
    ensures ScrubUrl(rules, url) == url <==> Reportable(rules, url) && NoEmptyPart(url)
  {
    ScrubIsAssembled(rules, url);
    ScrubbedParts(rules, url);
    UnchangedPairs(rules, Query(url));
    UnchangedPairs(rules, Fragment(url));
    AssembledAgain(url);
  }

  lemma ScrubbedHasNoEmptyPart(rules: Rules, url: string)
    ensures NoEmptyPart(ScrubUrl(rules, url))
  {
    ScrubIsAssembled(rules, url);
    ScrubbedParts(rules, url);
    AssembledAgain(ScrubUrl(rules, url));
  }

  /** Scrubbing twice is scrubbing once, whatever the decoding does. */
  lemma ScrubIsIdempotent(rules: Rules, url: string)
    ensures ScrubUrl(rules, ScrubUrl(rules, url)) == ScrubUrl(rules, url)
  {
    NothingSensitiveIsReported(rules, url);
    ScrubbedHasNoEmptyPart(rules, url);
    UnchangedExactlyWhenClean(rules, ScrubUrl(rules, url));
  }

  /**
   On the site: whatever was typed into the search bar is not reported. No pair of the
   reported query, or of parameters in its fragment, is named q, _highlight or any other
   name on the list.
   */
  lemma SearchTermsAreHidden(name: string -> string, url: string, pair: string)
    requires var u := ScrubUrl(Rules(name, SENSITIVE_PARAMS), url);
             pair in Pairs(Query(u)) || (HoldsParameters(Fragment(u)) && pair in Pairs(Fragment(u)))
    ensures name(UpTo(pair, '=')) != "q" && name(UpTo(pair, '=')) != "_highlight"
    ensures name(UpTo(pair, '=')) !in SENSITIVE_PARAMS
  {
    var rules := Rules(name, SENSITIVE_PARAMS);
    NothingSensitiveIsReported(rules, url);
    assert !Sensitive(rules, pair);
  }

  /** The address of a search goes out without its query. */
  lemma SearchIsReportedBare(name: string -> string, path: string, typed: string)
    requires name("q") == "q" && '?' !in path && '#' !in path && '#' !in typed && '&' !in typed
    ensures ScrubUrl(Rules(name, SENSITIVE_PARAMS), path + "?q=" + typed) == path
  {
    var rules := Rules(name, SENSITIVE_PARAMS);
    var query := "q=" + typed;
    SearchIsAssembled(path, typed);
    NoHashInSearch(typed);
    PartsOfAssembled(path, query, "");
    ScrubIsAssembled(rules, Assembled(path, query, ""));
    SearchPairGoes(name, typed);
    assert Assembled(path, "", "") == path;
  }

  lemma SearchIsAssembled(path: string, typed: string)
    ensures path + "?q=" + typed == Assembled(path, "q=" + typed, "")
  {
    assert Optional('?', "q=" + typed) == "?q=" + typed;
    assert path + ("?q=" + typed) == path + "?q=" + typed;
  }

  lemma NoHashInSearch(typed: string)
    requires '#' !in typed
    ensures '#' !in "q=" + typed
  {
  }

  lemma SearchPairGoes(name: string -> string, typed: string)
    requires name("q") == "q" && '&' !in typed
    ensures ScrubPairs(Rules(name, SENSITIVE_PARAMS), "q=" + typed) == ""
  {
    var rules, pair := Rules(name, SENSITIVE_PARAMS), "q=" + typed;
    OnePair(pair);
    NameOfSearch(typed);
    assert Sensitive(rules, pair);
    assert Harmless(rules, [pair]) == Harmless(rules, [pair][1..]);
    assert [pair][1..] == [];
  }

  lemma NameOfSearch(typed: string)
    ensures UpTo("q=" + typed, '=') == "q"
  {
    var pair := "q=" + typed;
    assert pair[0] == 'q' && pair[1] == '=';
    Text.IndexIsFirst(pair, '=', 1);
    assert pair[..1] == "q";
  }

  lemma OnePair(s: string)
    requires '&' !in s
    ensures Text.Split(s, '&') == [s]
  {
    Text.IndexAbsent(s, '&');
  }
}
