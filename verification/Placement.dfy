/**
 Database placement: the parser behind --database-node-selector and
 --database-toleration, the canonical strings it stores, and the readers of what it
 stored. Argv, the install record and the cluster apply's outputs all go through the
 one parser, so its output must be a true canonical form.
 */
module Placement {
  import opened Wrappers
  import opened Sequences
  import opened StringOrder
  import Text

  datatype Error =
    | NotKeyValue | BadKey | BadValue | TwoValues | BadEffect | ReservedTaint | EmptyValue
    | TolerationsAlone | EqualWithoutValue | MissingOutput

  datatype Result<+T> = Ok(value: T) | Err(error: Error)

  /** A toleration's operator; the cluster's outputs may carry any text. */
  datatype Operator = Exists | Equal | Other(text: string)

  datatype Toleration = Toleration(key: string, operator: Operator, value: string, effect: string)

  /** Canonical strings, so that two placements are equal exactly when they place the same. */
  datatype DatabasePlacement = DatabasePlacement(nodeSelector: string, tolerations: string)

  const RESERVED_TAINTS := "node.kubernetes.io/"

  // ---- Kubernetes' names ----

  predicate Lower(c: char)
  {
    'a' <= c <= 'z' || '0' <= c <= '9'
  }

  predicate Alnum(c: char)
  {
    Lower(c) || 'A' <= c <= 'Z'
  }

  /** ([A-Za-z0-9][-A-Za-z0-9_.]*)?[A-Za-z0-9], at most 63 characters. */
  predicate NamePart(s: string)
  {
    && 1 <= |s| <= 63 && Alnum(s[0]) && Alnum(s[|s| - 1])
    && forall i :: 0 <= i < |s| ==> Alnum(s[i]) || s[i] == '-' || s[i] == '_' || s[i] == '.'
  }

  predicate DnsLabel(s: string)
  {
    s != "" && Lower(s[0]) && Lower(s[|s| - 1]) && forall i :: 0 <= i < |s| ==> Lower(s[i]) || s[i] == '-'
  }

  predicate Subdomain(s: string)
  {
    |s| <= 253 && forall i :: 0 <= i < |Text.Split(s, '.')| ==> DnsLabel(Text.Split(s, '.')[i])
  }

  predicate QualifiedName(s: string)
  {
    var parts := Text.Split(s, '/');
    (|parts| == 1 && NamePart(parts[0])) || (|parts| == 2 && Subdomain(parts[0]) && NamePart(parts[1]))
  }

  predicate LabelValue(s: string)
  {
    s == "" || NamePart(s)
  }

  /** None of the characters the flags use between names occurs in a name. */
  predicate Clean(s: string)
  {
    ',' !in s && '=' !in s && ':' !in s
  }

  lemma NamesAreClean(s: string)
    requires QualifiedName(s)
    ensures Clean(s) && s != ""
  {
    var parts := Text.Split(s, '/');
    Text.JoinOfSplit(s, '/');
    if |parts| == 2 {
      SubdomainClean(parts[0]);
    }
    Text.JoinFree(parts, '/', ',');
    Text.JoinFree(parts, '/', '=');
    Text.JoinFree(parts, '/', ':');
  }

  lemma SubdomainClean(s: string)
    requires Subdomain(s)
    ensures Clean(s)
  {
    Text.JoinOfSplit(s, '.');
    Text.JoinFree(Text.Split(s, '.'), '.', ',');
    Text.JoinFree(Text.Split(s, '.'), '.', '=');
    Text.JoinFree(Text.Split(s, '.'), '.', ':');
  }

  // ---- one entry of each flag ----

  /** strings.Cut at the first '=': the part before it. */
  function Key(s: string): string
  {
    s[..Text.IndexOf(s, '=')]
  }

  /** And the part after it. */
  function Value(s: string): string
  {
    var i := Text.IndexOf(s, '=');
    if i == |s| then "" else s[i + 1..]
  }

  predicate HasValue(s: string)
  {
    Text.IndexOf(s, '=') < |s|
  }

  lemma CutPair(k: string, v: string)
    requires '=' !in k
    ensures Key(k + "=" + v) == k && Value(k + "=" + v) == v && HasValue(k + "=" + v)
  {
    var s := k + "=" + v;
    assert s[|k|] == '=' && forall i :: 0 <= i < |k| ==> s[i] == k[i];
    Text.IndexIsFirst(s, '=', |k|);
  }

  lemma PairOfCut(s: string)
    requires HasValue(s)
    ensures s == Key(s) + "=" + Value(s)
  {
  }

  /** A selector entry the parser takes. */
  predicate ValidSelector(s: string)
  {
    HasValue(s) && QualifiedName(Key(s)) && LabelValue(Value(s))
  }

  /** The position of the last `c`, or -1. */
  function LastIndex(s: string, c: char): (i: int)
    ensures -1 <= i < |s|
    ensures i >= 0 ==> s[i] == c
    ensures forall k :: i < k < |s| ==> s[k] != c
  {
    if s == "" then -1 else if s[|s| - 1] == c then |s| - 1 else LastIndex(s[..|s| - 1], c)
  }

  predicate ValidEffect(e: string)
  {
    e == "NoSchedule" || e == "PreferNoSchedule" || e == "NoExecute"
  }

  /** The entry split at its last ':': what is before it, and the effect after it. */
  function SplitEffect(s: string): (string, Option<string>)
  {
    var i := LastIndex(s, ':');
    if i >= 0 then (s[..i], Some(s[i + 1..])) else (s, None)
  }

  /** The key and value of an entry whose effect has been read. */
  function ParseBody(rest: string, effect: string): Result<Toleration>
  {
    if !QualifiedName(Key(rest)) then Err(BadKey)
    else if RESERVED_TAINTS <= Key(rest) then Err(ReservedTaint)
    else if !HasValue(rest) then Ok(Toleration(Key(rest), Exists, "", effect))
    else if Value(rest) == "" then Err(EmptyValue)
    else if !LabelValue(Value(rest)) then Err(BadValue)
    else Ok(Toleration(Key(rest), Equal, Value(rest), effect))
  }

  function ParseToleration(s: string): Result<Toleration>
  {
    var (rest, effect) := SplitEffect(s);
    if effect.Some? && !ValidEffect(effect.value) then Err(BadEffect)
    else ParseBody(rest, if effect.Some? then effect.value else "")
  }

  /** The part of a toleration before its effect. */
  function Body(t: Toleration): string
  {
    if t.operator.Equal? then t.key + "=" + t.value else t.key
  }

  /** The entry as the flag spells it. */
  function Canonical(t: Toleration): string
  {
    if t.effect != "" then Body(t) + ":" + t.effect else Body(t)
  }

  /** Key and value as the parser can produce them. */
  predicate BodyOk(t: Toleration)
  {
    && QualifiedName(t.key) && !(RESERVED_TAINTS <= t.key)
    && ((t.operator.Exists? && t.value == "") || (t.operator.Equal? && NamePart(t.value)))
  }

  predicate Wellformed(t: Toleration)
  {
    BodyOk(t) && (t.effect == "" || ValidEffect(t.effect))
  }

  lemma BodyOfParse(rest: string, effect: string)
    requires ParseBody(rest, effect).Ok?
    ensures var t := ParseBody(rest, effect).value;
            Body(t) == rest && t.effect == effect && BodyOk(t)
  {
    if HasValue(rest) {
      PairOfCut(rest);
    } else {
      assert Key(rest) == rest;
    }
  }

  lemma SplitEffectJoins(s: string)
    ensures var (rest, effect) := SplitEffect(s);
            s == if effect.Some? then rest + ":" + effect.value else rest
  {
  }

  /** The canonical spelling of what an entry parses to is that entry. */
  lemma CanonicalOfParse(s: string)
    requires ParseToleration(s).Ok?
    ensures Canonical(ParseToleration(s).value) == s && Wellformed(ParseToleration(s).value)
  {
    var (rest, effect) := SplitEffect(s);
    SplitEffectJoins(s);
    var e := if effect.Some? then effect.value else "";
    assert ParseToleration(s) == ParseBody(rest, e);
    BodyOfParse(rest, e);
    RestoreEffect(s, rest, effect, ParseBody(rest, e).value);
  }

  lemma RestoreEffect(s: string, rest: string, effect: Option<string>, t: Toleration)
    requires s == if effect.Some? then rest + ":" + effect.value else rest
    requires effect.Some? ==> ValidEffect(effect.value)
    requires Body(t) == rest && t.effect == if effect.Some? then effect.value else ""
    ensures Canonical(t) == s
  {
  }

  lemma ParseOfBody(t: Toleration)
    requires BodyOk(t)
    ensures ParseBody(Body(t), t.effect) == Ok(t)
  {
    NamesAreClean(t.key);
    if t.operator.Equal? {
      CutPair(t.key, t.value);
    } else {
      Text.IndexAbsent(t.key, '=');
      assert Key(t.key) == t.key;
    }
  }

  lemma BodyIsClean(t: Toleration)
    requires BodyOk(t)
    ensures ':' !in Body(t) && ',' !in Body(t) && Body(t) != ""
  {
    NamesAreClean(t.key);
  }

  lemma EffectAfterLast(b: string, e: string)
    requires ':' !in e
    ensures SplitEffect(b + ":" + e) == (b, Some(e))
  {
    var s := b + ":" + e;
    assert s[|b|] == ':';
    assert forall k :: |b| < k < |s| ==> s[k] == e[k - |b| - 1];
    assert LastIndex(s, ':') == |b|;
    assert s[..|b|] == b && s[|b| + 1..] == e;
  }

  lemma NoEffectToSplit(b: string)
    requires ':' !in b
    ensures SplitEffect(b) == (b, None)
  {
  }

  lemma EffectIsClean(e: string)
    requires ValidEffect(e)
    ensures ':' !in e && ',' !in e
  {
  }

  /** And the canonical spelling of a toleration parses to it. */
  lemma ParseOfCanonical(t: Toleration)
    requires Wellformed(t)
    ensures ParseToleration(Canonical(t)) == Ok(t)
  {
    BodyIsClean(t);
    ParseOfBody(t);
    if t.effect == "" {
      NoEffectToSplit(Body(t));
    } else {
      EffectIsClean(t.effect);
      EffectAfterLast(Body(t), t.effect);
    }
  }

  lemma CanonicalIsClean(t: Toleration)
    requires Wellformed(t)
    ensures ',' !in Canonical(t) && Canonical(t) != ""
  {
    BodyIsClean(t);
    if t.effect != "" {
      EffectIsClean(t.effect);
    }
  }

  // ---- what is accepted, spelled out ----

  /** The characters of Kubernetes' patterns by their numbers: [a-z0-9] and [A-Za-z0-9]. */
  lemma CharactersExactly(c: char)
    ensures Lower(c) <==> 97 <= c as int <= 122 || 48 <= c as int <= 57
    ensures Alnum(c) <==> 97 <= c as int <= 122 || 48 <= c as int <= 57 || 65 <= c as int <= 90
  {
  }

  /** [-A-Za-z0-9_.]* */
  ghost predicate NameMiddle(s: string)
  {
    forall i :: 0 <= i < |s| ==> Alnum(s[i]) || s[i] as int == 45 || s[i] as int == 46 || s[i] as int == 95
  }

  /** ([A-Za-z0-9][-A-Za-z0-9_.]*)?[A-Za-z0-9] of fewer than 64 characters, as the pattern reads. */
  lemma NamePartExactly(s: string)
    ensures NamePart(s) <==>
            && |s| < 64
            && ((|s| == 1 && Alnum(s[0]))
                || exists a, middle, b :: s == [a] + middle + [b] && Alnum(a) && NameMiddle(middle) && Alnum(b))
  {
    if NamePart(s) && |s| > 1 {
      var middle := s[1..|s| - 1];
      assert s == [s[0]] + middle + [s[|s| - 1]];
      assert NameMiddle(middle);
    }
    if a, middle, b :| s == [a] + middle + [b] && Alnum(a) && NameMiddle(middle) && Alnum(b) {
      assert forall i :: 0 < i < |s| - 1 ==> s[i] == middle[i - 1];
    }
  }

  /** [-a-z0-9]* */
  ghost predicate LabelMiddle(s: string)
  {
    forall i :: 0 <= i < |s| ==> Lower(s[i]) || s[i] as int == 45
  }

  /** [a-z0-9]([-a-z0-9]*[a-z0-9])? */
  lemma DnsLabelExactly(s: string)
    ensures DnsLabel(s) <==>
            || (|s| == 1 && Lower(s[0]))
            || exists a, middle, b :: s == [a] + middle + [b] && Lower(a) && LabelMiddle(middle) && Lower(b)
  {
    if DnsLabel(s) && |s| > 1 {
      var middle := s[1..|s| - 1];
      assert s == [s[0]] + middle + [s[|s| - 1]];
      assert LabelMiddle(middle);
    }
    if a, middle, b :| s == [a] + middle + [b] && Lower(a) && LabelMiddle(middle) && Lower(b) {
      assert forall i :: 0 < i < |s| - 1 ==> s[i] == middle[i - 1];
    }
  }

  /** Labels with dots between, of fewer than 254 characters in all. */
  lemma SubdomainExactly(s: string)
    ensures Subdomain(s) <==>
            && |s| < 254
            && exists labels: seq<string> :: labels != [] && s == Text.Join(labels, '.')
                                             && forall i :: 0 <= i < |labels| ==> DnsLabel(labels[i])
  {
    if Subdomain(s) {
      Text.JoinOfSplit(s, '.');
    }
    if labels: seq<string> :| labels != [] && s == Text.Join(labels, '.')
                              && forall i :: 0 <= i < |labels| ==> DnsLabel(labels[i]) {
      forall i | 0 <= i < |labels|
        ensures '.' !in labels[i]
      {
        NoDotInALabel(labels[i]);
      }
      Text.SplitOfJoin(labels, '.');
    }
  }

  lemma NoDotInALabel(s: string)
    requires DnsLabel(s)
    ensures '.' !in s
  {
  }

  lemma SlashlessSubdomain(s: string)
    requires Subdomain(s)
    ensures '/' !in s
  {
    Text.JoinOfSplit(s, '.');
    Text.JoinFree(Text.Split(s, '.'), '.', '/');
  }

  /** A name, or a DNS subdomain and a name. */
  lemma QualifiedNameExactly(s: string)
    ensures QualifiedName(s) <==>
            NamePart(s) || exists prefix, name :: s == prefix + "/" + name && Subdomain(prefix) && NamePart(name)
  {
    Text.JoinOfSplit(s, '/');
    var parts := Text.Split(s, '/');
    if NamePart(s) {
      SplitAtNothing(s, '/');
    }
    if prefix, name :| s == prefix + "/" + name && Subdomain(prefix) && NamePart(name) {
      SlashlessSubdomain(prefix);
      SplitAtOne(prefix, name);
    }
    if |parts| == 2 {
      assert parts[1..] == [parts[1]];
      assert s == parts[0] + "/" + parts[1];
    }
  }

  lemma SplitAtNothing(s: string, c: char)
    requires c !in s
    ensures Text.Split(s, c) == [s]
  {
    Text.IndexAbsent(s, c);
  }

  lemma SplitAtOne(prefix: string, name: string)
    requires '/' !in prefix && '/' !in name
    ensures Text.Split(prefix + "/" + name, '/') == [prefix, name]
  {
    var parts := [prefix, name];
    assert parts[1..] == [name];
    Text.SplitOfJoin(parts, '/');
    assert Text.Join(parts, '/') == prefix + "/" + name;
  }

  /** A selector is a label's key, an equals sign and a label's value, which may be empty. */
  lemma SelectorExactly(s: string)
    ensures ValidSelector(s) <==> exists key, value :: s == key + "=" + value && QualifiedName(key) && LabelValue(value)
  {
    if ValidSelector(s) {
      PairOfCut(s);
    }
    if key, value :| s == key + "=" + value && QualifiedName(key) && LabelValue(value) {
      NamesAreClean(key);
      CutPair(key, value);
    }
  }

  /**
   A toleration is read from exactly one spelling: its key, not one of Kubernetes' own
   taints; with a value exactly when it compares values; and its effect, when it has one of
   the three.
   */
  lemma TolerationExactly(s: string, t: Toleration)
    ensures ParseToleration(s) == Ok(t) <==>
            && QualifiedName(t.key) && !("node.kubernetes.io/" <= t.key)
            && ((t.operator == Exists && t.value == "") || (t.operator == Equal && NamePart(t.value)))
            && (t.effect == "" || t.effect == "NoSchedule" || t.effect == "PreferNoSchedule" || t.effect == "NoExecute")
            && s == (if t.operator == Equal then t.key + "=" + t.value else t.key)
                    + (if t.effect == "" then "" else ":" + t.effect)
  {
    if ParseToleration(s) == Ok(t) {
      CanonicalOfParse(s);
      CanonicalSpelled(t);
    }
    if Wellformed(t) {
      CanonicalSpelled(t);
      ParseOfCanonical(t);
    }
  }

  lemma CanonicalSpelled(t: Toleration)
    ensures Canonical(t) == (if t.operator == Equal then t.key + "=" + t.value else t.key)
                            + (if t.effect == "" then "" else ":" + t.effect)
  {
    var body := if t.operator == Equal then t.key + "=" + t.value else t.key;
    assert body + "" == body && body + ":" + t.effect == body + (":" + t.effect);
  }

  /** What follows the last ':' is the effect, and must be one of the three. */
  lemma EffectIsRead(body: string, effect: string)
    requires ':' !in effect
    ensures ParseToleration(body + ":" + effect) ==
            if effect == "NoSchedule" || effect == "PreferNoSchedule" || effect == "NoExecute"
            then ParseBody(body, effect) else Err(BadEffect)
    ensures ':' !in body ==> ParseToleration(body) == ParseBody(body, "")
  {
    EffectAfterLast(body, effect);
    if ':' !in body {
      NoEffectToSplit(body);
    }
  }

  /** What is wrong with the rest, in the order it is looked for. */
  lemma BodyIsRead(key: string, value: string, effect: string)
    requires '=' !in key
    ensures var reserved := "node.kubernetes.io/" <= key;
            && (!QualifiedName(key) ==>
                  ParseBody(key, effect) == Err(BadKey) == ParseBody(key + "=" + value, effect))
            && (QualifiedName(key) && reserved ==>
                  ParseBody(key, effect) == Err(ReservedTaint) == ParseBody(key + "=" + value, effect))
            && (QualifiedName(key) && !reserved ==>
                  && ParseBody(key, effect) == Ok(Toleration(key, Exists, "", effect))
                  && ParseBody(key + "=" + value, effect) ==
                       if value == "" then Err(EmptyValue)
                       else if NamePart(value) then Ok(Toleration(key, Equal, value, effect))
                       else Err(BadValue))
  {
    CutPair(key, value);
    Text.IndexAbsent(key, '=');
    assert Key(key) == key && !HasValue(key);
  }

  // ---- the placement as a function of the set of entries ----

  /** A set of selector entries no node is asked to contradict. */
  ghost predicate SelectorsOk(S: set<string>)
  {
    && (forall s :: s in S ==> ValidSelector(s))
    && (forall s, t :: s in S && t in S && Key(s) == Key(t) ==> s == t)
  }

  ghost predicate TolerationsOk(T: set<string>)
  {
    forall t :: t in T ==> ParseToleration(t).Ok?
  }

  /** What the parser accepts. */
  ghost predicate Placeable(S: set<string>, T: set<string>)
  {
    SelectorsOk(S) && TolerationsOk(T) && (T != {} ==> S != {})
  }

  function Keys(pairs: seq<string>): (ks: seq<string>)
    ensures |ks| == |pairs| && forall i :: 0 <= i < |pairs| ==> ks[i] == Key(pairs[i])
  {
    seq(|pairs|, i requires 0 <= i < |pairs| => Key(pairs[i]))
  }

  /** The selector list of a set of entries: each once, in order of its key. */
  ghost predicate SelectorList(pairs: seq<string>, S: set<string>)
  {
    Elements(pairs) == S && Increasing(Keys(pairs))
  }

  ghost predicate TolerationList(tols: seq<string>, T: set<string>)
  {
    Elements(tols) == T && Increasing(tols)
  }

  /** `p` is the canonical form of these entries. */
  ghost predicate CanonicalFor(p: DatabasePlacement, S: set<string>, T: set<string>)
  {
    exists pairs, tols ::
      && SelectorList(pairs, S) && TolerationList(tols, T)
      && p == DatabasePlacement(Text.Join(pairs, ','), Text.Join(tols, ','))
  }

  /** The parser takes these entries to `p`. */
  ghost predicate ParsesTo(S: set<string>, T: set<string>, p: DatabasePlacement)
  {
    Placeable(S, T) && CanonicalFor(p, S, T)
  }

  lemma SelectorListUnique(xs: seq<string>, ys: seq<string>, S: set<string>)
    requires SelectorsOk(S) && SelectorList(xs, S) && SelectorList(ys, S)
    ensures xs == ys
  {
    var ks, ms := Keys(xs), Keys(ys);
    forall k
      ensures k in ks <==> k in ms
    {
      if k in ks {
        SameKey(xs, ys, S, k);
      }
      if k in ms {
        SameKey(ys, xs, S, k);
      }
    }
    assert Elements(ks) == Elements(ms);
    IncreasingUnique(ks, ms);
    forall i | 0 <= i < |xs|
      ensures xs[i] == ys[i]
    {
      assert xs[i] in Elements(xs) && ys[i] in Elements(ys);
      assert Key(xs[i]) == ks[i] == ms[i] == Key(ys[i]);
    }
  }

  lemma SameKey(xs: seq<string>, ys: seq<string>, S: set<string>, k: string)
    requires Elements(xs) == S && Elements(ys) == S && k in Keys(xs)
    ensures k in Keys(ys)
  {
    var i :| 0 <= i < |xs| && Keys(xs)[i] == k;
    assert xs[i] in S;
    var j :| 0 <= j < |ys| && ys[j] == xs[i];
    assert Keys(ys)[j] == k;
  }

  /**
   The canonical form depends on nothing but which entries were given: not on their
   order, and not on how often each was repeated.
   */
  lemma CanonicalFormIsUnique(S: set<string>, T: set<string>, p: DatabasePlacement, q: DatabasePlacement)
    requires ParsesTo(S, T, p) && ParsesTo(S, T, q)
    ensures p == q
  {
    var xs, ts :| SelectorList(xs, S) && TolerationList(ts, T)
                  && p == DatabasePlacement(Text.Join(xs, ','), Text.Join(ts, ','));
    var ys, us :| SelectorList(ys, S) && TolerationList(us, T)
                  && q == DatabasePlacement(Text.Join(ys, ','), Text.Join(us, ','));
    SelectorListUnique(xs, ys, S);
    IncreasingUnique(ts, us);
  }

  /** The keys are in the order of their characters, and the pairs are separated by commas. */
  lemma CanonicalExample(p: DatabasePlacement)
    requires ParsesTo({"b=1", "a=2"}, {}, p)
    ensures p == DatabasePlacement("a=2,b=1", "")
  {
    var S := {"b=1", "a=2"};
    var xs, ts :| SelectorList(xs, S) && TolerationList(ts, {})
                  && p == DatabasePlacement(Text.Join(xs, ','), Text.Join(ts, ','));
    NonEmptyElements(ts);
    ExampleList(S);
    SelectorListUnique(xs, ["a=2", "b=1"], S);
    ExampleJoin();
  }

  lemma ExampleJoin()
    ensures Text.Join(["a=2", "b=1"], ',') == "a=2,b=1"
  {
    var xs := ["a=2", "b=1"];
    assert xs[1..] == ["b=1"];
    assert Text.Join(xs[1..], ',') == "b=1";
  }

  lemma ExampleKeys()
    ensures Key("a=2") == "a" && Key("b=1") == "b" && Less("a", "b")
  {
    CutPair("a", "2");
    CutPair("b", "1");
    assert "a" + "=" + "2" == "a=2" && "b" + "=" + "1" == "b=1";
    LessExactly("a", "b");
    assert "a"[..0] == "b"[..0] && "a"[0] < "b"[0];
  }

  lemma ExampleList(S: set<string>)
    requires S == {"b=1", "a=2"}
    ensures SelectorList(["a=2", "b=1"], S)
  {
    var xs := ["a=2", "b=1"];
    ExampleKeys();
    assert Keys(xs)[0] == "a" && Keys(xs)[1] == "b";
    forall x
      ensures x in xs <==> x in S
    {
      assert x in xs <==> x == xs[0] || x == xs[1];
    }
  }

  // ---- splitting the canonical form again ----

  /** splitPlacementList: "" is no entries, not one empty one. */
  function SplitList(s: string): seq<string>
  {
    if s == "" then [] else Text.Split(s, ',')
  }

  lemma SplitListOfJoin(xs: seq<string>)
    requires forall i :: 0 <= i < |xs| ==> ',' !in xs[i] && xs[i] != ""
    ensures SplitList(Text.Join(xs, ',')) == xs
  {
    if xs != [] {
      Text.SplitOfJoin(xs, ',');
      assert xs[0] != "";
      assert Text.Join(xs, ',') != "";
    }
  }

  lemma SelectorEntryClean(s: string)
    requires ValidSelector(s)
    ensures ',' !in s && s != ""
  {
    NamesAreClean(Key(s));
    PairOfCut(s);
  }

  lemma TolerationEntryClean(t: string)
    requires ParseToleration(t).Ok?
    ensures ',' !in t && t != ""
  {
    CanonicalOfParse(t);
    CanonicalIsClean(ParseToleration(t).value);
  }

  /** The lists a placement splits back into are the lists it was joined from. */
  lemma SplitsBack(S: set<string>, T: set<string>, p: DatabasePlacement)
    requires ParsesTo(S, T, p)
    ensures SelectorList(SplitList(p.nodeSelector), S) && TolerationList(SplitList(p.tolerations), T)
  {
    var xs, ts :| SelectorList(xs, S) && TolerationList(ts, T)
                  && p == DatabasePlacement(Text.Join(xs, ','), Text.Join(ts, ','));
    forall i | 0 <= i < |xs|
      ensures ',' !in xs[i] && xs[i] != ""
    {
      assert xs[i] in Elements(xs);
      SelectorEntryClean(xs[i]);
    }
    forall i | 0 <= i < |ts|
      ensures ',' !in ts[i] && ts[i] != ""
    {
      assert ts[i] in Elements(ts);
      TolerationEntryClean(ts[i]);
    }
    SplitListOfJoin(xs);
    SplitListOfJoin(ts);
  }

  /** Parsing a recorded placement gives it back: the parser's own output is a fixed point. */
  lemma RecordedFormIsFixed(S: set<string>, T: set<string>, p: DatabasePlacement)
    requires ParsesTo(S, T, p)
    ensures ParsesTo(Elements(SplitList(p.nodeSelector)), Elements(SplitList(p.tolerations)), p)
  {
    SplitsBack(S, T, p);
  }

  /** Two placements compare equal exactly when they were given the same entries. */
  lemma EqualExactlyWhenSameEntries(S: set<string>, T: set<string>, p: DatabasePlacement,
                                    S': set<string>, T': set<string>, q: DatabasePlacement)
    requires ParsesTo(S, T, p) && ParsesTo(S', T', q)
    ensures p == q <==> S == S' && T == T'
  {
    SplitsBack(S, T, p);
    SplitsBack(S', T', q);
    if S == S' && T == T' {
      CanonicalFormIsUnique(S, T, p, q);
    }
  }

  // ---- the parser ----

  /** The labels gathered from the entries, each entry giving its key its value. */
  ghost predicate Gathered(labels: map<string, string>, xs: seq<string>)
  {
    && (forall s :: s in xs ==> HasValue(s) && Key(s) in labels && labels[Key(s)] == Value(s))
    && (forall k :: k in labels ==> exists s :: s in xs && Key(s) == k)
  }

  lemma NothingGathered(labels: map<string, string>, xs: seq<string>)
    requires Gathered(labels, xs)
    ensures labels == map[] <==> Elements(xs) == {}
  {
    NonEmptyElements(xs);
    if labels != map[] {
      var k :| k in labels;
    }
    assert forall s :: s in xs ==> Key(s) in labels;
  }

  lemma GatherOne(labels: map<string, string>, xs: seq<string>, s: string)
    requires Gathered(labels, xs) && HasValue(s)
    requires Key(s) in labels ==> labels[Key(s)] == Value(s)
    ensures Gathered(labels[Key(s) := Value(s)], xs + [s])
  {
    var m := labels[Key(s) := Value(s)];
    forall t | t in xs + [s]
      ensures HasValue(t) && Key(t) in m && m[Key(t)] == Value(t)
    {
      assert t == s || t in xs;
    }
    forall k | k in m
      ensures exists t :: t in xs + [s] && Key(t) == k
    {
      KeyStaysGathered(labels, xs, s, k);
    }
  }

  lemma KeyStaysGathered(labels: map<string, string>, xs: seq<string>, s: string, k: string)
    requires Gathered(labels, xs) && (k in labels || k == Key(s))
    ensures exists t :: t in xs + [s] && Key(t) == k
  {
    if k == Key(s) {
      assert s in xs + [s];
    } else {
      var t :| t in xs && Key(t) == k;
      assert t in xs + [s];
    }
  }

  lemma EntryFor(labels: map<string, string>, xs: seq<string>, k: string) returns (s: string)
    requires Gathered(labels, xs) && k in labels
    ensures s in xs && Key(s) == k && s == k + "=" + labels[k]
  {
    s :| s in xs && Key(s) == k;
    PairOfCut(s);
  }

  /** What is wrong with an entry by itself. */
  ghost function EntryFault(s: string): Option<Error>
  {
    if !HasValue(s) then Some(NotKeyValue)
    else if !QualifiedName(Key(s)) then Some(BadKey)
    else if !LabelValue(Value(s)) then Some(BadValue)
    else None
  }

  /** What is wrong with an entry, given those before it. */
  ghost function SelectorFault(xs: seq<string>, i: nat): Option<Error>
    requires i < |xs|
  {
    if EntryFault(xs[i]).Some? then EntryFault(xs[i])
    else if exists j :: 0 <= j < i && Contradict(xs[j], xs[i]) then Some(TwoValues)
    else None
  }

  ghost predicate Contradict(s: string, t: string)
  {
    Key(s) == Key(t) && Value(s) != Value(t)
  }

  /** The first entry with a fault has this one. */
  ghost predicate FirstSelectorFault(xs: seq<string>, e: Error)
  {
    exists i :: 0 <= i < |xs| && SelectorFault(xs, i) == Some(e) && forall k :: 0 <= k < i ==> SelectorFault(xs, k) == None
  }

  ghost predicate FirstTolerationFault(xs: seq<string>, e: Error)
  {
    exists i :: 0 <= i < |xs| && ParseToleration(xs[i]) == Err(e) && forall k :: 0 <= k < i ==> ParseToleration(xs[k]).Ok?
  }

  ghost predicate AllValid(xs: seq<string>)
  {
    forall s :: s in xs ==> ValidSelector(s)
  }

  /** Entries that were gathered do not contradict each other. */
  lemma GatheredAgree(labels: map<string, string>, xs: seq<string>, s: string, t: string)
    requires Gathered(labels, xs) && s in xs && t in xs
    ensures !Contradict(s, t)
  {
  }

  lemma GatheredOk(labels: map<string, string>, xs: seq<string>)
    requires Gathered(labels, xs) && AllValid(xs)
    ensures SelectorsOk(Elements(xs))
  {
    forall s, t | s in Elements(xs) && t in Elements(xs) && Key(s) == Key(t)
      ensures s == t
    {
      GatheredAgree(labels, xs, s, t);
      PairOfCut(s);
      PairOfCut(t);
    }
  }

  /** No entry gathered so far has a fault. */
  lemma GatheredFaultless(labels: map<string, string>, xs: seq<string>, n: nat, k: nat)
    requires k < n <= |xs| && Gathered(labels, xs[..n]) && AllValid(xs[..n])
    ensures SelectorFault(xs, k) == None
  {
    assert xs[..n][k] == xs[k] && xs[k] in xs[..n];
    forall j | 0 <= j < k
      ensures !Contradict(xs[j], xs[k])
    {
      assert xs[..n][j] == xs[j] && xs[j] in xs[..n];
      GatheredAgree(labels, xs[..n], xs[j], xs[k]);
    }
  }

  lemma FoundContradiction(labels: map<string, string>, xs: seq<string>, i: nat) returns (j: nat)
    requires i < |xs| && Gathered(labels, xs[..i])
    requires Key(xs[i]) in labels && labels[Key(xs[i])] != Value(xs[i])
    ensures j < i && Contradict(xs[j], xs[i])
  {
    var s := EntryFor(labels, xs[..i], Key(xs[i]));
    j :| 0 <= j < i && xs[..i][j] == s;
  }

  /** The first entry that could not be gathered is the first with a fault, and a reason to refuse them all. */
  lemma FaultRefuses(labels: map<string, string>, xs: seq<string>, i: nat, e: Error)
    requires i < |xs| && Gathered(labels, xs[..i]) && AllValid(xs[..i]) && SelectorFault(xs, i) == Some(e)
    ensures FirstSelectorFault(xs, e) && !SelectorsOk(Elements(xs))
  {
    forall k | 0 <= k < i
      ensures SelectorFault(xs, k) == None
    {
      GatheredFaultless(labels, xs, i, k);
    }
    FaultIsReason(xs, i);
  }

  lemma FaultIsReason(xs: seq<string>, i: nat)
    requires i < |xs| && SelectorFault(xs, i) != None
    ensures !SelectorsOk(Elements(xs))
  {
    assert xs[i] in Elements(xs);
    if ValidSelector(xs[i]) {
      var j :| 0 <= j < i && Contradict(xs[j], xs[i]);
      assert xs[j] in Elements(xs);
    }
  }

  lemma ConflictRefuses(labels: map<string, string>, xs: seq<string>, i: nat)
    requires i < |xs| && Gathered(labels, xs[..i]) && AllValid(xs[..i]) && ValidSelector(xs[i])
    requires Key(xs[i]) in labels && labels[Key(xs[i])] != Value(xs[i])
    ensures FirstSelectorFault(xs, TwoValues) && !SelectorsOk(Elements(xs))
  {
    var j := FoundContradiction(labels, xs, i);
    FaultRefuses(labels, xs, i, TwoValues);
  }

  lemma GatherNext(labels: map<string, string>, xs: seq<string>, i: nat)
    requires i < |xs| && Gathered(labels, xs[..i]) && HasValue(xs[i])
    requires Key(xs[i]) in labels ==> labels[Key(xs[i])] == Value(xs[i])
    ensures Gathered(labels[Key(xs[i]) := Value(xs[i])], xs[..i + 1])
  {
    GatherOne(labels, xs[..i], xs[i]);
    assert xs[..i + 1] == xs[..i] + [xs[i]];
  }

  lemma AllValidNext(xs: seq<string>, i: nat)
    requires i < |xs| && AllValid(xs[..i]) && ValidSelector(xs[i])
    ensures AllValid(xs[..i + 1])
  {
    assert xs[..i + 1] == xs[..i] + [xs[i]];
    assert forall s :: s in xs[..i + 1] ==> s in xs[..i] || s == xs[i];
  }

  /** An entry is checked by itself. */
  method CheckEntry(s: string) returns (fault: Option<Error>)
    ensures fault == EntryFault(s)
    ensures fault == None <==> ValidSelector(s)
    ensures fault == Some(NotKeyValue) <==> '=' !in s
    ensures fault == Some(BadKey) <==> '=' in s && !QualifiedName(Key(s))
    ensures fault == Some(BadValue) <==> '=' in s && QualifiedName(Key(s)) && !LabelValue(Value(s))
  {
    Text.IndexAbsent(s, '=');
    if !HasValue(s) {
      return Some(NotKeyValue);
    }
    if !QualifiedName(Key(s)) {
      return Some(BadKey);
    }
    if !LabelValue(Value(s)) {
      return Some(BadValue);
    }
    return None;
  }

  /** The labels of the selector entries, or what is wrong with the first that is refused. */
  method GatherLabels(selectors: seq<string>) returns (r: Result<map<string, string>>)
    ensures r.Ok? <==> SelectorsOk(Elements(selectors))
    ensures r.Ok? ==> Gathered(r.value, selectors)
    ensures r.Err? ==> FirstSelectorFault(selectors, r.error)
  {
    var labels: map<string, string> := map[];
    for i := 0 to |selectors|
      invariant Gathered(labels, selectors[..i]) && AllValid(selectors[..i])
    {
      var s := selectors[i];
      var fault := CheckEntry(s);
      if fault.Some? {
        FaultRefuses(labels, selectors, i, fault.value);
        return Err(fault.value);
      }
      if Key(s) in labels && labels[Key(s)] != Value(s) {
        ConflictRefuses(labels, selectors, i);
        return Err(TwoValues);
      }
      GatherNext(labels, selectors, i);
      AllValidNext(selectors, i);
      labels := labels[Key(s) := Value(s)];
    }
    assert selectors[..|selectors|] == selectors;
    GatheredOk(labels, selectors);
    return Ok(labels);
  }

  lemma FirstUnread(xs: seq<string>, i: nat, e: Error)
    requires i < |xs| && TolerationsOk(Elements(xs[..i])) && ParseToleration(xs[i]) == Err(e)
    ensures FirstTolerationFault(xs, e) && !TolerationsOk(Elements(xs))
  {
    assert xs[i] in Elements(xs);
    forall k | 0 <= k < i
      ensures ParseToleration(xs[k]).Ok?
    {
      assert xs[..i][k] == xs[k];
      assert xs[k] in Elements(xs[..i]);
    }
  }

  lemma OneMoreRead(xs: seq<string>, i: nat)
    requires i < |xs| && TolerationsOk(Elements(xs[..i])) && ParseToleration(xs[i]).Ok?
    ensures TolerationsOk(Elements(xs[..i + 1])) && Elements(xs[..i + 1]) == Elements(xs[..i]) + {xs[i]}
    ensures Canonical(ParseToleration(xs[i]).value) == xs[i]
  {
    assert xs[..i + 1] == xs[..i] + [xs[i]];
    AppendElement(xs[..i], xs[i]);
    CanonicalOfParse(xs[i]);
  }

  /** The canonical toleration entries, each once, in the order first met. */
  method GatherTolerations(tolerations: seq<string>) returns (r: Result<seq<string>>)
    ensures r.Ok? <==> TolerationsOk(Elements(tolerations))
    ensures r.Ok? ==> Distinct(r.value) && Elements(r.value) == Elements(tolerations)
    ensures r.Err? ==> FirstTolerationFault(tolerations, r.error)
  {
    var seen: set<string> := {};
    var tols: seq<string> := [];
    for i := 0 to |tolerations|
      invariant TolerationsOk(Elements(tolerations[..i]))
      invariant seen == Elements(tols) == Elements(tolerations[..i]) && Distinct(tols)
    {
      var t := ParseToleration(tolerations[i]);
      if t.Err? {
        FirstUnread(tolerations, i, t.error);
        return Err(t.error);
      }
      var c := Canonical(t.value);
      OneMoreRead(tolerations, i);
      if c !in seen {
        AppendElement(tols, c);
        AppendDistinct(tols, c);
        seen := seen + {c};
        tols := tols + [c];
      }
    }
    assert tolerations[..|tolerations|] == tolerations;
    return Ok(tols);
  }

  /** The label keys in whatever order the map gives them. */
  method KeysOf(labels: map<string, string>) returns (keys: seq<string>)
    ensures Distinct(keys) && Elements(keys) == labels.Keys
  {
    keys := [];
    var rest := labels.Keys;
    while rest != {}
      invariant rest !! Elements(keys) && rest + Elements(keys) == labels.Keys && Distinct(keys)
      decreases |rest|
    {
      var k :| k in rest;
      AppendElement(keys, k);
      AppendDistinct(keys, k);
      keys := keys + [k];
      rest := rest - {k};
    }
  }

  /** The "key=value" pairs of these keys, in their order. */
  method PairsOfKeys(keys: seq<string>, labels: map<string, string>) returns (pairs: seq<string>)
    requires Elements(keys) == labels.Keys
    ensures |pairs| == |keys|
    ensures forall i :: 0 <= i < |keys| ==> keys[i] in labels && pairs[i] == keys[i] + "=" + labels[keys[i]]
  {
    pairs := [];
    for i := 0 to |keys|
      invariant |pairs| == i
      invariant forall j :: 0 <= j < i ==> keys[j] in labels && pairs[j] == keys[j] + "=" + labels[keys[j]]
    {
      assert keys[i] in Elements(keys);
      pairs := pairs + [keys[i] + "=" + labels[keys[i]]];
    }
  }

  /** The pairs of the sorted keys are the selector list of the entries they came from. */
  lemma PairsAreTheList(keys: seq<string>, labels: map<string, string>, pairs: seq<string>, xs: seq<string>)
    requires Gathered(labels, xs) && Elements(keys) == labels.Keys && Increasing(keys) && |pairs| == |keys|
    requires forall i :: 0 <= i < |keys| ==> keys[i] in labels && pairs[i] == keys[i] + "=" + labels[keys[i]]
    ensures SelectorList(pairs, Elements(xs))
  {
    forall i | 0 <= i < |keys|
      ensures Keys(pairs)[i] == keys[i] && pairs[i] in xs
    {
      var s := EntryFor(labels, xs, keys[i]);
    }
    assert Keys(pairs) == keys;
    forall s | s in xs
      ensures s in pairs
    {
      PairOfCut(s);
      assert Key(s) in Elements(keys);
      var i :| 0 <= i < |keys| && keys[i] == Key(s);
      assert pairs[i] == s;
    }
    assert Elements(pairs) == Elements(xs);
  }

  /** Which error is reported: the first fault of a selector, then of a toleration, then tolerations alone. */
  ghost predicate Reported(selectors: seq<string>, tolerations: seq<string>, e: Error)
  {
    if !SelectorsOk(Elements(selectors)) then FirstSelectorFault(selectors, e)
    else if !TolerationsOk(Elements(tolerations)) then FirstTolerationFault(tolerations, e)
    else e == TolerationsAlone
  }

  /**
   The parser: it takes exactly the entries that can place a database, and gives their
   canonical form, or the first thing wrong with them.
   */
  method ParseDatabasePlacement(selectors: seq<string>, tolerations: seq<string>)
    returns (r: Result<DatabasePlacement>)
    ensures r.Ok? <==> Placeable(Elements(selectors), Elements(tolerations))
    ensures r.Ok? ==> ParsesTo(Elements(selectors), Elements(tolerations), r.value)
    ensures r.Err? ==> Reported(selectors, tolerations, r.error)
  {
    var gathered := GatherLabels(selectors);
    if gathered.Err? {
      return Err(gathered.error);
    }
    var labels := gathered.value;
    NothingGathered(labels, selectors);
    var read := GatherTolerations(tolerations);
    if read.Err? {
      return Err(read.error);
    }
    var tols := read.value;
    NonEmptyElements(tols);
    if |tols| > 0 && labels == map[] {
      return Err(TolerationsAlone);
    }
    var keys := KeysOf(labels);
    SortSorts(keys);
    keys := Sort(keys);
    var pairs := PairsOfKeys(keys, labels);
    PairsAreTheList(keys, labels, pairs, selectors);
    SortSorts(tols);
    tols := Sort(tols);
    assert TolerationList(tols, Elements(tolerations));
    return Ok(DatabasePlacement(Text.Join(pairs, ','), Text.Join(tols, ',')));
  }

  /** A placement some entries parse to. */
  ghost predicate Parsed(p: DatabasePlacement)
  {
    exists S, T :: ParsesTo(S, T, p)
  }

  /** How the install record is checked: its placement is split and parsed again. */
  method Reparse(p: DatabasePlacement) returns (r: Result<DatabasePlacement>)
    ensures Parsed(p) <==> r == Ok(p)
  {
    r := ParseDatabasePlacement(SplitList(p.nodeSelector), SplitList(p.tolerations));
    var sels, tols := SplitList(p.nodeSelector), SplitList(p.tolerations);
    if Parsed(p) {
      ghost var S, T :| ParsesTo(S, T, p);
      RecordedFormIsFixed(S, T, p);
      CanonicalFormIsUnique(Elements(sels), Elements(tols), p, r.value);
    }
  }

  // ---- what the cluster apply is told, and what it reports ----

  /** The labels of a pair list; a later pair for a key wins. */
  function LabelsOf(pairs: seq<string>): map<string, string>
  {
    if pairs == [] then map[]
    else LabelsOf(pairs[..|pairs| - 1])[Key(pairs[|pairs| - 1]) := Value(pairs[|pairs| - 1])]
  }

  /** One entry read back; nothing is left of one that does not parse. */
  function ReadEntry(s: string): Toleration
  {
    var r := ParseToleration(s);
    if r.Ok? then r.value else Toleration("", Other(""), "", "")
  }

  method NodeSelector(p: DatabasePlacement) returns (m: map<string, string>)
    ensures m == LabelsOf(SplitList(p.nodeSelector))
  {
    m := map[];
    var pairs := SplitList(p.nodeSelector);
    for i := 0 to |pairs|
      invariant m == LabelsOf(pairs[..i])
    {
      assert pairs[..i + 1][..i] == pairs[..i];
      m := m[Key(pairs[i]) := Value(pairs[i])];
    }
    assert pairs[..|pairs|] == pairs;
  }

  method Tolerations(p: DatabasePlacement) returns (out: seq<Toleration>)
    ensures |out| == |SplitList(p.tolerations)|
    ensures forall i :: 0 <= i < |out| ==> out[i] == ReadEntry(SplitList(p.tolerations)[i])
  {
    out := [];
    var entries := SplitList(p.tolerations);
    for i := 0 to |entries|
      invariant |out| == i && forall j :: 0 <= j < i ==> out[j] == ReadEntry(entries[j])
    {
      out := out + [ReadEntry(entries[i])];
    }
  }

  /** The entries a reported label map stands for. */
  ghost function PairSet(sel: map<string, string>): set<string>
  {
    set k | k in sel :: k + "=" + sel[k]
  }

  ghost function CanonicalSet(tols: seq<Toleration>): set<string>
  {
    set t | t in tols :: Canonical(t)
  }

  predicate EmptyEqual(t: Toleration)
  {
    t.operator.Equal? && t.value == ""
  }

  /** A placement read from the cluster apply's outputs. A missing output is an error. */
  method PlacementFromOutputs(sel: Option<map<string, string>>, tols: Option<seq<Toleration>>)
    returns (r: Result<DatabasePlacement>)
    ensures sel.None? || tols.None? ==> r == Err(MissingOutput)
    ensures sel.Some? && tols.Some? && (exists t :: t in tols.value && EmptyEqual(t))
            ==> r == Err(EqualWithoutValue)
    ensures sel.Some? && tols.Some? && (forall t :: t in tols.value ==> !EmptyEqual(t))
            ==> && (r.Ok? <==> Placeable(PairSet(sel.value), CanonicalSet(tols.value)))
                && (r.Ok? ==> ParsesTo(PairSet(sel.value), CanonicalSet(tols.value), r.value))
  {
    if sel.None? || tols.None? {
      return Err(MissingOutput);
    }
    var keys := KeysOf(sel.value);
    var selectors := PairsOfKeys(keys, sel.value);
    PairSetOf(keys, sel.value, selectors);
    var entries: seq<string> := [];
    for i := 0 to |tols.value|
      invariant |entries| == i
      invariant forall j :: 0 <= j < i ==> !EmptyEqual(tols.value[j]) && entries[j] == Canonical(tols.value[j])
    {
      var t := tols.value[i];
      if EmptyEqual(t) {
        return Err(EqualWithoutValue);
      }
      entries := entries + [Canonical(t)];
    }
    CanonicalSetOf(tols.value, entries);
    r := ParseDatabasePlacement(selectors, entries);
  }

  lemma PairSetOf(keys: seq<string>, sel: map<string, string>, pairs: seq<string>)
    requires Elements(keys) == sel.Keys && |pairs| == |keys|
    requires forall i :: 0 <= i < |keys| ==> keys[i] in sel && pairs[i] == keys[i] + "=" + sel[keys[i]]
    ensures Elements(pairs) == PairSet(sel)
  {
    forall s | s in PairSet(sel)
      ensures s in pairs
    {
      var k :| k in sel && s == k + "=" + sel[k];
      assert k in Elements(keys);
      var i :| 0 <= i < |keys| && keys[i] == k;
      assert pairs[i] == s;
    }
  }

  lemma CanonicalSetOf(tols: seq<Toleration>, entries: seq<string>)
    requires |entries| == |tols| && forall i :: 0 <= i < |tols| ==> entries[i] == Canonical(tols[i])
    ensures Elements(entries) == CanonicalSet(tols)
  {
    forall s | s in CanonicalSet(tols)
      ensures s in entries
    {
      var t :| t in tols && s == Canonical(t);
      var i :| 0 <= i < |tols| && tols[i] == t;
      assert entries[i] == s;
    }
  }

  lemma {:induction false} LabelsAre(pairs: seq<string>)
    requires forall i :: 0 <= i < |pairs| ==> HasValue(pairs[i])
    requires Increasing(Keys(pairs))
    ensures LabelsOf(pairs).Keys == Elements(Keys(pairs)) && PairSet(LabelsOf(pairs)) == Elements(pairs)
    decreases |pairs|
  {
    if pairs != [] {
      var n := |pairs| - 1;
      var front, last := pairs[..n], pairs[n];
      assert Keys(pairs) == Keys(front) + [Key(last)];
      LabelsAre(front);
      assert Key(last) !in Keys(front) by {
        forall i | 0 <= i < n
          ensures Keys(front)[i] != Key(last)
        {
          assert Less(Keys(pairs)[i], Keys(pairs)[n]);
          LessIrreflexive(Key(last));
        }
      }
      assert Key(last) !in Elements(Keys(front));
      PairOfCut(last);
      AddPair(LabelsOf(front), Key(last), Value(last));
      assert Elements(pairs) == Elements(front) + {last};
      assert Elements(Keys(pairs)) == Elements(Keys(front)) + {Key(last)};
    }
  }

  lemma AddPair(m: map<string, string>, k: string, v: string)
    requires k !in m
    ensures PairSet(m[k := v]) == PairSet(m) + {k + "=" + v}
  {
    var m' := m[k := v];
    forall s | s in PairSet(m) + {k + "=" + v}
      ensures s in PairSet(m')
    {
      if s in PairSet(m) {
        var j :| j in m && s == j + "=" + m[j];
        assert j in m' && m'[j] == m[j];
      } else {
        assert k in m' && m'[k] == v;
      }
    }
  }

  lemma ReadBackTolerations(T: set<string>, entries: seq<string>, tols: seq<Toleration>)
    requires TolerationsOk(T) && Elements(entries) == T && |tols| == |entries|
    requires forall i :: 0 <= i < |tols| ==> tols[i] == ReadEntry(entries[i])
    ensures CanonicalSet(tols) == T && forall t :: t in tols ==> !EmptyEqual(t)
  {
    forall i | 0 <= i < |tols|
      ensures entries[i] == Canonical(tols[i]) && !EmptyEqual(tols[i])
    {
      assert entries[i] in Elements(entries);
      CanonicalOfParse(entries[i]);
    }
    CanonicalSetOf(tols, entries);
  }

  /**
   What the cluster apply is told, read back from its outputs, is the placement it was
   told, for every placement the parser can produce.
   */
  method ApplyAndReadBack(p: DatabasePlacement) returns (r: Result<DatabasePlacement>)
    requires Parsed(p)
    ensures r == Ok(p)
  {
    var sel := NodeSelector(p);
    var tols := Tolerations(p);
    r := PlacementFromOutputs(Some(sel), Some(tols));
    ghost var S, T :| ParsesTo(S, T, p);
    SplitsBack(S, T, p);
    var pairs := SplitList(p.nodeSelector);
    forall i | 0 <= i < |pairs|
      ensures HasValue(pairs[i])
    {
      assert pairs[i] in Elements(pairs);
    }
    LabelsAre(pairs);
    ReadBackTolerations(T, SplitList(p.tolerations), tols);
    CanonicalFormIsUnique(S, T, p, r.value);
  }
}
