/**
 * The canonical topic store: an insertion-ordered dictionary from canonical
 * topic name to its aliases and dates. Each candidate topic is matched,
 * ignoring case, against the names and aliases in store order; a hit adds
 * the candidate as an alias, a miss makes it a new canonical topic.
 */
module TopicDeduplicator {
  import opened Wrappers
  import opened Calendar
  import opened Text
  import opened OrderedDict
  import TopicDiscovery

  datatype TopicInfo = TopicInfo(aliases: seq<string>, createdOn: Date, lastUpdated: Date)

  type TopicStore = Dict<TopicInfo>

  /** The entry a newly created topic gets. */
  function Fresh(today: Date): TopicInfo {
    TopicInfo([], today, today)
  }

  /** `_is_semantically_same`: the lowercased candidate equals the lowercased name or one lowercased alias. */
  function IsSemanticallySame(candidate: string, canonical: string, aliases: seq<string>): (b: bool)
    ensures b <==> Lower(candidate) == Lower(canonical) || exists i :: 0 <= i < |aliases| && Lower(candidate) == Lower(aliases[i])
  {
    if Lower(candidate) == Lower(canonical) then true
    else if aliases == [] then false
    else if Lower(candidate) == Lower(aliases[0]) then true
    else IsSemanticallySame(candidate, canonical, aliases[1..])
  }

  predicate MatchesKey(candidate: string, store: TopicStore, k: string)
    requires k in store.entries
  {
    IsSemanticallySame(candidate, k, store.entries[k].aliases)
  }

  /** The first of `keys` whose entry matches the candidate. */
  function FindMatchIn(candidate: string, store: TopicStore, keys: seq<string>): (r: Option<string>)
    requires forall k :: k in keys ==> k in store.entries
    ensures r.Some? ==> r.value in keys
  {
    if keys == [] then None
    else if MatchesKey(candidate, store, keys[0]) then Some(keys[0])
    else FindMatchIn(candidate, store, keys[1..])
  }

  /** The search returns the first matching key in order, and None exactly when no key matches. */
  lemma {:induction false} FindMatchInSpec(candidate: string, store: TopicStore, keys: seq<string>)
    requires forall k :: k in keys ==> k in store.entries
    ensures var r := FindMatchIn(candidate, store, keys);
      && (r.None? <==> forall i :: 0 <= i < |keys| ==> !MatchesKey(candidate, store, keys[i]))
      && (r.Some? ==>
            && MatchesKey(candidate, store, r.value)
            && forall j :: 0 <= j < FirstIndex(keys, r.value) ==> !MatchesKey(candidate, store, keys[j]))
  {
    if keys != [] && !MatchesKey(candidate, store, keys[0]) {
      FindMatchInSpec(candidate, store, keys[1..]);
      var r := FindMatchIn(candidate, store, keys);
      if r.Some? {
        assert keys[0] != r.value;
        assert FirstIndex(keys, r.value) == 1 + FirstIndex(keys[1..], r.value);
      }
    }
  }

  /** `_find_match`: the first canonical topic in store order the candidate matches, or None. */
  function FindMatch(candidate: string, store: TopicStore): Option<string>
    requires Valid(store)
  {
    FindMatchIn(candidate, store, store.keys)
  }

  /** A candidate never misses a store that holds it as a key. */
  lemma MissMeansAbsent(candidate: string, store: TopicStore)
    requires Valid(store) && FindMatch(candidate, store).None?
    ensures candidate !in store.entries
  {
    FindMatchInSpec(candidate, store, store.keys);
  }

  /** Whether a candidate matches depends on it only through its lowercase form. */
  lemma FindMatchCaseInsensitive(c1: string, c2: string, store: TopicStore)
    requires Valid(store) && Lower(c1) == Lower(c2)
    ensures FindMatch(c1, store) == FindMatch(c2, store)
  {
    FindMatchInCaseInsensitive(c1, c2, store, store.keys);
  }

  lemma {:induction false} FindMatchInCaseInsensitive(c1: string, c2: string, store: TopicStore, keys: seq<string>)
    requires forall k :: k in keys ==> k in store.entries
    requires Lower(c1) == Lower(c2)
    ensures FindMatchIn(c1, store, keys) == FindMatchIn(c2, store, keys)
  {
    if keys != [] {
      FindMatchInCaseInsensitive(c1, c2, store, keys[1..]);
    }
  }

  /** `_merge_alias`: adds the alias to the canonical topic's entry and stamps `last_updated`. */
  function MergeAlias(store: TopicStore, canonical: string, alias: string, today: Date): (r: TopicStore)
    requires Valid(store) && canonical in store.entries
    ensures Valid(r) && r.keys == store.keys
  {
    var info := store.entries[canonical];
    var aliases := if alias in info.aliases then info.aliases else info.aliases + [alias];
    PutValid(store, canonical, TopicInfo(aliases, info.createdOn, today));
    Put(store, canonical, TopicInfo(aliases, info.createdOn, today))
  }

  /**
   * Merging appends the alias only when that exact string is absent (so it
   * adds no duplicate), keeps `created_on`, sets `last_updated` to today and
   * changes no other topic.
   */
  lemma MergeAliasEffect(store: TopicStore, canonical: string, alias: string, today: Date)
    requires Valid(store) && canonical in store.entries
    ensures var r := MergeAlias(store, canonical, alias, today);
      && (forall k :: k in r.entries <==> k in store.entries)
      && (forall k :: k in store.entries && k != canonical ==> r.entries[k] == store.entries[k])
      && var old_ := store.entries[canonical];
      var new_ := r.entries[canonical];
      && alias in new_.aliases
      && old_.aliases <= new_.aliases
      && |new_.aliases| <= |old_.aliases| + 1
      && (alias in old_.aliases ==> new_.aliases == old_.aliases)
      && (Distinct(old_.aliases) ==> Distinct(new_.aliases))
      && new_.createdOn == old_.createdOn
      && new_.lastUpdated == today
  {
    var a := store.entries[canonical].aliases;
    if alias !in a {
      assert forall i :: 0 <= i < |a| ==> (a + [alias])[i] == a[i] != alias;
    }
  }

  /** `_create_new_topic`: the candidate itself becomes a key with no aliases, created and updated today. */
  function CreateNewTopic(store: TopicStore, topic: string, today: Date): (r: TopicStore)
    requires Valid(store)
    ensures Valid(r)
  {
    PutValid(store, topic, Fresh(today));
    Put(store, topic, Fresh(today))
  }

  /** Creation sets exactly the candidate's entry; an absent candidate is appended as the last key. */
  lemma CreateNewTopicEffect(store: TopicStore, topic: string, today: Date)
    requires Valid(store)
    ensures var r := CreateNewTopic(store, topic, today);
      && r.entries == store.entries[topic := TopicInfo([], today, today)]
      && r.keys == AddMissing(store.keys, [topic])
  {
    assert [topic][..0] == [];
  }

  /** One iteration of `run`: merge on a (truthy) match, else create. */
  function ResolveOne(store: TopicStore, candidate: string, today: Date): (r: TopicStore)
    requires Valid(store)
    ensures Valid(r)
  {
    var m := FindMatch(candidate, store);
    if m.Some? && m.value != "" then MergeAlias(store, m.value, candidate, today)
    else CreateNewTopic(store, candidate, today)
  }

  /** Whether `run` takes the create branch for this candidate. */
  predicate Creates(store: TopicStore, candidate: string)
    requires Valid(store)
  {
    var m := FindMatch(candidate, store);
    !(m.Some? && m.value != "")
  }

  /**
   * The effect of one candidate: a miss appends it as a new key; a match
   * changes only the matched entry and adds no key; a match on the falsy
   * name "" takes the create branch, which resets the candidate's entry.
   */
  lemma ResolveOneEffect(store: TopicStore, candidate: string, today: Date)
    requires Valid(store)
    ensures var r := ResolveOne(store, candidate, today);
      var m := FindMatch(candidate, store);
      && (m.None? ==>
            && candidate !in store.entries
            && r.keys == store.keys + [candidate]
            && r.entries == store.entries[candidate := Fresh(today)])
      && (m.Some? && m.value != "" ==>
            && r.keys == store.keys
            && (forall k :: k in r.entries <==> k in store.entries)
            && (forall k :: k in store.entries && k != m.value ==> r.entries[k] == store.entries[k])
            && candidate in r.entries[m.value].aliases)
      && (m == Some("") ==>
            && r.entries == store.entries[candidate := Fresh(today)]
            && r.keys == AddMissing(store.keys, [candidate]))
  {
    var m := FindMatch(candidate, store);
    if m.None? {
      MissMeansAbsent(candidate, store);
    }
    if m.Some? && m.value != "" {
      MergeAliasEffect(store, m.value, candidate, today);
    } else {
      CreateNewTopicEffect(store, candidate, today);
    }
  }

  /** The topic store after `run` has processed the candidate topics in order. */
  function ResolveAll(store: TopicStore, candidates: seq<string>, today: Date): (r: TopicStore)
    requires Valid(store)
    ensures Valid(r)
    decreases |candidates|
  {
    if candidates == [] then store
    else
      var m := |candidates| - 1;
      ResolveOne(ResolveAll(store, candidates[..m], today), candidates[m], today)
  }

  /** The candidates for which `run` takes the create branch, in order. */
  function CreatedTopics(store: TopicStore, candidates: seq<string>, today: Date): seq<string>
    requires Valid(store)
    decreases |candidates|
  {
    if candidates == [] then []
    else
      var m := |candidates| - 1;
      var before := ResolveAll(store, candidates[..m], today);
      CreatedTopics(store, candidates[..m], today) + (if Creates(before, candidates[m]) then [candidates[m]] else [])
  }

  function TopicsOf(cs: seq<TopicDiscovery.Candidate>): (ts: seq<string>)
    ensures |ts| == |cs| && forall i :: 0 <= i < |cs| ==> ts[i] == cs[i].topic
  {
    seq(|cs|, i requires 0 <= i < |cs| => cs[i].topic)
  }

  /** `run`: merges or creates, candidate by candidate. */
  method Run(store: TopicStore, candidates: seq<TopicDiscovery.Candidate>, today: Date) returns (result: TopicStore)
    requires Valid(store)
    ensures result == ResolveAll(store, TopicsOf(candidates), today)
  {
    var ts := TopicsOf(candidates);
    result := store;
    var i := 0;
    while i < |candidates|
      invariant 0 <= i <= |candidates|
      invariant result == ResolveAll(store, ts[..i], today)
    {
      assert ts[..i + 1][..i] == ts[..i];
      assert ResolveAll(store, ts[..i + 1], today) == ResolveOne(result, ts[i], today);
      var candidateTopic := candidates[i].topic;
      assert candidateTopic == ts[i];
      var matched := FindMatch(candidateTopic, result);
      if matched.Some? && matched.value != "" {
        result := MergeAlias(result, matched.value, candidateTopic, today);
      } else {
        result := CreateNewTopic(result, candidateTopic, today);
      }
      i := i + 1;
    }
    assert ts[..i] == ts;
  }

  /**
   * `run` never removes a key: the keys afterwards are the prior keys, in
   * their order, followed by the candidates that took the create branch,
   * each once, in order of processing.
   */
  lemma {:induction false} ResolveAllKeys(store: TopicStore, candidates: seq<string>, today: Date)
    requires Valid(store)
    ensures ResolveAll(store, candidates, today).keys == AddMissing(store.keys, CreatedTopics(store, candidates, today))
    decreases |candidates|
  {
    if candidates != [] {
      var m := |candidates| - 1;
      var p := candidates[..m];
      ResolveAllKeys(store, p, today);
      var before := ResolveAll(store, p, today);
      var c := candidates[m];
      var created := CreatedTopics(store, p, today);
      ResolveOneEffect(before, c, today);
      if Creates(before, c) {
        var created' := created + [c];
        assert CreatedTopics(store, candidates, today) == created';
        assert created'[..|created'| - 1] == created;
      } else {
        assert CreatedTopics(store, candidates, today) == created;
      }
    }
  }

  /** Every key after `run` was a key before or is one of the candidates. */
  lemma ResolveAllKeysOrigin(store: TopicStore, candidates: seq<string>, today: Date)
    requires Valid(store)
    ensures store.keys <= ResolveAll(store, candidates, today).keys
    ensures forall k :: k in ResolveAll(store, candidates, today).entries ==> k in store.entries || k in candidates
  {
    ResolveAllKeys(store, candidates, today);
    CreatedAreCandidates(store, candidates, today);
  }

  lemma {:induction false} CreatedAreCandidates(store: TopicStore, candidates: seq<string>, today: Date)
    requires Valid(store)
    ensures forall k :: k in CreatedTopics(store, candidates, today) ==> k in candidates
    decreases |candidates|
  {
    if candidates != [] {
      var m := |candidates| - 1;
      CreatedAreCandidates(store, candidates[..m], today);
      assert forall k :: k in candidates[..m] ==> k in candidates;
    }
  }

  /** After a candidate creates a topic, a candidate with the same lowercase form finds that topic. */
  lemma MatchAfterCreate(store: TopicStore, c1: string, c2: string, today: Date)
    requires Valid(store)
    requires FindMatch(c1, store).None? && Lower(c1) == Lower(c2)
    ensures FindMatch(c2, ResolveOne(store, c1, today)) == Some(c1)
  {
    var s1 := ResolveOne(store, c1, today);
    ResolveOneEffect(store, c1, today);
    FindMatchCaseInsensitive(c1, c2, store);
    FindMatchInPrefix(c2, store, s1, store.keys);
    assert MatchesKey(c2, s1, c1);
    FindMatchInSnoc(c2, s1, store.keys, c1);
  }

  /**
   * Candidates are processed in order: a candidate that creates a topic
   * absorbs a later candidate with the same lowercase form as its alias
   * (even the very same string, as the alias list starts empty).
   */
  lemma LaterMergesIntoEarlier(store: TopicStore, c1: string, c2: string, today: Date)
    requires Valid(store)
    requires FindMatch(c1, store).None? && c1 != "" && Lower(c1) == Lower(c2)
    ensures ResolveAll(store, [c1, c2], today).keys == store.keys + [c1]
    ensures ResolveAll(store, [c1, c2], today).entries[c1] == TopicInfo([c2], today, today)
  {
    var s1 := ResolveOne(store, c1, today);
    ResolveOneEffect(store, c1, today);
    MatchAfterCreate(store, c1, c2, today);
    assert [c1, c2][..1] == [c1];
    assert [c1][..0] == [];
    assert ResolveAll(store, [c1], today) == s1;
    assert ResolveAll(store, [c1, c2], today) == ResolveOne(s1, c2, today);
  }

  /** Search over keys whose entries agree in two stores gives the same answer. */
  lemma {:induction false} FindMatchInPrefix(candidate: string, s: TopicStore, t: TopicStore, keys: seq<string>)
    requires forall k :: k in keys ==> k in s.entries && k in t.entries && s.entries[k] == t.entries[k]
    ensures FindMatchIn(candidate, s, keys) == FindMatchIn(candidate, t, keys)
  {
    if keys != [] {
      FindMatchInPrefix(candidate, s, t, keys[1..]);
    }
  }

  /** Searching `keys + [k]` after missing in `keys` finds `k` when it matches. */
  lemma {:induction false} FindMatchInSnoc(candidate: string, s: TopicStore, keys: seq<string>, k: string)
    requires forall x :: x in keys + [k] ==> x in s.entries
    requires FindMatchIn(candidate, s, keys).None? && MatchesKey(candidate, s, k)
    ensures FindMatchIn(candidate, s, keys + [k]) == Some(k)
  {
    if keys != [] {
      assert (keys + [k])[1..] == keys[1..] + [k];
      FindMatchInSnoc(candidate, s, keys[1..], k);
    } else {
      assert (keys + [k]) == [k];
    }
  }

  // ----- alias uniqueness -----

  /** No alias string is held by two different canonical topics. */
  ghost predicate AliasesUnique(store: TopicStore) {
    forall k1, k2, a ::
      (k1 in store.entries && k2 in store.entries && a in store.entries[k1].aliases && a in store.entries[k2].aliases)
      ==> k1 == k2
  }

  /**
   * Every alias leads back to its own topic: searching the store for the
   * alias finds the topic that holds it before any other.
   */
  ghost predicate AliasesResolve(store: TopicStore)
    requires Valid(store)
  {
    forall k, a :: k in store.entries && a in store.entries[k].aliases ==> FindMatch(a, store) == Some(k)
  }

  /** A store whose aliases resolve has no alias under two topics. */
  lemma ResolvingAliasesAreUnique(store: TopicStore)
    requires Valid(store) && AliasesResolve(store)
    ensures AliasesUnique(store)
  {
    forall k1, k2, a | k1 in store.entries && k2 in store.entries && a in store.entries[k1].aliases && a in store.entries[k2].aliases
      ensures k1 == k2
    {
      assert FindMatch(a, store) == Some(k1);
      assert FindMatch(a, store) == Some(k2);
    }
  }

  /**
   * `run` keeps every alias resolving to its own topic, so it never puts an
   * alias under a second topic.
   */
  lemma {:induction false} ResolveAllKeepsAliasesUnique(store: TopicStore, candidates: seq<string>, today: Date)
    requires Valid(store) && AliasesResolve(store)
    ensures AliasesResolve(ResolveAll(store, candidates, today))
    ensures AliasesUnique(ResolveAll(store, candidates, today))
    decreases |candidates|
  {
    var r := ResolveAll(store, candidates, today);
    if candidates != [] {
      var m := |candidates| - 1;
      ResolveAllKeepsAliasesUnique(store, candidates[..m], today);
      ResolveOneKeepsAliasesResolve(ResolveAll(store, candidates[..m], today), candidates[m], today);
    }
    ResolvingAliasesAreUnique(r);
  }

  /**
   * The store as the system builds it, seeded from empty and then updated by
   * `run`, never holds an alias under two topics.
   */
  lemma SeededThenRunAliasesUnique(seeds: seq<string>, seedDay: Date, candidates: seq<string>, today: Date)
    ensures AliasesUnique(ResolveAll(Seeded(Empty(), seeds, seedDay), candidates, today))
  {
    var e: TopicStore := Empty();
    SeededKeepsAliasesResolve(e, seeds, seedDay);
    ResolveAllKeepsAliasesUnique(Seeded(e, seeds, seedDay), candidates, today);
  }

  /** One candidate, merged or created, keeps every alias resolving to its own topic. */
  lemma ResolveOneKeepsAliasesResolve(store: TopicStore, candidate: string, today: Date)
    requires Valid(store) && AliasesResolve(store)
    ensures AliasesResolve(ResolveOne(store, candidate, today))
  {
    var m := FindMatch(candidate, store);
    if m.Some? && m.value != "" {
      MergeKeepsAliasesResolve(store, candidate, today);
    } else {
      CreateKeepsAliasesResolve(store, candidate, today);
    }
  }

  /**
   * Seeding keeps every alias resolving to its own topic; in particular the
   * store seeded from empty has no shared alias.
   */
  lemma {:induction false} SeededKeepsAliasesResolve(store: TopicStore, seeds: seq<string>, today: Date)
    requires Valid(store) && AliasesResolve(store)
    ensures AliasesResolve(Seeded(store, seeds, today))
    decreases |seeds|
  {
    if seeds != [] {
      var m := |seeds| - 1;
      var d := Seeded(store, seeds[..m], today);
      SeededKeepsAliasesResolve(store, seeds[..m], today);
      if seeds[m] !in d.entries {
        CreateKeepsAliasesResolve(d, seeds[m], today);
      }
    }
  }

  /** Merging the candidate into its first match keeps every alias resolving to its own topic. */
  lemma MergeKeepsAliasesResolve(s: TopicStore, c: string, today: Date)
    requires Valid(s) && AliasesResolve(s) && FindMatch(c, s).Some?
    ensures AliasesResolve(MergeAlias(s, FindMatch(c, s).value, c, today))
  {
    var m := FindMatch(c, s).value;
    var t := MergeAlias(s, m, c, today);
    var old_ := s.entries[m].aliases;
    assert t.entries[m].aliases == if c in old_ then old_ else old_ + [c];
    assert forall x :: x in s.entries && x != m ==> t.entries[x] == s.entries[x];
    FindMatchInSpec(c, s, s.keys);
    forall k, a | k in t.entries && a in t.entries[k].aliases
      ensures FindMatch(a, t) == Some(k)
    {
      if k == m && a == c {
        assert MatchesKey(c, t, m);
        FindMatchInStable(c, s, t, s.keys, m);
      } else {
        assert a in s.entries[k].aliases;
        assert FindMatch(a, s) == Some(k);
        assert MatchesKey(a, t, k);
        forall x | x in s.keys && x != k && MatchesKey(a, t, x)
          ensures MatchesKey(a, s, x)
        {
          if x == m {
            AliasAppendMatch(a, m, old_, c);
            if Lower(a) == Lower(c) {
              FindMatchCaseInsensitive(a, c, s);
              assert false;
            }
          }
        }
        FindMatchInStable(a, s, t, s.keys, k);
      }
    }
  }

  /** Creating a topic for the candidate keeps every alias resolving to its own topic. */
  lemma CreateKeepsAliasesResolve(s: TopicStore, c: string, today: Date)
    requires Valid(s) && AliasesResolve(s)
    ensures AliasesResolve(CreateNewTopic(s, c, today))
  {
    var t := CreateNewTopic(s, c, today);
    forall k, a | k in t.entries && a in t.entries[k].aliases
      ensures FindMatch(a, t) == Some(k)
    {
      assert k != c && t.entries[k] == s.entries[k];
      assert FindMatch(a, s) == Some(k);
      assert MatchesKey(a, t, k);
      if c in s.entries {
        forall x | x in s.keys && x != k && MatchesKey(a, t, x)
          ensures MatchesKey(a, s, x)
        {
          if x == c {
            assert Lower(a) == Lower(c);
          }
        }
        FindMatchInStable(a, s, t, s.keys, k);
      } else {
        FindMatchInPrefix(a, s, t, s.keys);
        FindMatchInAppend(a, t, s.keys, c);
      }
    }
  }

  /**
   * A search that finds `k` first still does once `k` keeps matching and no
   * other key starts to match.
   */
  lemma {:induction false} FindMatchInStable(a: string, s: TopicStore, t: TopicStore, keys: seq<string>, k: string)
    requires forall x :: x in keys ==> x in s.entries && x in t.entries
    requires FindMatchIn(a, s, keys) == Some(k) && MatchesKey(a, t, k)
    requires forall x :: x in keys && x != k && MatchesKey(a, t, x) ==> MatchesKey(a, s, x)
    ensures FindMatchIn(a, t, keys) == Some(k)
  {
    if keys[0] != k {
      FindMatchInStable(a, s, t, keys[1..], k);
    }
  }

  /** A key appended after the first match does not change the search. */
  lemma {:induction false} FindMatchInAppend(a: string, s: TopicStore, keys: seq<string>, x: string)
    requires forall y :: y in keys + [x] ==> y in s.entries
    requires FindMatchIn(a, s, keys).Some?
    ensures FindMatchIn(a, s, keys + [x]) == FindMatchIn(a, s, keys)
  {
    assert (keys + [x])[0] == keys[0];
    if !MatchesKey(a, s, keys[0]) {
      assert (keys + [x])[1..] == keys[1..] + [x];
      FindMatchInAppend(a, s, keys[1..], x);
    }
  }

  /** Appending an alias makes a topic match exactly the extra lowercase form. */
  lemma AliasAppendMatch(a: string, name: string, aliases: seq<string>, c: string)
    ensures IsSemanticallySame(a, name, aliases + [c]) <==> IsSemanticallySame(a, name, aliases) || Lower(a) == Lower(c)
  {
    var al := aliases + [c];
    if Lower(a) == Lower(c) {
      assert Lower(a) == Lower(al[|aliases|]);
    }
    if exists i :: 0 <= i < |aliases| && Lower(a) == Lower(aliases[i]) {
      var i :| 0 <= i < |aliases| && Lower(a) == Lower(aliases[i]);
      assert al[i] == aliases[i];
    }
    if exists i :: 0 <= i < |al| && Lower(a) == Lower(al[i]) {
      var i :| 0 <= i < |al| && Lower(a) == Lower(al[i]);
      if i < |aliases| {
        assert al[i] == aliases[i];
      }
    }
  }

  /**
   * A store whose aliases do not resolve can end up sharing one: with keys
   * "X" then "b", and "b" holding the alias "x", the candidate "x" matches
   * "X" first and becomes its alias too.
   */
  lemma UnresolvedAliasGetsShared()
    ensures var s := Dict(["X", "b"], map["X" := TopicInfo([], 0, 0), "b" := TopicInfo(["x"], 0, 0)]);
      && Valid(s)
      && !AliasesResolve(s)
      && var r := ResolveOne(s, "x", 1);
      "x" in r.entries["X"].aliases && "x" in r.entries["b"].aliases
  {
    var s := Dict(["X", "b"], map["X" := TopicInfo([], 0, 0), "b" := TopicInfo(["x"], 0, 0)]);
    assert Lower("X") == "x" by { assert LowerChar('X') == 'x'; }
    assert Lower("x") == "x" by { assert LowerChar('x') == 'x'; }
    assert MatchesKey("x", s, "X");
    assert FindMatch("x", s) == Some("X");
    assert "x" in s.entries["b"].aliases && FindMatch("x", s) != Some("b");
    var r := ResolveOne(s, "x", 1);
    assert r == MergeAlias(s, "X", "x", 1);
    assert r.entries["X"].aliases == ["x"];
    assert r.entries["b"] == s.entries["b"];
  }

  // ----- seeding (`__init__`) -----

  /** The store after the seeding loop: each absent seed becomes a fresh key. */
  function Seeded(store: TopicStore, seeds: seq<string>, today: Date): (r: TopicStore)
    requires Valid(store)
    ensures Valid(r)
    decreases |seeds|
  {
    if seeds == [] then store
    else
      var m := |seeds| - 1;
      var d := Seeded(store, seeds[..m], today);
      PutValid(d, seeds[m], Fresh(today));
      if seeds[m] in d.entries then d else Put(d, seeds[m], Fresh(today))
  }

  /** The seeding loop of `__init__`. */
  method SeedTopics(store: TopicStore, seeds: seq<string>, today: Date) returns (result: TopicStore)
    requires Valid(store)
    ensures result == Seeded(store, seeds, today)
  {
    result := store;
    var i := 0;
    while i < |seeds|
      invariant 0 <= i <= |seeds|
      invariant result == Seeded(store, seeds[..i], today)
    {
      assert seeds[..i + 1][..i] == seeds[..i];
      var topic := seeds[i];
      if topic !in result.entries {
        result := Put(result, topic, Fresh(today));
      }
      i := i + 1;
    }
    assert seeds[..i] == seeds;
  }

  /**
   * Seeding adds the absent seeds as exact keys, in order, with empty
   * aliases, and leaves every existing entry untouched.
   */
  lemma {:induction false} SeededEffect(store: TopicStore, seeds: seq<string>, today: Date)
    requires Valid(store)
    ensures var r := Seeded(store, seeds, today);
      && r.keys == AddMissing(store.keys, seeds)
      && (forall k :: k in store.entries ==> r.entries[k] == store.entries[k])
      && (forall k :: k in r.entries && k !in store.entries ==> r.entries[k] == Fresh(today))
    decreases |seeds|
  {
    if seeds != [] {
      SeededEffect(store, seeds[..|seeds| - 1], today);
    }
  }

  /** Seeding a store that already holds every seed changes nothing. */
  lemma {:induction false} SeededNoop(store: TopicStore, seeds: seq<string>, today: Date)
    requires Valid(store)
    requires forall s :: s in seeds ==> s in store.entries
    ensures Seeded(store, seeds, today) == store
    decreases |seeds|
  {
    if seeds != [] {
      var m := |seeds| - 1;
      assert forall s :: s in seeds[..m] ==> s in seeds;
      SeededNoop(store, seeds[..m], today);
      assert seeds[m] in seeds;
    }
  }

  /** Seeding twice with the same list equals seeding once. */
  lemma SeedIdempotent(store: TopicStore, seeds: seq<string>, today1: Date, today2: Date)
    requires Valid(store)
    ensures Seeded(Seeded(store, seeds, today1), seeds, today2) == Seeded(store, seeds, today1)
  {
    var r := Seeded(store, seeds, today1);
    SeededEffect(store, seeds, today1);
    SeededNoop(r, seeds, today2);
  }
}
