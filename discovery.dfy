/**
 * Candidate-topic discovery: each review is classified by the first seed
 * topic that has a word of its lowercased name inside the lowercased text,
 * else by the first entry of a fixed keyword table that fires; the review
 * texts are then grouped per topic as evidence, topics in order of first
 * occurrence.
 */
module TopicDiscovery {
  import opened Wrappers
  import opened Text
  import opened OrderedDict
  import opened Matching
  import opened CleanerMemory

  /** One row of the keyword table: a topic, its primary keys and its secondary keys. */
  datatype KeywordRule = KeywordRule(topic: string, primary: seq<string>, secondary: seq<string>)

  /** A discovered topic with the texts of the reviews classified under it. */
  datatype Candidate = Candidate(topic: string, evidence: seq<string>)

  /** The keyword table, in the order it is consulted. */
  const KeywordTopics: seq<KeywordRule> := [
    KeywordRule("App stability & performance issues",
      ["app", "application"],
      ["crash", "freeze", "hang", "lag", "slow", "bug", "glitch"]),
    KeywordRule("Login / authentication issue",
      ["login", "signin", "otp", "verification"],
      ["fail", "error", "issue"]),
    KeywordRule("Issue after app update",
      ["update"],
      ["issue", "problem", "broke", "worse"]),
    KeywordRule("Payment failure",
      ["payment", "upi", "card", "netbanking"],
      ["fail", "error", "declined"]),
    KeywordRule("Refund not received",
      ["refund", "money"],
      ["not received", "pending", "delay"]),
    KeywordRule("Incorrect charges",
      ["charged", "deducted", "double", "extra charge", "hidden fee"],
      []),
    KeywordRule("High pricing concerns",
      ["price", "cost", "expensive", "costly"],
      []),
    KeywordRule("Customer support issue",
      ["support", "customer care", "helpdesk"],
      ["rude", "bad", "unhelpful", "no response", "ignored"]),
    KeywordRule("Account suspension issue",
      ["account", "profile"],
      ["blocked", "suspended"]),
    KeywordRule("Unfair policy concern",
      ["policy", "rules", "terms"],
      ["unfair", "bad"]),
    KeywordRule("Feature request",
      ["add", "feature", "should have", "wish", "bring back", "old version", "remove"],
      [])
  ]

  /** A rule fires on a lowercased text when a primary key occurs and, if it has secondary keys, one of them occurs too. */
  predicate RuleFires(rule: KeywordRule, textLower: string) {
    AnyContained(rule.primary, textLower) && (rule.secondary == [] || AnyContained(rule.secondary, textLower))
  }

  /** Index of the first rule that fires, or |table| when none does. */
  function FirstFiringRule(table: seq<KeywordRule>, textLower: string): (i: nat)
    ensures i <= |table|
    ensures i < |table| ==> RuleFires(table[i], textLower)
    ensures forall j :: 0 <= j < i ==> !RuleFires(table[j], textLower)
  {
    if table == [] then 0
    else if RuleFires(table[0], textLower) then 0
    else 1 + FirstFiringRule(table[1..], textLower)
  }

  /** `_match_keyword_topic`: the topic of the first keyword rule that fires on the lowercased text. */
  function MatchKeywordTopic(text: string): Option<string> {
    var i := FirstFiringRule(KeywordTopics, Lower(text));
    if i < |KeywordTopics| then Some(KeywordTopics[i].topic) else None
  }

  /** `seed or keyword`: Python's `or` takes the seed result unless it is None or "". */
  function MatchTopic(seeds: seq<string>, text: string): Option<string> {
    var s := FirstNameMatch(seeds, text);
    if s.Some? && s.value != "" then s else MatchKeywordTopic(text)
  }

  /** The topic a review is grouped under: None for an empty text or when nothing (truthy) matches. */
  function ReviewTopic(seeds: seq<string>, r: Review): Option<string> {
    if r.text == "" then None
    else
      var t := MatchTopic(seeds, r.text);
      if t.Some? && t.value != "" then t else None
  }

  /** The keyword table is consulted only when no seed topic matches. */
  lemma KeywordOnlyWithoutSeed(seeds: seq<string>, text: string)
    ensures FirstNameMatch(seeds, text).Some? ==> MatchTopic(seeds, text) == FirstNameMatch(seeds, text)
    ensures FirstNameMatch(seeds, text).None? ==> MatchTopic(seeds, text) == MatchKeywordTopic(text)
  {
    MatchedNameNotEmpty(seeds, text);
  }

  predicate IsKeywordTopic(t: string) {
    exists i :: 0 <= i < |KeywordTopics| && KeywordTopics[i].topic == t
  }

  /** Every topic a review is grouped under is a seed topic or a keyword-table topic. */
  lemma ReviewTopicOrigin(seeds: seq<string>, r: Review)
    ensures ReviewTopic(seeds, r).Some? ==>
      ReviewTopic(seeds, r).value in seeds || IsKeywordTopic(ReviewTopic(seeds, r).value)
  {
    if r.text != "" {
      KeywordOnlyWithoutSeed(seeds, r.text);
    }
  }

  // ----- the run over a batch -----

  /** The topics of the matched reviews, in review order (one per matched review). */
  function MatchedTopics(seeds: seq<string>, rs: seq<Review>): seq<string>
    decreases |rs|
  {
    if rs == [] then []
    else
      var m := |rs| - 1;
      MatchedTopics(seeds, rs[..m]) + (match ReviewTopic(seeds, rs[m]) case Some(t) => [t] case None => [])
  }

  /** The texts of the reviews grouped under `t`, in review order. */
  function Evidence(seeds: seq<string>, rs: seq<Review>, t: string): seq<string>
    decreases |rs|
  {
    if rs == [] then []
    else
      var m := |rs| - 1;
      Evidence(seeds, rs[..m], t) + (if ReviewTopic(seeds, rs[m]) == Some(t) then [rs[m].text] else [])
  }

  /** The `discovered` dictionary after the reviews in `rs`: `setdefault(topic, []).append(text)` per matched review. */
  function Discovered(seeds: seq<string>, rs: seq<Review>): (d: Dict<seq<string>>)
    ensures Valid(d)
    decreases |rs|
  {
    if rs == [] then Empty()
    else
      var m := |rs| - 1;
      var d := Discovered(seeds, rs[..m]);
      match ReviewTopic(seeds, rs[m])
      case None => d
      case Some(t) =>
        var e := (if t in d.entries then d.entries[t] else []) + [rs[m].text];
        PutValid(d, t, e);
        Put(d, t, e)
  }

  /** The returned list: one `{topic, evidence}` per dictionary entry, in dictionary order. */
  function Candidates(d: Dict<seq<string>>): (cs: seq<Candidate>)
    requires Valid(d)
    ensures |cs| == |d.keys|
    ensures forall i :: 0 <= i < |cs| ==> cs[i] == Candidate(d.keys[i], d.entries[d.keys[i]])
  {
    seq(|d.keys|, i requires 0 <= i < |d.keys| => Candidate(d.keys[i], d.entries[d.keys[i]]))
  }

  /** `run`: groups the review texts by topic. */
  method Run(seeds: seq<string>, reviews: seq<Review>) returns (candidates: seq<Candidate>)
    ensures candidates == Candidates(Discovered(seeds, reviews))
  {
    var discovered: Dict<seq<string>> := Empty();
    var i := 0;
    while i < |reviews|
      invariant 0 <= i <= |reviews|
      invariant discovered == Discovered(seeds, reviews[..i])
    {
      assert reviews[..i + 1][..i] == reviews[..i];
      var text := reviews[i].text;
      if text != "" {
        var topic := MatchTopic(seeds, text);
        if topic.Some? && topic.value != "" {
          var t := topic.value;
          var evidence := if t in discovered.entries then discovered.entries[t] else [];
          discovered := Put(discovered, t, evidence + [text]);
        }
      }
      i := i + 1;
    }
    assert reviews[..i] == reviews;
    candidates := Candidates(discovered);
  }

  // ----- properties of the grouping -----

  /** The topics are the matched topics, each once, in order of first occurrence. */
  lemma {:induction false} DiscoveredKeys(seeds: seq<string>, rs: seq<Review>)
    ensures Discovered(seeds, rs).keys == AddMissing([], MatchedTopics(seeds, rs))
    decreases |rs|
  {
    if rs != [] {
      var m := |rs| - 1;
      DiscoveredKeys(seeds, rs[..m]);
      var d := Discovered(seeds, rs[..m]);
      var ts := MatchedTopics(seeds, rs[..m]);
      match ReviewTopic(seeds, rs[m])
      case None =>
        assert MatchedTopics(seeds, rs) == ts;
      case Some(t) =>
        var ts' := ts + [t];
        assert MatchedTopics(seeds, rs) == ts';
        assert ts'[..|ts'| - 1] == ts;
    }
  }

  /** Each topic's evidence is the texts of its reviews, in review order. */
  lemma {:induction false} DiscoveredEvidence(seeds: seq<string>, rs: seq<Review>, t: string)
    ensures t in Discovered(seeds, rs).entries <==> Evidence(seeds, rs, t) != []
    ensures t in Discovered(seeds, rs).entries ==> Discovered(seeds, rs).entries[t] == Evidence(seeds, rs, t)
    decreases |rs|
  {
    if rs != [] {
      var m := |rs| - 1;
      DiscoveredEvidence(seeds, rs[..m], t);
    }
  }

  /** Sum of the evidence lengths of the listed keys. */
  function EvidenceTotal(keys: seq<string>, entries: map<string, seq<string>>): nat
    requires forall k :: k in keys ==> k in entries
  {
    if keys == [] then 0 else |entries[keys[0]]| + EvidenceTotal(keys[1..], entries)
  }

  lemma {:induction false} EvidenceTotalAppend(keys: seq<string>, k: string, entries: map<string, seq<string>>)
    requires forall x :: x in keys + [k] ==> x in entries
    ensures EvidenceTotal(keys + [k], entries) == EvidenceTotal(keys, entries) + |entries[k]|
  {
    if keys != [] {
      assert (keys + [k])[1..] == keys[1..] + [k];
      EvidenceTotalAppend(keys[1..], k, entries);
    }
  }

  /** Changing the entry of a key that occurs once, by one text, changes the total by one. */
  lemma {:induction false} EvidenceTotalGrow(keys: seq<string>, entries: map<string, seq<string>>, k: string, e: seq<string>)
    requires forall x :: x in keys ==> x in entries
    requires Distinct(keys)
    requires k in entries && |e| == |entries[k]| + 1
    ensures EvidenceTotal(keys, entries[k := e]) == EvidenceTotal(keys, entries) + (if k in keys then 1 else 0)
  {
    if keys != [] {
      assert Distinct(keys[1..]);
      EvidenceTotalGrow(keys[1..], entries, k, e);
      assert keys[0] == k ==> k !in keys[1..];
    }
  }

  /** Adding an entry for a key outside the list leaves its total alone. */
  lemma {:induction false} EvidenceTotalFrame(keys: seq<string>, entries: map<string, seq<string>>, k: string, e: seq<string>)
    requires forall x :: x in keys ==> x in entries
    requires k !in keys
    ensures EvidenceTotal(keys, entries[k := e]) == EvidenceTotal(keys, entries)
  {
    if keys != [] {
      EvidenceTotalFrame(keys[1..], entries, k, e);
    }
  }

  /** Total evidence: one text per matched review. */
  function TotalEvidence(cs: seq<Candidate>): nat {
    if cs == [] then 0 else |cs[0].evidence| + TotalEvidence(cs[1..])
  }

  lemma {:induction false} TotalEvidenceIsEvidenceTotal(d: Dict<seq<string>>, n: nat)
    requires Valid(d) && n <= |d.keys|
    ensures TotalEvidence(Candidates(d)[n..]) == EvidenceTotal(d.keys[n..], d.entries)
    decreases |d.keys| - n
  {
    if n < |d.keys| {
      TotalEvidenceIsEvidenceTotal(d, n + 1);
      assert Candidates(d)[n..][1..] == Candidates(d)[n + 1..];
      assert d.keys[n..][1..] == d.keys[n + 1..];
    }
  }

  lemma {:induction false} DiscoveredTotal(seeds: seq<string>, rs: seq<Review>)
    ensures EvidenceTotal(Discovered(seeds, rs).keys, Discovered(seeds, rs).entries) == |MatchedTopics(seeds, rs)|
    decreases |rs|
  {
    if rs != [] {
      var m := |rs| - 1;
      DiscoveredTotal(seeds, rs[..m]);
      var d := Discovered(seeds, rs[..m]);
      match ReviewTopic(seeds, rs[m])
      case None =>
      case Some(t) =>
        var e := (if t in d.entries then d.entries[t] else []) + [rs[m].text];
        if t in d.entries {
          EvidenceTotalGrow(d.keys, d.entries, t, e);
        } else {
          EvidenceTotalFrame(d.keys, d.entries, t, e);
          EvidenceTotalAppend(d.keys, t, d.entries[t := e]);
        }
    }
  }

  /** `run` lists each matched topic once, and only those, in order of first occurrence. */
  lemma RunTopics(seeds: seq<string>, rs: seq<Review>)
    ensures var cs := Candidates(Discovered(seeds, rs));
      var ts := MatchedTopics(seeds, rs);
      && (forall i, j :: 0 <= i < j < |cs| ==> cs[i].topic != cs[j].topic)
      && (forall t :: t in ts ==> exists i :: 0 <= i < |cs| && cs[i].topic == t)
      && (forall i :: 0 <= i < |cs| ==> cs[i].topic in ts)
  {
    var d := Discovered(seeds, rs);
    var cs := Candidates(d);
    DiscoveredKeys(seeds, rs);
    forall t | t in MatchedTopics(seeds, rs) ensures exists i :: 0 <= i < |cs| && cs[i].topic == t {
      var i :| 0 <= i < |d.keys| && d.keys[i] == t;
      assert cs[i].topic == t;
    }
  }

  /** The topics come in order of their first matched review. */
  lemma RunTopicsOrder(seeds: seq<string>, rs: seq<Review>)
    ensures var cs := Candidates(Discovered(seeds, rs));
      var ts := MatchedTopics(seeds, rs);
      forall i, j :: 0 <= i < j < |cs| ==> cs[i].topic in ts && cs[j].topic in ts && FirstIndex(ts, cs[i].topic) < FirstIndex(ts, cs[j].topic)
  {
    var d := Discovered(seeds, rs);
    DiscoveredKeys(seeds, rs);
    AddMissingFirstOccurrenceOrder([], MatchedTopics(seeds, rs));
  }

  /** `run` gives each topic exactly the texts of its reviews, in review order. */
  lemma RunEvidence(seeds: seq<string>, rs: seq<Review>)
    ensures var cs := Candidates(Discovered(seeds, rs));
      forall i :: 0 <= i < |cs| ==> cs[i].evidence == Evidence(seeds, rs, cs[i].topic)
  {
    var cs := Candidates(Discovered(seeds, rs));
    forall i | 0 <= i < |cs| ensures cs[i].evidence == Evidence(seeds, rs, cs[i].topic) {
      DiscoveredEvidence(seeds, rs, cs[i].topic);
    }
  }

  /** Every topic `run` lists is a seed topic or a keyword-table topic. */
  lemma RunTopicOrigin(seeds: seq<string>, rs: seq<Review>)
    ensures var cs := Candidates(Discovered(seeds, rs));
      forall i :: 0 <= i < |cs| ==> cs[i].topic in seeds || IsKeywordTopic(cs[i].topic)
  {
    var d := Discovered(seeds, rs);
    var cs := Candidates(d);
    DiscoveredKeys(seeds, rs);
    forall i | 0 <= i < |cs| ensures cs[i].topic in seeds || IsKeywordTopic(cs[i].topic) {
      var t := d.keys[i];
      assert t in AddMissing([], MatchedTopics(seeds, rs));
      MatchedTopicOrigin(seeds, rs, t);
    }
  }

  /** `run` lists as many evidence texts in all as there were matched reviews. */
  lemma RunTotalEvidence(seeds: seq<string>, rs: seq<Review>)
    ensures TotalEvidence(Candidates(Discovered(seeds, rs))) == |MatchedTopics(seeds, rs)|
  {
    var d := Discovered(seeds, rs);
    DiscoveredTotal(seeds, rs);
    TotalEvidenceIsEvidenceTotal(d, 0);
    assert d.keys[0..] == d.keys;
    assert Candidates(d)[0..] == Candidates(d);
  }

  lemma {:induction false} MatchedTopicOrigin(seeds: seq<string>, rs: seq<Review>, t: string)
    requires t in MatchedTopics(seeds, rs)
    ensures t in seeds || IsKeywordTopic(t)
    decreases |rs|
  {
    var m := |rs| - 1;
    ReviewTopicOrigin(seeds, rs[m]);
    if t in MatchedTopics(seeds, rs[..m]) {
      MatchedTopicOrigin(seeds, rs[..m], t);
    }
  }
}
