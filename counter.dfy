/**
 * The trend counter: a per-topic, per-date count of reviews, a set of review
 * fingerprints already counted on earlier runs, and a sliding retention window.
 */
module TopicCounter {
  import opened Wrappers
  import opened Calendar
  import opened OrderedDict
  import opened Matching
  import opened CleanerMemory

  const WINDOW_DAYS: int := 30

  /** Counts of one topic by date; the order of dates inside a topic is not modelled. */
  type Counts = map<Date, int>

  /** Topic name to its counts, in insertion order. */
  type TrendStore = Dict<Counts>

  // ----- fingerprints (`_hash_review`) -----

  /** Decimal digits of a natural number, as `str` renders it. */
  function NatToDec(n: nat): string
    decreases n
  {
    var digit := ['0' + (n % 10) as char];
    if n < 10 then digit else NatToDec(n / 10) + digit
  }

  /** `str(rating)`: a decimal integer, or "None" when the rating is missing. */
  function RatingString(rating: Option<int>): string {
    match rating
    case None => "None"
    case Some(v) => if v < 0 then "-" + NatToDec(-v) else NatToDec(v)
  }

  /** The string that is hashed: the text followed by the rendered rating. */
  function HashKey(r: Review): string {
    r.text + RatingString(r.rating)
  }

  /** The fingerprint of a review; `hash` stands for the MD5 hex digest. */
  function Fingerprint(r: Review, hash: string -> string): string {
    hash(HashKey(r))
  }

  /** Ratings `str` renders as a single character, or missing ones. */
  predicate ShortRating(rating: Option<int>) {
    rating.None? || 0 <= rating.value <= 9
  }

  /**
   * With ratings missing or in 0..9 (Play ratings are 1..5), the hashed
   * string determines the review: equal keys mean equal text and rating.
   */
  lemma HashKeyInjective(r1: Review, r2: Review)
    requires ShortRating(r1.rating) && ShortRating(r2.rating)
    ensures HashKey(r1) == HashKey(r2) <==> r1 == r2
  {
    if HashKey(r1) == HashKey(r2) {
      var k := HashKey(r1);
      var s1 := RatingString(r1.rating);
      var s2 := RatingString(r2.rating);
      assert k[|k| - 1] == s1[|s1| - 1] == s2[|s2| - 1];
      if r1.rating.None? && r2.rating.None? {
        assert r1.text == k[..|k| - 4] == r2.text;
      } else if r1.rating.Some? && r2.rating.Some? {
        assert r1.rating.value == s1[0] as int - '0' as int;
        assert r2.rating.value == s2[0] as int - '0' as int;
        assert r1.text == k[..|k| - 1] == r2.text;
      }
    }
  }

  /** Beyond one digit the hashed string is ambiguous: ("a1", 2) and ("a", 12) share it. */
  lemma HashKeyCollision()
    ensures HashKey(Review("a1", Some(2))) == HashKey(Review("a", Some(12)))
  {
    assert NatToDec(12) == NatToDec(1) + "2";
  }

  /** The fingerprints of all the reviews of a batch, matched or not. */
  function FingerprintSet(rs: seq<Review>, hash: string -> string): set<string> {
    set i | 0 <= i < |rs| :: Fingerprint(rs[i], hash)
  }

  lemma FingerprintSetSnoc(rs: seq<Review>, r: Review, hash: string -> string)
    ensures FingerprintSet(rs + [r], hash) == FingerprintSet(rs, hash) + {Fingerprint(r, hash)}
  {
    var rs' := rs + [r];
    forall h | h in FingerprintSet(rs', hash) ensures h in FingerprintSet(rs, hash) + {Fingerprint(r, hash)} {
      var i :| 0 <= i < |rs'| && Fingerprint(rs'[i], hash) == h;
      if i < |rs| {
        assert rs'[i] == rs[i];
      }
    }
    forall h | h in FingerprintSet(rs, hash) ensures h in FingerprintSet(rs', hash) {
      var i :| 0 <= i < |rs| && Fingerprint(rs[i], hash) == h;
      assert rs'[i] == rs[i];
    }
    assert Fingerprint(rs'[|rs|], hash) in FingerprintSet(rs', hash);
  }

  /** The fingerprints the review loop adds to `new_seen`: those of the batch not seen on earlier runs. */
  function NewSeen(seen: set<string>, rs: seq<Review>, hash: string -> string): set<string>
    decreases |rs|
  {
    if rs == [] then {}
    else
      var m := |rs| - 1;
      var h := Fingerprint(rs[m], hash);
      NewSeen(seen, rs[..m], hash) + (if h in seen then {} else {h})
  }

  /** `new_seen` is exactly the batch's fingerprints that are not in the seen set. */
  lemma {:induction false} NewSeenIsUnseen(seen: set<string>, rs: seq<Review>, hash: string -> string)
    ensures NewSeen(seen, rs, hash) == FingerprintSet(rs, hash) - seen
    decreases |rs|
  {
    if rs != [] {
      var m := |rs| - 1;
      NewSeenIsUnseen(seen, rs[..m], hash);
      assert rs == rs[..m] + [rs[m]];
      FingerprintSetSnoc(rs[..m], rs[m], hash);
    }
  }

  // ----- the run -----

  /** A topic's counts before this run, or an empty dict for a topic new to the store. */
  function Prior(trend: TrendStore, t: string): Counts {
    if t in trend.entries then trend.entries[t] else map[]
  }

  /** Every topic has an entry with a count for `date`, ready to be incremented. */
  ghost predicate Ready(store: TrendStore, topics: seq<string>, date: Date) {
    forall t :: t in topics ==> t in store.entries && date in store.entries[t]
  }

  /** The first loop of `run`: `setdefault(topic, {})[date] = 0` for each topic. */
  function ZeroInit(trend: TrendStore, topics: seq<string>, date: Date): (r: TrendStore)
    ensures Ready(r, topics, date)
    decreases |topics|
  {
    if topics == [] then trend
    else
      var m := |topics| - 1;
      var s := ZeroInit(trend, topics[..m], date);
      assert forall t :: t in topics ==> t in topics[..m] || t == topics[m];
      Put(s, topics[m], Prior(s, topics[m])[date := 0])
  }

  /** One iteration of the review loop: an unseen review whose first (truthy) match is `t` adds one to `t` at `date`. */
  function CountOne(store: TrendStore, seen: set<string>, r: Review, topics: seq<string>, date: Date, hash: string -> string): (s: TrendStore)
    requires Ready(store, topics, date)
    ensures Ready(s, topics, date) && s.keys == store.keys
  {
    if Fingerprint(r, hash) in seen then store
    else
      match FirstNameMatch(topics, r.text)
      case None => store
      case Some(t) =>
        if t == "" then store
        else
          var counts := store.entries[t];
          Put(store, t, counts[date := counts[date] + 1])
  }

  /** The review loop of `run`. */
  function CountAll(store: TrendStore, seen: set<string>, rs: seq<Review>, topics: seq<string>, date: Date, hash: string -> string): (s: TrendStore)
    requires Ready(store, topics, date)
    ensures Ready(s, topics, date) && s.keys == store.keys
    decreases |rs|
  {
    if rs == [] then store
    else
      var m := |rs| - 1;
      CountOne(CountAll(store, seen, rs[..m], topics, date, hash), seen, rs[m], topics, date, hash)
  }

  /** Dates kept by the sliding window: on or after `date - WINDOW_DAYS`. */
  function Retain(counts: Counts, date: Date): Counts {
    map d | d in counts && d >= date - WINDOW_DAYS :: counts[d]
  }

  /** Every topic's counts restricted to the window; no topic is removed. */
  function Windowed(store: TrendStore, date: Date): (r: TrendStore)
    ensures r.keys == store.keys
  {
    Dict(store.keys, map t | t in store.entries :: Retain(store.entries[t], date))
  }

  /** The number of reviews, not seen before, whose first match is `t`. */
  function Tally(seen: set<string>, topics: seq<string>, rs: seq<Review>, hash: string -> string, t: string): nat
    decreases |rs|
  {
    if rs == [] then 0
    else
      var m := |rs| - 1;
      Tally(seen, topics, rs[..m], hash, t)
        + (if Fingerprint(rs[m], hash) !in seen && FirstNameMatch(topics, rs[m].text) == Some(t) then 1 else 0)
  }

  /** The inner loop of `_apply_sliding_window`: deletes every date before the cutoff from one topic. */
  method RetainDates(counts: Counts, date: Date) returns (kept: Counts)
    ensures kept == Retain(counts, date)
  {
    var cutoff := date - WINDOW_DAYS;
    kept := counts;
    var pending := counts.Keys;
    while pending != {}
      invariant pending <= counts.Keys
      invariant kept == map d | d in counts && (d in pending || d >= cutoff) :: counts[d]
      decreases pending
    {
      SomeDatePending(pending);
      var d :| d in pending;
      if d < cutoff {
        kept := kept - {d};
      }
      pending := pending - {d};
    }
  }

  lemma SomeDatePending(pending: set<Date>)
    requires pending != {}
    ensures exists d :: d in pending
  {
    if forall d :: d !in pending {
      assert false;
    }
  }

  /** `_apply_sliding_window`: applies the cutoff topic by topic; no topic is removed. */
  method ApplySlidingWindow(store: TrendStore, date: Date) returns (r: TrendStore)
    requires Valid(store)
    ensures r == Windowed(store, date)
  {
    r := store;
    var i := 0;
    while i < |store.keys|
      invariant 0 <= i <= |store.keys|
      invariant r.keys == store.keys
      invariant r.entries == map t | t in store.entries :: if t in store.keys[..i] then Retain(store.entries[t], date) else store.entries[t]
    {
      var topic := store.keys[i];
      assert store.keys[..i + 1] == store.keys[..i] + [topic];
      var kept := RetainDates(r.entries[topic], date);
      r := Put(r, topic, kept);
      i := i + 1;
    }
    assert store.keys[..i] == store.keys;
  }

  /** The first loop of `run`. */
  method ZeroTopics(trend: TrendStore, topics: seq<string>, date: Date) returns (store: TrendStore)
    ensures store == ZeroInit(trend, topics, date)
  {
    store := trend;
    var i := 0;
    while i < |topics|
      invariant 0 <= i <= |topics|
      invariant store == ZeroInit(trend, topics[..i], date)
    {
      assert topics[..i + 1][..i] == topics[..i];
      var topic := topics[i];
      var counts := if topic in store.entries then store.entries[topic] else map[];
      store := Put(store, topic, counts[date := 0]);
      i := i + 1;
    }
    assert topics[..i] == topics;
  }

  /**
   * One pass of the review loop: a review whose fingerprint is not in `seen`
   * adds one to its first matching topic at `date` (when some topic matches)
   * and has its fingerprint recorded in `newSeen`.
   */
  method CountReview(store: TrendStore, newSeen: set<string>, seen: set<string>, review: Review, topics: seq<string>, date: Date, hash: string -> string)
    returns (store': TrendStore, newSeen': set<string>)
    requires Ready(store, topics, date)
    ensures store' == CountOne(store, seen, review, topics, date, hash)
    ensures newSeen' == newSeen + NewSeen(seen, [review], hash)
  {
    store', newSeen' := store, newSeen;
    var reviewHash := Fingerprint(review, hash);
    if reviewHash !in seen {
      var matched := FirstNameMatch(topics, review.text);
      if matched.Some? && matched.value != "" {
        var t := matched.value;
        var counts := store.entries[t];
        store' := Put(store, t, counts[date := counts[date] + 1]);
      }
      newSeen' := newSeen + {reviewHash};
    }
    assert [review][..0] == [];
  }

  /** The review loop of `run`: counts unseen reviews and collects their fingerprints. */
  method CountReviews(zeroed: TrendStore, seen: set<string>, reviews: seq<Review>, topics: seq<string>, date: Date, hash: string -> string)
    returns (store: TrendStore, newSeen: set<string>)
    requires Ready(zeroed, topics, date)
    ensures store == CountAll(zeroed, seen, reviews, topics, date, hash)
    ensures newSeen == FingerprintSet(reviews, hash) - seen
  {
    store := zeroed;
    newSeen := {};
    var j := 0;
    while j < |reviews|
      invariant 0 <= j <= |reviews|
      invariant store == CountAll(zeroed, seen, reviews[..j], topics, date, hash)
      invariant newSeen == NewSeen(seen, reviews[..j], hash)
    {
      assert reviews[..j + 1][..j] == reviews[..j];
      store, newSeen := CountReview(store, newSeen, seen, reviews[j], topics, date, hash);
      j := j + 1;
    }
    assert reviews[..j] == reviews;
    NewSeenIsUnseen(seen, reviews, hash);
  }

  /**
   * `run`: zero the date for every topic, count the reviews not seen on
   * earlier runs, add the batch's fingerprints to the seen set, then apply
   * the window.
   */
  method Run(trend: TrendStore, seen: set<string>, reviews: seq<Review>, topics: seq<string>, date: Date, hash: string -> string)
    returns (trend': TrendStore, seen': set<string>)
    requires Valid(trend)
    ensures trend' == RunTrend(trend, seen, reviews, topics, date, hash) && Valid(trend')
    ensures seen' == seen + FingerprintSet(reviews, hash)
  {
    var store := ZeroTopics(trend, topics, date);
    ZeroInitValid(trend, topics, date);
    var zeroed := store;
    var newSeen;
    store, newSeen := CountReviews(zeroed, seen, reviews, topics, date, hash);
    CountAllValid(zeroed, seen, reviews, topics, date, hash);
    seen' := seen + newSeen;
    trend' := ApplySlidingWindow(store, date);
  }

  /** The trend store `run` leaves behind. */
  function RunTrend(trend: TrendStore, seen: set<string>, rs: seq<Review>, topics: seq<string>, date: Date, hash: string -> string): TrendStore
  {
    Windowed(CountAll(ZeroInit(trend, topics, date), seen, rs, topics, date, hash), date)
  }

  // ----- properties of the stages -----

  lemma {:induction false} ZeroInitValid(trend: TrendStore, topics: seq<string>, date: Date)
    requires Valid(trend)
    ensures Valid(ZeroInit(trend, topics, date))
    decreases |topics|
  {
    if topics != [] {
      var m := |topics| - 1;
      var s := ZeroInit(trend, topics[..m], date);
      ZeroInitValid(trend, topics[..m], date);
      PutValid(s, topics[m], Prior(s, topics[m])[date := 0]);
    }
  }

  lemma {:induction false} CountAllValid(store: TrendStore, seen: set<string>, rs: seq<Review>, topics: seq<string>, date: Date, hash: string -> string)
    requires Valid(store) && Ready(store, topics, date)
    ensures Valid(CountAll(store, seen, rs, topics, date, hash))
    decreases |rs|
  {
    if rs != [] {
      var m := |rs| - 1;
      var s := CountAll(store, seen, rs[..m], topics, date, hash);
      CountAllValid(store, seen, rs[..m], topics, date, hash);
      var t := FirstNameMatch(topics, rs[m].text);
      if t.Some? {
        var counts := s.entries[t.value];
        PutValid(s, t.value, counts[date := counts[date] + 1]);
      }
    }
  }

  /** After the first loop exactly the prior topics and the run's topics have entries. */
  lemma {:induction false} ZeroInitDomain(trend: TrendStore, topics: seq<string>, date: Date)
    ensures forall t :: t in ZeroInit(trend, topics, date).entries <==> t in trend.entries || t in topics
    decreases |topics|
  {
    if topics != [] {
      var m := |topics| - 1;
      ZeroInitDomain(trend, topics[..m], date);
      assert topics == topics[..m] + [topics[m]];
    }
  }

  /** After the first loop, the prior topics come first, then the new ones in order. */
  lemma {:induction false} ZeroInitKeys(trend: TrendStore, topics: seq<string>, date: Date)
    requires Valid(trend)
    ensures ZeroInit(trend, topics, date).keys == AddMissing(trend.keys, topics)
    decreases |topics|
  {
    if topics != [] {
      var m := |topics| - 1;
      ZeroInitKeys(trend, topics[..m], date);
      ZeroInitDomain(trend, topics[..m], date);
    }
  }

  /** After the first loop a topic of `topics` has count 0 at `date` on top of its prior counts; any other topic is untouched. */
  lemma {:induction false} ZeroInitEntry(trend: TrendStore, topics: seq<string>, date: Date, t: string)
    requires t in trend.entries || t in topics
    ensures var r := ZeroInit(trend, topics, date);
      t in r.entries && r.entries[t] == if t in topics then Prior(trend, t)[date := 0] else trend.entries[t]
    decreases |topics|
  {
    if topics != [] {
      var m := |topics| - 1;
      var p := topics[..m];
      var s := ZeroInit(trend, p, date);
      assert topics == p + [topics[m]];
      assert t in topics <==> t in p || t == topics[m];
      ZeroInitDomain(trend, p, date);
      if t in trend.entries || t in p {
        ZeroInitEntry(trend, p, date, t);
      }
      if t == topics[m] {
        if t in p {
          assert Prior(s, t)[date := 0] == Prior(trend, t)[date := 0];
        } else {
          assert Prior(s, t) == Prior(trend, t);
        }
      }
    }
  }

  /** The review loop adds no topic: only existing entries are incremented. */
  lemma {:induction false} CountAllDomain(store: TrendStore, seen: set<string>, rs: seq<Review>, topics: seq<string>, date: Date, hash: string -> string)
    requires Ready(store, topics, date)
    ensures forall t :: t in CountAll(store, seen, rs, topics, date, hash).entries <==> t in store.entries
    decreases |rs|
  {
    if rs != [] {
      CountAllDomain(store, seen, rs[..|rs| - 1], topics, date, hash);
    }
  }

  /** One review adds at most one, to its matched topic at `date`. */
  lemma CountOneEntry(store: TrendStore, seen: set<string>, r: Review, topics: seq<string>, date: Date, hash: string -> string, t: string)
    requires Ready(store, topics, date)
    requires t in store.entries
    ensures var c := CountOne(store, seen, r, topics, date, hash);
      var before := store.entries[t];
      var step := if Fingerprint(r, hash) !in seen && FirstNameMatch(topics, r.text) == Some(t) then 1 else 0;
      t in c.entries && c.entries[t] == if t in topics then before[date := before[date] + step] else before
  {
    var c := CountOne(store, seen, r, topics, date, hash);
    var before := store.entries[t];
    var m := FirstNameMatch(topics, r.text);
    MatchedNameNotEmpty(topics, r.text);
    if Fingerprint(r, hash) in seen || m.None? || m.value != t {
      assert c.entries[t] == before;
      if t in topics {
        assert before[date := before[date] + 0] == before;
      }
    } else {
      assert c.entries == store.entries[t := before[date := before[date] + 1]];
    }
  }

  /** The review loop adds a topic's tally to its count at `date` and touches nothing else. */
  lemma {:induction false} CountAllEntry(store: TrendStore, seen: set<string>, rs: seq<Review>, topics: seq<string>, date: Date, hash: string -> string, t: string)
    requires Ready(store, topics, date)
    requires t in store.entries
    ensures var r := CountAll(store, seen, rs, topics, date, hash);
      var before := store.entries[t];
      t in r.entries && r.entries[t] == if t in topics then before[date := before[date] + Tally(seen, topics, rs, hash, t)] else before
    decreases |rs|
  {
    if rs != [] {
      var m := |rs| - 1;
      var s := CountAll(store, seen, rs[..m], topics, date, hash);
      CountAllEntry(store, seen, rs[..m], topics, date, hash, t);
      CountOneEntry(s, seen, rs[m], topics, date, hash, t);
      var before := store.entries[t];
      if t in topics {
        var k := Tally(seen, topics, rs[..m], hash, t);
        assert s.entries[t] == before[date := before[date] + k];
        assert s.entries[t][date] == before[date] + k;
      }
    }
  }

  /** A review whose fingerprint was seen on an earlier run never changes a tally. */
  lemma {:induction false} SeenReviewIgnored(seen: set<string>, topics: seq<string>, a: seq<Review>, r: Review, b: seq<Review>, hash: string -> string, t: string)
    requires Fingerprint(r, hash) in seen
    ensures Tally(seen, topics, a + [r] + b, hash, t) == Tally(seen, topics, a + b, hash, t)
    decreases |b|
  {
    if b == [] {
      assert (a + [r] + b)[..|a|] == a;
      assert a + b == a;
    } else {
      var m := |b| - 1;
      SeenReviewIgnored(seen, topics, a, r, b[..m], hash, t);
      assert (a + [r] + b)[..|a + [r] + b| - 1] == a + [r] + b[..m];
      assert (a + b)[..|a + b| - 1] == a + b[..m];
    }
  }

  /** Replaying a batch whose fingerprints are all in the seen set counts nothing. */
  lemma {:induction false} ReplayCountsNothing(seen: set<string>, topics: seq<string>, rs: seq<Review>, hash: string -> string, t: string)
    requires FingerprintSet(rs, hash) <= seen
    ensures Tally(seen, topics, rs, hash, t) == 0
    decreases |rs|
  {
    if rs != [] {
      var m := |rs| - 1;
      assert rs == rs[..m] + [rs[m]];
      FingerprintSetSnoc(rs[..m], rs[m], hash);
      ReplayCountsNothing(seen, topics, rs[..m], hash, t);
    }
  }

  /** The dedup is only against earlier runs: the same unseen review twice in one batch counts twice. */
  lemma DuplicateInBatchCountsTwice(seen: set<string>, topics: seq<string>, r: Review, hash: string -> string)
    requires Fingerprint(r, hash) !in seen && FirstNameMatch(topics, r.text).Some?
    ensures Tally(seen, topics, [r, r], hash, FirstNameMatch(topics, r.text).value) == 2
  {
    var t := FirstNameMatch(topics, r.text).value;
    assert [r, r][..1] == [r];
    assert [r][..0] == [];
    assert Tally(seen, topics, [r], hash, t) == 1;
  }

  /** A tally is at most the batch size, and only a topic of `topics` has one. */
  lemma {:induction false} TallyBound(seen: set<string>, topics: seq<string>, rs: seq<Review>, hash: string -> string, t: string)
    ensures Tally(seen, topics, rs, hash, t) <= |rs|
    ensures t !in topics ==> Tally(seen, topics, rs, hash, t) == 0
    decreases |rs|
  {
    if rs != [] {
      TallyBound(seen, topics, rs[..|rs| - 1], hash, t);
    }
  }

  /** A run never removes a topic: the prior topics, in order, then the new ones in order of `topics`. */
  lemma RunTrendKeys(trend: TrendStore, seen: set<string>, rs: seq<Review>, topics: seq<string>, date: Date, hash: string -> string)
    requires Valid(trend)
    ensures RunTrend(trend, seen, rs, topics, date, hash).keys == AddMissing(trend.keys, topics)
  {
    ZeroInitKeys(trend, topics, date);
  }

  /**
   * A topic after a run: for a topic of `topics`, the count at `date` is its
   * tally (any earlier value discarded); every other count kept is the prior
   * one; exactly the dates on or after `date - WINDOW_DAYS` survive.
   */
  lemma RunTopicEffect(trend: TrendStore, seen: set<string>, rs: seq<Review>, topics: seq<string>, date: Date, hash: string -> string, t: string)
    ensures var r := RunTrend(trend, seen, rs, topics, date, hash);
      && (t in r.entries <==> t in trend.entries || t in topics)
      && (t in topics ==> date in r.entries[t] && r.entries[t][date] == Tally(seen, topics, rs, hash, t))
      && (t in r.entries ==> forall d :: d in r.entries[t] <==> d >= date - WINDOW_DAYS && ((t in topics && d == date) || d in Prior(trend, t)))
      && (t in r.entries ==> forall d :: d in r.entries[t] && !(t in topics && d == date) ==> r.entries[t][d] == Prior(trend, t)[d])
  {
    var z := ZeroInit(trend, topics, date);
    ZeroInitDomain(trend, topics, date);
    CountAllDomain(z, seen, rs, topics, date, hash);
    if t in trend.entries || t in topics {
      ZeroInitEntry(trend, topics, date, t);
      CountAllEntry(z, seen, rs, topics, date, hash, t);
    }
  }

  /** Counts stay non-negative: they start at 0 and are only incremented. */
  lemma RunKeepsCountsNonNegative(trend: TrendStore, seen: set<string>, rs: seq<Review>, topics: seq<string>, date: Date, hash: string -> string)
    requires forall t, d :: t in trend.entries && d in trend.entries[t] ==> trend.entries[t][d] >= 0
    ensures var r := RunTrend(trend, seen, rs, topics, date, hash);
      forall t, d :: t in r.entries && d in r.entries[t] ==> r.entries[t][d] >= 0
  {
    var r := RunTrend(trend, seen, rs, topics, date, hash);
    forall t, d | t in r.entries && d in r.entries[t] ensures r.entries[t][d] >= 0 {
      RunTopicEffect(trend, seen, rs, topics, date, hash, t);
    }
  }

  /** Running the same batch again, on the seen set the first run left, resets the date's counts to 0. */
  lemma ReplayResetsCounts(trend: TrendStore, seen: set<string>, rs: seq<Review>, topics: seq<string>, date: Date, hash: string -> string, t: string)
    requires t in topics
    ensures var r := RunTrend(trend, seen + FingerprintSet(rs, hash), rs, topics, date, hash);
      r.entries[t][date] == 0
  {
    RunTopicEffect(trend, seen + FingerprintSet(rs, hash), rs, topics, date, hash, t);
    ReplayCountsNothing(seen + FingerprintSet(rs, hash), topics, rs, hash, t);
  }
}
