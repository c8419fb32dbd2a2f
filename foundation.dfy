/** Option, as the Python code's `None`-or-value returns. */
module Wrappers {
  datatype Option<+T> = None | Some(value: T)
}

/** Calendar dates are day numbers: consecutive days differ by one. */
module Calendar {
  type Date = int
}

/**
 * Python's `dict` keyed by strings: an insertion-ordered dictionary.
 * `keys` is the iteration order, `entries` the key-value mapping.
 */
module OrderedDict {
  datatype Dict<V> = Dict(keys: seq<string>, entries: map<string, V>)

  ghost predicate Distinct(s: seq<string>) {
    forall i, j :: 0 <= i < j < |s| ==> s[i] != s[j]
  }

  /** The representation invariant: every key once, in `keys` exactly when in `entries`. */
  ghost predicate Valid<V>(d: Dict<V>) {
    && Distinct(d.keys)
    && forall k :: k in d.entries <==> k in d.keys
  }

  function Empty<V>(): (d: Dict<V>)
    ensures Valid(d) && d.keys == []
  {
    Dict([], map[])
  }

  /** `d[k] = v`: a new key goes to the end, an existing key keeps its place. */
  function Put<V>(d: Dict<V>, k: string, v: V): (r: Dict<V>)
    ensures r.entries == d.entries[k := v]
    ensures r.keys == if k in d.entries then d.keys else d.keys + [k]
  {
    if k in d.entries then Dict(d.keys, d.entries[k := v])
    else Dict(d.keys + [k], d.entries[k := v])
  }

  /** Put keeps the representation invariant. */
  lemma PutValid<V>(d: Dict<V>, k: string, v: V)
    requires Valid(d)
    ensures Valid(Put(d, k, v))
  {
    var r := Put(d, k, v);
    if k !in d.entries {
      assert forall i :: 0 <= i < |d.keys| ==> r.keys[i] == d.keys[i] != k;
    }
  }

  /**
   * `keys` followed by every name of `names` that is not already there,
   * each once, in the order the names first occur: the key sequence of a
   * dict after `d.setdefault(name, ...)` (or `if name not in d: d[name] = ...`)
   * for each name in turn.
   */
  function AddMissing(keys: seq<string>, names: seq<string>): (r: seq<string>)
    ensures keys <= r
    ensures forall x :: x in r <==> x in keys || x in names
    ensures Distinct(keys) ==> Distinct(r)
    decreases |names|
  {
    if names == [] then keys
    else
      var r := AddMissing(keys, names[..|names| - 1]);
      var n := names[|names| - 1];
      if n in r then r else r + [n]
  }

  /** Index of the first occurrence of `x` in `s`. */
  function FirstIndex(s: seq<string>, x: string): (i: nat)
    requires x in s
    ensures i < |s| && s[i] == x
    ensures forall j :: 0 <= j < i ==> s[j] != x
  {
    if s[0] == x then 0 else 1 + FirstIndex(s[1..], x)
  }

  lemma {:induction false} FirstIndexOfPrefix(s: seq<string>, n: nat, x: string)
    requires n <= |s| && x in s[..n]
    ensures FirstIndex(s, x) == FirstIndex(s[..n], x)
  {
    var i := FirstIndex(s[..n], x);
    var j := FirstIndex(s, x);
    assert s[i] == x;
    assert s[..n][j] == x by { assert j <= i; }
  }

  /** Dropping the first key keeps the keys distinct and shifts every later first index by one. */
  lemma DistinctTail(s: seq<string>)
    requires Distinct(s) && s != []
    ensures Distinct(s[1..])
    ensures forall x :: x in s[1..] ==> x != s[0] && FirstIndex(s, x) == 1 + FirstIndex(s[1..], x)
  {
    forall x | x in s[1..] ensures x != s[0] {
      var n := FirstIndex(s[1..], x);
      assert s[n + 1] == x;
    }
  }

  /**
   * The entries of `r` after the first `|keys|` all occur in `names`, in order
   * of their first occurrence there.
   */
  ghost predicate AppendedInOrder(keys: seq<string>, names: seq<string>, r: seq<string>) {
    forall i, j :: |keys| <= i < j < |r| ==>
      r[i] in names && r[j] in names && FirstIndex(names, r[i]) < FirstIndex(names, r[j])
  }

  /** The names that AddMissing appends come in order of their first occurrence in `names`. */
  lemma {:induction false} AddMissingFirstOccurrenceOrder(keys: seq<string>, names: seq<string>)
    ensures AppendedInOrder(keys, names, AddMissing(keys, names))
    decreases |names|
  {
    if names != [] {
      var m := |names| - 1;
      var p := names[..m];
      var r0 := AddMissing(keys, p);
      AddMissingFirstOccurrenceOrder(keys, p);
      AppendedInOrderExtend(keys, names, r0);
      if names[m] !in r0 {
        AppendedInOrderSnoc(keys, names, r0);
      }
    }
  }

  /** Appended names keep their first indices when one more name follows. */
  lemma AppendedInOrderExtend(keys: seq<string>, names: seq<string>, r0: seq<string>)
    requires names != [] && r0 == AddMissing(keys, names[..|names| - 1])
    requires AppendedInOrder(keys, names[..|names| - 1], r0)
    ensures AppendedInOrder(keys, names, r0)
    ensures forall i :: |keys| <= i < |r0| ==> r0[i] in names[..|names| - 1] && FirstIndex(names, r0[i]) < |names| - 1
  {
    var m := |names| - 1;
    var p := names[..m];
    forall i | |keys| <= i < |r0|
      ensures r0[i] in p && FirstIndex(names, r0[i]) == FirstIndex(p, r0[i]) < m
    {
      NewKeyNotInKeys(keys, p, i);
      FirstIndexOfPrefix(names, m, r0[i]);
    }
  }

  /** A last name not yet present is appended after all the others, with the largest first index. */
  lemma AppendedInOrderSnoc(keys: seq<string>, names: seq<string>, r0: seq<string>)
    requires names != [] && r0 == AddMissing(keys, names[..|names| - 1])
    requires names[|names| - 1] !in r0
    requires AppendedInOrder(keys, names, r0)
    requires forall i :: |keys| <= i < |r0| ==> r0[i] in names[..|names| - 1] && FirstIndex(names, r0[i]) < |names| - 1
    ensures AppendedInOrder(keys, names, r0 + [names[|names| - 1]])
  {
    var m := |names| - 1;
    var n := names[m];
    assert names == names[..m] + [n];
    assert n !in names[..m];
    assert FirstIndex(names, n) == m;
    var r := r0 + [n];
    forall i, j | |keys| <= i < j < |r|
      ensures r[i] in names && r[j] in names && FirstIndex(names, r[i]) < FirstIndex(names, r[j])
    {
      if j < |r0| {
        assert r[i] == r0[i] && r[j] == r0[j];
      } else {
        assert r[i] == r0[i] && r[j] == n;
      }
    }
  }

  /** What AddMissing appends was not among the keys, provided the keys are distinct. */
  lemma {:induction false} NewKeyNotInKeys(keys: seq<string>, names: seq<string>, i: nat)
    requires |keys| <= i < |AddMissing(keys, names)|
    ensures AddMissing(keys, names)[i] in names
    decreases |names|
  {
    var r := AddMissing(keys, names);
    if names != [] {
      var p := names[..|names| - 1];
      var r0 := AddMissing(keys, p);
      if i < |r0| {
        NewKeyNotInKeys(keys, p, i);
        assert r[i] == r0[i];
        assert r[i] in p;
        assert p <= names;
      } else {
        assert r[i] == names[|names| - 1];
      }
    }
  }
}

/** Character and string helpers with Python's semantics, restricted to ASCII case. */
module Text {
  /** The characters Python's `str.isspace()` (and the regular expression `\s`) accept. */
  predicate IsSpace(c: char) {
    || c == ' '
    || '\t' <= c <= '\r'
    || '\U{1c}' <= c <= '\U{1f}'
    || c == '\U{85}' || c == '\U{a0}' || c == '\U{1680}'
    || '\U{2000}' <= c <= '\U{200a}'
    || c == '\U{2028}' || c == '\U{2029}' || c == '\U{202f}' || c == '\U{205f}' || c == '\U{3000}'
  }

  /** The class `[a-z0-9]`. */
  predicate IsLowerAlnum(c: char) {
    'a' <= c <= 'z' || '0' <= c <= '9'
  }

  /** `str.lower()` on one character, for ASCII letters. */
  function LowerChar(c: char): char {
    if 'A' <= c <= 'Z' then (c as int + 32) as char else c
  }

  function Lower(s: string): string {
    seq(|s|, i requires 0 <= i < |s| => LowerChar(s[i]))
  }

  /** `str.lstrip()`: drops the leading whitespace. */
  function LStrip(s: string): (r: string)
    ensures |r| <= |s|
  {
    if s != [] && IsSpace(s[0]) then LStrip(s[1..]) else s
  }

  /** LStrip leaves a suffix that starts with a non-space, after a run of whitespace. */
  lemma LStripFacts(s: string)
    ensures var r := LStrip(s);
      && r == s[|s| - |r|..]
      && (r == [] || !IsSpace(r[0]))
      && forall i :: 0 <= i < |s| - |r| ==> IsSpace(s[i])
  {
    if s != [] && IsSpace(s[0]) {
      LStripFacts(s[1..]);
    }
  }

  /** `str.rstrip()`: drops the trailing whitespace. */
  function RStrip(s: string): (r: string)
    ensures |r| <= |s|
  {
    if s != [] && IsSpace(s[|s| - 1]) then RStrip(s[..|s| - 1]) else s
  }

  /** RStrip leaves a prefix that ends with a non-space, before a run of whitespace. */
  lemma RStripFacts(s: string)
    ensures var r := RStrip(s);
      && r == s[..|r|]
      && (r == [] || !IsSpace(r[|r| - 1]))
      && forall i :: |r| <= i < |s| ==> IsSpace(s[i])
  {
    if s != [] && IsSpace(s[|s| - 1]) {
      RStripFacts(s[..|s| - 1]);
    }
  }

  /** `str.strip()`. */
  function Strip(s: string): string {
    RStrip(LStrip(s))
  }

  /** Length of the leading run of non-whitespace characters. */
  function TokenLength(s: string): (n: nat)
    ensures n <= |s|
    ensures forall i :: 0 <= i < n ==> !IsSpace(s[i])
    ensures n == |s| || IsSpace(s[n])
  {
    if s == [] || IsSpace(s[0]) then 0 else 1 + TokenLength(s[1..])
  }

  /** `str.split()` with no separator: the maximal runs of non-whitespace characters. */
  function Words(s: string): (ws: seq<string>)
    ensures forall i :: 0 <= i < |ws| ==> ws[i] != [] && forall j :: 0 <= j < |ws[i]| ==> !IsSpace(ws[i][j])
    decreases |s|
  {
    var t := LStrip(s);
    LStripFacts(s);
    if t == [] then []
    else
      var n := TokenLength(t);
      [t[..n]] + Words(t[n..])
  }

  /** Python's `w in text` on strings: `w` occurs in `text` as a substring. */
  predicate Contains(text: string, w: string) {
    exists i :: 0 <= i <= |text| && w <= text[i..]
  }

  /** Python's `any(k in text for k in keys)`. */
  predicate AnyContained(keys: seq<string>, text: string) {
    exists i :: 0 <= i < |keys| && Contains(text, keys[i])
  }

  /** A string made of whitespace only has no words. */
  lemma BlankHasNoWords(s: string)
    requires forall i :: 0 <= i < |s| ==> IsSpace(s[i])
    ensures Words(s) == []
  {
    LStripFacts(s);
  }
}

/**
 * The matching rule with which both the candidate-topic discovery (seed
 * topics) and the trend counter (canonical topics) classify a review: some
 * word of the lowercased topic name is a substring of the lowercased text.
 */
module Matching {
  import opened Wrappers
  import opened Text
  import opened OrderedDict

  /** Some whitespace-separated word of the lowercased name is a substring of the lowercased text. */
  predicate NameMatches(name: string, text: string) {
    AnyContained(Words(Lower(name)), Lower(text))
  }

  /** `_match_review_to_topic` / `_match_seed_topic`: the first name, in sequence order, that matches `text`. */
  function FirstNameMatch(names: seq<string>, text: string): (r: Option<string>)
    ensures r.Some? ==> r.value in names
  {
    if names == [] then None
    else if NameMatches(names[0], text) then Some(names[0])
    else FirstNameMatch(names[1..], text)
  }

  /** The match is the first matching name in sequence order; None exactly when no name matches. */
  lemma {:induction false} FirstNameMatchSpec(names: seq<string>, text: string)
    ensures var r := FirstNameMatch(names, text);
      && (r.None? <==> forall i :: 0 <= i < |names| ==> !NameMatches(names[i], text))
      && (r.Some? ==>
            && NameMatches(r.value, text)
            && forall j :: 0 <= j < FirstIndex(names, r.value) ==> !NameMatches(names[j], text))
  {
    if names != [] && !NameMatches(names[0], text) {
      FirstNameMatchSpec(names[1..], text);
      var r := FirstNameMatch(names, text);
      if r.Some? {
        var k := FirstIndex(names[1..], r.value);
        assert names[0] != r.value;
        assert FirstIndex(names, r.value) == 1 + k;
      }
    }
  }

  /** A name made of whitespace only (including "") never matches. */
  lemma {:induction false} BlankNameNeverMatches(name: string, text: string)
    requires forall i :: 0 <= i < |name| ==> IsSpace(name[i])
    ensures !NameMatches(name, text)
  {
    var ln := Lower(name);
    forall i | 0 <= i < |ln| ensures IsSpace(ln[i]) {
      assert ln[i] == LowerChar(name[i]);
    }
    BlankHasNoWords(ln);
  }

  /** A name that matches is never the falsy empty string. */
  lemma MatchedNameNotEmpty(names: seq<string>, text: string)
    ensures FirstNameMatch(names, text) != Some("")
  {
    FirstNameMatchSpec(names, text);
    if FirstNameMatch(names, text) == Some("") {
      BlankNameNeverMatches("", text);
    }
  }
}
