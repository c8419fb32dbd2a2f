/**
 * The text cleaner: lowercases each review, turns every character outside
 * `[a-z0-9\s]` into a space, collapses whitespace runs to one space, strips
 * the ends, and drops the reviews whose text comes out empty.
 */
module CleanerMemory {
  import opened Wrappers
  import opened Text

  /** A review as fetched; a missing "text" reads as "", a missing "rating" as None. */
  datatype RawReview = RawReview(text: string, rating: Option<int>)

  /** A cleaned review, as every later stage receives it. */
  datatype Review = Review(text: string, rating: Option<int>)

  /** Only `[a-z0-9]` and the space character, and never two spaces in a row. */
  ghost predicate IsCleanBody(t: string) {
    && (forall i :: 0 <= i < |t| ==> IsLowerAlnum(t[i]) || t[i] == ' ')
    && (forall i, j :: 0 <= i < j < |t| && j == i + 1 ==> !(t[i] == ' ' && t[j] == ' '))
  }

  /** The normal form the cleaner produces: a clean body with no space at either end. */
  ghost predicate IsClean(t: string) {
    IsCleanBody(t) && (t != [] ==> t[0] != ' ' && t[|t| - 1] != ' ')
  }

  /** The letters and digits of `s`, in order. */
  function KeepAlnum(s: string): string {
    if s == [] then []
    else (if IsLowerAlnum(s[0]) then [s[0]] else []) + KeepAlnum(s[1..])
  }

  /** `re.sub(r"[^a-z0-9\s]", " ", text)`. */
  function ReplaceSpecial(s: string): string {
    seq(|s|, i requires 0 <= i < |s| => if IsLowerAlnum(s[i]) || IsSpace(s[i]) then s[i] else ' ')
  }

  /** `re.sub(r"\s+", " ", text)`: each maximal run of whitespace becomes one space. */
  function CollapseSpace(s: string): string
    decreases |s|
  {
    if s == [] then []
    else if IsSpace(s[0]) then
      assert |LStrip(s)| < |s| by { LStripFacts(s); }
      [' '] + CollapseSpace(LStrip(s))
    else [s[0]] + CollapseSpace(s[1..])
  }

  /** `_clean_text`: lowercase, replace the special characters, collapse whitespace, strip. */
  function CleanText(s: string): string {
    Strip(CollapseSpace(ReplaceSpecial(Lower(s))))
  }

  /**
   * The cleaned text is in the cleaner's normal form and holds exactly the
   * letters and digits of the lowercased input, in order.
   */
  lemma CleanTextFacts(s: string)
    ensures IsClean(CleanText(s))
    ensures KeepAlnum(CleanText(s)) == KeepAlnum(Lower(s))
  {
    var x := ReplaceSpecial(Lower(s));
    CollapseSpaceFacts(x);
    StripFacts(CollapseSpace(x));
    KeepAlnumReplaceSpecial(Lower(s));
  }

  // ----- the pieces of CleanText -----

  lemma {:induction false} KeepAlnumConcat(a: string, b: string)
    ensures KeepAlnum(a + b) == KeepAlnum(a) + KeepAlnum(b)
  {
    if a == [] {
      assert a + b == b;
    } else {
      var h := if IsLowerAlnum(a[0]) then [a[0]] else [];
      assert (a + b)[1..] == a[1..] + b;
      assert KeepAlnum(a + b) == h + KeepAlnum(a[1..] + b);
      KeepAlnumConcat(a[1..], b);
      assert KeepAlnum(a) == h + KeepAlnum(a[1..]);
    }
  }

  lemma {:induction false} KeepAlnumOfSpaces(s: string)
    requires forall i :: 0 <= i < |s| ==> IsSpace(s[i])
    ensures KeepAlnum(s) == []
  {
    if s != [] {
      KeepAlnumOfSpaces(s[1..]);
    }
  }

  lemma {:induction false} KeepAlnumReplaceSpecial(s: string)
    ensures KeepAlnum(ReplaceSpecial(s)) == KeepAlnum(s)
  {
    if s != [] {
      assert ReplaceSpecial(s)[1..] == ReplaceSpecial(s[1..]);
      KeepAlnumReplaceSpecial(s[1..]);
    }
  }

  /** CollapseSpace turns a string of `[a-z0-9]` and whitespace into a clean body with the same letters and digits. */
  lemma CollapseSpaceFacts(x: string)
    requires forall i :: 0 <= i < |x| ==> IsLowerAlnum(x[i]) || IsSpace(x[i])
    ensures IsCleanBody(CollapseSpace(x))
    ensures KeepAlnum(CollapseSpace(x)) == KeepAlnum(x)
  {
    CollapseSpaceShape(x);
    CollapseSpaceKeepsAlnum(x);
  }

  /** The collapsed string is a clean body, empty only for empty input, and starts with a space exactly when the input does. */
  lemma {:induction false} CollapseSpaceShape(x: string)
    requires forall i :: 0 <= i < |x| ==> IsLowerAlnum(x[i]) || IsSpace(x[i])
    ensures IsCleanBody(CollapseSpace(x))
    ensures CollapseSpace(x) == [] <==> x == []
    ensures x != [] ==> (CollapseSpace(x)[0] == ' ' <==> IsSpace(x[0]))
    decreases |x|
  {
    if x == [] {
    } else if IsSpace(x[0]) {
      var l := LStrip(x);
      LStripFacts(x);
      assert l == x[|x| - |l|..];
      CollapseSpaceShape(l);
      var c := CollapseSpace(l);
      assert CollapseSpace(x) == [' '] + c;
      assert c != [] ==> c[0] != ' ';
    } else {
      CollapseSpaceShape(x[1..]);
      assert CollapseSpace(x) == [x[0]] + CollapseSpace(x[1..]);
    }
  }

  /** Collapsing whitespace keeps every letter and digit, in order. */
  lemma {:induction false} CollapseSpaceKeepsAlnum(x: string)
    ensures KeepAlnum(CollapseSpace(x)) == KeepAlnum(x)
    decreases |x|
  {
    if x == [] {
    } else if IsSpace(x[0]) {
      var l := LStrip(x);
      var k := |x| - |l|;
      LStripFacts(x);
      assert l == x[k..];
      CollapseSpaceKeepsAlnum(l);
      var c := CollapseSpace(l);
      assert x == x[..k] + l;
      KeepAlnumConcat(x[..k], l);
      KeepAlnumOfSpaces(x[..k]);
      KeepAlnumConcat([' '], c);
    } else {
      CollapseSpaceKeepsAlnum(x[1..]);
      var c := CollapseSpace(x[1..]);
      assert x == [x[0]] + x[1..];
      KeepAlnumConcat([x[0]], x[1..]);
      KeepAlnumConcat([x[0]], c);
    }
  }

  /** A slice of a clean body is a clean body. */
  lemma SliceOfCleanBody(y: string, a: nat, b: nat)
    requires IsCleanBody(y) && a <= b <= |y|
    ensures IsCleanBody(y[a..b])
  {
    var z := y[a..b];
    assert forall i :: 0 <= i < |z| ==> z[i] == y[a + i];
  }

  /** `str.strip()` of a clean body is clean and keeps every letter and digit. */
  lemma StripFacts(y: string)
    requires IsCleanBody(y)
    ensures IsClean(Strip(y))
    ensures KeepAlnum(Strip(y)) == KeepAlnum(y)
  {
    StripIsClean(y);
    var l := LStrip(y);
    LStripFacts(y);
    RStripFacts(l);
    StripKeepsAlnum(y, l, |y| - |l|, RStrip(l));
  }

  lemma StripIsClean(y: string)
    requires IsCleanBody(y)
    ensures IsClean(Strip(y))
  {
    var l := LStrip(y);
    var a := |y| - |l|;
    var r := RStrip(l);
    LStripFacts(y);
    RStripFacts(l);
    assert r == y[a..a + |r|] by {
      assert l == y[a..];
      assert r == l[..|r|];
    }
    SliceOfCleanBody(y, a, a + |r|);
    assert r != [] ==> r[0] != ' ' && r[|r| - 1] != ' ' by {
      assert r == [] || !IsSpace(r[|r| - 1]);
      assert r == [] || !IsSpace(l[0]);
    }
  }

  lemma StripKeepsAlnum(y: string, l: string, a: nat, r: string)
    requires a <= |y| && l == y[a..] && |r| <= |l| && r == l[..|r|]
    requires forall i :: 0 <= i < a ==> IsSpace(y[i])
    requires forall i :: |r| <= i < |l| ==> IsSpace(l[i])
    ensures KeepAlnum(r) == KeepAlnum(y)
  {
    assert y == y[..a] + (r + l[|r|..]);
    KeepAlnumConcat(y[..a], r + l[|r|..]);
    KeepAlnumConcat(r, l[|r|..]);
    KeepAlnumOfSpaces(y[..a]);
    KeepAlnumOfSpaces(l[|r|..]);
  }

  // ----- properties of the cleaner -----

  /** Text already in the normal form comes out unchanged. */
  lemma CleanTextFixesCleanText(t: string)
    requires IsClean(t)
    ensures CleanText(t) == t
  {
    assert Lower(t) == t;
    assert ReplaceSpecial(t) == t;
    CollapseFixesCleanBody(t);
    assert LStrip(t) == t;
    assert RStrip(t) == t;
  }

  lemma {:induction false} CollapseFixesCleanBody(t: string)
    requires IsCleanBody(t)
    ensures CollapseSpace(t) == t
    decreases |t|
  {
    if t != [] {
      CollapseFixesCleanBody(t[1..]);
      if t[0] == ' ' {
        assert LStrip(t[1..]) == t[1..] by {
          assert t[1..] == [] || !IsSpace(t[1]);
        }
        assert LStrip(t) == t[1..];
      }
    }
  }

  /** `_clean_text` is idempotent. */
  lemma CleanTextIdempotent(s: string)
    ensures CleanText(CleanText(s)) == CleanText(s)
  {
    CleanTextFacts(s);
    CleanTextFixesCleanText(CleanText(s));
  }

  /** A text cleans to "" exactly when it holds no ASCII letter and no digit. */
  lemma CleanTextEmptyIff(s: string)
    ensures CleanText(s) == [] <==> KeepAlnum(Lower(s)) == []
  {
    var t := CleanText(s);
    CleanTextFacts(s);
    if t != [] {
      assert IsLowerAlnum(t[0]);
      assert KeepAlnum(t) == [t[0]] + KeepAlnum(t[1..]);
    }
  }

  // ----- the run over a batch -----

  /** What one raw review contributes to the cleaned batch: nothing when its text cleans to "". */
  function CleanOne(r: RawReview): seq<Review> {
    var t := CleanText(r.text);
    if t == [] then [] else [Review(t, r.rating)]
  }

  /** The cleaned batch: each review's contribution, in input order. */
  function CleanAll(rs: seq<RawReview>): seq<Review>
    decreases |rs|
  {
    if rs == [] then [] else CleanAll(rs[..|rs| - 1]) + CleanOne(rs[|rs| - 1])
  }

  /** The cleaned batch is never longer than the input, and every text in it is clean and non-empty. */
  lemma {:induction false} CleanAllShape(rs: seq<RawReview>)
    ensures |CleanAll(rs)| <= |rs|
    ensures forall k :: 0 <= k < |CleanAll(rs)| ==> CleanAll(rs)[k].text != [] && IsClean(CleanAll(rs)[k].text)
    decreases |rs|
  {
    if rs != [] {
      CleanAllShape(rs[..|rs| - 1]);
      CleanTextFacts(rs[|rs| - 1].text);
    }
  }

  /** `run`: the loop that appends each non-empty cleaned review. */
  method Run(reviews: seq<RawReview>) returns (cleaned: seq<Review>)
    ensures cleaned == CleanAll(reviews)
    ensures |cleaned| <= |reviews|
    ensures forall k :: 0 <= k < |cleaned| ==> cleaned[k].text != [] && IsClean(cleaned[k].text)
  {
    cleaned := [];
    var i := 0;
    while i < |reviews|
      invariant 0 <= i <= |reviews|
      invariant cleaned == CleanAll(reviews[..i])
    {
      var text := reviews[i].text;
      var rating := reviews[i].rating;
      var cleanedText := CleanText(text);
      if cleanedText != [] {
        cleaned := cleaned + [Review(cleanedText, rating)];
      }
      assert reviews[..i + 1][..i] == reviews[..i];
      i := i + 1;
    }
    assert reviews[..i] == reviews;
    CleanAllShape(reviews);
  }

  /** Cleaning a concatenated batch cleans each part: input order is kept. */
  lemma {:induction false} CleanAllConcat(a: seq<RawReview>, b: seq<RawReview>)
    ensures CleanAll(a + b) == CleanAll(a) + CleanAll(b)
    decreases |b|
  {
    if b != [] {
      var m := |b| - 1;
      assert (a + b)[..|a + b| - 1] == a + b[..m];
      CleanAllConcat(a, b[..m]);
    } else {
      assert a + b == a;
    }
  }

  /** Review `r` is kept by the cleaner, and comes out as `o`. */
  predicate CleansTo(r: RawReview, o: Review) {
    CleanText(r.text) != [] && o == Review(CleanText(r.text), r.rating)
  }

  /** Every review whose text cleans to something non-empty is in the cleaned batch. */
  lemma {:induction false} CleanAllKeeps(rs: seq<RawReview>, i: nat)
    requires i < |rs| && CleanText(rs[i].text) != []
    ensures Review(CleanText(rs[i].text), rs[i].rating) in CleanAll(rs)
    decreases |rs|
  {
    var m := |rs| - 1;
    var p := rs[..m];
    var r := rs[i];
    var o := Review(CleanText(r.text), r.rating);
    assert CleanAll(rs) == CleanAll(p) + CleanOne(rs[m]);
    if i < m {
      assert p[i] == r;
      CleanAllKeeps(p, i);
    } else {
      assert rs[m] == r;
      assert o in CleanOne(r);
    }
  }

  /** Everything in the cleaned batch is the cleaned form of some input review. */
  lemma {:induction false} CleanAllFrom(rs: seq<RawReview>, o: Review)
    requires o in CleanAll(rs)
    ensures exists i :: 0 <= i < |rs| && CleansTo(rs[i], o)
    decreases |rs|
  {
    var m := |rs| - 1;
    var p := rs[..m];
    if o in CleanAll(p) {
      CleanAllFrom(p, o);
      var i :| 0 <= i < m && CleansTo(p[i], o);
      assert rs[i] == p[i];
    } else {
      assert CleansTo(rs[m], o);
    }
  }

  /**
   * The cleaned batch holds exactly the reviews whose text cleans to something
   * non-empty, each with the cleaned text and the rating copied unchanged.
   */
  lemma CleanAllMembers(rs: seq<RawReview>, o: Review)
    ensures o in CleanAll(rs) <==> exists i :: 0 <= i < |rs| && CleansTo(rs[i], o)
  {
    if o in CleanAll(rs) {
      CleanAllFrom(rs, o);
    }
    if exists i :: 0 <= i < |rs| && CleansTo(rs[i], o) {
      var i :| 0 <= i < |rs| && CleansTo(rs[i], o);
      CleanAllKeeps(rs, i);
    }
  }
}
