/** How the note transformer runs its regular expressions, independent of any one of them:
    `matchAll` with the global flag (every match, left to right, each search resuming where
    the previous match ended) and `replace` with the global flag (the same matches, each
    substituted, the text between them kept). A regular expression is seen here only as a
    matcher: the function that gives the match starting at an offset, if there is one. */
module Matching {
  import opened Wrappers
  import opened Text

  /** One match: the whole matched text, the first capture group and the match's offset. */
  datatype Match = Match(text: string, name: string, index: nat)

  type Matcher = (string, nat) -> Option<Match>

  /** A matcher answers with a non-empty piece of the text at the offset it is asked about. */
  ghost predicate Anchored(f: Matcher) {
    forall s: string, p: nat {:trigger Hits(f, s, p)} :: p <= |s| && Hits(f, s, p) ==> FoundAt(s, p, f(s, p).value)
  }

  predicate FoundAt(s: string, p: nat, m: Match) {
    m.index == p && 0 < |m.text| && p + |m.text| <= |s| && m.text == s[p..p + |m.text|]
  }

  /** `f` matches at `p`. A name of its own, so that the search below has a trigger that
      facts about single matches do not create. */
  predicate Hits(f: Matcher, s: string, p: nat) {
    f(s, p).Some?
  }

  predicate Covers(m: Match, p: int) {
    m.index <= p < m.index + |m.text|
  }

  /** Each match ends before any later one starts. */
  predicate Ordered(ms: seq<Match>) {
    forall i, j :: 0 <= i < j < |ms| ==> ms[i].index + |ms[i].text| <= ms[j].index
  }

  ghost predicate CoveredBy(ms: seq<Match>, p: int) {
    exists k :: 0 <= k < |ms| && Covers(ms[k], p)
  }

  /** Every element of `ms` is what `f` finds at the element's own offset, from `from` on. */
  ghost predicate AllMatches(s: string, from: nat, f: Matcher, ms: seq<Match>) {
    forall k :: 0 <= k < |ms| ==> from <= ms[k].index <= |s| && f(s, ms[k].index) == Some(ms[k])
  }

  /** Every offset from `from` on at which `f` matches lies inside an element of `ms`. */
  ghost predicate NoneSkipped(s: string, from: nat, f: Matcher, ms: seq<Match>) {
    forall p: nat :: from <= p < |s| && Hits(f, s, p) ==> CoveredBy(ms, p)
  }

  /** `ms` is what a global search with `f` from offset `from` finds: every element is a
      match at its own offset, the matches are in order and do not overlap, and every offset
      at which `f` matches lies inside one of them (so none was skipped). */
  ghost predicate IsLeftmostScan(s: string, from: nat, f: Matcher, ms: seq<Match>) {
    AllMatches(s, from, f, ms) && Ordered(ms) && NoneSkipped(s, from, f, ms)
  }

  /** `matchAll` from offset `from`: try each offset in turn, and after a match resume at
      its end. */
  function Scan(s: string, from: nat, f: Matcher): seq<Match>
    requires from <= |s| && Anchored(f)
    decreases |s| - from
  {
    if from == |s| then []
    else if Hits(f, s, from) then
      var m := f(s, from).value;
      [m] + Scan(s, from + |m.text|, f)
    else Scan(s, from + 1, f)
  }

  /** One step of the search. */
  lemma ScanStep(s: string, from: nat, f: Matcher)
    requires from < |s| && Anchored(f)
    ensures Hits(f, s, from) ==>
      var m := f(s, from).value;
      FoundAt(s, from, m) && Scan(s, from, f) == [m] + Scan(s, from + |m.text|, f)
    ensures !Hits(f, s, from) ==> f(s, from).None? && Scan(s, from, f) == Scan(s, from + 1, f)
  {
  }

  /** What `Scan` returns is the leftmost scan. */
  lemma {:induction false} ScanIsLeftmost(s: string, from: nat, f: Matcher)
    requires from <= |s| && Anchored(f)
    ensures IsLeftmostScan(s, from, f, Scan(s, from, f))
    decreases |s| - from
  {
    if from < |s| {
      ScanStep(s, from, f);
      if Hits(f, s, from) {
        var m := f(s, from).value;
        ScanIsLeftmost(s, from + |m.text|, f);
        LeftmostCons(s, from, f, m, Scan(s, from + |m.text|, f));
      } else {
        ScanIsLeftmost(s, from + 1, f);
        LeftmostUnskip(s, from, f, Scan(s, from + 1, f));
      }
    }
  }

  /** Without a match at `from`, a leftmost scan from `from + 1` is also one from `from`. */
  lemma LeftmostUnskip(s: string, from: nat, f: Matcher, ms: seq<Match>)
    requires from < |s| && f(s, from).None? && IsLeftmostScan(s, from + 1, f, ms)
    ensures IsLeftmostScan(s, from, f, ms)
  {
    forall p: nat | from <= p < |s| && Hits(f, s, p) ensures CoveredBy(ms, p) {
      assert p != from;
    }
  }

  /** A match at `from` followed by the leftmost scan from its end is the leftmost scan
      from `from`. */
  lemma LeftmostCons(s: string, from: nat, f: Matcher, m: Match, rest: seq<Match>)
    requires from < |s| && Anchored(f) && f(s, from) == Some(m)
    requires IsLeftmostScan(s, from + |m.text|, f, rest)
    ensures IsLeftmostScan(s, from, f, [m] + rest)
  {
    var ms := [m] + rest;
    assert Hits(f, s, from) && FoundAt(s, from, m);
    assert AllMatches(s, from, f, ms) by {
      forall k | 0 <= k < |ms| ensures from <= ms[k].index <= |s| && f(s, ms[k].index) == Some(ms[k]) {
        if k > 0 {
          assert ms[k] == rest[k - 1];
        }
      }
    }
    assert Ordered(ms) by {
      forall i, j | 0 <= i < j < |ms| ensures ms[i].index + |ms[i].text| <= ms[j].index {
        assert ms[j] == rest[j - 1];
        if i > 0 {
          assert ms[i] == rest[i - 1];
        }
      }
    }
    forall p: nat | from <= p < |s| && Hits(f, s, p) ensures CoveredBy(ms, p) {
      if p < from + |m.text| {
        assert Covers(ms[0], p);
      } else {
        var k :| 0 <= k < |rest| && Covers(rest[k], p);
        assert Covers(ms[k + 1], p);
      }
    }
  }

  /** The leftmost scan is unique: `Scan` is the only sequence of matches with those three
      properties. */
  lemma ScanUnique(s: string, from: nat, f: Matcher, ms: seq<Match>)
    requires from <= |s| && Anchored(f)
    ensures IsLeftmostScan(s, from, f, ms) <==> ms == Scan(s, from, f)
  {
    ScanIsLeftmost(s, from, f);
    if IsLeftmostScan(s, from, f, ms) {
      LeftmostIsScan(s, from, f, ms);
    }
  }

  lemma {:induction false} LeftmostIsScan(s: string, from: nat, f: Matcher, ms: seq<Match>)
    requires from <= |s| && Anchored(f) && IsLeftmostScan(s, from, f, ms)
    ensures ms == Scan(s, from, f)
    decreases |s| - from, 1
  {
    if from < |s| {
      if Hits(f, s, from) {
        LeftmostIsScanHit(s, from, f, ms);
      } else {
        ScanStep(s, from, f);
        LeftmostSkip(s, from, f, ms);
        LeftmostIsScan(s, from + 1, f, ms);
      }
    } else {
      assert Scan(s, from, f) == [];
      assert |ms| == 0 || Hits(f, s, ms[0].index);
    }
  }

  /** The step of `LeftmostIsScan` at a match. */
  lemma {:induction false} LeftmostIsScanHit(s: string, from: nat, f: Matcher, ms: seq<Match>)
    requires from < |s| && Anchored(f) && Hits(f, s, from) && IsLeftmostScan(s, from, f, ms)
    ensures ms == Scan(s, from, f)
    decreases |s| - from, 0
  {
    var m := f(s, from).value;
    ScanStep(s, from, f);
    LeftmostHead(s, from, f, m, ms);
    LeftmostIsScan(s, from + |m.text|, f, ms[1..]);
    assert ms == [m] + ms[1..];
  }

  /** If `f` matches at `from`, the leftmost scan from `from` starts with that match and
      goes on with the leftmost scan from its end. */
  lemma LeftmostHead(s: string, from: nat, f: Matcher, m: Match, ms: seq<Match>)
    requires from < |s| && Anchored(f) && f(s, from) == Some(m) && IsLeftmostScan(s, from, f, ms)
    ensures ms != [] && ms[0] == m
    ensures IsLeftmostScan(s, from + |m.text|, f, ms[1..])
  {
    assert Hits(f, s, from);
    var k :| 0 <= k < |ms| && Covers(ms[k], from);
    assert f(s, ms[0].index) == Some(ms[0]);
    assert k == 0;
    assert ms[0].index == from;
    var e := from + |m.text|;
    var rest := ms[1..];
    forall j | 0 <= j < |rest| ensures e <= rest[j].index && f(s, rest[j].index) == Some(rest[j]) {
      assert rest[j] == ms[j + 1];
    }
    assert Ordered(rest) by {
      forall i, j | 0 <= i < j < |rest| ensures rest[i].index + |rest[i].text| <= rest[j].index {
        assert rest[i] == ms[i + 1] && rest[j] == ms[j + 1];
      }
    }
    forall p: nat | e <= p < |s| && Hits(f, s, p) ensures CoveredBy(rest, p) {
      var j :| 0 <= j < |ms| && Covers(ms[j], p);
      assert j != 0;
      assert Covers(rest[j - 1], p);
    }
  }

  /** Without a match at `from`, the leftmost scan from `from` is also one from `from + 1`. */
  lemma LeftmostSkip(s: string, from: nat, f: Matcher, ms: seq<Match>)
    requires from < |s| && f(s, from).None? && IsLeftmostScan(s, from, f, ms)
    ensures IsLeftmostScan(s, from + 1, f, ms)
  {
    forall j | 0 <= j < |ms| ensures from + 1 <= ms[j].index {
      assert f(s, ms[j].index) == Some(ms[j]);
    }
  }

  // ---------------------------------------------------------------------------------------
  // `replace` with the global flag.

  /** `String.prototype.replace` with a global pattern, from offset `from` on: each match
      is replaced by `sub` of it. */
  function Replace(s: string, from: nat, f: Matcher, sub: Match -> string): string
    requires from <= |s| && Anchored(f)
    decreases |s| - from
  {
    if from == |s| then ""
    else if Hits(f, s, from) then
      var m := f(s, from).value;
      sub(m) + Replace(s, from + |m.text|, f, sub)
    else [s[from]] + Replace(s, from + 1, f, sub)
  }

  /** The matches lie in order, without overlapping, inside `s[from..]`. */
  predicate Spans(s: string, from: nat, ms: seq<Match>) {
    && (forall k :: 0 <= k < |ms| ==> from <= ms[k].index && ms[k].index + |ms[k].text| <= |s|)
    && Ordered(ms)
  }

  /** The reference for `replace`: the text before each match, the match's substitute, and
      the text after the last match. */
  function Splice(s: string, from: nat, ms: seq<Match>, sub: Match -> string): string
    requires from <= |s| && Spans(s, from, ms)
    decreases |ms|
  {
    if ms == [] then s[from..]
    else
      var e := ms[0].index + |ms[0].text|;
      assert Spans(s, e, ms[1..]) by {
        forall k | 0 <= k < |ms[1..]| ensures e <= ms[1..][k].index {
          assert ms[1..][k] == ms[k + 1];
        }
      }
      s[from..ms[0].index] + sub(ms[0]) + Splice(s, e, ms[1..], sub)
  }

  /** The matches `Scan` finds lie in order inside the text. */
  lemma {:induction false} ScanSpans(s: string, from: nat, f: Matcher)
    requires from <= |s| && Anchored(f)
    ensures Spans(s, from, Scan(s, from, f))
    decreases |s| - from
  {
    if from < |s| {
      ScanStep(s, from, f);
      if Hits(f, s, from) {
        var m := f(s, from).value;
        ScanSpans(s, from + |m.text|, f);
        SpansCons(s, m, Scan(s, from + |m.text|, f));
      } else {
        ScanSpans(s, from + 1, f);
      }
    }
  }

  /** A match in front of matches that lie after it. */
  lemma SpansCons(s: string, m: Match, rest: seq<Match>)
    requires m.index + |m.text| <= |s| && Spans(s, m.index + |m.text|, rest)
    ensures Spans(s, m.index, [m] + rest)
  {
    var ms := [m] + rest;
    forall i, j | 0 <= i < j < |ms| ensures ms[i].index + |ms[i].text| <= ms[j].index {
      assert ms[j] == rest[j - 1];
      if i > 0 {
        assert ms[i] == rest[i - 1];
      }
    }
    forall k | 0 <= k < |ms| ensures m.index <= ms[k].index && ms[k].index + |ms[k].text| <= |s| {
      if k > 0 {
        assert ms[k] == rest[k - 1];
      }
    }
  }

  /** `replace` substitutes exactly the matches `matchAll` finds and keeps everything else. */
  lemma {:induction false} ReplaceIsSplice(s: string, from: nat, f: Matcher, sub: Match -> string)
    requires from <= |s| && Anchored(f)
    ensures Spans(s, from, Scan(s, from, f))
    ensures Replace(s, from, f, sub) == Splice(s, from, Scan(s, from, f), sub)
    decreases |s| - from
  {
    ScanSpans(s, from, f);
    if from < |s| {
      if Hits(f, s, from) {
        var e := from + |f(s, from).value.text|;
        assert FoundAt(s, from, f(s, from).value);
        ReplaceIsSplice(s, e, f, sub);
        SpliceHit(s, from, f, sub);
      } else {
        ReplaceIsSplice(s, from + 1, f, sub);
        SpliceMiss(s, from, f, sub);
      }
    }
  }

  /** The step of `ReplaceIsSplice` at a match. */
  lemma SpliceHit(s: string, from: nat, f: Matcher, sub: Match -> string)
    requires from < |s| && Anchored(f) && Hits(f, s, from)
    requires var e := from + |f(s, from).value.text|;
      && e <= |s| && Spans(s, e, Scan(s, e, f))
      && Replace(s, e, f, sub) == Splice(s, e, Scan(s, e, f), sub)
    ensures Spans(s, from, Scan(s, from, f))
    ensures Replace(s, from, f, sub) == Splice(s, from, Scan(s, from, f), sub)
  {
    var m := f(s, from).value;
    var e := from + |m.text|;
    var rest := Scan(s, e, f);
    assert FoundAt(s, from, m) && Scan(s, from, f) == [m] + rest
        && Replace(s, from, f, sub) == sub(m) + Replace(s, e, f, sub) by {
      Step(s, from, f, sub);
    }
    SpansCons(s, m, rest);
    SpliceCons(s, m, rest, sub);
  }

  /** The step of `ReplaceIsSplice` where nothing matches. */
  lemma SpliceMiss(s: string, from: nat, f: Matcher, sub: Match -> string)
    requires from < |s| && Anchored(f) && !Hits(f, s, from)
    requires Spans(s, from + 1, Scan(s, from + 1, f))
    requires Replace(s, from + 1, f, sub) == Splice(s, from + 1, Scan(s, from + 1, f), sub)
    ensures Spans(s, from, Scan(s, from, f))
    ensures Replace(s, from, f, sub) == Splice(s, from, Scan(s, from, f), sub)
  {
    Step(s, from, f, sub);
    SpliceSkip(s, from, Scan(s, from + 1, f), sub);
  }

  /** One step of the replacement. */
  lemma Step(s: string, from: nat, f: Matcher, sub: Match -> string)
    requires from < |s| && Anchored(f)
    ensures Hits(f, s, from) ==>
      var m := f(s, from).value;
      && FoundAt(s, from, m)
      && Scan(s, from, f) == [m] + Scan(s, from + |m.text|, f)
      && Replace(s, from, f, sub) == sub(m) + Replace(s, from + |m.text|, f, sub)
    ensures !Hits(f, s, from) ==>
      && Scan(s, from, f) == Scan(s, from + 1, f)
      && Replace(s, from, f, sub) == [s[from]] + Replace(s, from + 1, f, sub)
  {
    ScanStep(s, from, f);
  }

  /** A splice that starts with a match at its own start. */
  lemma SpliceCons(s: string, m: Match, rest: seq<Match>, sub: Match -> string)
    requires m.index + |m.text| <= |s| && Spans(s, m.index, [m] + rest)
    ensures Spans(s, m.index + |m.text|, rest)
    ensures Splice(s, m.index, [m] + rest, sub) == sub(m) + Splice(s, m.index + |m.text|, rest, sub)
  {
    SpansTail(s, m, rest);
    var ms := [m] + rest;
    assert ms[0] == m && ms[1..] == rest;
    var r := Splice(s, m.index + |m.text|, rest, sub);
    assert Splice(s, m.index, ms, sub) == s[m.index..m.index] + sub(m) + r;
    EmptyLeft(s[m.index..m.index], sub(m));
  }

  lemma EmptyLeft(a: string, b: string)
    requires |a| == 0
    ensures a + b == b
  {
  }

  lemma SpansTail(s: string, m: Match, rest: seq<Match>)
    requires Spans(s, m.index, [m] + rest)
    ensures Spans(s, m.index + |m.text|, rest)
  {
    var ms := [m] + rest;
    assert ms[0] == m;
    forall k | 0 <= k < |rest| ensures m.index + |m.text| <= rest[k].index && rest[k].index + |rest[k].text| <= |s| {
      assert rest[k] == ms[k + 1];
    }
    forall i, j | 0 <= i < j < |rest| ensures rest[i].index + |rest[i].text| <= rest[j].index {
      assert rest[i] == ms[i + 1] && rest[j] == ms[j + 1];
    }
  }

  /** A splice from one character earlier keeps that character. */
  lemma SpliceSkip(s: string, from: nat, ms: seq<Match>, sub: Match -> string)
    requires from < |s| && Spans(s, from + 1, ms)
    ensures Spans(s, from, ms)
    ensures Splice(s, from, ms, sub) == [s[from]] + Splice(s, from + 1, ms, sub)
  {
    if ms != [] {
      assert s[from..ms[0].index] == [s[from]] + s[from + 1..ms[0].index];
    } else {
      assert s[from..] == [s[from]] + s[from + 1..];
    }
  }

  /** Where the pattern matches nowhere, `replace` returns the text unchanged. */
  lemma {:induction false} ReplaceNoMatch(s: string, from: nat, f: Matcher, sub: Match -> string)
    requires from <= |s| && Anchored(f)
    requires forall p: nat :: from <= p < |s| ==> f(s, p).None?
    ensures Replace(s, from, f, sub) == s[from..]
    decreases |s| - from
  {
    if from < |s| {
      ReplaceNoMatch(s, from + 1, f, sub);
      assert s[from..] == [s[from]] + s[from + 1..];
    }
  }

  /** `replace` yields the empty string only on the empty input, when every substitute is
      non-empty. */
  lemma ReplaceEmpty(s: string, from: nat, f: Matcher, sub: Match -> string)
    requires from <= |s| && Anchored(f)
    requires forall m :: sub(m) != ""
    ensures Replace(s, from, f, sub) == "" <==> from == |s|
  {
    if from < |s| {
      match f(s, from)
      case Some(m) =>
        assert Hits(f, s, from);
        assert sub(m) != "";
      case None =>
    }
  }

  // ---------------------------------------------------------------------------------------
  // What a replacement by a constant leaves behind.

  /** The first offset from `from` on at which `f` matches, or the end of the text. */
  function NextHit(s: string, from: nat, f: Matcher): (h: nat)
    requires from <= |s|
    ensures from <= h <= |s|
    ensures forall p: nat :: from <= p < h ==> !Hits(f, s, p)
    ensures h < |s| ==> Hits(f, s, h)
    decreases |s| - from
  {
    if from == |s| || Hits(f, s, from) then from else NextHit(s, from + 1, f)
  }

  /** Up to the next match, `replace` copies the text. */
  lemma {:induction false} ReplaceUntil(s: string, from: nat, f: Matcher, sub: Match -> string, h: nat)
    requires from <= h <= |s| && Anchored(f)
    requires forall p: nat :: from <= p < h ==> !Hits(f, s, p)
    ensures Replace(s, from, f, sub) == s[from..h] + Replace(s, h, f, sub)
    decreases h - from
  {
    if from < h {
      assert !Hits(f, s, from);
      var rest := Replace(s, from + 1, f, sub);
      assert Replace(s, from, f, sub) == [s[from]] + rest;
      ReplaceUntil(s, from + 1, f, sub, h);
      assert s[from..h] == [s[from]] + s[from + 1..h];
    }
  }

  /** Neither string can run across the end of the other: the last character of `r` is not
      in `w`, and the last character of `w` is not in `r`. */
  predicate Blocks(r: string, w: string) {
    && |r| > 0 && |w| > 0
    && (forall i :: 0 <= i < |w| ==> w[i] != r[|r| - 1])
    && (forall i :: 0 <= i < |r| ==> r[i] != w[|w| - 1])
  }

  /** Text without `w`, then `r`, then text free of `w`: no occurrence of `w` can span the
      seams when `r` blocks `w`. */
  lemma GlueFree(g: string, r: string, t: string, w: string)
    requires Blocks(r, w) && Free(t, w)
    requires forall j: nat :: j + |w| <= |g| ==> !OccursAt(g, j, w)
    ensures Free(g + (r + t), w)
  {
    var out := g + (r + t);
    forall i: nat | i <= |out| ensures !OccursAt(out, i, w) {
      if i + |w| <= |out| {
        if i + |w| <= |g| {
          assert !OccursAt(g, i, w);
          var k :| 0 <= k < |w| && g[i + k] != w[k];
          assert out[i + k] == g[i + k];
        } else if i >= |g| + |r| {
          var j := i - |g| - |r|;
          assert !OccursAt(t, j, w);
          var k :| 0 <= k < |w| && t[j + k] != w[k];
          assert out[i + k] == t[j + k];
        } else if i + |w| >= |g| + |r| {
          var k := |g| + |r| - 1 - i;
          assert out[i + k] == r[|r| - 1];
          assert w[k] != r[|r| - 1];
        } else {
          var k := |w| - 1;
          assert out[i + k] == r[i + k - |g|];
        }
      }
    }
  }

  /** A `replace` whose every substitute is `r`, where `r` blocks `w` and `w` can only occur
      where the pattern matches, leaves no occurrence of `w`. */
  lemma {:induction false} ReplaceAvoids(s: string, from: nat, f: Matcher, sub: Match -> string, r: string, w: string)
    requires from <= |s| && Anchored(f) && Blocks(r, w)
    requires forall m :: sub(m) == r
    requires forall p: nat :: from <= p <= |s| && !Hits(f, s, p) ==> !OccursAt(s, p, w)
    ensures Free(Replace(s, from, f, sub), w)
    decreases |s| - from
  {
    var h := NextHit(s, from, f);
    ReplaceUntil(s, from, f, sub, h);
    var g := s[from..h];
    forall j: nat | j + |w| <= |g| ensures !OccursAt(g, j, w) {
      assert !Hits(f, s, from + j);
      var k :| 0 <= k < |w| && s[from + j + k] != w[k];
      assert g[j + k] == s[from + j + k];
    }
    if h == |s| {
      assert Replace(s, h, f, sub) == "";
      assert Replace(s, from, f, sub) == g;
    } else {
      var m := f(s, h).value;
      assert FoundAt(s, h, m);
      var e := h + |m.text|;
      ReplaceAvoids(s, e, f, sub, r, w);
      var t := Replace(s, e, f, sub);
      assert Replace(s, h, f, sub) == r + t;
      GlueFree(g, r, t, w);
    }
  }
}
