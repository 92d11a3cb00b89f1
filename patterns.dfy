/** The regular expressions of the note transformer, each written out as an explicit matcher
    over `seq<char>`. */
module Patterns {
  import opened Wrappers
  import opened Text
  import opened Matching

  datatype Pattern =
    | WikiLink       // `[[`, one or more characters other than `]` and newline, `]]`
    | ListAttribute  // at offset 0 or on a newline: spaces, `- `, an attribute key, `::`
    | Tag            // `#` and the longest run of letters, digits, `-` and `_`
    | LineAttribute  // the same as ListAttribute, but anchored at any line start
    | Todo           // the `{{[[TODO]]}}` marker and the spaces after it
    | Done           // the `{{[[DONE]]}}` marker and the spaces after it

  datatype CharClass = NameChar | Space | TokenChar

  predicate In(c: char, k: CharClass) {
    match k
    case NameChar => c != ']' && c != '\n'
    case Space => c == ' '
    case TokenChar => ('a' <= c <= 'z') || ('A' <= c <= 'Z') || ('0' <= c <= '9') || c == '-' || c == '_'
  }

  predicate AllIn(s: string, k: CharClass) {
    forall i :: 0 <= i < |s| ==> In(s[i], k)
  }

  /** The end of the longest run of `k` characters that starts at `i` (a greedy `+` or `*`). */
  function SpanEnd(s: string, i: nat, k: CharClass): (j: nat)
    requires i <= |s|
    ensures i <= j <= |s|
    ensures AllIn(s[i..j], k)
    ensures j == |s| || !In(s[j], k)
    decreases |s| - i
  {
    if i < |s| && In(s[i], k) then SpanEnd(s, i + 1, k) else i
  }

  lemma {:induction false} SpanEndOf(s: string, i: nat, j: nat, k: CharClass)
    requires i <= j <= |s| && AllIn(s[i..j], k) && (j == |s| || !In(s[j], k))
    ensures SpanEnd(s, i, k) == j
    decreases j - i
  {
    if i < j {
      assert s[i + 1..j] == s[i..j][1..];
      assert s[i] == s[i..j][0];
      SpanEndOf(s, i + 1, j, k);
    }
  }

  /** An attribute key: a non-empty sequence of units, each a character other than `:` and
      newline, or a `:` followed by such a character. Equivalently: no newline, no `::`,
      and no `:` at the end. */
  predicate IsKey(n: string) {
    && |n| > 0
    && n[|n| - 1] != ':'
    && (forall t :: 0 <= t < |n| ==> n[t] != '\n')
    && (forall t :: 0 <= t < |n| - 1 ==> !DoubleColonAt(n, t))
  }

  predicate DoubleColonAt(n: string, t: int)
    requires 0 <= t < |n| - 1
  {
    n[t] == ':' && n[t + 1] == ':'
  }

  /** The end of the longest run of key units starting at `i`. */
  function KeyEnd(s: string, i: nat): (j: nat)
    requires i <= |s|
    ensures i <= j <= |s|
    decreases |s| - i
  {
    if i < |s| && s[i] != ':' && s[i] != '\n' then KeyEnd(s, i + 1)
    else if i + 1 < |s| && s[i] == ':' && s[i + 1] != ':' && s[i + 1] != '\n' then KeyEnd(s, i + 2)
    else i
  }

  /** Whatever the key run covers is a key (when it is not empty). */
  lemma {:induction false} KeyEndIsKey(s: string, i: nat)
    requires i <= |s| && i < KeyEnd(s, i)
    ensures IsKey(s[i..KeyEnd(s, i)])
    decreases |s| - i
  {
    var j := KeyEnd(s, i);
    if s[i] != ':' && s[i] != '\n' {
      if i + 1 < j {
        KeyEndIsKey(s, i + 1);
        KeyCons(s[i..j], 1);
      } else {
        assert s[i..j] == [s[i]];
      }
    } else {
      if i + 2 < j {
        KeyEndIsKey(s, i + 2);
        KeyCons(s[i..j], 2);
      } else {
        assert s[i..j] == [s[i], s[i + 1]];
      }
    }
  }

  /** A key unit in front of a key gives a key. */
  lemma KeyCons(n: string, u: nat)
    requires 0 < u < |n| && IsKey(n[u..])
    requires u == 1 ==> n[0] != ':' && n[0] != '\n'
    requires u == 2 ==> n[0] == ':' && n[1] != ':' && n[1] != '\n'
    requires u <= 2
    ensures IsKey(n)
  {
    assert n[|n| - 1] == n[u..][|n| - 1 - u];
    forall t | 0 <= t < |n| ensures n[t] != '\n' {
      if t >= u {
        assert n[t] == n[u..][t - u];
      }
    }
    forall t | 0 <= t < |n| - 1 ensures !DoubleColonAt(n, t) {
      if t >= u {
        assert !DoubleColonAt(n[u..], t - u);
      }
    }
  }

  /** A key without its first unit is still a key, when something is left. */
  lemma KeyTail(n: string, u: nat)
    requires IsKey(n) && 0 < u < |n| && u <= 2
    requires u == 1 <==> n[0] != ':'
    ensures IsKey(n[u..])
  {
    forall t | 0 <= t < |n[u..]| ensures n[u..][t] != '\n' {
      assert n[u..][t] == n[t + u];
    }
    forall t | 0 <= t < |n[u..]| - 1 ensures !DoubleColonAt(n[u..], t) {
      assert !DoubleColonAt(n, t + u);
    }
  }

  /** A key followed by `::` is exactly what the key run covers: the greedy run never
      stops early and backtracking never finds a shorter key. */
  lemma {:induction false} KeyEndOf(s: string, i: nat, n: string)
    requires IsKey(n) && i + |n| + 2 <= |s| && s[i..i + |n|] == n
    requires s[i + |n|] == ':' && s[i + |n| + 1] == ':'
    ensures KeyEnd(s, i) == i + |n|
    decreases |n|
  {
    assert s[i] == n[0];
    if n[0] != ':' {
      if |n| > 1 {
        assert s[i + 1..i + |n|] == n[1..];
        KeyTail(n, 1);
        KeyEndOf(s, i + 1, n[1..]);
      }
    } else {
      assert s[i + 1] == n[1] && !DoubleColonAt(n, 0) && n[1] != '\n';
      if |n| > 2 {
        assert s[i + 2..i + |n|] == n[2..];
        KeyTail(n, 2);
        KeyEndOf(s, i + 2, n[2..]);
      }
    }
  }

  /** An attribute after its anchor `q`: optional spaces, `- `, a key and `::`; the match
      itself starts at `p`. */
  function AttributeFrom(s: string, p: nat, q: nat): Option<Match>
    requires p <= q <= |s|
  {
    var a := SpanEnd(s, q, Space);
    if a + 2 <= |s| && s[a] == '-' && s[a + 1] == ' ' then
      var k := KeyEnd(s, a + 2);
      if a + 2 < k && k + 2 <= |s| && s[k] == ':' && s[k + 1] == ':' then
        Some(Match(s[p..k + 2], s[a + 2..k], p))
      else None
    else None
  }

  function Marker(word: string): string {
    "{{[[" + word + "]]}}"
  }

  function MarkerAt(s: string, p: nat, word: string): Option<Match>
    requires p <= |s|
  {
    if HasPrefix(s[p..], Marker(word)) then
      var e := SpanEnd(s, p + |Marker(word)|, Space);
      Some(Match(s[p..e], word, p))
    else None
  }

  function WikiLinkAt(s: string, p: nat): Option<Match>
    requires p <= |s|
  {
    if p + 2 <= |s| && s[p] == '[' && s[p + 1] == '[' then
      var e := SpanEnd(s, p + 2, NameChar);
      if p + 2 < e && e + 2 <= |s| && s[e] == ']' && s[e + 1] == ']' then
        Some(Match(s[p..e + 2], s[p + 2..e], p))
      else None
    else None
  }

  function TagAt(s: string, p: nat): Option<Match>
    requires p <= |s|
  {
    if p + 1 < |s| && s[p] == '#' && In(s[p + 1], TokenChar) then
      var e := SpanEnd(s, p + 1, TokenChar);
      Some(Match(s[p..e], s[p + 1..e], p))
    else None
  }

  /** The match of `pat` that starts exactly at offset `p`, if there is one. */
  function MatchAt(s: string, p: nat, pat: Pattern): (r: Option<Match>)
    requires p <= |s|
    ensures r.Some? ==> FoundAt(s, p, r.value)
  {
    match pat
    case WikiLink => WikiLinkFound(s, p); WikiLinkAt(s, p)
    case ListAttribute =>
      if p < |s| && s[p] == '\n' then AttributeFound(s, p, p + 1); AttributeFrom(s, p, p + 1)
      else if p == 0 then AttributeFound(s, p, p); AttributeFrom(s, p, p)
      else None
    case Tag => TagFound(s, p); TagAt(s, p)
    case LineAttribute =>
      if p == 0 || IsLineTerminator(s[p - 1]) then AttributeFound(s, p, p); AttributeFrom(s, p, p) else None
    case Todo => MarkerFound(s, p, "TODO"); MarkerAt(s, p, "TODO")
    case Done => MarkerFound(s, p, "DONE"); MarkerAt(s, p, "DONE")
  }

  lemma WikiLinkFound(s: string, p: nat)
    requires p <= |s|
    ensures WikiLinkAt(s, p).Some? ==> FoundAt(s, p, WikiLinkAt(s, p).value)
  {
  }

  lemma TagFound(s: string, p: nat)
    requires p <= |s|
    ensures TagAt(s, p).Some? ==> FoundAt(s, p, TagAt(s, p).value)
  {
  }

  lemma MarkerFound(s: string, p: nat, word: string)
    requires p <= |s|
    ensures MarkerAt(s, p, word).Some? ==> FoundAt(s, p, MarkerAt(s, p, word).value)
  {
    if MarkerAt(s, p, word).Some? {
      assert |Marker(word)| > 0;
    }
  }

  lemma AttributeFound(s: string, p: nat, q: nat)
    requires p <= q <= |s|
    ensures AttributeFrom(s, p, q).Some? ==> FoundAt(s, p, AttributeFrom(s, p, q).value)
  {
  }

  // ---------------------------------------------------------------------------------------
  // What each matcher accepts, in both directions.

  predicate IsWikiName(n: string) {
    |n| > 0 && AllIn(n, NameChar)
  }

  /** The text of a wiki link match: `[[`, a name and `]]`. */
  predicate IsWikiLinkText(t: string, n: string) {
    t == "[[" + n + "]]" && IsWikiName(n)
  }

  /** A wiki link match is `[[name]]` for a name free of `]` and newlines, and every such
      text in the input is matched. */
  lemma WikiLinkMatch(s: string, p: nat, m: Match)
    requires p <= |s|
    ensures WikiLinkAt(s, p) == Some(m)
        <==> m.index == p && IsWikiLinkText(m.text, m.name) && HasPrefix(s[p..], m.text)
  {
    if WikiLinkAt(s, p) == Some(m) {
      WikiLinkSound(s, p);
    }
    if m.index == p && IsWikiLinkText(m.text, m.name) && HasPrefix(s[p..], m.text) {
      WikiLinkComplete(s, p, m);
    }
  }

  lemma WikiLinkSound(s: string, p: nat)
    requires p <= |s| && WikiLinkAt(s, p).Some?
    ensures var m := WikiLinkAt(s, p).value;
      m.index == p && IsWikiLinkText(m.text, m.name) && HasPrefix(s[p..], m.text)
  {
    var m := WikiLinkAt(s, p).value;
    var e := SpanEnd(s, p + 2, NameChar);
    assert s[p..e + 2] == [s[p], s[p + 1]] + s[p + 2..e] + [s[e], s[e + 1]];
    assert s[p..][..|m.text|] == m.text;
  }

  lemma WikiLinkComplete(s: string, p: nat, m: Match)
    requires p <= |s| && m.index == p && IsWikiLinkText(m.text, m.name) && HasPrefix(s[p..], m.text)
    ensures WikiLinkAt(s, p) == Some(m)
  {
    var t, n := m.text, m.name;
    var e := p + 2 + |n|;
    PrefixChars(s, p, t);
    ConcatParts("[[", n, "]]");
    SubSlice(s, p, t, 2, 2 + |n|);
    assert s[p] == t[0] == '[' && s[p + 1] == t[1] == '[';
    assert s[e] == t[2 + |n|] == ']' && s[e + 1] == t[3 + |n|] == ']';
    assert s[p..p + 4 + |n|] == t;
    assert m == Match(s[p..p + 4 + |n|], n, p);
    WikiLinkAtName(s, p, n);
  }

  /** `[[`, a name and `]]` at `p` are matched. */
  lemma WikiLinkAtName(s: string, p: nat, n: string)
    requires p + 4 + |n| <= |s| && IsWikiName(n)
    requires s[p] == '[' && s[p + 1] == '[' && s[p + 2..p + 2 + |n|] == n
    requires s[p + 2 + |n|] == ']' && s[p + 3 + |n|] == ']'
    ensures WikiLinkAt(s, p) == Some(Match(s[p..p + 4 + |n|], n, p))
  {
    SpanEndOf(s, p + 2, p + 2 + |n|, NameChar);
  }

  /** How an attribute text ends: spaces, `- `, the key and `::`. */
  predicate AttributeShape(t: string, n: string) {
    && |t| >= |n| + 4
    && AllIn(t[..|t| - |n| - 4], Space)
    && t[|t| - |n| - 4..] == "- " + n + "::"
  }

  lemma AttributeFromMatch(s: string, p: nat, q: nat, m: Match)
    requires p <= q <= |s|
    ensures AttributeFrom(s, p, q) == Some(m)
        <==> m.index == p && HasPrefix(s[p..], m.text) && IsKey(m.name)
             && |m.text| >= q - p && AttributeShape(m.text[q - p..], m.name)
  {
    if AttributeFrom(s, p, q) == Some(m) {
      AttributeSound(s, p, q);
    }
    if m.index == p && HasPrefix(s[p..], m.text) && IsKey(m.name)
       && |m.text| >= q - p && AttributeShape(m.text[q - p..], m.name) {
      AttributeComplete(s, p, q, m);
    }
  }

  lemma AttributeSound(s: string, p: nat, q: nat)
    requires p <= q <= |s| && AttributeFrom(s, p, q).Some?
    ensures var m := AttributeFrom(s, p, q).value;
      m.index == p && HasPrefix(s[p..], m.text) && IsKey(m.name)
      && |m.text| >= q - p && AttributeShape(m.text[q - p..], m.name)
  {
    var a, k := AttributeFromSome(s, p, q);
    KeyEndIsKey(s, a + 2);
    AttributeParts(s, p, q, a, k);
  }

  /** What `AttributeFrom` found, when it found something. */
  lemma AttributeFromSome(s: string, p: nat, q: nat) returns (a: nat, k: nat)
    requires p <= q <= |s| && AttributeFrom(s, p, q).Some?
    ensures q <= a && SpanEnd(s, q, Space) == a
    ensures a + 2 <= |s| && s[a] == '-' && s[a + 1] == ' ' && KeyEnd(s, a + 2) == k
    ensures a + 2 < k && k + 2 <= |s| && s[k] == ':' && s[k + 1] == ':'
    ensures AttributeFrom(s, p, q).value == Match(s[p..k + 2], s[a + 2..k], p)
  {
    a := SpanEnd(s, q, Space);
    k := KeyEnd(s, a + 2);
  }

  /** Spaces from `q` to `a`, `- `, a key up to `k` and `::` make a text of attribute shape. */
  lemma AttributeParts(s: string, p: nat, q: nat, a: nat, k: nat)
    requires p <= q <= a && a + 2 < k && k + 2 <= |s|
    requires AllIn(s[q..a], Space) && s[a] == '-' && s[a + 1] == ' ' && s[k] == ':' && s[k + 1] == ':'
    ensures HasPrefix(s[p..], s[p..k + 2])
    ensures AttributeShape(s[p..k + 2][q - p..], s[a + 2..k])
  {
    var n := s[a + 2..k];
    assert s[p..][..k + 2 - p] == s[p..k + 2];
    var t := s[p..k + 2][q - p..];
    assert t == s[q..k + 2];
    forall i | 0 <= i < a - q ensures t[i] == ' ' {
      assert t[i] == s[q..a][i];
    }
    forall i | 0 <= i < |n| ensures t[a - q + 2 + i] == n[i] {
      assert t[a - q + 2 + i] == s[a + 2 + i];
    }
    assert t[a - q] == s[a] && t[a - q + 1] == s[a + 1];
    assert t[|t| - 2] == s[k] && t[|t| - 1] == s[k + 1];
    ShapeFromChars(t, n);
  }

  /** The converse of `ShapeChars`. */
  lemma ShapeFromChars(t: string, n: string)
    requires |t| >= |n| + 4
    requires var w := |t| - |n| - 4;
      && (forall i :: 0 <= i < w ==> t[i] == ' ')
      && t[w] == '-' && t[w + 1] == ' '
      && (forall i :: 0 <= i < |n| ==> t[w + 2 + i] == n[i])
      && t[|t| - 2] == ':' && t[|t| - 1] == ':'
    ensures AttributeShape(t, n)
  {
    var w := |t| - |n| - 4;
    forall i | 0 <= i < w ensures In(t[..w][i], Space) {
      assert t[..w][i] == t[i];
    }
    var tail := "- " + n + "::";
    forall i | 0 <= i < |tail| ensures t[w..][i] == tail[i] {
      if 2 <= i < 2 + |n| {
        assert tail[i] == n[i - 2];
        assert t[w + 2 + (i - 2)] == n[i - 2];
      }
    }
    assert t[w..] == tail;
  }

  lemma AttributeComplete(s: string, p: nat, q: nat, m: Match)
    requires p <= q <= |s|
    requires m.index == p && HasPrefix(s[p..], m.text) && IsKey(m.name)
    requires |m.text| >= q - p && AttributeShape(m.text[q - p..], m.name)
    ensures AttributeFrom(s, p, q) == Some(m)
  {
    var a := AttributeLayout(s, p, q, m);
    AttributeAt(s, p, q, a, m);
  }

  /** Spaces from `q` to `a`, `- `, a key and `::` are matched, from `p` on. */
  lemma AttributeAt(s: string, p: nat, q: nat, a: nat, m: Match)
    requires p <= q <= a && a + 4 + |m.name| <= |s| && IsKey(m.name)
    requires AllIn(s[q..a], Space) && s[a] == '-' && s[a + 1] == ' '
    requires s[a + 2..a + 2 + |m.name|] == m.name
    requires s[a + 2 + |m.name|] == ':' && s[a + 3 + |m.name|] == ':'
    requires m.index == p && s[p..a + 4 + |m.name|] == m.text
    ensures AttributeFrom(s, p, q) == Some(m)
  {
    SpanEndOf(s, q, a, Space);
    KeyEndOf(s, a + 2, m.name);
    var k := a + 2 + |m.name|;
    assert m == Match(s[p..k + 2], s[a + 2..k], p);
    AttributeFromEnds(s, p, q, a, k);
  }

  /** `AttributeFrom` once the ends of its space run and of its key run are known. */
  lemma AttributeFromEnds(s: string, p: nat, q: nat, a: nat, k: nat)
    requires p <= q <= |s| && SpanEnd(s, q, Space) == a
    requires a + 2 <= |s| && s[a] == '-' && s[a + 1] == ' ' && KeyEnd(s, a + 2) == k
    requires a + 2 < k && k + 2 <= |s| && s[k] == ':' && s[k + 1] == ':'
    ensures AttributeFrom(s, p, q) == Some(Match(s[p..k + 2], s[a + 2..k], p))
  {
  }

  /** Where the parts of a text of attribute shape lie in `s`. */
  lemma AttributeLayout(s: string, p: nat, q: nat, m: Match) returns (a: nat)
    requires p <= q <= |s|
    requires HasPrefix(s[p..], m.text)
    requires |m.text| >= q - p && AttributeShape(m.text[q - p..], m.name)
    ensures a == p + |m.text| - |m.name| - 4
    ensures q <= a && a + 4 + |m.name| <= |s|
    ensures AllIn(s[q..a], Space)
    ensures s[a] == '-' && s[a + 1] == ' '
    ensures s[a + 2..a + 2 + |m.name|] == m.name
    ensures s[a + 2 + |m.name|] == ':' && s[a + 3 + |m.name|] == ':'
    ensures s[p..a + 4 + |m.name|] == m.text
  {
    var u := m.text;
    PrefixChars(s, p, u);
    SubSlice(s, p, u, q - p, |u|);
    assert u[q - p..|u|] == u[q - p..];
    a := ShapeAt(s, q, u[q - p..], m.name);
  }

  /** A text of attribute shape at `q`: its spaces, `- `, key and `::` in place. */
  lemma ShapeAt(s: string, q: nat, t: string, n: string) returns (a: nat)
    requires q + |t| <= |s| && s[q..q + |t|] == t && AttributeShape(t, n)
    ensures a == q + |t| - |n| - 4 && q <= a
    ensures AllIn(s[q..a], Space)
    ensures s[a] == '-' && s[a + 1] == ' '
    ensures s[a + 2..a + 2 + |n|] == n
    ensures s[a + 2 + |n|] == ':' && s[a + 3 + |n|] == ':'
  {
    var w := |t| - |n| - 4;
    a := q + w;
    ShapeChars(t, n);
    SliceChars(s, q, t);
    forall i | 0 <= i < w ensures In(s[q..a][i], Space) {
      assert s[q..a][i] == s[q + i];
    }
    forall k | 0 <= k < |n| ensures s[a + 2..a + 2 + |n|][k] == n[k] {
      assert s[a + 2..a + 2 + |n|][k] == s[q + (w + 2 + k)];
    }
    assert s[a] == t[w] && s[a + 1] == t[w + 1];
    assert s[a + 2 + |n|] == t[|t| - 2] && s[a + 3 + |n|] == t[|t| - 1];
  }

  /** The characters of a piece of `s`, one by one. */
  lemma SliceChars(s: string, q: nat, t: string)
    requires q + |t| <= |s| && s[q..q + |t|] == t
    ensures forall i :: 0 <= i < |t| ==> s[q + i] == t[i]
  {
    forall i | 0 <= i < |t| ensures s[q + i] == t[i] {
      assert s[q + i] == s[q..q + |t|][i];
    }
  }

  /** A piece of a prefix `u` of `s[p..]` is the piece of `s` at the same place. */
  lemma SubSlice(s: string, p: nat, u: string, i: nat, j: nat)
    requires p + |u| <= |s| && s[p..p + |u|] == u && i <= j <= |u|
    ensures s[p + i..p + j] == u[i..j]
  {
    forall k | 0 <= k < j - i ensures s[p + i..p + j][k] == u[i..j][k] {
      assert s[p + i + k] == s[p..p + |u|][i + k];
    }
  }

  /** The characters of `s` from `p` on are those of a prefix `u`. */
  lemma PrefixChars(s: string, p: nat, u: string)
    requires p <= |s| && HasPrefix(s[p..], u)
    ensures p + |u| <= |s| && s[p..p + |u|] == u
    ensures forall i :: 0 <= i < |u| ==> s[p + i] == u[i]
  {
    assert s[p..][..|u|] == s[p..p + |u|];
    forall i | 0 <= i < |u| ensures s[p + i] == u[i] {
      assert s[p + i] == s[p..p + |u|][i];
    }
  }

  /** The characters of a text of attribute shape, one by one. */
  lemma ShapeChars(t: string, n: string)
    requires AttributeShape(t, n)
    ensures var w := |t| - |n| - 4;
      && (forall i :: 0 <= i < w ==> t[i] == ' ')
      && t[w] == '-' && t[w + 1] == ' '
      && (forall i :: 0 <= i < |n| ==> t[w + 2 + i] == n[i])
      && t[|t| - 2] == ':' && t[|t| - 1] == ':'
  {
    var w := |t| - |n| - 4;
    var tail := t[w..];
    ConcatParts("- ", n, "::");
    forall i | 0 <= i < w ensures t[i] == ' ' {
      assert t[i] == t[..w][i];
    }
    forall i | 0 <= i < |n| ensures t[w + 2 + i] == n[i] {
      assert t[w + 2 + i] == tail[2 + i] == tail[2..2 + |n|][i];
    }
    assert t[w] == tail[0] && t[w + 1] == tail[1];
    assert t[|t| - 2] == tail[|tail| - 2] && t[|t| - 1] == tail[|tail| - 1];
  }

  /** An attribute match in `extractLinks` is a newline or the start of the note, then
      spaces, `- `, a key and `::`; and every such text starting there is matched. */
  lemma ListAttributeMatch(s: string, p: nat, m: Match)
    requires p <= |s|
    ensures p < |s| && s[p] == '\n' ==>
      (MatchAt(s, p, ListAttribute) == Some(m) <==>
         m.index == p && HasPrefix(s[p..], m.text) && IsKey(m.name)
         && |m.text| > 0 && AttributeShape(m.text[1..], m.name))
    ensures !(p < |s| && s[p] == '\n') ==>
      (MatchAt(s, p, ListAttribute) == Some(m) <==>
         p == 0 && m.index == p && HasPrefix(s[p..], m.text) && IsKey(m.name)
         && AttributeShape(m.text, m.name))
  {
    if p < |s| && s[p] == '\n' {
      AttributeFromMatch(s, p, p + 1, m);
    } else if p == 0 {
      AttributeFromMatch(s, p, p, m);
      assert m.text[0..] == m.text;
    }
  }

  /** A line attribute match in `formatLink` starts a line and is spaces, `- `, a key and
      `::`; and every such text is matched. */
  lemma LineAttributeMatch(s: string, p: nat, m: Match)
    requires p <= |s|
    ensures MatchAt(s, p, LineAttribute) == Some(m)
        <==> m.index == p && (p == 0 || IsLineTerminator(s[p - 1])) && HasPrefix(s[p..], m.text)
             && IsKey(m.name) && AttributeShape(m.text, m.name)
  {
    if p == 0 || IsLineTerminator(s[p - 1]) {
      AttributeFromMatch(s, p, p, m);
      assert m.text[0..] == m.text;
    }
  }

  /** A tag match is `#` and a token that cannot be extended; every such text is matched. */
  lemma TagMatch(s: string, p: nat, m: Match)
    requires p <= |s|
    ensures TagAt(s, p) == Some(m)
        <==> m.index == p && m.text == "#" + m.name && |m.name| > 0 && AllIn(m.name, TokenChar)
             && HasPrefix(s[p..], m.text) && (p + |m.text| == |s| || !In(s[p + |m.text|], TokenChar))
  {
    if TagAt(s, p) == Some(m) {
      TagSound(s, p);
    }
    if m.index == p && m.text == "#" + m.name && |m.name| > 0 && AllIn(m.name, TokenChar)
       && HasPrefix(s[p..], m.text) && (p + |m.text| == |s| || !In(s[p + |m.text|], TokenChar)) {
      TagComplete(s, p, m);
    }
  }

  lemma TagSound(s: string, p: nat)
    requires p <= |s| && TagAt(s, p).Some?
    ensures var m := TagAt(s, p).value;
      && m.index == p && m.text == "#" + m.name && |m.name| > 0 && AllIn(m.name, TokenChar)
      && HasPrefix(s[p..], m.text) && (p + |m.text| == |s| || !In(s[p + |m.text|], TokenChar))
  {
    var e := SpanEnd(s, p + 1, TokenChar);
    var t, n := s[p..e], s[p + 1..e];
    assert t == [s[p]] + n;
    assert s[p..][..|t|] == t;
  }

  lemma TagComplete(s: string, p: nat, m: Match)
    requires p <= |s| && m.index == p && m.text == "#" + m.name && |m.name| > 0
    requires AllIn(m.name, TokenChar) && HasPrefix(s[p..], m.text)
    requires p + |m.text| == |s| || !In(s[p + |m.text|], TokenChar)
    ensures TagAt(s, p) == Some(m)
  {
    var t, n := m.text, m.name;
    PrefixChars(s, p, t);
    assert t[1..] == n;
    SubSlice(s, p, t, 1, |t|);
    assert s[p] == t[0] == '#' && s[p + 1] == t[1] == n[0];
    SpanEndOf(s, p + 1, p + |t|, TokenChar);
  }

  /** A marker match is the marker and every space that follows it. */
  lemma MarkerMatch(s: string, p: nat, word: string, m: Match)
    requires p <= |s|
    ensures MarkerAt(s, p, word) == Some(m)
        <==> m.index == p && m.name == word && HasPrefix(m.text, Marker(word))
             && AllIn(m.text[|Marker(word)|..], Space) && HasPrefix(s[p..], m.text)
             && (p + |m.text| == |s| || s[p + |m.text|] != ' ')
  {
    if MarkerAt(s, p, word) == Some(m) {
      MarkerSound(s, p, word);
    }
    if m.index == p && m.name == word && HasPrefix(m.text, Marker(word))
       && AllIn(m.text[|Marker(word)|..], Space) && HasPrefix(s[p..], m.text)
       && (p + |m.text| == |s| || s[p + |m.text|] != ' ') {
      MarkerComplete(s, p, word, m);
    }
  }

  lemma MarkerSound(s: string, p: nat, word: string)
    requires p <= |s| && MarkerAt(s, p, word).Some?
    ensures var m := MarkerAt(s, p, word).value;
      && m.index == p && m.name == word && HasPrefix(m.text, Marker(word))
      && AllIn(m.text[|Marker(word)|..], Space) && HasPrefix(s[p..], m.text)
      && (p + |m.text| == |s| || s[p + |m.text|] != ' ')
  {
    var mk := Marker(word);
    assert HasPrefix(s[p..], mk);
    var e := SpanEnd(s, p + |mk|, Space);
    var t := s[p..e];
    assert t[..|mk|] == s[p..][..|mk|] by {
      assert t[..|mk|] == s[p..p + |mk|];
      assert s[p..][..|mk|] == s[p..p + |mk|];
    }
    assert t[|mk|..] == s[p + |mk|..e];
    assert s[p..][..|t|] == t;
  }

  lemma MarkerComplete(s: string, p: nat, word: string, m: Match)
    requires p <= |s|
    requires m.index == p && m.name == word && HasPrefix(m.text, Marker(word))
    requires AllIn(m.text[|Marker(word)|..], Space) && HasPrefix(s[p..], m.text)
    requires p + |m.text| == |s| || s[p + |m.text|] != ' '
    ensures MarkerAt(s, p, word) == Some(m)
  {
    var mk := Marker(word);
    var u := m.text;
    PrefixChars(s, p, u);
    assert s[p..][..|mk|] == u[..|mk|] by {
      assert s[p..][..|mk|] == s[p..p + |u|][..|mk|];
    }
    assert s[p + |mk|..p + |u|] == u[|mk|..] by {
      assert s[p + |mk|..p + |u|] == s[p..p + |u|][|mk|..];
    }
    SpanEndOf(s, p + |mk|, p + |u|, Space);
  }

  lemma MarkerMatchesIff(s: string, p: nat, pat: Pattern)
    requires p <= |s| && (pat == Todo || pat == Done)
    ensures MatchAt(s, p, pat).Some? <==> HasPrefix(s[p..], Marker(if pat == Todo then "TODO" else "DONE"))
  {
  }

  // ---------------------------------------------------------------------------------------
  // Each pattern as a matcher for the search of `Matching`.

  function Find(pat: Pattern): (f: Matcher)
    ensures Anchored(f)
    ensures forall s: string, p: nat :: p <= |s| ==> f(s, p) == MatchAt(s, p, pat)
  {
    (s: string, p: nat) => if p <= |s| then MatchAt(s, p, pat) else None
  }
}
