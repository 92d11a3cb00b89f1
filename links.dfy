/** `extractLinks`: the link occurrences of one note, every `[[name]]` first and then every
    attribute line `<spaces>- key::`, each list in the order of the text. */
module Links {
  import opened Wrappers
  import opened Text
  import opened Matching
  import opened Patterns

  function ExtractLinks(s: string): seq<Match> {
    Scan(s, 0, Find(WikiLink)) + Scan(s, 0, Find(ListAttribute))
  }

  /** The links are the leftmost scan for wiki links followed by the leftmost scan for
      attribute lines, and nothing else: any list of that shape is `ExtractLinks(s)`. */
  lemma ExtractLinksSplit(s: string, ws: seq<Match>, as_: seq<Match>)
    requires IsLeftmostScan(s, 0, Find(WikiLink), ws) && IsLeftmostScan(s, 0, Find(ListAttribute), as_)
    ensures ExtractLinks(s) == ws + as_
    ensures |ExtractLinks(s)| == |ws| + |as_|
  {
    ScanUnique(s, 0, Find(WikiLink), ws);
    ScanUnique(s, 0, Find(ListAttribute), as_);
  }

  /** Every wiki link comes before every attribute line, each group is in text order, and
      every `[[name]]` and every attribute line of the note is among the links. */
  lemma ExtractLinksOrder(s: string)
    ensures var ws := Scan(s, 0, Find(WikiLink));
      && ExtractLinks(s)[..|ws|] == ws
      && IsLeftmostScan(s, 0, Find(WikiLink), ws)
      && IsLeftmostScan(s, 0, Find(ListAttribute), ExtractLinks(s)[|ws|..])
  {
    var ws := Scan(s, 0, Find(WikiLink));
    ScanIsLeftmost(s, 0, Find(WikiLink));
    ScanIsLeftmost(s, 0, Find(ListAttribute));
    assert ExtractLinks(s)[..|ws|] == ws;
    assert ExtractLinks(s)[|ws|..] == Scan(s, 0, Find(ListAttribute));
  }

  /** Each link of the first group is a `[[name]]` text of the note at its offset, each of the
      second an attribute line; the name is the captured key. */
  lemma ExtractLinksShape(s: string, k: nat)
    requires k < |ExtractLinks(s)|
    ensures var m := ExtractLinks(s)[k];
      && m.index <= |s| && HasPrefixAt(s, m)
      && (IsWikiLinkText(m.text, m.name) || (IsKey(m.name) && EndsWithAttribute(m.text, m.name)))
  {
    var ws := Scan(s, 0, Find(WikiLink));
    var as_ := Scan(s, 0, Find(ListAttribute));
    var m := ExtractLinks(s)[k];
    if k < |ws| {
      assert m == ws[k];
      ScanHit(s, Find(WikiLink), k);
      WikiLinkShape(s, m);
    } else {
      assert m == as_[k - |ws|];
      ScanHit(s, Find(ListAttribute), k - |ws|);
      AttributeLineShape(s, m);
    }
  }

  /** An element of a global search is a match at its own offset. */
  lemma ScanHit(s: string, f: Matcher, k: nat)
    requires Anchored(f) && k < |Scan(s, 0, f)|
    ensures var m := Scan(s, 0, f)[k]; m.index <= |s| && f(s, m.index) == Some(m)
  {
    ScanIsLeftmost(s, 0, f);
  }

  lemma WikiLinkShape(s: string, m: Match)
    requires m.index <= |s| && Find(WikiLink)(s, m.index) == Some(m)
    ensures HasPrefixAt(s, m) && IsWikiLinkText(m.text, m.name)
  {
    WikiLinkMatch(s, m.index, m);
  }

  lemma AttributeLineShape(s: string, m: Match)
    requires m.index <= |s| && Find(ListAttribute)(s, m.index) == Some(m)
    ensures HasPrefixAt(s, m) && IsKey(m.name) && EndsWithAttribute(m.text, m.name)
  {
    ListAttributeMatch(s, m.index, m);
    if m.index < |s| && s[m.index] == '\n' {
      assert m.text[1..][|m.text| - 1 - |m.name| - 4..] == m.text[|m.text| - |m.name| - 4..];
    }
  }

  predicate HasPrefixAt(s: string, m: Match)
    requires m.index <= |s|
  {
    HasPrefix(s[m.index..], m.text)
  }

  /** The text ends with the list marker, the key and `::`. */
  predicate EndsWithAttribute(t: string, n: string) {
    |t| >= |n| + 4 && t[|t| - |n| - 4..] == "- " + n + "::"
  }
}
