/** `addBackLinks`: a note's backlinks, sorted by source page and offset and grouped under
    one heading per source page, appended to the note as a `# Backlinks` section. */
module Render {
  import opened Wrappers
  import opened Text
  import opened Matching
  import opened Index

  /** A backlink as the section lists it: the source's page name and the match. */
  datatype Entry = Entry(page: string, link: Match)

  /** `fileName.slice(0, -3)`: the key without its last three characters (`.md`); a key
      shorter than that gives the empty name. */
  function PageName(key: string): string {
    if |key| >= 3 then key[..|key| - 3] else ""
  }

  /** The page of a note file is its key without `.md`. */
  lemma PageNameOfFile(name: string)
    ensures PageName(name + ".md") == name
  {
    assert (name + ".md")[..|name|] == name;
  }

  function Entries(bs: seq<BackLink>): (r: seq<Entry>)
    ensures |r| == |bs|
    ensures forall i :: 0 <= i < |bs| ==> r[i] == Entry(PageName(bs[i].source), bs[i].link)
  {
    seq(|bs|, i requires 0 <= i < |bs| => Entry(PageName(bs[i].source), bs[i].link))
  }

  // ---------------------------------------------------------------------------------------
  // The order of the section: `localeCompare` on the page, then the offset.

  /** The sort comparator's `<= 0`: different pages compare as strings, equal pages by the
      offset of the match. */
  predicate EntryLe(a: Entry, b: Entry) {
    if a.page == b.page then a.link.index <= b.link.index else LexLe(a.page, b.page)
  }

  lemma EntryLeTotal(a: Entry, b: Entry)
    ensures EntryLe(a, b) || EntryLe(b, a)
  {
    LexLeTotal(a.page, b.page);
  }

  lemma EntryLeTransitive(a: Entry, b: Entry, c: Entry)
    requires EntryLe(a, b) && EntryLe(b, c)
    ensures EntryLe(a, c)
  {
    if a.page != b.page && b.page != c.page {
      LexLeTransitive(a.page, b.page, c.page);
      if a.page == c.page {
        LexLeAntisymmetric(a.page, b.page);
      }
    }
  }

  /** Entries of one page come in offset order, and a page that sorts first comes first. */
  predicate Sorted(xs: seq<Entry>) {
    forall i, j :: 0 <= i < j < |xs| ==> EntryLe(xs[i], xs[j])
  }

  /** `x` placed after every element it does not precede, so that equal entries keep their
      order (the sort is stable). */
  function Insert(s: seq<Entry>, x: Entry): (r: seq<Entry>)
    ensures |r| == |s| + 1
  {
    if s == [] then [x]
    else if EntryLe(s[|s| - 1], x) then s + [x]
    else Insert(s[..|s| - 1], x) + [s[|s| - 1]]
  }

  /** `Array.prototype.sort` with the comparator: a stable insertion sort. */
  function SortEntries(xs: seq<Entry>): (r: seq<Entry>)
    ensures |r| == |xs|
  {
    if xs == [] then [] else Insert(SortEntries(xs[..|xs| - 1]), xs[|xs| - 1])
  }

  lemma {:induction false} InsertPermutes(s: seq<Entry>, x: Entry)
    ensures multiset(Insert(s, x)) == multiset(s) + multiset{x}
  {
    if s != [] && !EntryLe(s[|s| - 1], x) {
      InsertPermutes(s[..|s| - 1], x);
      assert s == s[..|s| - 1] + [s[|s| - 1]];
    }
  }

  lemma {:induction false} InsertSorted(s: seq<Entry>, x: Entry)
    requires Sorted(s)
    ensures Sorted(Insert(s, x))
  {
    if s == [] {
    } else if EntryLe(s[|s| - 1], x) {
      var r := s + [x];
      forall i, j | 0 <= i < j < |r| ensures EntryLe(r[i], r[j]) {
        if j == |s| && i < |s| - 1 {
          EntryLeTransitive(s[i], s[|s| - 1], x);
        }
      }
    } else {
      var init, y := s[..|s| - 1], s[|s| - 1];
      InsertSorted(init, x);
      InsertPermutes(init, x);
      EntryLeTotal(y, x);
      var t := Insert(init, x);
      var r := t + [y];
      forall i, j | 0 <= i < j < |r| ensures EntryLe(r[i], r[j]) {
        if j == |t| {
          assert r[i] == t[i] && t[i] in multiset(init) + multiset{x};
          if t[i] != x {
            var k :| 0 <= k < |init| && init[k] == t[i];
            assert s[k] == t[i];
          }
        }
      }
    }
  }

  /** The sort returns its input in sorted order. */
  lemma {:induction false} SortEntriesSorts(xs: seq<Entry>)
    ensures Sorted(SortEntries(xs))
    ensures multiset(SortEntries(xs)) == multiset(xs)
  {
    if xs != [] {
      var init := xs[..|xs| - 1];
      SortEntriesSorts(init);
      InsertSorted(SortEntries(init), xs[|xs| - 1]);
      InsertPermutes(SortEntries(init), xs[|xs| - 1]);
      assert xs == init + [xs[|xs| - 1]];
    }
  }

  // ---------------------------------------------------------------------------------------
  // The lines of the section.

  function Heading(page: string): string {
    "## [" + page + "](<" + page + ".md>)"
  }

  /** Entry `i` comes from another page than the one before it (`file !== fileBefore`,
      where `fileBefore` starts as `null`). */
  predicate StartsPage(files: seq<Entry>, i: nat)
    requires i < |files|
  {
    i == 0 || files[i - 1].page != files[i].page
  }

  /** The lines for the first `n` entries: before an entry that starts a page, the page's
      heading; then the entry's trimmed match text and an empty line. */
  function LinesUpTo(files: seq<Entry>, n: nat): seq<string>
    requires n <= |files|
  {
    if n == 0 then []
    else
      LinesUpTo(files, n - 1)
      + (if StartsPage(files, n - 1) then [Heading(files[n - 1].page)] else [])
      + [Trim(files[n - 1].link.text), ""]
  }

  function BackLinkLines(bs: seq<BackLink>): seq<string> {
    LinesUpTo(SortEntries(Entries(bs)), |bs|)
  }

  /** The note with its backlinks: unchanged without any, else the section appended. */
  function WithBackLinks(content: string, backLinks: Option<seq<BackLink>>): string {
    if backLinks.None? || |backLinks.value| == 0 then content
    else content + "\n# Backlinks\n" + Join(BackLinkLines(backLinks.value), "\n") + "\n"
  }

  /** `addBackLinks`: the sort, then the loop that remembers the page of the entry before. */
  method AddBackLinks(content: string, backLinks: Option<seq<BackLink>>) returns (r: string)
    ensures r == WithBackLinks(content, backLinks)
    ensures backLinks.None? || backLinks.value == [] ==> r == content
    ensures backLinks.Some? && backLinks.value != [] ==> |r| > |content| && r[..|content|] == content
  {
    if backLinks.None? || |backLinks.value| == 0 {
      return content;
    }
    var files := SortEntries(Entries(backLinks.value));
    var newLines: seq<string> := [];
    var fileBefore: Option<string> := None;
    for i := 0 to |files|
      invariant newLines == LinesUpTo(files, i)
      invariant fileBefore == if i == 0 then None else Some(files[i - 1].page)
    {
      var file := files[i].page;
      if fileBefore != Some(file) {
        newLines := newLines + [Heading(file)];
      }
      fileBefore := Some(file);
      newLines := newLines + [Trim(files[i].link.text), ""];
    }
    r := content + "\n# Backlinks\n" + Join(newLines, "\n") + "\n";
  }

  // ---------------------------------------------------------------------------------------
  // What the section shows.

  /** In sorted entries, an entry starts a page exactly when no earlier entry has its page:
      one heading per source page, before the page's first entry. */
  lemma FirstOfPage(files: seq<Entry>, i: nat)
    requires Sorted(files) && i < |files|
    ensures StartsPage(files, i) <==> forall j :: 0 <= j < i ==> files[j].page != files[i].page
  {
    if i > 0 && files[i - 1].page != files[i].page {
      forall j | 0 <= j < i ensures files[j].page != files[i].page {
        if j < i - 1 && files[j].page == files[i].page {
          assert EntryLe(files[j], files[i - 1]) && EntryLe(files[i - 1], files[i]);
          LexLeAntisymmetric(files[i - 1].page, files[i].page);
        }
      }
    }
  }

  /** The lines of fewer entries are a prefix of the lines of more. */
  lemma {:induction false} LinesPrefix(files: seq<Entry>, i: nat, n: nat)
    requires i <= n <= |files|
    ensures |LinesUpTo(files, i)| <= |LinesUpTo(files, n)|
    ensures LinesUpTo(files, n)[..|LinesUpTo(files, i)|] == LinesUpTo(files, i)
    decreases n - i
  {
    if i < n {
      LinesPrefix(files, i, n - 1);
      var a, b := LinesUpTo(files, i), LinesUpTo(files, n - 1);
      assert LinesUpTo(files, n)[..|b|] == b;
      assert b[..|a|] == a;
    } else {
      assert LinesUpTo(files, n)[..|LinesUpTo(files, n)|] == LinesUpTo(files, n);
    }
  }

  /** Every entry's trimmed match text is among the lines, right after the lines of the
      entries before it and the heading if the entry starts its page. */
  lemma EntryLine(files: seq<Entry>, i: nat) returns (at: nat)
    requires i < |files|
    ensures at == |LinesUpTo(files, i)| + (if StartsPage(files, i) then 1 else 0)
    ensures at + 1 < |LinesUpTo(files, |files|)|
    ensures LinesUpTo(files, |files|)[at] == Trim(files[i].link.text)
    ensures LinesUpTo(files, |files|)[at + 1] == ""
    ensures StartsPage(files, i) ==> LinesUpTo(files, |files|)[at - 1] == Heading(files[i].page)
  {
    at := EntryBlock(files, i);
    LinesPrefix(files, i + 1, |files|);
    PrefixAt(LinesUpTo(files, |files|), LinesUpTo(files, i + 1), at);
    PrefixAt(LinesUpTo(files, |files|), LinesUpTo(files, i + 1), at + 1);
    if StartsPage(files, i) {
      PrefixAt(LinesUpTo(files, |files|), LinesUpTo(files, i + 1), at - 1);
    }
  }

  /** The lines of entry `i` end the lines of the first `i + 1` entries. */
  lemma EntryBlock(files: seq<Entry>, i: nat) returns (at: nat)
    requires i < |files|
    ensures at == |LinesUpTo(files, i)| + (if StartsPage(files, i) then 1 else 0)
    ensures at + 2 == |LinesUpTo(files, i + 1)|
    ensures LinesUpTo(files, i + 1)[at] == Trim(files[i].link.text)
    ensures LinesUpTo(files, i + 1)[at + 1] == ""
    ensures StartsPage(files, i) ==> LinesUpTo(files, i + 1)[at - 1] == Heading(files[i].page)
  {
    at := |LinesUpTo(files, i)| + (if StartsPage(files, i) then 1 else 0);
  }

  lemma PrefixAt(all: seq<string>, b: seq<string>, k: nat)
    requires |b| <= |all| && all[..|b|] == b && k < |b|
    ensures all[k] == b[k]
  {
    assert all[..|b|][k] == all[k];
  }

  /** Every page that has an entry has its heading among the lines. */
  lemma HeadingOfEveryPage(files: seq<Entry>, i: nat)
    requires Sorted(files) && i < |files|
    ensures Heading(files[i].page) in LinesUpTo(files, |files|)
  {
    var f := FirstWithPage(files, i, 0);
    FirstOfPage(files, f);
    LinesPrefix(files, f + 1, |files|);
    assert Heading(files[f].page) == LinesUpTo(files, f + 1)[|LinesUpTo(files, f)|];
  }

  /** The first index from `j` on whose entry has the page of entry `i`. */
  function FirstWithPage(files: seq<Entry>, i: nat, j: nat): (f: nat)
    requires j <= i < |files|
    requires forall k :: 0 <= k < j ==> files[k].page != files[i].page
    ensures j <= f <= i && files[f].page == files[i].page
    ensures forall k :: 0 <= k < f ==> files[k].page != files[i].page
    decreases i - j
  {
    if files[j].page == files[i].page then j else FirstWithPage(files, i, j + 1)
  }

  /** The section lists every backlink once, in sorted order. */
  lemma BackLinkLinesOrder(bs: seq<BackLink>)
    ensures Sorted(SortEntries(Entries(bs)))
    ensures multiset(SortEntries(Entries(bs))) == multiset(Entries(bs))
    ensures |BackLinkLines(bs)| >= 2 * |bs|
  {
    SortEntriesSorts(Entries(bs));
    LinesLength(SortEntries(Entries(bs)), |bs|);
  }

  lemma {:induction false} LinesLength(files: seq<Entry>, n: nat)
    requires n <= |files|
    ensures 2 * n <= |LinesUpTo(files, n)| <= 3 * n
  {
    if n > 0 {
      LinesLength(files, n - 1);
    }
  }

  /** The note with its backlinks is empty only when the note is empty and has none. */
  lemma WithBackLinksEmpty(content: string, backLinks: Option<seq<BackLink>>)
    ensures WithBackLinks(content, backLinks) == "" <==> content == "" && (backLinks.None? || backLinks.value == [])
  {
    if backLinks.Some? && backLinks.value != [] {
      var r := WithBackLinks(content, backLinks);
      assert r[|content|] == '\n';
    }
  }
}
