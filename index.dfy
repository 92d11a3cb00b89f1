/** `getBackLinks`: the forward links of every note, inverted into an index from a link
    target's file name (`name + ".md"`) to the list of `(source note, match)` pairs that point
    at it, in the order the notes and their links come. */
module Index {
  import opened Wrappers
  import opened Text
  import opened Matching
  import opened Links

  /** One note of the export: its key (the file's path below the export root, `.md`
      included) and its text. A JavaScript object of notes is a sequence of them in the
      object's key order. */
  datatype Note = Note(key: string, content: string)

  /** One entry of the index: the note the link is in and the link's match. */
  datatype BackLink = BackLink(source: string, link: Match)

  type BackLinkIndex = map<string, seq<BackLink>>

  /** The key a link is filed under. */
  function TargetKey(b: BackLink): string {
    b.link.name + ".md"
  }

  predicate UniqueKeys(notes: seq<Note>) {
    forall i, j :: 0 <= i < j < |notes| ==> notes[i].key != notes[j].key
  }

  /** The links of one note, each paired with the note's key. */
  function Sourced(key: string, links: seq<Match>): (r: seq<BackLink>)
    ensures |r| == |links|
    ensures forall i :: 0 <= i < |links| ==> r[i] == BackLink(key, links[i])
  {
    if links == [] then []
    else Sourced(key, links[..|links| - 1]) + [BackLink(key, links[|links| - 1])]
  }

  /** Every link of every note, paired with its note, notes in order and each note's links
      in the order `extractLinks` gives them. */
  function AllLinks(notes: seq<Note>): seq<BackLink>
  {
    if notes == [] then []
    else
      var last := notes[|notes| - 1];
      AllLinks(notes[..|notes| - 1]) + Sourced(last.key, ExtractLinks(last.content))
  }

  /** The new bucket entry for one link: an empty bucket is created first when the key is
      new, and the entry is appended. */
  function Push(index: BackLinkIndex, b: BackLink): BackLinkIndex {
    var k := TargetKey(b);
    index[k := (if k in index then index[k] else []) + [b]]
  }

  /** The index after pushing the entries of `bs` in order into an empty one. */
  function Collect(bs: seq<BackLink>): BackLinkIndex
  {
    if bs == [] then map[] else Push(Collect(bs[..|bs| - 1]), bs[|bs| - 1])
  }

  /** What `getBackLinks` returns for the notes. */
  function BuildIndex(notes: seq<Note>): BackLinkIndex {
    Collect(AllLinks(notes))
  }

  /** The entries of `bs` filed under `k`, in order. */
  function Filter(bs: seq<BackLink>, k: string): seq<BackLink>
  {
    if bs == [] then []
    else Filter(bs[..|bs| - 1], k) + (if TargetKey(bs[|bs| - 1]) == k then [bs[|bs| - 1]] else [])
  }

  /** The number of links among `links` whose name, with `.md`, is `k`. */
  function CountNamed(links: seq<Match>, k: string): nat
  {
    if links == [] then 0
    else CountNamed(links[..|links| - 1], k) + (if links[|links| - 1].name + ".md" == k then 1 else 0)
  }

  /** The number of occurrences that name `k` across all notes. */
  function Mentions(notes: seq<Note>, k: string): nat
  {
    if notes == [] then 0
    else Mentions(notes[..|notes| - 1], k) + CountNamed(ExtractLinks(notes[|notes| - 1].content), k)
  }

  // ---------------------------------------------------------------------------------------
  // The method.

  /** `getBackLinks`: first the forward links of every note, then each link pushed into the
      bucket of its target. */
  method GetBackLinks(contents: seq<Note>) returns (backLinks: BackLinkIndex)
    ensures backLinks == BuildIndex(contents)
  {
    // `forwardLinks[i]` is the object's entry for `contents[i].key`.
    var forwardLinks: seq<seq<Match>> := [];
    for i := 0 to |contents|
      invariant |forwardLinks| == i
      invariant forall j :: 0 <= j < i ==> forwardLinks[j] == ExtractLinks(contents[j].content)
    {
      forwardLinks := forwardLinks + [ExtractLinks(contents[i].content)];
    }
    backLinks := map[];
    for i := 0 to |contents|
      invariant backLinks == Collect(AllLinks(contents[..i]))
    {
      assert forwardLinks[i] == ExtractLinks(contents[i].content);
      backLinks := PushLinks(backLinks, contents[i].key, forwardLinks[i], AllLinks(contents[..i]));
      AllLinksStep(contents, i);
    }
    assert contents[..|contents|] == contents;
  }

  /** The inner loop of `getBackLinks`: the links of note `fileName` pushed one by one into
      the index built from the entries `before`. */
  method PushLinks(index: BackLinkIndex, fileName: string, links: seq<Match>, ghost before: seq<BackLink>)
    returns (backLinks: BackLinkIndex)
    requires index == Collect(before)
    ensures backLinks == Collect(before + Sourced(fileName, links))
  {
    backLinks := index;
    assert before + Sourced(fileName, links[..0]) == before;
    for j := 0 to |links|
      invariant backLinks == Collect(before + Sourced(fileName, links[..j]))
    {
      var link := links[j];
      var linkName := link.name + ".md";
      ghost var previous := backLinks;
      if linkName !in backLinks {
        backLinks := backLinks[linkName := []];
      }
      backLinks := backLinks[linkName := backLinks[linkName] + [BackLink(fileName, link)]];
      PushCreates(previous, BackLink(fileName, link));
      PushStep(before, fileName, links, j);
    }
    assert links[..|links|] == links;
  }

  /** `Push` is the two updates of the loop: create the bucket when it is missing, then
      append to it. */
  lemma PushCreates(index: BackLinkIndex, b: BackLink)
    ensures var k := TargetKey(b);
      var created := if k !in index then index[k := []] else index;
      Push(index, b) == created[k := created[k] + [b]]
  {
  }

  /** One more link pushed is one more link of the current note collected. */
  lemma PushStep(before: seq<BackLink>, key: string, links: seq<Match>, j: nat)
    requires j < |links|
    ensures Push(Collect(before + Sourced(key, links[..j])), BackLink(key, links[j]))
         == Collect(before + Sourced(key, links[..j + 1]))
  {
    SourcedSnoc(key, links, j);
    CollectSnoc(before + Sourced(key, links[..j]), BackLink(key, links[j]));
    assert before + Sourced(key, links[..j + 1]) == before + Sourced(key, links[..j]) + [BackLink(key, links[j])];
  }

  /** The links of the first `i + 1` notes are those of the first `i` and then note `i`'s. */
  lemma AllLinksStep(notes: seq<Note>, i: nat)
    requires i < |notes|
    ensures AllLinks(notes[..i + 1]) == AllLinks(notes[..i]) + Sourced(notes[i].key, ExtractLinks(notes[i].content))
  {
    assert notes[..i + 1][..i] == notes[..i];
  }

  lemma SourcedSnoc(key: string, links: seq<Match>, j: nat)
    requires j < |links|
    ensures Sourced(key, links[..j + 1]) == Sourced(key, links[..j]) + [BackLink(key, links[j])]
  {
    assert links[..j + 1][..j] == links[..j];
  }

  lemma CollectSnoc(bs: seq<BackLink>, b: BackLink)
    ensures Collect(bs + [b]) == Push(Collect(bs), b)
  {
    assert (bs + [b])[..|bs|] == bs;
  }

  // ---------------------------------------------------------------------------------------
  // What the index holds.

  /** A key is in the index exactly when some entry is filed under it, and its bucket holds
      those entries in order. */
  lemma {:induction false} CollectIsFilter(bs: seq<BackLink>, k: string)
    ensures k in Collect(bs) <==> Filter(bs, k) != []
    ensures k in Collect(bs) ==> Collect(bs)[k] == Filter(bs, k)
  {
    if bs != [] {
      CollectIsFilter(bs[..|bs| - 1], k);
    }
  }

  /** Filtering keeps each entry filed under `k` as often as it occurs, and nothing else. */
  lemma {:induction false} FilterMultiset(bs: seq<BackLink>, k: string)
    ensures forall b :: multiset(Filter(bs, k))[b] == if TargetKey(b) == k then multiset(bs)[b] else 0
  {
    if bs != [] {
      var xs, last := bs[..|bs| - 1], bs[|bs| - 1];
      FilterMultiset(xs, k);
      assert bs == xs + [last];
    }
  }

  lemma {:induction false} FilterConcat(a: seq<BackLink>, b: seq<BackLink>, k: string)
    ensures Filter(a + b, k) == Filter(a, k) + Filter(b, k)
    decreases |b|
  {
    if b == [] {
      assert a + b == a;
    } else {
      var bs := b[..|b| - 1];
      assert (a + b)[..|a + b| - 1] == a + bs;
      FilterConcat(a, bs, k);
    }
  }

  lemma {:induction false} FilterSourced(key: string, links: seq<Match>, k: string)
    ensures |Filter(Sourced(key, links), k)| == CountNamed(links, k)
  {
    if links != [] {
      var init := links[..|links| - 1];
      FilterSourced(key, init, k);
      var r := Sourced(key, links);
      assert r[..|r| - 1] == Sourced(key, init);
    }
  }

  /** The bucket of `k` has one entry per occurrence naming `k`, over all notes. */
  lemma {:induction false} FilterMentions(notes: seq<Note>, k: string)
    ensures |Filter(AllLinks(notes), k)| == Mentions(notes, k)
  {
    if notes != [] {
      var last := notes[|notes| - 1];
      FilterMentions(notes[..|notes| - 1], k);
      FilterConcat(AllLinks(notes[..|notes| - 1]), Sourced(last.key, ExtractLinks(last.content)), k);
      FilterSourced(last.key, ExtractLinks(last.content), k);
    }
  }

  /** `getBackLinks` files every occurrence once, under its name with `.md`: a target named
      nowhere has no key, and the bucket of a named one has as many entries as there are
      occurrences naming it, in note order. */
  lemma BuildIndexBuckets(notes: seq<Note>, k: string)
    ensures k in BuildIndex(notes) <==> Mentions(notes, k) > 0
    ensures k in BuildIndex(notes) ==> BuildIndex(notes)[k] == Filter(AllLinks(notes), k)
    ensures k in BuildIndex(notes) ==> |BuildIndex(notes)[k]| == Mentions(notes, k)
  {
    CollectIsFilter(AllLinks(notes), k);
    FilterMentions(notes, k);
  }

  /** Every entry in a bucket is a link of the note it names, filed under its own target. */
  lemma BuildIndexEntries(notes: seq<Note>, k: string, b: BackLink)
    requires k in BuildIndex(notes) && b in BuildIndex(notes)[k]
    ensures TargetKey(b) == k
    ensures multiset(BuildIndex(notes)[k])[b] == multiset(AllLinks(notes))[b]
  {
    CollectIsFilter(AllLinks(notes), k);
    FilterMultiset(AllLinks(notes), k);
  }
}
