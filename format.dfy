/** `formatMarkdown`: the whole transformation of an export. The backlink index is built
    from the notes as they were read; then each note gets its backlinks, its checkboxes and
    its relative links, and only the notes with some text left are kept. */
module Format {
  import opened Wrappers
  import opened Text
  import opened Index
  import opened Render
  import opened Todo
  import opened Rewrite

  /** `"../".repeat(n)`, `n` the number of `/` in the note's key: the way from the note's
      directory back up to the export root. */
  function LinkPrefix(key: string): string {
    Repeat("../", Count(key, '/'))
  }

  /** The backlinks of a note, `backLinks[fileName] || []`. */
  function BacklinksOf(index: BackLinkIndex, key: string): seq<BackLink> {
    if key in index then index[key] else []
  }

  /** One note's output text. */
  function FormatNote(note: Note, index: BackLinkIndex): string {
    var withBackLinks := WithBackLinks(note.content, Some(BacklinksOf(index, note.key)));
    FormatLink(FormatToDo(withBackLinks), LinkPrefix(note.key))
  }

  /** The output texts of the notes, each formatted against the same index. */
  function Texts(notes: seq<Note>, index: BackLinkIndex): (r: seq<string>)
    ensures |r| == |notes|
    ensures forall i :: 0 <= i < |notes| ==> r[i] == FormatNote(notes[i], index)
  {
    seq(|notes|, i requires 0 <= i < |notes| => FormatNote(notes[i], index))
  }

  /** The notes whose text is not empty, each with its text, in order
      (`if (content.length > 0) output[fileName] = content`). */
  function Kept(notes: seq<Note>, texts: seq<string>): seq<Note>
    requires |texts| == |notes|
  {
    if notes == [] then []
    else
      var n := |notes| - 1;
      Kept(notes[..n], texts[..n]) + (if |texts[n]| > 0 then [Note(notes[n].key, texts[n])] else [])
  }

  /** The output object: every note whose output text is not empty, with that text. */
  function FormatAll(notes: seq<Note>, index: BackLinkIndex): seq<Note> {
    Kept(notes, Texts(notes, index))
  }

  /** `formatMarkdown`: the index first, from the notes as read, then one pass over the
      notes. */
  method FormatMarkdown(contents: seq<Note>) returns (output: seq<Note>)
    ensures output == FormatAll(contents, BuildIndex(contents))
  {
    var backLinks := GetBackLinks(contents);
    ghost var texts := Texts(contents, backLinks);
    output := [];
    for i := 0 to |contents|
      invariant output == Kept(contents[..i], texts[..i])
    {
      var fileName := contents[i].key;
      var content := FormatOne(contents[i], backLinks);
      KeptStep(contents, texts, i);
      if |content| > 0 {
        output := output + [Note(fileName, content)];
      }
    }
    assert contents[..|contents|] == contents && texts[..|texts|] == texts;
  }

  /** The body of the loop of `formatMarkdown` for one note. */
  method FormatOne(note: Note, backLinks: BackLinkIndex) returns (content: string)
    ensures content == FormatNote(note, backLinks)
  {
    var fileName := note.key;
    content := AddBackLinks(note.content, Some(if fileName in backLinks then backLinks[fileName] else []));
    content := FormatToDo(content);
    var linkPrefix := Repeat("../", Count(fileName, '/'));
    content := FormatLink(content, linkPrefix);
  }

  lemma KeptStep(notes: seq<Note>, texts: seq<string>, i: nat)
    requires |texts| == |notes| && i < |notes|
    ensures Kept(notes[..i + 1], texts[..i + 1])
         == Kept(notes[..i], texts[..i]) + (if |texts[i]| > 0 then [Note(notes[i].key, texts[i])] else [])
  {
    assert notes[..i + 1][..i] == notes[..i] && texts[..i + 1][..i] == texts[..i];
  }

  // ---------------------------------------------------------------------------------------
  // The link prefix.

  lemma {:induction false} RepeatAdd(s: string, a: nat, b: nat)
    ensures Repeat(s, a + b) == Repeat(s, a) + Repeat(s, b)
    decreases b
  {
    if b == 0 {
      assert Repeat(s, a) + "" == Repeat(s, a);
    } else {
      RepeatAdd(s, a, b - 1);
    }
  }

  /** A note below one more directory gets one more `../`: the prefix of `dir/key` is that
      of `dir`, one `../`, and that of `key`. */
  lemma LinkPrefixNested(dir: string, key: string)
    ensures LinkPrefix(dir + "/" + key) == LinkPrefix(dir) + "../" + LinkPrefix(key)
  {
    CountConcat(dir + "/", key, '/');
    CountConcat(dir, "/", '/');
    assert Count("/", '/') == 1 by {
      assert "/"[..0] == "";
    }
    RepeatAdd("../", Count(dir, '/'), 1);
    RepeatAdd("../", Count(dir, '/') + 1, Count(key, '/'));
    assert Repeat("../", 1) == "../" by {
      assert Repeat("../", 0) == "";
    }
  }

  /** A note at the export root links without a prefix; `k` levels down, with `k` times
      `../`. */
  lemma LinkPrefixDepth(key: string)
    ensures |LinkPrefix(key)| == 3 * Count(key, '/')
    ensures (forall i :: 0 <= i < |key| ==> key[i] != '/') ==> LinkPrefix(key) == ""
  {
    if forall i :: 0 <= i < |key| ==> key[i] != '/' {
      CountAbsent(key, '/');
    }
  }

  // ---------------------------------------------------------------------------------------
  // Which notes are kept.

  /** A note's output is empty exactly when the note is empty and nothing links to it. */
  lemma FormatNoteEmpty(note: Note, index: BackLinkIndex)
    ensures FormatNote(note, index) == "" <==> note.content == "" && BacklinksOf(index, note.key) == []
  {
    var bs := BacklinksOf(index, note.key);
    var w := WithBackLinks(note.content, Some(bs));
    WithBackLinksEmpty(note.content, Some(bs));
    FormatToDoEmpty(w);
    FormatLinkEmpty(FormatToDo(w), LinkPrefix(note.key));
  }

  /** The kept notes are exactly the notes with a non-empty text, each with its text. */
  lemma {:induction false} KeptExactly(notes: seq<Note>, texts: seq<string>)
    requires |texts| == |notes|
    ensures forall o :: o in Kept(notes, texts) ==>
      exists i :: 0 <= i < |notes| && o == Note(notes[i].key, texts[i]) && texts[i] != ""
    ensures forall i :: 0 <= i < |notes| && texts[i] != "" ==> Note(notes[i].key, texts[i]) in Kept(notes, texts)
  {
    if notes != [] {
      var n := |notes| - 1;
      var init, front := notes[..n], texts[..n];
      KeptExactly(init, front);
      forall o | o in Kept(notes, texts)
        ensures exists i :: 0 <= i < |notes| && o == Note(notes[i].key, texts[i]) && texts[i] != ""
      {
        if o in Kept(init, front) {
          var i :| 0 <= i < |init| && o == Note(init[i].key, front[i]) && front[i] != "";
          assert notes[i] == init[i] && texts[i] == front[i];
        }
      }
      forall i | 0 <= i < |notes| && texts[i] != "" ensures Note(notes[i].key, texts[i]) in Kept(notes, texts) {
        if i < n {
          assert notes[i] == init[i] && texts[i] == front[i];
        }
      }
    }
  }

  /** Every kept key is the key of a note, in the notes' order, so distinct keys stay
      distinct. */
  lemma {:induction false} KeptUnique(notes: seq<Note>, texts: seq<string>)
    requires |texts| == |notes| && UniqueKeys(notes)
    ensures UniqueKeys(Kept(notes, texts))
    ensures forall o :: o in Kept(notes, texts) ==> exists i :: 0 <= i < |notes| && notes[i].key == o.key
  {
    if notes != [] {
      var n := |notes| - 1;
      var init, front := notes[..n], texts[..n];
      assert UniqueKeys(init) by {
        forall i, j | 0 <= i < j < |init| ensures init[i].key != init[j].key {
          assert init[i] == notes[i] && init[j] == notes[j];
        }
      }
      KeptUnique(init, front);
      var out := Kept(init, front);
      forall o | o in out ensures o.key != notes[n].key {
        var i :| 0 <= i < |init| && init[i].key == o.key;
        assert init[i] == notes[i];
      }
      forall o | o in Kept(notes, texts) ensures exists i :: 0 <= i < |notes| && notes[i].key == o.key {
        if o in out {
          var i :| 0 <= i < |init| && init[i].key == o.key;
          assert notes[i] == init[i];
        } else {
          assert notes[n].key == o.key;
        }
      }
      var r := Kept(notes, texts);
      forall i, j | 0 <= i < j < |r| ensures r[i].key != r[j].key {
        if j >= |out| {
          assert r[i] in out;
        }
      }
    }
  }

  /** The output keys are exactly the keys of the notes whose output is not empty, each
      with its output; and they are distinct, as the keys of an object are. */
  lemma FormatAllKeys(notes: seq<Note>, index: BackLinkIndex)
    ensures forall o :: o in FormatAll(notes, index) ==>
      exists i :: 0 <= i < |notes| && o == Note(notes[i].key, FormatNote(notes[i], index)) && o.content != ""
    ensures forall i :: 0 <= i < |notes| && FormatNote(notes[i], index) != "" ==>
      Note(notes[i].key, FormatNote(notes[i], index)) in FormatAll(notes, index)
    ensures UniqueKeys(notes) ==> UniqueKeys(FormatAll(notes, index))
  {
    var texts := Texts(notes, index);
    KeptExactly(notes, texts);
    if UniqueKeys(notes) {
      KeptUnique(notes, texts);
    }
  }

  /** `formatMarkdown` drops a note exactly when the note is empty and no note links to it. */
  lemma FormatMarkdownDrops(notes: seq<Note>, i: nat)
    requires i < |notes|
    ensures FormatNote(notes[i], BuildIndex(notes)) == ""
        <==> notes[i].content == "" && Mentions(notes, notes[i].key) == 0
  {
    BuildIndexBuckets(notes, notes[i].key);
    FormatNoteEmpty(notes[i], BuildIndex(notes));
  }
}
