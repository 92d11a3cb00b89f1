/** `readMarkdownDirectory`: the notes of an unpacked export, read from a directory tree
    into one object keyed by each file's path below the root. The file system is an
    in-memory tree: a directory listing is a sequence of entries in the order
    `readdirSync` gives them. */
module Directory {
  import opened Wrappers
  import opened Text
  import opened Index

  /** An entry of a directory listing; `Other` is anything neither a file nor a directory. */
  datatype Dirent =
    | File(name: string, content: string)
    | Dir(name: string, children: seq<Dirent>)
    | Other(name: string)

  predicate HasKey(notes: seq<Note>, key: string) {
    exists i :: 0 <= i < |notes| && notes[i].key == key
  }

  /** `contents[key] = content` on an object: an existing key keeps its place and gets the
      new text, a new key goes at the end. */
  function Put(notes: seq<Note>, key: string, content: string): seq<Note>
  {
    if notes == [] then [Note(key, content)]
    else if notes[0].key == key then [Note(key, content)] + notes[1..]
    else [notes[0]] + Put(notes[1..], key, content)
  }

  /** Dropping the first note drops the first index. */
  lemma TailKeys(notes: seq<Note>, key: string)
    requires notes != [] && notes[0].key != key
    ensures HasKey(notes, key) <==> HasKey(notes[1..], key)
    ensures UniqueKeys(notes) ==> UniqueKeys(notes[1..])
  {
    var tail := notes[1..];
    assert forall i :: 0 <= i < |tail| ==> tail[i] == notes[i + 1];
    if HasKey(notes, key) {
      var i :| 0 <= i < |notes| && notes[i].key == key;
      assert tail[i - 1] == notes[i];
    }
  }

  /** A key not yet in the object is added at its end. */
  lemma {:induction false} PutAbsent(notes: seq<Note>, key: string, content: string)
    requires !HasKey(notes, key)
    ensures Put(notes, key, content) == notes + [Note(key, content)]
  {
    if notes != [] {
      assert notes[0].key != key;
      TailKeys(notes, key);
      PutAbsent(notes[1..], key, content);
      assert [notes[0]] + (notes[1..] + [Note(key, content)]) == notes + [Note(key, content)];
    }
  }

  /** With distinct keys, a key already in the object keeps its place and only its note
      changes. */
  lemma {:induction false} PutPresent(notes: seq<Note>, key: string, content: string)
    requires UniqueKeys(notes) && HasKey(notes, key)
    ensures |Put(notes, key, content)| == |notes|
    ensures forall i :: 0 <= i < |notes| ==>
      Put(notes, key, content)[i] == if notes[i].key == key then Note(key, content) else notes[i]
  {
    var r := Put(notes, key, content);
    if notes[0].key != key {
      TailKeys(notes, key);
      PutPresent(notes[1..], key, content);
      assert r == [notes[0]] + Put(notes[1..], key, content);
      forall i | 0 <= i < |notes|
        ensures r[i] == if notes[i].key == key then Note(key, content) else notes[i]
      {
        if i > 0 {
          assert r[i] == Put(notes[1..], key, content)[i - 1] && notes[i] == notes[1..][i - 1];
        }
      }
    } else {
      forall i | 0 <= i < |notes|
        ensures r[i] == if notes[i].key == key then Note(key, content) else notes[i]
      {
        if i > 0 {
          assert notes[i].key != notes[0].key;
        }
      }
    }
  }

  /** The note put is in the object, and distinct keys stay distinct. */
  lemma PutStores(notes: seq<Note>, key: string, content: string)
    ensures Note(key, content) in Put(notes, key, content)
    ensures UniqueKeys(notes) ==> UniqueKeys(Put(notes, key, content))
  {
    var r := Put(notes, key, content);
    if !HasKey(notes, key) {
      PutAbsent(notes, key, content);
      assert r[|notes|] == Note(key, content);
      if UniqueKeys(notes) {
        forall i, j | 0 <= i < j < |r| ensures r[i].key != r[j].key {
          if j == |notes| {
            assert r[i] == notes[i];
          } else {
            assert r[i] == notes[i] && r[j] == notes[j];
          }
        }
      }
    } else if UniqueKeys(notes) {
      PutPresent(notes, key, content);
      var i :| 0 <= i < |notes| && notes[i].key == key;
      assert r[i] == Note(key, content);
      forall i, j | 0 <= i < j < |r| ensures r[i].key != r[j].key {
        assert notes[i].key != notes[j].key;
      }
    } else {
      PutHas(notes, key, content);
    }
  }

  /** Without the distinct-key assumption: the note put is in the object all the same. */
  lemma {:induction false} PutHas(notes: seq<Note>, key: string, content: string)
    ensures Note(key, content) in Put(notes, key, content)
  {
    if notes != [] && notes[0].key != key {
      PutHas(notes[1..], key, content);
    }
  }

  /** Each note of a subdirectory put under `dir/`, in order. */
  function PutAll(notes: seq<Note>, dir: string, children: seq<Note>): seq<Note>
  {
    if children == [] then notes
    else
      var last := children[|children| - 1];
      Put(PutAll(notes, dir, children[..|children| - 1]), dir + "/" + last.key, last.content)
  }

  /** What `readMarkdownDirectory` returns for a listing. */
  function Read(files: seq<Dirent>): seq<Note>
    decreases files, 1
  {
    if files == [] then [] else ReadEntry(Read(files[..|files| - 1]), files[|files| - 1], files)
  }

  /** The object after entry `file` of the listing `files` has been read into it. */
  function ReadEntry(contents: seq<Note>, file: Dirent, files: seq<Dirent>): seq<Note>
    requires file in files
    decreases files, 0
  {
    match file
    case File(name, content) => Put(contents, name, content)
    case Dir(name, children) => PutAll(contents, name, Read(children))
    case Other(_) => contents
  }

  /** The notes of a subdirectory, each key put under `dir/`. */
  function Under(dir: string, children: seq<Note>): (r: seq<Note>)
    ensures |r| == |children|
    ensures forall i :: 0 <= i < |children| ==> r[i] == Note(dir + "/" + children[i].key, children[i].content)
  {
    seq(|children|, i requires 0 <= i < |children| => Note(dir + "/" + children[i].key, children[i].content))
  }

  /** Different keys stay different under the same directory. */
  lemma UnderInjective(dir: string, a: string, b: string)
    requires dir + "/" + a == dir + "/" + b
    ensures a == b
  {
    var n := |dir| + 1;
    assert a == (dir + "/" + a)[n..];
    assert b == (dir + "/" + b)[n..];
  }

  /** Distinct keys are kept whatever a subdirectory adds. */
  lemma {:induction false} PutAllUnique(notes: seq<Note>, dir: string, children: seq<Note>)
    requires UniqueKeys(notes)
    ensures UniqueKeys(PutAll(notes, dir, children))
  {
    if children != [] {
      var n := |children| - 1;
      PutAllUnique(notes, dir, children[..n]);
      PutStores(PutAll(notes, dir, children[..n]), dir + "/" + children[n].key, children[n].content);
    }
  }

  /** Read into an empty object, a subdirectory with distinct keys gives exactly its notes,
      in order, under `dir/`. */
  lemma {:induction false} PutAllFresh(dir: string, children: seq<Note>)
    requires UniqueKeys(children)
    ensures PutAll([], dir, children) == Under(dir, children)
  {
    if children != [] {
      var n := |children| - 1;
      var init := children[..n];
      assert UniqueKeys(init) by {
        forall i, j | 0 <= i < j < |init| ensures init[i].key != init[j].key {
          assert init[i] == children[i] && init[j] == children[j];
        }
      }
      PutAllFresh(dir, init);
      var before := Under(dir, init);
      var key := dir + "/" + children[n].key;
      assert !HasKey(before, key) by {
        forall i | 0 <= i < |before| ensures before[i].key != key {
          assert init[i] == children[i];
          if before[i].key == key {
            UnderInjective(dir, init[i].key, children[n].key);
          }
        }
      }
      PutAbsent(before, key, children[n].content);
      assert before + [Note(key, children[n].content)] == Under(dir, children);
    }
  }

  /** The object read from any listing has distinct keys. */
  lemma {:induction false} ReadUnique(files: seq<Dirent>)
    ensures UniqueKeys(Read(files))
  {
    if files != [] {
      var n := |files| - 1;
      var before := Read(files[..n]);
      ReadUnique(files[..n]);
      match files[n]
      case File(name, content) => PutStores(before, name, content);
      case Dir(name, children) => PutAllUnique(before, name, Read(children));
      case Other(_) =>
    }
  }

  /** A listing of plain files with distinct names gives one note per file, in listing order. */
  lemma {:induction false} ReadFiles(files: seq<Dirent>)
    requires forall i :: 0 <= i < |files| ==> files[i].File?
    requires forall i, j :: 0 <= i < j < |files| ==> files[i].name != files[j].name
    ensures |Read(files)| == |files|
    ensures forall i :: 0 <= i < |files| ==> Read(files)[i] == Note(files[i].name, files[i].content)
  {
    if files != [] {
      var n := |files| - 1;
      var init := files[..n];
      assert forall i :: 0 <= i < n ==> init[i] == files[i];
      ReadFiles(init);
      var before := Read(init);
      assert !HasKey(before, files[n].name) by {
        forall i | 0 <= i < |before| ensures before[i].key != files[n].name {
          assert before[i].key == files[i].name;
        }
      }
      ReadNewFile(files);
      var r := Read(files);
      forall i | 0 <= i < |files| ensures r[i] == Note(files[i].name, files[i].content) {
        if i < n {
          assert r[i] == before[i];
        }
      }
    }
  }

  /** A file whose name is not yet a key is added at the end. */
  lemma ReadNewFile(files: seq<Dirent>)
    requires files != [] && files[|files| - 1].File?
    requires !HasKey(Read(files[..|files| - 1]), files[|files| - 1].name)
    ensures Read(files) == Read(files[..|files| - 1]) + [Note(files[|files| - 1].name, files[|files| - 1].content)]
  {
    var n := |files| - 1;
    PutAbsent(Read(files[..n]), files[n].name, files[n].content);
  }

  /** A listing holding one directory gives that directory's notes under its name. */
  lemma ReadDir(name: string, children: seq<Dirent>)
    ensures Read([Dir(name, children)]) == Under(name, Read(children))
  {
    var files := [Dir(name, children)];
    assert files[..0] == [];
    ReadUnique(children);
    PutAllFresh(name, Read(children));
  }

  // ---------------------------------------------------------------------------------------
  // A listing of files and directories.

  /** A directory entry's name: a single path segment, without `/`. */
  predicate IsSegment(name: string) {
    forall k :: 0 <= k < |name| ==> name[k] != '/'
  }

  /** The names of a listing are distinct single segments, as `readdirSync` gives them. */
  predicate IsListing(files: seq<Dirent>) {
    && (forall i :: 0 <= i < |files| ==> IsSegment(files[i].name))
    && (forall i, j :: 0 <= i < j < |files| ==> files[i].name != files[j].name)
  }

  /** What one entry contributes: a file its note, a directory its notes under its name. */
  function EntryNotes(file: Dirent): seq<Note> {
    match file
    case File(name, content) => [Note(name, content)]
    case Dir(name, children) => Under(name, Read(children))
    case Other(_) => []
  }

  /** The contributions of the entries, one after the other, in listing order. */
  function Listed(files: seq<Dirent>): seq<Note> {
    if files == [] then [] else Listed(files[..|files| - 1]) + EntryNotes(files[|files| - 1])
  }

  /** A key read for entry `name`: the name itself or a path below it. */
  predicate KeyOf(key: string, name: string) {
    key == name || HasPrefix(key, name + "/")
  }

  /** A key belongs to at most one single-segment name. */
  lemma KeyOfUnique(key: string, a: string, b: string)
    requires IsSegment(a) && IsSegment(b) && KeyOf(key, a) && KeyOf(key, b)
    ensures a == b
  {
    if key == a && key != b {
      SlashAfter(a, b);
    } else if key == b && key != a {
      SlashAfter(b, a);
    } else if key != a && key != b {
      if |a| < |b| {
        SlashAfter(key, a);
        SameChar(key, b + "/", |a|);
      } else if |b| < |a| {
        SlashAfter(key, b);
        SameChar(key, a + "/", |b|);
      } else {
        assert a == key[..|a|] == b;
      }
    }
  }

  /** A key below `name/` has `/` right after the name. */
  lemma SlashAfter(key: string, name: string)
    requires HasPrefix(key, name + "/")
    ensures |name| < |key| && key[|name|] == '/'
  {
    assert key[|name|] == (name + "/")[|name|];
  }

  /** A string agrees with its prefix `p` at every index of `p`. */
  lemma SameChar(key: string, p: string, k: nat)
    requires HasPrefix(key, p) && k < |p|
    ensures key[k] == p[k]
  {
    assert key[..|p|][k] == p[k];
  }

  /** Every key of the listed notes comes from one of the entries. */
  lemma {:induction false} ListedKeys(files: seq<Dirent>)
    ensures forall o :: o in Listed(files) ==> exists i :: 0 <= i < |files| && KeyOf(o.key, files[i].name)
  {
    if files != [] {
      var n := |files| - 1;
      var init := files[..n];
      ListedKeys(init);
      forall o | o in Listed(files) ensures exists i :: 0 <= i < |files| && KeyOf(o.key, files[i].name) {
        if o in Listed(init) {
          var i :| 0 <= i < |init| && KeyOf(o.key, init[i].name);
          assert init[i] == files[i];
        } else {
          assert o in EntryNotes(files[n]);
          if files[n].Dir? {
            var r := Read(files[n].children);
            var j :| 0 <= j < |r| && Under(files[n].name, r)[j] == o;
            assert o.key == files[n].name + "/" + r[j].key;
            assert (files[n].name + "/" + r[j].key)[..|files[n].name + "/"|] == files[n].name + "/";
          }
          assert KeyOf(o.key, files[n].name);
        }
      }
    }
  }

  /** Putting a subdirectory whose keys are new appends its notes, in order, under `dir/`. */
  lemma {:induction false} PutAllAppend(notes: seq<Note>, dir: string, children: seq<Note>)
    requires UniqueKeys(children)
    requires forall o, c :: o in notes && c in children ==> o.key != dir + "/" + c.key
    ensures PutAll(notes, dir, children) == notes + Under(dir, children)
  {
    if children != [] {
      var n := |children| - 1;
      var init := children[..n];
      assert UniqueKeys(init) by {
        forall i, j | 0 <= i < j < |init| ensures init[i].key != init[j].key {
          assert init[i] == children[i] && init[j] == children[j];
        }
      }
      assert forall c :: c in init ==> c in children;
      PutAllAppend(notes, dir, init);
      var c := children[n];
      assert forall x :: x in init ==> x.key != c.key by {
        forall x | x in init ensures x.key != c.key {
          var j :| 0 <= j < |init| && init[j] == x;
          assert children[j] == x;
        }
      }
      assert c in children;
      UnderFresh(notes, dir, init, c);
      var before := notes + Under(dir, init);
      var key := dir + "/" + c.key;
      assert PutAll(notes, dir, children) == Put(before, key, c.content);
      PutAbsent(before, key, c.content);
      UnderSnoc(notes, dir, children);
    }
  }

  /** A key under `dir/` that neither the notes nor the other children have is new. */
  lemma UnderFresh(notes: seq<Note>, dir: string, init: seq<Note>, c: Note)
    requires forall o :: o in notes ==> o.key != dir + "/" + c.key
    requires forall x :: x in init ==> x.key != c.key
    ensures !HasKey(notes + Under(dir, init), dir + "/" + c.key)
  {
    var before := notes + Under(dir, init);
    forall i | 0 <= i < |before| ensures before[i].key != dir + "/" + c.key {
      if i >= |notes| {
        var j := i - |notes|;
        assert before[i] == Under(dir, init)[j] && init[j] in init;
        if before[i].key == dir + "/" + c.key {
          UnderInjective(dir, init[j].key, c.key);
        }
      } else {
        assert before[i] in notes;
      }
    }
  }

  /** The notes of a subdirectory, last child split off. */
  lemma UnderSnoc(notes: seq<Note>, dir: string, children: seq<Note>)
    requires children != []
    ensures var n := |children| - 1;
      notes + Under(dir, children)
        == (notes + Under(dir, children[..n])) + [Note(dir + "/" + children[n].key, children[n].content)]
  {
    var n := |children| - 1;
    assert Under(dir, children) == Under(dir, children[..n]) + [Note(dir + "/" + children[n].key, children[n].content)];
  }

  /** `readMarkdownDirectory` of any listing: each file is one note under its name and each
      directory its notes, read recursively, under `name/`, in listing order. */
  lemma {:induction false} ReadListed(files: seq<Dirent>)
    requires IsListing(files)
    ensures Read(files) == Listed(files)
  {
    if files != [] {
      var n := |files| - 1;
      var init, last := files[..n], files[n];
      assert forall i :: 0 <= i < n ==> init[i] == files[i];
      ReadListed(init);
      ListedKeys(init);
      var before := Read(init);
      assert Read(files) == ReadEntry(before, last, files);
      match last
      case File(name, content) =>
        assert !HasKey(before, name) by {
          forall i | 0 <= i < |before| ensures before[i].key != name {
            if before[i].key == name {
              assert before[i] in Listed(init);
              var j :| 0 <= j < |init| && KeyOf(name, init[j].name);
              KeyOfUnique(name, init[j].name, name);
            }
          }
        }
        PutAbsent(before, name, content);
      case Dir(name, children) =>
        var r := Read(children);
        ReadUnique(children);
        forall o, c | o in before && c in r ensures o.key != name + "/" + c.key {
          if o.key == name + "/" + c.key {
            var j :| 0 <= j < |init| && KeyOf(o.key, init[j].name);
            assert (name + "/" + c.key)[..|name + "/"|] == name + "/";
            KeyOfUnique(o.key, init[j].name, name);
          }
        }
        PutAllAppend(before, name, r);
      case Other(_) =>
    }
  }

  /** `readMarkdownDirectory`: one pass over the listing, recursing into each directory. */
  method ReadMarkdownDirectory(files: seq<Dirent>) returns (contents: seq<Note>)
    ensures contents == Read(files)
    decreases files
  {
    contents := [];
    for i := 0 to |files|
      invariant contents == Read(files[..i])
    {
      var file := files[i];
      assert files[..i + 1][..i] == files[..i] && files[..i + 1][i] == file;
      if file.Dir? {
        var childContents := ReadMarkdownDirectory(file.children);
        for j := 0 to |childContents|
          invariant contents == PutAll(Read(files[..i]), file.name, childContents[..j])
        {
          assert childContents[..j + 1][..j] == childContents[..j];
          contents := Put(contents, file.name + "/" + childContents[j].key, childContents[j].content);
        }
        assert childContents[..|childContents|] == childContents;
      }
      if file.File? {
        contents := Put(contents, file.name, file.content);
      }
    }
    assert files[..|files|] == files;
  }
}
