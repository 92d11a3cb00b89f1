/** The configuration rules of the backup script, read from environment variables, and the
    filter that decides which entries of the downloaded archive are extracted. An unset
    variable is `None`. */
module Config {
  import opened Wrappers
  import opened Text

  predicate IsSeparator(c: char) {
    c == ',' || c == '\n'
  }

  /** `s.split(/,|\n/)`: the pieces between separators, empty ones included. */
  function Split(s: string): (r: seq<string>)
    ensures |r| > 0
  {
    if s == [] then [""]
    else
      var p, c := Split(s[..|s| - 1]), s[|s| - 1];
      if IsSeparator(c) then p + [""] else p[..|p| - 1] + [p[|p| - 1] + [c]]
  }

  /** The text with every newline separator written as a comma. */
  function Commas(s: string): (r: string)
    ensures |r| == |s|
    ensures forall i :: 0 <= i < |s| ==> r[i] == (if s[i] == '\n' then ',' else s[i])
  {
    if s == [] then "" else Commas(s[..|s| - 1]) + [if s[|s| - 1] == '\n' then ',' else s[|s| - 1]]
  }

  predicate NoSeparator(s: string) {
    forall i :: 0 <= i < |s| ==> !IsSeparator(s[i])
  }

  /** The pieces contain no separator, and joined with commas they give back the text
      (with newlines as commas): so they are exactly the pieces between separators. */
  lemma {:induction false} SplitPieces(s: string)
    ensures forall k :: 0 <= k < |Split(s)| ==> NoSeparator(Split(s)[k])
    ensures Join(Split(s), ",") == Commas(s)
  {
    if s != [] {
      var init, c := s[..|s| - 1], s[|s| - 1];
      var p := Split(init);
      SplitPieces(init);
      var r := Split(s);
      if IsSeparator(c) {
        assert r == p + [""];
        assert r[..|r| - 1] == p;
        assert Join(r, ",") == Join(p, ",") + "," + "";
      } else {
        var last := p[|p| - 1];
        assert r == p[..|p| - 1] + [last + [c]];
        forall k | 0 <= k < |r| ensures NoSeparator(r[k]) {
          if k < |r| - 1 {
            assert r[k] == p[k];
          }
        }
        JoinGrowLast(p, [c]);
      }
    }
  }

  /** Growing the last part grows the joined text at its end. */
  lemma JoinGrowLast(p: seq<string>, y: string)
    requires |p| > 0
    ensures Join(p[..|p| - 1] + [p[|p| - 1] + y], ",") == Join(p, ",") + y
  {
    var q := p[..|p| - 1] + [p[|p| - 1] + y];
    if |p| > 1 {
      assert q[..|q| - 1] == p[..|p| - 1];
    }
  }

  /** The graph names of `ROAM_GRAPH`: the pieces, trimmed, without the blank ones. */
  function GraphNames(raw: string): seq<string> {
    NonBlank(Split(raw))
  }

  function NonBlank(pieces: seq<string>): seq<string>
  {
    if pieces == [] then []
    else
      var g := Trim(pieces[|pieces| - 1]);
      NonBlank(pieces[..|pieces| - 1]) + (if g != "" then [g] else [])
  }

  /** Each name is a non-blank piece, trimmed: it is not empty, has no separator and no
      surrounding white space; every non-blank piece gives a name; and the names are the
      non-blank pieces, trimmed, in their order. */
  lemma NonBlankNames(pieces: seq<string>)
    requires forall k :: 0 <= k < |pieces| ==> NoSeparator(pieces[k])
    ensures forall g :: g in NonBlank(pieces) ==>
      g != "" && NoSeparator(g) && !IsTrimmable(g[0]) && !IsTrimmable(g[|g| - 1])
    ensures forall k :: 0 <= k < |pieces| && Trim(pieces[k]) != "" ==> Trim(pieces[k]) in NonBlank(pieces)
    ensures forall g :: g in NonBlank(pieces) ==> exists k :: 0 <= k < |pieces| && g == Trim(pieces[k])
    ensures var ks := NonBlankAt(pieces); IsEnumeration(pieces, ks, NonBlank(pieces))
  {
    NonBlankShape(pieces);
    NonBlankComplete(pieces);
    NonBlankOrigin(pieces);
    var ks, names := NonBlankAt(pieces), NonBlank(pieces);
    forall g | g in names ensures exists k :: 0 <= k < |pieces| && g == Trim(pieces[k]) {
      var i :| 0 <= i < |names| && names[i] == g;
      assert g == Trim(pieces[ks[i]]);
    }
  }

  /** The offsets of the non-blank pieces, in order. */
  function NonBlankAt(pieces: seq<string>): seq<nat>
  {
    if pieces == [] then []
    else
      var n := |pieces| - 1;
      NonBlankAt(pieces[..n]) + (if Trim(pieces[n]) != "" then [n] else [])
  }

  /** `ks` lists, in increasing order, exactly the offsets of the non-blank pieces, and
      `names` are those pieces trimmed. */
  predicate IsEnumeration(pieces: seq<string>, ks: seq<nat>, names: seq<string>) {
    && |ks| == |names|
    && (forall i :: 0 <= i < |ks| ==> ks[i] < |pieces| && names[i] == Trim(pieces[ks[i]]))
    && (forall i, j :: 0 <= i < j < |ks| ==> ks[i] < ks[j])
    && (forall k :: 0 <= k < |pieces| ==> (k in ks <==> Trim(pieces[k]) != ""))
  }

  lemma {:induction false} NonBlankOrigin(pieces: seq<string>)
    ensures IsEnumeration(pieces, NonBlankAt(pieces), NonBlank(pieces))
  {
    if pieces != [] {
      var n := |pieces| - 1;
      var init := pieces[..n];
      NonBlankOrigin(init);
      var ks0, names0 := NonBlankAt(init), NonBlank(init);
      var ks, names := NonBlankAt(pieces), NonBlank(pieces);
      assert forall k :: 0 <= k < n ==> init[k] == pieces[k];
      if Trim(pieces[n]) != "" {
        assert ks == ks0 + [n] && names == names0 + [Trim(pieces[n])];
      } else {
        assert ks == ks0 && names == names0;
      }
      forall i | 0 <= i < |ks| ensures ks[i] < |pieces| && names[i] == Trim(pieces[ks[i]]) {
        if i < |ks0| {
          assert ks[i] == ks0[i] && names[i] == names0[i];
        }
      }
      forall k | 0 <= k < |pieces| ensures k in ks <==> Trim(pieces[k]) != "" {
        if k < n {
          assert k in ks <==> k in ks0;
        }
      }
    }
  }

  /** A graph name: not empty, without separators and without surrounding white space. */
  predicate IsName(g: string) {
    g != "" && NoSeparator(g) && !IsTrimmable(g[0]) && !IsTrimmable(g[|g| - 1])
  }

  lemma {:induction false} NonBlankShape(pieces: seq<string>)
    requires forall k :: 0 <= k < |pieces| ==> NoSeparator(pieces[k])
    ensures forall g :: g in NonBlank(pieces) ==> IsName(g)
  {
    if pieces != [] {
      var init, last := pieces[..|pieces| - 1], pieces[|pieces| - 1];
      assert forall k :: 0 <= k < |init| ==> init[k] == pieces[k];
      NonBlankShape(init);
      var g := Trim(last);
      if g != "" {
        TrimmedPiece(last);
        assert NonBlank(pieces) == NonBlank(init) + [g];
      } else {
        assert NonBlank(pieces) == NonBlank(init);
      }
    }
  }

  lemma {:induction false} NonBlankComplete(pieces: seq<string>)
    ensures forall k :: 0 <= k < |pieces| && Trim(pieces[k]) != "" ==> Trim(pieces[k]) in NonBlank(pieces)
  {
    if pieces != [] {
      var init := pieces[..|pieces| - 1];
      NonBlankComplete(init);
      forall k | 0 <= k < |pieces| - 1 && Trim(pieces[k]) != "" ensures Trim(pieces[k]) in NonBlank(pieces) {
        assert pieces[k] == init[k];
      }
    }
  }

  /** A piece without separators, trimmed and not blank, is a well-formed name. */
  lemma TrimmedPiece(x: string)
    requires NoSeparator(x) && Trim(x) != ""
    ensures IsName(Trim(x))
  {
    TrimSpec(x);
    var g, a := Trim(x), |x| - |TrimStart(x)|;
    forall i | 0 <= i < |g| ensures !IsSeparator(g[i]) {
      assert g[i] == x[a + i];
    }
  }

  /** The graph names of `ROAM_GRAPH` are its non-blank comma- or line-separated pieces,
      trimmed. */
  lemma GraphNamesShape(raw: string)
    ensures forall g :: g in GraphNames(raw) ==>
      g != "" && NoSeparator(g) && !IsTrimmable(g[0]) && !IsTrimmable(g[|g| - 1])
    ensures forall k :: 0 <= k < |Split(raw)| && Trim(Split(raw)[k]) != "" ==> Trim(Split(raw)[k]) in GraphNames(raw)
    ensures forall g :: g in GraphNames(raw) ==> exists k :: 0 <= k < |Split(raw)| && g == Trim(Split(raw)[k])
    ensures IsEnumeration(Split(raw), NonBlankAt(Split(raw)), GraphNames(raw))
  {
    SplitPieces(raw);
    NonBlankNames(Split(raw));
  }

  // ---------------------------------------------------------------------------------------
  // Flags.

  /** `BACKUP_JSON`, `BACKUP_EDN`, `BACKUP_MARKDOWN`: on when unset or "true" in any case. */
  predicate BackupEnabled(v: Option<string>) {
    v.None? || Lower(v.value) == "true"
  }

  /** `MD_SKIP_BLANKS`: off only when set to "false" in any case. */
  predicate SkipBlanks(v: Option<string>) {
    !(v.Some? && Lower(v.value) == "false")
  }

  lemma {:induction false} LowerIdempotent(s: string)
    ensures Lower(Lower(s)) == Lower(s)
  {
    if s != [] {
      LowerIdempotent(s[1..]);
      assert Lower(s)[1..] == Lower(s[1..]);
    }
  }

  /** Both flags read their value case-insensitively. */
  lemma FlagsIgnoreCase(s: string)
    ensures BackupEnabled(Some(s)) <==> BackupEnabled(Some(Lower(s)))
    ensures SkipBlanks(Some(s)) <==> SkipBlanks(Some(Lower(s)))
  {
    LowerIdempotent(s);
  }

  /** The two defaults differ on a set but empty variable: the backup flag is then off, the
      skip flag on. */
  lemma EmptyFlags()
    ensures !BackupEnabled(Some(""))
    ensures SkipBlanks(Some(""))
    ensures BackupEnabled(None) && SkipBlanks(None)
  {
    assert Lower("") == "";
  }

  // ---------------------------------------------------------------------------------------
  // The archive entry filter.

  predicate EndsWith(s: string, suffix: string) {
    |suffix| <= |s| && s[|s| - |suffix|..] == suffix
  }

  /** `onEntry`: an entry is extracted unless it is a directory (its name ends with `/`) or,
      when blank files are skipped, it holds at most three bytes. */
  predicate KeepEntry(fileName: string, uncompressedSize: nat, skipBlanks: bool) {
    !EndsWith(fileName, "/") && !(skipBlanks && uncompressedSize <= 3)
  }

  /** Skipping blanks only ever removes entries, and removes exactly the small files. */
  lemma KeepEntrySkipping(fileName: string, uncompressedSize: nat)
    ensures KeepEntry(fileName, uncompressedSize, true) ==> KeepEntry(fileName, uncompressedSize, false)
    ensures KeepEntry(fileName, uncompressedSize, false) && !KeepEntry(fileName, uncompressedSize, true)
        <==> !EndsWith(fileName, "/") && uncompressedSize <= 3
  {
  }
}
