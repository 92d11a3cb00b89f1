/** `formatToDo`: each `{{[[TODO]]}}` marker, with the spaces after it, becomes an open
    checkbox `[ ] `, and then each `{{[[DONE]]}}` marker with its spaces a ticked one `[x] `. */
module Todo {
  import opened Wrappers
  import opened Text
  import opened Matching
  import opened Patterns

  function Unchecked(m: Match): string { "[ ] " }

  function Checked(m: Match): string { "[x] " }

  function FormatToDo(s: string): string {
    var t := Replace(s, 0, Find(Todo), Unchecked);
    Replace(t, 0, Find(Done), Checked)
  }

  function Word(pat: Pattern): string {
    if pat == Todo then "TODO" else "DONE"
  }

  /** The two passes substitute exactly the markers the two searches find, the second
      searching the output of the first. */
  lemma FormatToDoSplices(s: string)
    ensures Spans(s, 0, Scan(s, 0, Find(Todo)))
    ensures var t := Splice(s, 0, Scan(s, 0, Find(Todo)), Unchecked);
      && Spans(t, 0, Scan(t, 0, Find(Done)))
      && FormatToDo(s) == Splice(t, 0, Scan(t, 0, Find(Done)), Checked)
  {
    ReplaceIsSplice(s, 0, Find(Todo), Unchecked);
    var t := Replace(s, 0, Find(Todo), Unchecked);
    ReplaceIsSplice(t, 0, Find(Done), Checked);
  }

  /** What the search for a marker finds: the leftmost non-overlapping occurrences, each the
      marker followed by every space after it. */
  lemma MarkerScan(s: string, pat: Pattern)
    requires pat == Todo || pat == Done
    ensures IsLeftmostScan(s, 0, Find(pat), Scan(s, 0, Find(pat)))
    ensures var ms := Scan(s, 0, Find(pat));
      forall k :: 0 <= k < |ms| ==>
        && ms[k].name == Word(pat)
        && HasPrefix(ms[k].text, Marker(Word(pat)))
        && AllIn(ms[k].text[|Marker(Word(pat))|..], Space)
        && ms[k].index + |ms[k].text| <= |s|
        && HasPrefix(s[ms[k].index..], ms[k].text)
        && (ms[k].index + |ms[k].text| == |s| || s[ms[k].index + |ms[k].text|] != ' ')
  {
    var ms := Scan(s, 0, Find(pat));
    ScanIsLeftmost(s, 0, Find(pat));
    forall k | 0 <= k < |ms|
      ensures && ms[k].name == Word(pat)
              && HasPrefix(ms[k].text, Marker(Word(pat)))
              && AllIn(ms[k].text[|Marker(Word(pat))|..], Space)
              && ms[k].index + |ms[k].text| <= |s|
              && HasPrefix(s[ms[k].index..], ms[k].text)
              && (ms[k].index + |ms[k].text| == |s| || s[ms[k].index + |ms[k].text|] != ' ')
    {
      MarkerHit(s, pat, ms[k]);
    }
  }

  /** One match of a marker search: the marker and its spaces, read from the text. */
  lemma MarkerHit(s: string, pat: Pattern, m: Match)
    requires pat == Todo || pat == Done
    requires m.index <= |s| && Find(pat)(s, m.index) == Some(m)
    ensures && m.name == Word(pat)
            && HasPrefix(m.text, Marker(Word(pat)))
            && AllIn(m.text[|Marker(Word(pat))|..], Space)
            && m.index + |m.text| <= |s|
            && HasPrefix(s[m.index..], m.text)
            && (m.index + |m.text| == |s| || s[m.index + |m.text|] != ' ')
  {
    assert MarkerAt(s, m.index, Word(pat)) == Some(m);
    MarkerMatch(s, m.index, Word(pat), m);
  }

  /** A marker occurs exactly where its pattern matches. */
  lemma MarkerOccurs(s: string, pat: Pattern, p: nat)
    requires pat == Todo || pat == Done
    requires p <= |s|
    ensures Hits(Find(pat), s, p) <==> OccursAt(s, p, Marker(Word(pat)))
  {
    MarkerMatchesIff(s, p, pat);
    OccursAtPrefix(s, p, Marker(Word(pat)));
  }

  lemma MissesFree(s: string, pat: Pattern)
    requires pat == Todo || pat == Done
    ensures forall p: nat :: p <= |s| && !Hits(Find(pat), s, p) ==> !OccursAt(s, p, Marker(Word(pat)))
  {
    forall p: nat | p <= |s| && !Hits(Find(pat), s, p) ensures !OccursAt(s, p, Marker(Word(pat))) {
      MarkerOccurs(s, pat, p);
    }
  }

  /** No marker is left in the output. */
  lemma FormatToDoNoMarker(s: string)
    ensures Free(FormatToDo(s), Marker("TODO"))
    ensures Free(FormatToDo(s), Marker("DONE"))
  {
    var todo, done := Marker("TODO"), Marker("DONE");
    assert Blocks("[ ] ", todo) && Blocks("[x] ", todo) && Blocks("[x] ", done);
    MissesFree(s, Todo);
    ReplaceAvoids(s, 0, Find(Todo), Unchecked, "[ ] ", todo);
    var t := Replace(s, 0, Find(Todo), Unchecked);
    ReplaceAvoids(t, 0, Find(Done), Checked, "[x] ", todo);
    MissesFree(t, Done);
    ReplaceAvoids(t, 0, Find(Done), Checked, "[x] ", done);
  }

  /** A text without markers is returned unchanged. */
  lemma FormatToDoUnchanged(s: string)
    requires Free(s, Marker("TODO")) && Free(s, Marker("DONE"))
    ensures FormatToDo(s) == s
  {
    forall p: nat | p < |s| ensures Find(Todo)(s, p).None? && Find(Done)(s, p).None? {
      MarkerOccurs(s, Todo, p);
      MarkerOccurs(s, Done, p);
    }
    ReplaceNoMatch(s, 0, Find(Todo), Unchecked);
    assert s[0..] == s;
    ReplaceNoMatch(s, 0, Find(Done), Checked);
  }

  /** Formatting twice is formatting once. */
  lemma FormatToDoIdempotent(s: string)
    ensures FormatToDo(FormatToDo(s)) == FormatToDo(s)
  {
    FormatToDoNoMarker(s);
    FormatToDoUnchanged(FormatToDo(s));
  }

  /** Only the empty note formats to the empty text. */
  lemma FormatToDoEmpty(s: string)
    ensures FormatToDo(s) == "" <==> s == ""
  {
    ReplaceEmpty(s, 0, Find(Todo), Unchecked);
    var t := Replace(s, 0, Find(Todo), Unchecked);
    ReplaceEmpty(t, 0, Find(Done), Checked);
  }
}
