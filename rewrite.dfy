/** `formatLink`: three rewriting passes that turn the graph's link syntax into relative
    markdown links: `[[name]]` links, then `#tag` tokens, then the keys of attribute lines. */
module Rewrite {
  import opened Wrappers
  import opened Text
  import opened Matching
  import opened Patterns

  /** `[name](<prefixname.md>)`. */
  function Link(name: string, prefix: string): string {
    "[" + name + "](<" + prefix + name + ".md>)"
  }

  /** The first capture group of the attribute pattern: the spaces and `- ` before the key. */
  function Lead(m: Match): string {
    if |m.name| + 2 <= |m.text| then m.text[..|m.text| - |m.name| - 2] else m.text
  }

  /** The substitute for a `[[name]]` link or a `#name` tag. */
  function LinkSub(prefix: string): Match -> string {
    (m: Match) => Link(m.name, prefix)
  }

  /** The substitute for an attribute line: its lead, then the key as a bold link with the
      colon inside the bold. */
  function AttributeSub(prefix: string): Match -> string {
    (m: Match) => Lead(m) + "**" + Link(m.name, prefix) + ":**"
  }

  function WikiLinkPass(s: string, prefix: string): string {
    Replace(s, 0, Find(WikiLink), LinkSub(prefix))
  }

  function TagPass(s: string, prefix: string): string {
    Replace(s, 0, Find(Tag), LinkSub(prefix))
  }

  function AttributePass(s: string, prefix: string): string {
    Replace(s, 0, Find(LineAttribute), AttributeSub(prefix))
  }

  /** `formatLink(string, linkPrefix)`. */
  function FormatLink(s: string, prefix: string): string {
    AttributePass(TagPass(WikiLinkPass(s, prefix), prefix), prefix)
  }

  /** Each pass substitutes exactly the matches of a global search of its pattern over the
      output of the pass before, and keeps the text between them. */
  lemma FormatLinkPasses(s: string, prefix: string)
    ensures var t1 := WikiLinkPass(s, prefix);
      && Spans(s, 0, Scan(s, 0, Find(WikiLink)))
      && t1 == Splice(s, 0, Scan(s, 0, Find(WikiLink)), LinkSub(prefix))
    ensures var t1 := WikiLinkPass(s, prefix);
      var t2 := TagPass(t1, prefix);
      && Spans(t1, 0, Scan(t1, 0, Find(Tag)))
      && t2 == Splice(t1, 0, Scan(t1, 0, Find(Tag)), LinkSub(prefix))
    ensures var t2 := TagPass(WikiLinkPass(s, prefix), prefix);
      && Spans(t2, 0, Scan(t2, 0, Find(LineAttribute)))
      && FormatLink(s, prefix) == Splice(t2, 0, Scan(t2, 0, Find(LineAttribute)), AttributeSub(prefix))
  {
    ReplaceIsSplice(s, 0, Find(WikiLink), LinkSub(prefix));
    var t1 := WikiLinkPass(s, prefix);
    ReplaceIsSplice(t1, 0, Find(Tag), LinkSub(prefix));
    var t2 := TagPass(t1, prefix);
    ReplaceIsSplice(t2, 0, Find(LineAttribute), AttributeSub(prefix));
  }

  /** A `[[name]]` match is replaced by the link to `prefix + name + ".md"`, `name` being the
      text between the brackets. */
  lemma WikiLinkRewrite(s: string, p: nat, m: Match, prefix: string)
    requires p <= |s| && Find(WikiLink)(s, p) == Some(m)
    ensures m.text == "[[" + m.name + "]]" && IsWikiName(m.name)
    ensures LinkSub(prefix)(m) == "[" + m.name + "](<" + prefix + m.name + ".md>)"
  {
    WikiLinkMatch(s, p, m);
  }

  /** A `#tag` match is replaced by the link to `prefix + tag + ".md"`, the tag being the
      whole run of letters, digits, `-` and `_` after the `#`. */
  lemma TagRewrite(s: string, p: nat, m: Match, prefix: string)
    requires p <= |s| && Find(Tag)(s, p) == Some(m)
    ensures m.text == "#" + m.name && |m.name| > 0 && AllIn(m.name, TokenChar)
    ensures p + |m.text| == |s| || !In(s[p + |m.text|], TokenChar)
    ensures LinkSub(prefix)(m) == "[" + m.name + "](<" + prefix + m.name + ".md>)"
  {
    TagMatch(s, p, m);
  }

  /** An attribute line `<spaces>- key::` is replaced by `<spaces>- **[key](<prefixkey.md>):**`. */
  lemma AttributeRewrite(s: string, p: nat, m: Match, prefix: string)
    requires p <= |s| && Find(LineAttribute)(s, p) == Some(m)
    ensures p == 0 || IsLineTerminator(s[p - 1])
    ensures IsKey(m.name)
    ensures m.text == Lead(m) + m.name + "::"
    ensures |Lead(m)| >= 2 && AllIn(Lead(m)[..|Lead(m)| - 2], Space)
    ensures Lead(m)[|Lead(m)| - 2..] == "- "
    ensures AttributeSub(prefix)(m) == Lead(m) + "**[" + m.name + "](<" + prefix + m.name + ".md>):**"
  {
    LineAttributeMatch(s, p, m);
    LeadShape(m);
  }

  /** The lead of an attribute text is its spaces and `- `, and the text is the lead, the
      key and `::`. */
  lemma LeadShape(m: Match)
    requires AttributeShape(m.text, m.name)
    ensures m.text == Lead(m) + m.name + "::"
    ensures |Lead(m)| >= 2 && AllIn(Lead(m)[..|Lead(m)| - 2], Space)
    ensures Lead(m)[|Lead(m)| - 2..] == "- "
  {
    var t, n := m.text, m.name;
    var l := Lead(m);
    assert l == t[..|t| - |n| - 2];
    var tail := t[|t| - |n| - 4..];
    assert tail == "- " + n + "::";
    forall i | 0 <= i < 2 ensures l[|l| - 2 + i] == "- "[i] {
      assert l[|l| - 2 + i] == t[|t| - |n| - 4 + i] == tail[i];
    }
    assert l[..|l| - 2] == t[..|t| - |n| - 4];
    forall i | 0 <= i < |n| + 2 ensures t[|l| + i] == (n + "::")[i] {
      assert t[|l| + i] == tail[2 + i];
    }
    assert t == l + t[|l|..];
  }

  /** Text in which no pattern matches anywhere is returned unchanged. */
  lemma FormatLinkUnchanged(s: string, prefix: string)
    requires forall p: nat :: p < |s| ==>
      MatchAt(s, p, WikiLink).None? && MatchAt(s, p, Tag).None? && MatchAt(s, p, LineAttribute).None?
    ensures FormatLink(s, prefix) == s
  {
    ReplaceNoMatch(s, 0, Find(WikiLink), LinkSub(prefix));
    assert s[0..] == s;
    ReplaceNoMatch(s, 0, Find(Tag), LinkSub(prefix));
    ReplaceNoMatch(s, 0, Find(LineAttribute), AttributeSub(prefix));
  }

  /** Only the empty text rewrites to the empty text. */
  lemma FormatLinkEmpty(s: string, prefix: string)
    ensures FormatLink(s, prefix) == "" <==> s == ""
  {
    ReplaceEmpty(s, 0, Find(WikiLink), LinkSub(prefix));
    var t1 := WikiLinkPass(s, prefix);
    ReplaceEmpty(t1, 0, Find(Tag), LinkSub(prefix));
    var t2 := TagPass(t1, prefix);
    ReplaceEmpty(t2, 0, Find(LineAttribute), AttributeSub(prefix));
  }
}
