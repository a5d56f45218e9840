/** Filling the site template: every `{{siteTitle}}`, `{{siteSubtitle}}` and
    `{{footerText}}` in index.html is replaced by the configured text. Both
    the command-line build and the desktop build do this with three global
    regular-expression replacements. */
module Template {
  import opened Text
  import opened Types

  const TitlePlaceholder := "{{siteTitle}}"
  const SubtitlePlaceholder := "{{siteSubtitle}}"
  const FooterPlaceholder := "{{footerText}}"

  /** Global replacement of a literal pattern, scanning from the left and
      resuming after each match, with the replacement inserted verbatim. */
  function ReplaceAll(s: string, pat: string, rep: string): string
    requires |pat| > 0
    decreases |s|
  {
    if |s| < |pat| then s
    else if s[..|pat|] == pat then rep + ReplaceAll(s[|pat|..], pat, rep)
    else [s[0]] + ReplaceAll(s[1..], pat, rep)
  }

  /** The pieces of `s` between the occurrences the same left-to-right scan
      finds. */
  function SplitOn(s: string, pat: string): (parts: seq<string>)
    requires |pat| > 0
    ensures |parts| >= 1
    decreases |s|
  {
    if |s| < |pat| then [s]
    else if s[..|pat|] == pat then [""] + SplitOn(s[|pat|..], pat)
    else
      var rest := SplitOn(s[1..], pat);
      [[s[0]] + rest[0]] + rest[1..]
  }

  lemma JoinCons(x: string, rest: seq<string>, sep: string)
    requires |rest| >= 1
    ensures JoinWith([x] + rest, sep) == x + sep + JoinWith(rest, sep)
  {
    assert ([x] + rest)[1..] == rest;
  }

  lemma JoinExtendFirst(c: char, rest: seq<string>, sep: string)
    requires |rest| >= 1
    ensures JoinWith([[c] + rest[0]] + rest[1..], sep) == [c] + JoinWith(rest, sep)
  {
    if |rest| > 1 {
      JoinCons([c] + rest[0], rest[1..], sep);
      JoinCons(rest[0], rest[1..], sep);
      assert rest == [rest[0]] + rest[1..];
    }
  }

  /** Splitting on the pattern and joining with it gives the text back:
      the scan loses nothing. */
  lemma {:induction false} SplitOnJoin(s: string, pat: string)
    requires |pat| > 0
    ensures JoinWith(SplitOn(s, pat), pat) == s
    decreases |s|
  {
    if |s| < |pat| {
    } else if s[..|pat|] == pat {
      var rest := SplitOn(s[|pat|..], pat);
      assert SplitOn(s, pat) == [""] + rest;
      SplitOnJoin(s[|pat|..], pat);
      JoinCons("", rest, pat);
      assert s == pat + s[|pat|..];
    } else {
      var rest := SplitOn(s[1..], pat);
      assert SplitOn(s, pat) == [[s[0]] + rest[0]] + rest[1..];
      SplitOnJoin(s[1..], pat);
      JoinExtendFirst(s[0], rest, pat);
      assert s == [s[0]] + s[1..];
    }
  }

  /** Replacing is joining the same pieces with the replacement instead:
      every occurrence the scan finds is replaced and the text between
      occurrences is kept as it was. */
  lemma {:induction false} ReplaceAllIsJoin(s: string, pat: string, rep: string)
    requires |pat| > 0
    ensures ReplaceAll(s, pat, rep) == JoinWith(SplitOn(s, pat), rep)
    decreases |s|
  {
    if |s| < |pat| {
    } else if s[..|pat|] == pat {
      var rest := SplitOn(s[|pat|..], pat);
      assert SplitOn(s, pat) == [""] + rest;
      ReplaceAllIsJoin(s[|pat|..], pat, rep);
      JoinCons("", rest, rep);
      assert "" + rep == rep;
    } else {
      var rest := SplitOn(s[1..], pat);
      assert SplitOn(s, pat) == [[s[0]] + rest[0]] + rest[1..];
      ReplaceAllIsJoin(s[1..], pat, rep);
      JoinExtendFirst(s[0], rest, rep);
    }
  }

  /** A text without the pattern is left unchanged. */
  lemma {:induction false} ReplaceAllAbsent(s: string, pat: string, rep: string)
    requires |pat| > 0
    requires !Contains(s, pat)
    ensures ReplaceAll(s, pat, rep) == s
    decreases |s|
  {
    if |s| >= |pat| {
      assert !OccursAt(s, pat, 0);
      assert !Contains(s[1..], pat) by {
        forall i | 0 <= i <= |s[1..]| - |pat|
          ensures !OccursAt(s[1..], pat, i)
        {
          assert s[1..][i..i + |pat|] == s[i + 1..i + 1 + |pat|];
          assert !OccursAt(s, pat, i + 1);
        }
      }
      ReplaceAllAbsent(s[1..], pat, rep);
    }
  }

  /** `processTemplate` (and the same chain inside the desktop build): the
      three placeholders are replaced in turn, each text inserted as it is. */
  function ProcessTemplate(content: string, config: Config): string {
    ReplaceAll(ReplaceAll(ReplaceAll(content, TitlePlaceholder, config.siteTitle),
      SubtitlePlaceholder, config.siteSubtitle), FooterPlaceholder, config.footerText)
  }

  /** A page that holds none of the placeholders is published unchanged. */
  lemma ProcessTemplateWithoutPlaceholders(content: string, config: Config)
    requires !Contains(content, TitlePlaceholder)
    requires !Contains(content, SubtitlePlaceholder)
    requires !Contains(content, FooterPlaceholder)
    ensures ProcessTemplate(content, config) == content
  {
    ReplaceAllAbsent(content, TitlePlaceholder, config.siteTitle);
    ReplaceAllAbsent(content, SubtitlePlaceholder, config.siteSubtitle);
    ReplaceAllAbsent(content, FooterPlaceholder, config.footerText);
  }

  /** The replacement text as `String.prototype.replace` reads it when the
      pattern has no capture groups: `$$` is one dollar sign, `$&` the match,
      `` $` `` the text before the match and `$'` the text after it. */
  function ExpandReplacement(rep: string, matched: string, before: string, after: string): string
    decreases |rep|
  {
    if rep == [] then []
    else if rep[0] == '$' && |rep| >= 2 && rep[1] == '$' then "$" + ExpandReplacement(rep[2..], matched, before, after)
    else if rep[0] == '$' && |rep| >= 2 && rep[1] == '&' then matched + ExpandReplacement(rep[2..], matched, before, after)
    else if rep[0] == '$' && |rep| >= 2 && rep[1] == '`' then before + ExpandReplacement(rep[2..], matched, before, after)
    else if rep[0] == '$' && |rep| >= 2 && rep[1] == '\'' then after + ExpandReplacement(rep[2..], matched, before, after)
    else [rep[0]] + ExpandReplacement(rep[1..], matched, before, after)
  }

  /** `str.replace(/pat/g, rep)` as written: the scan of `ReplaceAll`, but
      each replacement is expanded against the original string. */
  function RegexReplaceFrom(str: string, pat: string, rep: string, i: nat): string
    requires |pat| > 0 && i <= |str|
    decreases |str| - i
  {
    if |str| - i < |pat| then str[i..]
    else if str[i..i + |pat|] == pat then
      ExpandReplacement(rep, pat, str[..i], str[i + |pat|..]) + RegexReplaceFrom(str, pat, rep, i + |pat|)
    else [str[i]] + RegexReplaceFrom(str, pat, rep, i + 1)
  }

  function RegexReplaceAll(str: string, pat: string, rep: string): string
    requires |pat| > 0
  {
    RegexReplaceFrom(str, pat, rep, 0)
  }

  /** The template step exactly as the source writes it. */
  function ProcessTemplateAsWritten(content: string, config: Config): string {
    RegexReplaceAll(RegexReplaceAll(RegexReplaceAll(content, TitlePlaceholder, config.siteTitle),
      SubtitlePlaceholder, config.siteSubtitle), FooterPlaceholder, config.footerText)
  }

  lemma {:induction false} ExpandWithoutDollar(rep: string, matched: string, before: string, after: string)
    requires '$' !in rep
    ensures ExpandReplacement(rep, matched, before, after) == rep
    decreases |rep|
  {
    if rep != [] {
      assert '$' !in rep[1..];
      ExpandWithoutDollar(rep[1..], matched, before, after);
    }
  }

  /** Without a dollar sign in the replacement the regular-expression
      replacement is the literal one. */
  lemma {:induction false} RegexReplaceFromLiteral(str: string, pat: string, rep: string, i: nat)
    requires |pat| > 0 && i <= |str|
    requires '$' !in rep
    ensures RegexReplaceFrom(str, pat, rep, i) == ReplaceAll(str[i..], pat, rep)
    decreases |str| - i, 1
  {
    if |str| - i < |pat| {
      assert |str[i..]| < |pat|;
    } else if str[i..i + |pat|] == pat {
      MatchStep(str, pat, rep, i);
    } else {
      SkipStep(str, pat, rep, i);
    }
  }

  /** An occurrence at `i`: both scans put the replacement in its place. */
  lemma {:induction false} MatchStep(str: string, pat: string, rep: string, i: nat)
    requires |pat| > 0 && i + |pat| <= |str| && str[i..i + |pat|] == pat
    requires '$' !in rep
    ensures RegexReplaceFrom(str, pat, rep, i) == ReplaceAll(str[i..], pat, rep)
    decreases |str| - i, 0
  {
    RegexReplaceFromLiteral(str, pat, rep, i + |pat|);
    ReplaceAllAtMatch(str, pat, rep, i);
    RegexReplaceAtMatch(str, pat, rep, i);
  }

  /** The literal scan at an occurrence. */
  lemma ReplaceAllAtMatch(str: string, pat: string, rep: string, i: nat)
    requires |pat| > 0 && i + |pat| <= |str| && str[i..i + |pat|] == pat
    ensures ReplaceAll(str[i..], pat, rep) == rep + ReplaceAll(str[i + |pat|..], pat, rep)
  {
    var s := str[i..];
    assert s[..|pat|] == pat && s[|pat|..] == str[i + |pat|..];
  }

  /** The scan as written at an occurrence, for a replacement without a
      dollar sign. */
  lemma RegexReplaceAtMatch(str: string, pat: string, rep: string, i: nat)
    requires |pat| > 0 && i + |pat| <= |str| && str[i..i + |pat|] == pat
    requires '$' !in rep
    ensures RegexReplaceFrom(str, pat, rep, i) == rep + RegexReplaceFrom(str, pat, rep, i + |pat|)
  {
    ExpandWithoutDollar(rep, pat, str[..i], str[i + |pat|..]);
  }

  /** No occurrence at `i`: both scans keep the character there. */
  lemma {:induction false} SkipStep(str: string, pat: string, rep: string, i: nat)
    requires |pat| > 0 && i + |pat| <= |str| && str[i..i + |pat|] != pat
    requires '$' !in rep
    ensures RegexReplaceFrom(str, pat, rep, i) == ReplaceAll(str[i..], pat, rep)
    decreases |str| - i, 0
  {
    RegexReplaceFromLiteral(str, pat, rep, i + 1);
    var s := str[i..];
    assert s[..|pat|] == str[i..i + |pat|] && s[1..] == str[i + 1..] && s[0] == str[i];
  }

  /** For configured texts without a dollar sign the source's template step
      and the literal one agree. */
  lemma AsWrittenAgreesWithoutDollar(content: string, config: Config)
    requires '$' !in config.siteTitle && '$' !in config.siteSubtitle && '$' !in config.footerText
    ensures ProcessTemplateAsWritten(content, config) == ProcessTemplate(content, config)
  {
    var a := ReplaceAll(content, TitlePlaceholder, config.siteTitle);
    RegexReplaceFromLiteral(content, TitlePlaceholder, config.siteTitle, 0);
    assert content[0..] == content;
    var b := ReplaceAll(a, SubtitlePlaceholder, config.siteSubtitle);
    RegexReplaceFromLiteral(a, SubtitlePlaceholder, config.siteSubtitle, 0);
    assert a[0..] == a;
    RegexReplaceFromLiteral(b, FooterPlaceholder, config.footerText, 0);
    assert b[0..] == b;
  }

  /** A site title of `$$` is published as a single `$`: the configured text
      is not inserted as written. */
  lemma DollarTitleIsRewritten()
    ensures ProcessTemplateAsWritten("{{siteTitle}}", Config("$$", "", "", [])) == "$"
    ensures ProcessTemplate("{{siteTitle}}", Config("$$", "", "", [])) == "$$"
  {
    var c := Config("$$", "", "", []);
    assert RegexReplaceAll("{{siteTitle}}", TitlePlaceholder, "$$") == "$" by {
      assert ExpandReplacement("$$", TitlePlaceholder, "", "") == "$";
    }
    assert !Contains("$", SubtitlePlaceholder) && !Contains("$", FooterPlaceholder);
    RegexReplaceFromLiteral("$", SubtitlePlaceholder, "", 0);
    RegexReplaceFromLiteral("$", FooterPlaceholder, "", 0);
    assert ReplaceAll("{{siteTitle}}", TitlePlaceholder, "$$") == "$$";
    ReplaceAllAbsent("$$", SubtitlePlaceholder, "");
    ReplaceAllAbsent("$$", FooterPlaceholder, "");
  }
}
