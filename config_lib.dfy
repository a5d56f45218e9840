/** The two name-deriving helpers of the admin's configuration library:
    a shelf id becomes a folder name, and a title becomes a kebab-case slug
    that is used for book and cover file names. */
module ConfigLib {
  import opened Text
  import Files

  /** `replace(/([A-Z])/g, '-$1')`: a dash in front of every upper-case letter. */
  function DashBeforeUpper(s: string): (r: string)
    ensures NoUpper(s) ==> r == s
  {
    if s == [] then []
    else (if IsUpper(s[0]) then ['-', s[0]] else [s[0]]) + DashBeforeUpper(s[1..])
  }

  /** `replace(/^-/, '')`: at most one leading dash is removed. */
  function DropLeadingDash(s: string): string {
    if |s| > 0 && s[0] == '-' then s[1..] else s
  }

  /** `shelfIdToFolder`: camelCase becomes dash-separated lower case. The
      result never holds an upper-case letter, and an id already written
      in lower case without a leading dash is its own folder name. */
  function ShelfIdToFolder(id: string): (r: string)
    ensures NoUpper(r)
    ensures NoUpper(id) && !(|id| > 0 && id[0] == '-') ==> r == id
  {
    LowerNoUpper(DashBeforeUpper(id));
    DropLeadingDash(Lower(DashBeforeUpper(id)))
  }

  /** A dash goes in front of an inner capital; a leading capital's dash is dropped. */
  lemma ShelfIdToFolderExamples()
    ensures ShelfIdToFolder("myB") == "my-b"
    ensures ShelfIdToFolder("Ab") == "ab"
  {
    assert DashBeforeUpper("B") == "-B";
    assert DashBeforeUpper("yB") == "y-B";
    assert DashBeforeUpper("myB") == "my-B";
    assert Lower("my-B") == "my-b";
    assert DashBeforeUpper("b") == "b";
    assert DashBeforeUpper("Ab") == "-Ab";
    assert Lower("-Ab") == "-ab";
  }

  /** The characters `/[^a-z0-9\s-]/g` does not remove. */
  predicate Kept(c: char) {
    IsLowerLetter(c) || IsDigit(c) || IsSpace(c) || c == '-'
  }

  /** The characters a kebab-case slug is made of. */
  predicate KebabChar(c: char) {
    IsLowerLetter(c) || IsDigit(c) || c == '-'
  }

  predicate AllKept(s: string) {
    forall i :: 0 <= i < |s| ==> Kept(s[i])
  }

  predicate AllKebabChars(s: string) {
    forall i :: 0 <= i < |s| ==> KebabChar(s[i])
  }

  predicate NoDoubleDash(s: string) {
    forall i, j :: 0 <= i < |s| && 0 <= j < |s| && j == i + 1 ==> !(s[i] == '-' && s[j] == '-')
  }

  /** Only `[a-z0-9-]`, and never two dashes in a row. */
  predicate IsKebab(s: string) {
    AllKebabChars(s) && NoDoubleDash(s)
  }

  /** `replace(/[^a-z0-9\s-]/g, '')`. */
  function StripDisallowed(s: string): string {
    if s == [] then []
    else (if Kept(s[0]) then [s[0]] else []) + StripDisallowed(s[1..])
  }

  /** Only kept characters survive, and a string of them is unchanged. */
  lemma {:induction false} StripDisallowedKeeps(s: string)
    ensures AllKept(StripDisallowed(s))
    ensures |s| > 0 && Kept(s[0]) ==> |StripDisallowed(s)| > 0 && StripDisallowed(s)[0] == s[0]
    ensures AllKept(s) ==> StripDisallowed(s) == s
  {
    if s != [] {
      StripDisallowedKeeps(s[1..]);
    }
  }

  /** `replace(/\s+/g, '-')`: every run of white space becomes one dash. */
  function SpacesToDash(s: string): string
    decreases |s|
  {
    if s == [] then []
    else if IsSpace(s[0]) then "-" + SpacesToDash(TrimStart(s[1..]))
    else [s[0]] + SpacesToDash(s[1..])
  }

  /** No white space is left; kept characters become slug characters; a
      leading blank becomes a leading dash; a string without white space is
      unchanged. */
  lemma SpacesToDashProps(s: string)
    ensures forall i :: 0 <= i < |SpacesToDash(s)| ==> !IsSpace(SpacesToDash(s)[i])
    ensures AllKept(s) ==> AllKebabChars(SpacesToDash(s))
    ensures |s| > 0 && IsSpace(s[0]) ==> |SpacesToDash(s)| > 0 && SpacesToDash(s)[0] == '-'
    ensures (forall i :: 0 <= i < |s| ==> !IsSpace(s[i])) ==> SpacesToDash(s) == s
  {
    SpacesToDashNoSpace(s);
    if AllKept(s) {
      SpacesToDashKebab(s);
    }
    if forall i :: 0 <= i < |s| ==> !IsSpace(s[i]) {
      SpacesToDashUnchanged(s);
    }
  }

  lemma {:induction false} SpacesToDashNoSpace(s: string)
    ensures forall i :: 0 <= i < |SpacesToDash(s)| ==> !IsSpace(SpacesToDash(s)[i])
    decreases |s|
  {
    if s == [] {
    } else if IsSpace(s[0]) {
      SpacesToDashNoSpace(TrimStart(s[1..]));
    } else {
      SpacesToDashNoSpace(s[1..]);
    }
  }

  /** The last `|t|` characters of `s`. */
  lemma SuffixKept(s: string, t: string)
    requires AllKept(s) && |t| <= |s| && t == s[|s| - |t|..]
    ensures AllKept(t)
  {
    forall i | 0 <= i < |t| ensures Kept(t[i]) {
      assert t[i] == s[|s| - |t| + i];
    }
  }

  lemma ConsKebab(c: char, t: string)
    requires KebabChar(c) && AllKebabChars(t)
    ensures AllKebabChars([c] + t)
  {
    var u := [c] + t;
    forall i | 0 <= i < |u| ensures KebabChar(u[i]) {
      if i > 0 {
        assert u[i] == t[i - 1];
      }
    }
  }

  lemma {:induction false} SpacesToDashKebab(s: string)
    requires AllKept(s)
    ensures AllKebabChars(SpacesToDash(s))
    decreases |s|
  {
    if s == [] {
    } else if IsSpace(s[0]) {
      var t := TrimStart(s[1..]);
      SuffixKept(s, t);
      SpacesToDashKebab(t);
      ConsKebab('-', SpacesToDash(t));
    } else {
      SuffixKept(s, s[1..]);
      SpacesToDashKebab(s[1..]);
      assert Kept(s[0]) && !IsSpace(s[0]);
      ConsKebab(s[0], SpacesToDash(s[1..]));
    }
  }

  lemma {:induction false} SpacesToDashUnchanged(s: string)
    requires forall i :: 0 <= i < |s| ==> !IsSpace(s[i])
    ensures SpacesToDash(s) == s
    decreases |s|
  {
    if s != [] {
      assert !IsSpace(s[0]);
      assert forall i :: 0 <= i < |s[1..]| ==> !IsSpace(s[1..][i]) by {
        forall i | 0 <= i < |s[1..]| ensures !IsSpace(s[1..][i]) {
          assert s[1..][i] == s[i + 1];
        }
      }
      SpacesToDashUnchanged(s[1..]);
      assert [s[0]] + s[1..] == s;
    }
  }

  /** The longest suffix of `s` that does not start with a dash. */
  function DropDashes(s: string): (r: string)
    ensures |r| <= |s| && r == s[|s| - |r|..]
    ensures r == [] || r[0] != '-'
  {
    if |s| > 0 && s[0] == '-' then DropDashes(s[1..]) else s
  }

  /** `replace(/-+/g, '-')`: every run of dashes becomes one dash. */
  function CollapseDashes(s: string): string
    decreases |s|
  {
    if s == [] then []
    else if s[0] == '-' then "-" + CollapseDashes(DropDashes(s[1..]))
    else [s[0]] + CollapseDashes(s[1..])
  }

  /** Prepending one character to a string without a dash run, where the two
      are not both dashes, gives a string without a dash run. */
  lemma ConsNoDoubleDash(c: char, t: string)
    requires NoDoubleDash(t)
    requires c == '-' ==> t == [] || t[0] != '-'
    ensures NoDoubleDash([c] + t)
  {
    var u := [c] + t;
    forall i, j | 0 <= i < |u| && 0 <= j < |u| && j == i + 1
      ensures !(u[i] == '-' && u[j] == '-')
    {
      if i > 0 {
        assert u[i] == t[i - 1] && u[j] == t[j - 1];
      }
    }
  }

  /** No two dashes in a row remain and the first character is kept. */
  lemma {:induction false} CollapseDashesShape(s: string)
    ensures NoDoubleDash(CollapseDashes(s))
    ensures |s| > 0 ==> |CollapseDashes(s)| > 0 && CollapseDashes(s)[0] == s[0]
    decreases |s|
  {
    if s == [] {
    } else if s[0] == '-' {
      var t := DropDashes(s[1..]);
      CollapseDashesShape(t);
      ConsNoDoubleDash('-', CollapseDashes(t));
    } else {
      CollapseDashesShape(s[1..]);
      ConsNoDoubleDash(s[0], CollapseDashes(s[1..]));
    }
  }

  /** Slug characters stay slug characters, and a string without a dash run
      is unchanged. */
  lemma CollapseDashesKeeps(s: string)
    ensures AllKebabChars(s) ==> AllKebabChars(CollapseDashes(s))
    ensures NoDoubleDash(s) ==> CollapseDashes(s) == s
  {
    if AllKebabChars(s) {
      CollapseDashesKebab(s);
    }
    if NoDoubleDash(s) {
      CollapseDashesUnchanged(s);
    }
  }

  lemma SuffixKebab(s: string, t: string)
    requires AllKebabChars(s) && |t| <= |s| && t == s[|s| - |t|..]
    ensures AllKebabChars(t)
  {
    forall i | 0 <= i < |t| ensures KebabChar(t[i]) {
      assert t[i] == s[|s| - |t| + i];
    }
  }

  lemma {:induction false} CollapseDashesKebab(s: string)
    requires AllKebabChars(s)
    ensures AllKebabChars(CollapseDashes(s))
    decreases |s|
  {
    if s == [] {
    } else if s[0] == '-' {
      var t := DropDashes(s[1..]);
      SuffixKebab(s, t);
      CollapseDashesKebab(t);
      ConsKebab('-', CollapseDashes(t));
    } else {
      SuffixKebab(s, s[1..]);
      CollapseDashesKebab(s[1..]);
      ConsKebab(s[0], CollapseDashes(s[1..]));
    }
  }

  /** Without the first character a string keeps having no dash run. */
  lemma TailNoDoubleDash(s: string)
    requires NoDoubleDash(s) && s != []
    ensures NoDoubleDash(s[1..])
  {
    var t := s[1..];
    forall i, j | 0 <= i < |t| && 0 <= j < |t| && j == i + 1
      ensures !(t[i] == '-' && t[j] == '-')
    {
      assert t[i] == s[i + 1] && t[j] == s[j + 1];
    }
  }

  lemma {:induction false} CollapseDashesUnchanged(s: string)
    requires NoDoubleDash(s)
    ensures CollapseDashes(s) == s
    decreases |s|
  {
    if s != [] {
      var t := s[1..];
      TailNoDoubleDash(s);
      CollapseDashesUnchanged(t);
      if s[0] == '-' {
        SecondNotDash(s);
        DropDashesNoLead(t);
      }
      assert [s[0]] + t == s;
    }
  }

  /** After a dash, a string without a dash run does not go on with one. */
  lemma SecondNotDash(s: string)
    requires NoDoubleDash(s) && |s| > 0 && s[0] == '-'
    ensures |s| == 1 || s[1] != '-'
  {
  }

  lemma DropDashesNoLead(t: string)
    requires |t| == 0 || t[0] != '-'
    ensures DropDashes(t) == t
  {
  }


  /** `toKebabCase`: lower-case, drop everything but letters, digits, white
      space and dashes, turn white-space runs into a dash, collapse dash runs,
      then trim. The result is always a kebab-case slug. */
  function ToKebabCase(s: string): (r: string)
    ensures IsKebab(r)
  {
    var stripped := StripDisallowed(Lower(s));
    StripDisallowedKeeps(Lower(s));
    CollapsedKebab(stripped);
    Trim(CollapseDashes(SpacesToDash(stripped)))
  }

  /** Dashing and collapsing kept characters gives a slug that trimming
      leaves alone. */
  lemma CollapsedKebab(t: string)
    requires AllKept(t)
    ensures IsKebab(CollapseDashes(SpacesToDash(t)))
    ensures Trim(CollapseDashes(SpacesToDash(t))) == CollapseDashes(SpacesToDash(t))
  {
    var d := SpacesToDash(t);
    SpacesToDashKebab(t);
    CollapseDashesShape(d);
    CollapseDashesKebab(d);
    var c := CollapseDashes(d);
    if c != [] {
      assert KebabChar(c[0]) && KebabChar(c[|c| - 1]);
    }
    TrimNoop(c);
  }

  /** A slug is left as it is. */
  lemma {:induction false} KebabFixpoint(t: string)
    requires IsKebab(t)
    ensures ToKebabCase(t) == t
  {
    assert NoUpper(t) && AllKept(t) && forall i :: 0 <= i < |t| ==> !IsSpace(t[i]);
    LowerNoUpper(t);
    StripDisallowedKeeps(t);
    SpacesToDashProps(t);
    CollapseDashesKeeps(t);
    assert CollapseDashes(SpacesToDash(StripDisallowed(Lower(t)))) == t;
    TrimNoop(t);
  }

  /** Slugging twice is slugging once. */
  lemma KebabIdempotent(s: string)
    ensures ToKebabCase(ToKebabCase(s)) == ToKebabCase(s)
  {
    KebabFixpoint(ToKebabCase(s));
  }

  /** The final `trim` runs after all white space has become dashes, so it
      removes nothing: a title that starts with white space gives a slug
      that starts with a dash. */
  lemma KebabLeadingBlank(s: string)
    requires |s| > 0 && IsSpace(s[0])
    ensures |ToKebabCase(s)| > 0 && ToKebabCase(s)[0] == '-'
  {
    var lowered := Lower(s);
    assert lowered[0] == s[0];
    var stripped := StripDisallowed(lowered);
    StripDisallowedKeeps(lowered);
    var dashed := SpacesToDash(stripped);
    SpacesToDashProps(stripped);
    var collapsed := CollapseDashes(dashed);
    CollapseDashesShape(dashed);
    CollapseDashesKeeps(dashed);
    TrimNoop(collapsed);
  }

  /** `${toKebabCase(title)}.json`: a plain file name whose stem is the slug. */
  function BookFileName(title: string): (r: string)
    ensures Files.IsJsonName(r) && Files.PlainName(r)
    ensures r[..|r| - 5] == ToKebabCase(title)
    ensures IsKebab(r[..|r| - 5])
  {
    var slug := ToKebabCase(title);
    SlugFileName(slug);
    slug + ".json"
  }

  lemma SlugFileName(slug: string)
    requires IsKebab(slug)
    ensures Files.IsJsonName(slug + ".json") && Files.PlainName(slug + ".json")
  {
    var r := slug + ".json";
    assert r[|r| - 5..] == ".json";
    assert forall i :: 0 <= i < |slug| ==> r[i] == slug[i];
    assert r[|slug|..] == ".json";
    assert '/' !in r;
  }
}
