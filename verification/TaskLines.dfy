// The line-level vocabulary of a daily note: headings, and bullets that are exactly one wikilink.
module TaskLines {
  import opened Text

  predicate IsBlank(c: char) { c == ' ' || c == '\t' }

  predicate AllBlank(s: string) { forall c | c in s :: IsBlank(c) }

  predicate NoBrackets(s: string) { '[' !in s && ']' !in s }

  predicate IsMarker(c: char) { c == '-' || c == '*' || c == '+' }

  // line.rstrip(" \t")
  function StripRight(line: string): string {
    if line != "" && IsBlank(line[|line| - 1]) then StripRight(line[..|line| - 1]) else line
  }

  // A level-2 heading: "##" alone or "## ...", but not "###".
  predicate IsH2Heading(line: string) {
    var stripped := StripRight(line);
    stripped == "##" || "## " <= stripped
  }

  const TASKS_HEADING := "## Tasks"

  predicate IsTasksHeading(line: string) {
    StripRight(line) == TASKS_HEADING
  }

  // The line is the stripped text and blanks, and the stripped text does not end in one.
  lemma {:induction false} StripRightExact(line: string) returns (blanks: string)
    ensures line == StripRight(line) + blanks && AllBlank(blanks)
    ensures StripRight(line) != "" ==> !IsBlank(StripRight(line)[|StripRight(line)| - 1])
  {
    if line != "" && IsBlank(line[|line| - 1]) {
      var rest := StripRightExact(line[..|line| - 1]);
      blanks := rest + [line[|line| - 1]];
      assert line == line[..|line| - 1] + [line[|line| - 1]];
    } else {
      blanks := "";
      assert line == line + "";
    }
  }

  // A level-2 heading starts with two number signs followed by a space, or by blanks only: a deeper
  // heading is none.
  lemma HeadingExact(line: string)
    ensures IsH2Heading(line) <==> "##" <= line && (AllBlank(line[2..]) || line[2] == ' ')
    ensures "###" <= line ==> !IsH2Heading(line)
    ensures IsTasksHeading(line) <==> TASKS_HEADING <= line && AllBlank(line[|TASKS_HEADING|..])
  {
    var blanks := StripRightExact(line);
    var stripped := StripRight(line);
    hide StripRight;
    forall k | |stripped| <= k < |line| ensures IsBlank(line[k]) { assert line[k] == blanks[k - |stripped|]; }
    if "##" <= line && AllBlank(line[2..]) { StrippedTo(line, stripped, blanks, "##"); }
    if TASKS_HEADING <= line && AllBlank(line[|TASKS_HEADING|..]) { StrippedTo(line, stripped, blanks, TASKS_HEADING); }
    if "##" <= line && !AllBlank(line[2..]) {
      var c :| c in line[2..] && !IsBlank(c);
      var k :| 0 <= k < |line[2..]| && line[2..][k] == c;
      assert line[k + 2] == c;
    }
    if "###" <= line { assert line[2] == '#' && line[2] in line[2..]; }
    if stripped == "##" { assert line[2..] == blanks; }
    if stripped == TASKS_HEADING { assert line[|TASKS_HEADING|..] == blanks; }
  }

  lemma StrippedTo(line: string, stripped: string, blanks: string, start: string)
    requires line == stripped + blanks && AllBlank(blanks) && (stripped != "" ==> !IsBlank(stripped[|stripped| - 1]))
    requires start <= line && AllBlank(line[|start|..]) && start != "" && !IsBlank(start[|start| - 1])
    ensures stripped == start
  {
    forall k | |start| <= k < |line| ensures IsBlank(line[k]) { assert line[k] in line[|start|..]; }
    forall k | |stripped| <= k < |line| ensures IsBlank(line[k]) { assert line[k] == blanks[k - |stripped|]; }
    assert start[|start| - 1] == line[|start| - 1];
    assert stripped != "" ==> stripped[|stripped| - 1] == line[|stripped| - 1];
    assert line[..|stripped|] == stripped && line[..|start|] == start;
  }

  // Lower-case single-segment task slugs: [a-z0-9][a-z0-9_-]*
  predicate SlugChar(c: char) {
    'a' <= c <= 'z' || '0' <= c <= '9' || c == '_' || c == '-'
  }

  predicate ValidSlug(slug: string) {
    slug != "" && slug[0] != '_' && slug[0] != '-' && forall c | c in slug :: SlugChar(c)
  }

  // A slug is lower-case letters and digits, with underscores and hyphens after the first character.
  lemma SlugExact(slug: string)
    ensures ValidSlug(slug) <==> slug != "" && forall i | 0 <= i < |slug| ::
      'a' <= slug[i] <= 'z' || '0' <= slug[i] <= '9' || (i > 0 && (slug[i] == '_' || slug[i] == '-'))
  {
    if ValidSlug(slug) {
      forall i | 0 <= i < |slug|
        ensures 'a' <= slug[i] <= 'z' || '0' <= slug[i] <= '9' || (i > 0 && (slug[i] == '_' || slug[i] == '-'))
      {
        assert SlugChar(slug[i]);
      }
    }
  }

  // Length of the longest blank prefix.
  function BlankRun(s: string): (n: nat)
    ensures n <= |s|
  {
    if s != "" && IsBlank(s[0]) then 1 + BlankRun(s[1..]) else 0
  }

  lemma {:induction false} BlankRunIsBlank(s: string)
    ensures AllBlank(s[..BlankRun(s)])
  {
    if s != "" && IsBlank(s[0]) {
      BlankRunIsBlank(s[1..]);
      assert s[..BlankRun(s)] == [s[0]] + s[1..][..BlankRun(s[1..])];
    }
  }

  // Length of the longest prefix without square brackets.
  function PlainRun(s: string): (n: nat)
    ensures n <= |s|
  {
    if s != "" && s[0] != '[' && s[0] != ']' then 1 + PlainRun(s[1..]) else 0
  }

  lemma {:induction false} PlainRunIsPlain(s: string)
    ensures NoBrackets(s[..PlainRun(s)])
  {
    if s != "" && s[0] != '[' && s[0] != ']' {
      PlainRunIsPlain(s[1..]);
      assert s[..PlainRun(s)] == [s[0]] + s[1..][..PlainRun(s[1..])];
    }
  }

  // inner.split("|", 1)[0]
  function BeforeBar(inner: string): string {
    if inner == "" || inner[0] == '|' then "" else [inner[0]] + BeforeBar(inner[1..])
  }

  // What comes before the first bar, or everything.
  lemma {:induction false} BeforeBarExact(inner: string)
    ensures BeforeBar(inner) <= inner && '|' !in BeforeBar(inner)
    ensures |BeforeBar(inner)| < |inner| ==> inner[|BeforeBar(inner)|] == '|'
  {
    if inner != "" && inner[0] != '|' { BeforeBarExact(inner[1..]); }
  }

  // Indentation and wikilink text of a matching line.
  datatype Bullet = Bullet(indent: string, inner: string)

  // The pattern ^([ \t]*)[-*+][ \t]+\[\[([^\[\]]+)\]\][ \t]*$ , read from the left.
  function ParseBullet(line: string): Option<Bullet> {
    var a := BlankRun(line);
    if a == |line| || !IsMarker(line[a]) then None else
    var inner := ParseItem(line[a + 1..]);
    if inner.None? then None else Some(Bullet(line[..a], inner.value))
  }

  // What follows the marker: blanks, then the wikilink.
  function ParseItem(item: string): Option<string> {
    var g := BlankRun(item);
    if g == 0 then None else ParseLink(item[g..])
  }

  // "[[" inner "]]" blanks
  function ParseLink(link: string): Option<string> {
    if !("[[" <= link) then None else
    var n := PlainRun(link[2..]);
    if n == 0 || !ClosesLink(link[2..][n..]) then None else Some(link[2..][..n])
  }

  predicate ClosesLink(tail: string) {
    "]]" <= tail && AllBlank(tail[2..])
  }

  // What the pattern denotes: the line is these pieces in a row.
  ghost predicate LinkShape(link: string, inner: string, trail: string) {
    && link == "[[" + (inner + ("]]" + trail))
    && NoBrackets(inner) && inner != "" && AllBlank(trail)
  }

  ghost predicate BulletShape(line: string, b: Bullet, marker: char, gap: string, link: string) {
    && line == b.indent + ([marker] + (gap + link))
    && AllBlank(b.indent) && IsMarker(marker) && AllBlank(gap) && gap != ""
  }

  lemma {:induction false} BlankRunOf(blanks: string, rest: string)
    requires AllBlank(blanks) && (rest == "" || !IsBlank(rest[0]))
    ensures BlankRun(blanks + rest) == |blanks|
  {
    if blanks != "" {
      assert blanks[0] in blanks;
      assert (blanks + rest)[1..] == blanks[1..] + rest;
      BlankRunOf(blanks[1..], rest);
    } else {
      assert "" + rest == rest;
    }
  }

  lemma {:induction false} PlainRunOf(plain: string, rest: string)
    requires NoBrackets(plain) && rest != "" && (rest[0] == '[' || rest[0] == ']')
    ensures PlainRun(plain + rest) == |plain|
  {
    if plain != "" {
      assert plain[0] in plain;
      assert (plain + rest)[1..] == plain[1..] + rest;
      PlainRunOf(plain[1..], rest);
    } else {
      assert "" + rest == rest;
    }
  }

  lemma ParseLinkComplete(link: string, inner: string, trail: string)
    requires LinkShape(link, inner, trail)
    ensures ParseLink(link) == Some(inner)
  {
    var tail := "]]" + trail;
    assert link[2..] == inner + tail;
    PlainRunOf(inner, tail);
    assert (inner + tail)[|inner|..] == tail && (inner + tail)[..|inner|] == inner;
    assert tail[2..] == trail;
  }

  lemma ShapeParts(line: string, b: Bullet, marker: char, gap: string, link: string, trail: string)
    requires BulletShape(line, b, marker, gap, link) && LinkShape(link, b.inner, trail)
    ensures line == b.indent + ([marker] + (gap + link)) && link != "" && link[0] == '['
    ensures AllBlank(b.indent) && AllBlank(gap) && gap != "" && IsMarker(marker) && !IsBlank(marker)
  {
  }

  // The left-to-right reader recognises exactly the lines of the pattern's shape.
  lemma ParseBulletComplete(line: string, b: Bullet, marker: char, gap: string, link: string, trail: string)
    requires BulletShape(line, b, marker, gap, link) && LinkShape(link, b.inner, trail)
    ensures ParseBullet(line) == Some(b)
  {
    ShapeParts(line, b, marker, gap, link, trail);
    hide BlankRun, PlainRun, ParseLink, ClosesLink, LinkShape, NoBrackets, AllBlank, BulletShape;
    var item := gap + link;
    BlankRunOf(b.indent, [marker] + item);
    assert line[|b.indent| + 1..] == item && line[..|b.indent|] == b.indent && line[|b.indent|] == marker;
    BlankRunOf(gap, link);
    assert item[|gap|..] == link;
    ParseLinkComplete(link, b.inner, trail);
  }

  lemma ParseLinkSound(link: string) returns (inner: string, trail: string)
    requires ParseLink(link).Some?
    ensures LinkShape(link, inner, trail) && ParseLink(link) == Some(inner)
  {
    var n := PlainRun(link[2..]);
    PlainRunIsPlain(link[2..]);
    inner, trail := link[2..][..n], link[2..][n..][2..];
    assert link[2..][n..] == "]]" + trail;
    assert link[2..] == inner + link[2..][n..];
    assert link == "[[" + link[2..];
  }

  lemma CutAt(line: string, a: nat)
    requires a < |line|
    ensures line == line[..a] + ([line[a]] + line[a + 1..])
  {
  }

  lemma ParseBulletSound(line: string) returns (b: Bullet, marker: char, gap: string, link: string, trail: string)
    requires ParseBullet(line).Some?
    ensures BulletShape(line, b, marker, gap, link) && LinkShape(link, b.inner, trail)
    ensures ParseBullet(line) == Some(b)
  {
    hide BlankRun, PlainRun, ParseLink, ClosesLink, NoBrackets, LinkShape;
    var a := BlankRun(line);
    var item := line[a + 1..];
    var g := BlankRun(item);
    BlankRunIsBlank(line);
    BlankRunIsBlank(item);
    var inner;
    inner, trail := ParseLinkSound(item[g..]);
    b, marker, gap, link := Bullet(line[..a], inner), line[a], item[..g], item[g..];
    assert item == gap + link;
    CutAt(line, a);
  }

  // The bullet's wikilink target is exactly `slug` (a display alias after "|" is ignored).
  predicate LinksTo(line: string, slug: string) {
    var b := ParseBullet(line);
    b.Some? && BeforeBar(b.value.inner) == slug
  }

  // The bare canonical task line.
  function LinkLine(slug: string, indent: string): string {
    indent + "- [[" + slug + "]]"
  }

  lemma {:induction false} BeforeBarOfPlain(s: string)
    requires '|' !in s
    ensures BeforeBar(s) == s
  {
    if s != "" {
      assert s[0] in s;
      BeforeBarOfPlain(s[1..]);
      assert s == [s[0]] + s[1..];
    }
  }

  lemma LinkLineParses(slug: string, indent: string)
    requires NoBrackets(slug) && slug != "" && AllBlank(indent)
    ensures ParseBullet(LinkLine(slug, indent)) == Some(Bullet(indent, slug))
  {
    var link := "[[" + (slug + ("]]" + ""));
    assert AllBlank(" ") && AllBlank("");
    assert "]]" + "" == "]]";
    assert "[[" + slug + "]]" == link;
    assert indent + "- [[" + slug + "]]" == indent + (['-'] + (" " + link)) by {
      assert "- [[" == ['-'] + (" " + "[[");
    }
    ParseBulletComplete(LinkLine(slug, indent), Bullet(indent, slug), '-', " ", link, "");
  }

  lemma SingleLineConcat(a: string, b: string)
    requires SingleLine(a) && SingleLine(b)
    ensures SingleLine(a + b)
  {
  }

  lemma SlugIsPlain(slug: string)
    requires ValidSlug(slug)
    ensures NoBrackets(slug) && '|' !in slug && '\n' !in slug
  {
    forall c | c == '[' || c == ']' || c == '|' || c == '\n' ensures c !in slug {
      assert !SlugChar(c);
    }
  }

  // The line the transformer writes is recognised again, with the same indentation, as a link to
  // exactly this slug and to no other; and it is one line that is no heading.
  lemma LinkLineLinks(slug: string, indent: string)
    requires ValidSlug(slug) && AllBlank(indent)
    ensures ParseBullet(LinkLine(slug, indent)) == Some(Bullet(indent, slug))
    ensures forall other :: LinksTo(LinkLine(slug, indent), other) <==> other == slug
    ensures SingleLine(LinkLine(slug, indent))
    ensures !IsH2Heading(LinkLine(slug, indent)) && !IsTasksHeading(LinkLine(slug, indent))
  {
    SlugIsPlain(slug);
    LinkLineParses(slug, indent);
    LinkLineIsOneLine(slug, indent);
    hide *;
    BeforeBarOfPlain(slug);
    LinksToParsed(LinkLine(slug, indent), Bullet(indent, slug));
    BulletIsNoHeading(LinkLine(slug, indent));
  }

  lemma LinksToParsed(line: string, b: Bullet)
    requires ParseBullet(line) == Some(b)
    ensures forall other :: LinksTo(line, other) <==> BeforeBar(b.inner) == other
  {
    hide ParseBullet, BeforeBar;
  }

  lemma LinkLineIsOneLine(slug: string, indent: string)
    requires '\n' !in slug && AllBlank(indent)
    ensures SingleLine(LinkLine(slug, indent))
  {
    assert '\n' !in indent by { assert !IsBlank('\n'); }
    SingleLineConcat(indent, "- [[");
    SingleLineConcat(indent + "- [[", slug);
    SingleLineConcat(indent + "- [[" + slug, "]]");
  }

  lemma {:induction false} StripRightIsPrefix(line: string)
    ensures StripRight(line) <= line
  {
    if line != "" && IsBlank(line[|line| - 1]) {
      StripRightIsPrefix(line[..|line| - 1]);
    }
  }

  lemma BulletIsNoHeading(line: string)
    requires ParseBullet(line).Some?
    ensures !IsH2Heading(line) && !IsTasksHeading(line)
  {
    hide StripRight, BlankRun, ParseItem;
    StripRightIsPrefix(line);
    var a := BlankRun(line);
    BlankRunIsBlank(line);
    if a > 0 { assert line[0] == line[..a][0] && line[..a][0] in line[..a]; }
  }

  lemma TasksHeadingIsH2(line: string)
    requires IsTasksHeading(line)
    ensures IsH2Heading(line)
  {
    assert TASKS_HEADING[..3] == "## ";
  }
}
