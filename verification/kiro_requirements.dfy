/** `parseRequirements` of `src/adapters/source/kiro.ts`: the pattern
    `###?\s+需求\s+(\d+)[：:]\s*(.+?)$` run with the `g` and `m` flags over
    the markdown body, each match followed by a description cut from the end
    of the match to the next `###`. The pattern is not anchored, so a heading
    may begin anywhere in a line. Every part of it is deterministic except
    the `\s*` before the title, which gives characters back only when nothing
    but whitespace is left. */
module KiroRequirements {
  import opened Wrappers
  import opened Text
  import opened Models

  /** The heading keyword 需求 ("requirement"). */
  const Keyword: string := "\U{9700}\U{6C42}"

  /** The class `[：:]`: the ASCII colon or the full-width colon. */
  predicate IsColon(c: char) {
    c == ':' || c == '\U{FF1A}'
  }

  /** `###?\s+` at `p`: two or three '#' and a whitespace run; the position
      where the keyword has to begin. A third '#' is always taken when
      present, since without it `\s+` would have to match that '#'. */
  function HashesAt(text: string, p: nat): (r: Option<nat>)
    requires p <= |text|
    ensures r.Some? ==> p + 2 < r.value <= |text| && text[p] == '#' && text[p + 1] == '#'
  {
    if p + 2 <= |text| && text[p] == '#' && text[p + 1] == '#' then
      var h := if p + 2 < |text| && text[p + 2] == '#' then p + 3 else p + 2;
      var w := RunEnd(text, h, Space);
      if w > h then Some(w) else None
    else None
  }

  /** The first line end at or after `t`: where a lazy `(.+?)$` stops. */
  function LineEndFrom(text: string, t: nat): (e: nat)
    requires t <= |text|
    ensures t <= e <= |text| && LineEnd(text, e)
    ensures forall k :: t <= k < e ==> !IsLineTerminator(text[k])
    decreases |text| - t
  {
    if LineEnd(text, t) then t else LineEndFrom(text, t + 1)
  }

  /** The raw title and the end of the match. */
  datatype HeadingTitle = HeadingTitle(rawTitle: string, end: nat)

  /** `\s*(.+?)$` from `a`, just after the colon. */
  function TitleAfter(text: string, a: nat): (r: Option<HeadingTitle>)
    requires a <= |text|
    ensures r.Some? ==> a < r.value.end <= |text| && LineEnd(text, r.value.end)
    ensures r.Some? ==> r.value.rawTitle != ""
    ensures r.Some? ==> forall k :: 0 <= k < |r.value.rawTitle| ==> !IsLineTerminator(r.value.rawTitle[k])
  {
    var q := RunEnd(text, a, Space);
    if q < |text| then
      assert !InClass(text[q], Space);
      var e := LineEndFrom(text, q);
      Some(HeadingTitle(text[q..e], e))
    else
      // only whitespace is left: `\s*` gives back up to the last character
      // `.` accepts, which becomes a one-character title
      match LastVisible(text, a, q)
      case None => None
      case Some(k) => Some(HeadingTitle(text[k..k + 1], k + 1))
  }

  /** A match: the heading number, the raw title and where the match ends. */
  datatype ReqMatch = ReqMatch(number: string, rawTitle: string, end: nat)

  /** The whole pattern tried at `p`. */
  function ReqMatchAt(text: string, p: nat): (r: Option<ReqMatch>)
    requires p <= |text|
    ensures r.Some? ==> p < |text| && text[p] == '#'
    ensures r.Some? ==> p < r.value.end <= |text| && LineEnd(text, r.value.end)
    ensures r.Some? ==> r.value.number != "" && AllIn(r.value.number, Digit)
  {
    match HashesAt(text, p)
    case None => None
    case Some(w) =>
      if OccursAt(text, Keyword, w) then
        var c := RunEnd(text, w + 2, Space);
        var d := RunEnd(text, c, Digit);
        if c > w + 2 && d > c && d < |text| && IsColon(text[d]) then
          match TitleAfter(text, d + 1)
          case None => None
          case Some(t) =>
            RunSlice(text, c, Digit);
            Some(ReqMatch(text[c..d], t.rawTitle, t.end))
        else None
      else None
  }

  /** `markdown.indexOf('###', startIndex)`, -1 when absent. */
  function NextHeading(text: string, start: nat): (i: int)
    requires start <= |text|
    ensures i == -1 || start <= i
    ensures i != -1 ==> OccursAt(text, "###", i)
    ensures forall k :: start <= k < i ==> !OccursAt(text, "###", k)
    ensures i == -1 <==> forall k :: start <= k ==> !OccursAt(text, "###", k)
  {
    match IndexOf(text, "###", start)
    case Some(i) => i
    case None => -1
  }

  /** The end of `substring(startIndex, nextHeading > 0 ? nextHeading : undefined)`.
      The description runs to the first `###` at or after `start`, or to the
      end of the text when there is none. */
  function DescriptionEnd(text: string, start: nat): (e: nat)
    requires 0 < start <= |text|
    ensures start <= e <= |text|
    ensures forall k :: start <= k < e ==> !OccursAt(text, "###", k)
    ensures e < |text| ==> OccursAt(text, "###", e)
  {
    var next := NextHeading(text, start);
    if next > 0 then next else |text|
  }

  /** A string without whitespace at either end, as `trim` leaves it. */
  predicate Trimmed(s: string) {
    s == "" || (!IsSpace(s[0]) && !IsSpace(s[|s| - 1]))
  }

  /** What every parsed requirement looks like: id `req-` and digits, a
      trimmed title and description, and no optional field. */
  predicate WellFormed(r: Requirement) {
    && |r.id| > 4 && r.id[..4] == "req-" && AllIn(r.id[4..], Digit)
    && Trimmed(r.title) && Trimmed(r.description)
    && r.priority.None? && r.labels.None? && r.syncId.None?
  }

  /** The object pushed for one match. */
  function ToRequirement(text: string, m: ReqMatch): (r: Requirement)
    requires 0 < m.end <= |text| && m.number != "" && AllIn(m.number, Digit)
    ensures WellFormed(r)
    ensures r.id == "req-" + m.number
  {
    var id := "req-" + m.number;
    assert id[4..] == m.number;
    NewRequirement(id, Trim(m.rawTitle), Trim(text[m.end..DescriptionEnd(text, m.end)]))
  }

  /** The `exec` loop from `p`: a match pushes its requirement and the scan
      resumes at the match's end; otherwise the next position is tried. */
  function ScanRequirements(text: string, p: nat): (reqs: seq<Requirement>)
    requires p <= |text|
    ensures forall i :: 0 <= i < |reqs| ==> WellFormed(reqs[i])
    decreases |text| - p
  {
    if p == |text| then []
    else
      match ReqMatchAt(text, p)
      case Some(m) => [ToRequirement(text, m)] + ScanRequirements(text, m.end)
      case None => ScanRequirements(text, p + 1)
  }

  /** `parseRequirements` on the markdown body of an existing `requirements.md`. */
  function ParseRequirements(markdown: string): (reqs: seq<Requirement>)
    ensures forall i :: 0 <= i < |reqs| ==> WellFormed(reqs[i]) && reqs[i].id[..4] == "req-"
  {
    ScanRequirements(markdown, 0)
  }

  // ---------------------------------------------------------------------
  // Reading back a rendered requirements file

  /** One requirement section as the pattern expects it. */
  datatype Section = Section(number: string, title: string, description: string)

  function Heading(s: Section): string {
    HeadingPrefix + s.number + ": " + s.title
  }

  /** A section: its heading line, its description and a closing newline. */
  function RenderSection(s: Section): string {
    Heading(s) + "\n" + s.description + "\n"
  }

  /** A section that reads back as written: a number of digits, a one-line
      title without surrounding whitespace, and a trimmed description
      without '#'. */
  predicate Renderable(s: Section) {
    && s.number != "" && AllIn(s.number, Digit)
    && s.title != "" && !IsSpace(s.title[0]) && !IsSpace(s.title[|s.title| - 1])
    && (forall k :: 0 <= k < |s.title| ==> !IsLineTerminator(s.title[k]))
    && Trimmed(s.description)
    && (forall k :: 0 <= k < |s.description| ==> s.description[k] != '#')
  }

  /** The requirement a rendered section stands for. */
  function Expected(s: Section): (r: Requirement)
    ensures r.id == "req-" + s.number && r.title == s.title && r.description == s.description
  {
    NewRequirement("req-" + s.number, s.title, s.description)
  }

  function ExpectedAll(sections: seq<Section>): (reqs: seq<Requirement>)
    ensures |reqs| == |sections| && forall i :: 0 <= i < |sections| ==> reqs[i] == Expected(sections[i])
  {
    if sections == [] then [] else [Expected(sections[0])] + ExpectedAll(sections[1..])
  }

  /** A requirements file: the sections one after another. */
  function Document(sections: seq<Section>): (d: string)
    ensures d == "" <==> sections == []
  {
    if sections == [] then "" else RenderSection(sections[0]) + Document(sections[1..])
  }

  /** Where the parts of a rendered heading sit. */
  lemma HeadingLayout(s: Section)
    ensures var h := Heading(s);
      && |h| == 9 + |s.number| + |s.title|
      && OccursAt(h, HeadingPrefix, 0) && OccursAt(h, s.number, 7) && OccursAt(h, ": " + s.title, 7 + |s.number|)
  {
    var tail := ": " + s.title;
    ConcatParts(HeadingPrefix, s.number, tail);
    var h := HeadingPrefix + s.number + tail;
    assert h[..7] == h[0..7];
    assert h[|h| - |tail|..] == tail;
  }

  /** The characters of a rendered heading at fixed offsets and inside its parts. */
  lemma HeadingChars(text: string, p: nat, s: Section)
    requires OccursAt(text, Heading(s), p)
    ensures |Heading(s)| == 9 + |s.number| + |s.title|
    ensures text[p] == '#' && text[p + 1] == '#' && text[p + 2] == '#' && text[p + 3] == ' '
    ensures OccursAt(text, Keyword, p + 4) && text[p + 6] == ' '
    ensures OccursAt(text, s.number, p + 7)
    ensures text[p + 7 + |s.number|] == ':' && text[p + 8 + |s.number|] == ' '
    ensures OccursAt(text, s.title, p + 9 + |s.number|)
  {
    HeadingLayout(s);
    var h := Heading(s);
    hide Heading;
    OccursNested(text, h, p, HeadingPrefix, 0);
    PrefixChars(text, p);
    OccursNested(text, h, p, s.number, 7);
    OccursNested(text, h, p, ": " + s.title, 7 + |s.number|);
    TailChars(text, p + 7 + |s.number|, s.title);
  }

  /** The fixed start of every heading: `### `, the keyword and a space. */
  const HeadingPrefix: string := "### \U{9700}\U{6C42} "

  lemma PrefixChars(text: string, p: nat)
    requires OccursAt(text, HeadingPrefix, p)
    ensures text[p] == '#' && text[p + 1] == '#' && text[p + 2] == '#' && text[p + 3] == ' '
    ensures OccursAt(text, Keyword, p + 4) && text[p + 6] == ' '
  {
    OccursChars(text, HeadingPrefix, p);
    assert HeadingPrefix[0] == '#' && HeadingPrefix[1] == '#' && HeadingPrefix[2] == '#';
    assert HeadingPrefix[3] == ' ' && HeadingPrefix[6] == ' ';
    assert HeadingPrefix[4..6] == Keyword;
    assert text[p + 4..p + 6] == HeadingPrefix[4..6];
  }

  lemma TailChars(text: string, k: nat, title: string)
    requires OccursAt(text, ": " + title, k)
    ensures text[k] == ':' && text[k + 1] == ' ' && OccursAt(text, title, k + 2)
  {
    var tail := ": " + title;
    OccursAtIndex(text, tail, k, 0);
    OccursAtIndex(text, tail, k, 1);
    assert tail[2..] == title;
    assert text[k + 2..k + 2 + |title|] == text[k..k + |tail|][2..];
  }

  /** The two keyword characters are not whitespace. */
  lemma KeywordVisible(text: string, k: nat)
    requires OccursAt(text, Keyword, k)
    ensures !IsSpace(text[k])
  {
    OccursAtIndex(text, Keyword, k, 0);
  }

  /** A line end reached through a run without terminators is the first one. */
  lemma LineEndFromAt(text: string, t: nat, e: nat)
    requires t <= e <= |text| && LineEnd(text, e)
    requires forall k :: t <= k < e ==> !IsLineTerminator(text[k])
    ensures LineEndFrom(text, t) == e
    decreases e - t
  {
    if t < e {
      LineEndFromAt(text, t + 1, e);
    }
  }

  /** The title of a rendered heading, placed after `": "` at `a - 1`. */
  lemma TitleOfHeading(text: string, a: nat, title: string)
    requires a < |text| && text[a] == ' ' && OccursAt(text, title, a + 1)
    requires title != "" && !IsSpace(title[0])
    requires forall k :: 0 <= k < |title| ==> !IsLineTerminator(title[k])
    requires LineEnd(text, a + 1 + |title|)
    ensures TitleAfter(text, a) == Some(HeadingTitle(title, a + 1 + |title|))
  {
    OccursChars(text, title, a + 1);
    RunEndAt(text, a, a + 1, Space);
    forall k | a + 1 <= k < a + 1 + |title| ensures !IsLineTerminator(text[k]) {
      assert text[k] == title[k - a - 1];
    }
    LineEndFromAt(text, a + 1, a + 1 + |title|);
    assert text[a + 1..a + 1 + |title|] == title;
  }

  /** A rendered heading that ends a line matches, capturing its parts. */
  lemma HeadingMatches(text: string, p: nat, s: Section)
    requires Renderable(s) && OccursAt(text, Heading(s), p) && LineEnd(text, p + |Heading(s)|)
    ensures ReqMatchAt(text, p) == Some(ReqMatch(s.number, s.title, p + |Heading(s)|))
  {
    hide ReqMatchAt, TitleAfter, HashesAt, RunEnd;
    HeadingChars(text, p, s);
    var n := |s.number|;
    KeywordVisible(text, p + 4);
    HashesOfHeading(text, p);
    NumberOfHeading(text, p + 6, s.number);
    TitleOfHeading(text, p + 8 + n, s.title);
    ReqMatchOfParts(text, p, p + 4, p + 7, p + 7 + n, HeadingTitle(s.title, p + |Heading(s)|));
  }

  lemma HashesOfHeading(text: string, p: nat)
    requires p + 4 < |text| && text[p] == '#' && text[p + 1] == '#' && text[p + 2] == '#' && text[p + 3] == ' '
    requires !IsSpace(text[p + 4])
    ensures HashesAt(text, p) == Some(p + 4)
  {
    RunEndAt(text, p + 3, p + 4, Space);
  }

  /** A space and then the digits of the number, closed by a colon. */
  lemma NumberOfHeading(text: string, c: nat, number: string)
    requires c < |text| && text[c] == ' ' && OccursAt(text, number, c + 1)
    requires number != "" && AllIn(number, Digit)
    requires c + 1 + |number| < |text| && text[c + 1 + |number|] == ':'
    ensures RunEnd(text, c, Space) == c + 1 && RunEnd(text, c + 1, Digit) == c + 1 + |number|
    ensures text[c + 1..c + 1 + |number|] == number
  {
    OccursChars(text, number, c + 1);
    assert InClass(number[0], Digit);
    RunEndAt(text, c, c + 1, Space);
    forall k | c + 1 <= k < c + 1 + |number| ensures InClass(text[k], Digit) {
      assert text[k] == number[k - c - 1];
      assert InClass(number[k - c - 1], Digit);
    }
    RunEndAt(text, c + 1, c + 1 + |number|, Digit);
  }

  /** The pattern assembled from its parts. */
  lemma ReqMatchOfParts(text: string, p: nat, w: nat, c: nat, d: nat, t: HeadingTitle)
    requires p <= |text| && HashesAt(text, p) == Some(w) && OccursAt(text, Keyword, w)
    requires w + 2 < c <= d < |text|
    requires RunEnd(text, w + 2, Space) == c && RunEnd(text, c, Digit) == d && c < d && IsColon(text[d])
    requires TitleAfter(text, d + 1) == Some(t)
    ensures ReqMatchAt(text, p) == Some(ReqMatch(text[c..d], t.rawTitle, t.end))
  {
    hide HashesAt, TitleAfter;
  }

  /** The description of a rendered section: everything up to the next
      section's `###`, trimmed; no match starts inside it. */
  lemma DescriptionOfSection(text: string, e: nat, desc: string)
    requires 0 < e && e + |desc| + 2 <= |text| && text[e] == '\n' && OccursAt(text, desc, e + 1)
    requires text[e + 1 + |desc|] == '\n'
    requires e + |desc| + 2 == |text| || OccursAt(text, "###", e + |desc| + 2)
    requires Trimmed(desc) && forall k :: 0 <= k < |desc| ==> desc[k] != '#'
    ensures DescriptionEnd(text, e) == e + |desc| + 2
    ensures Trim(text[e..DescriptionEnd(text, e)]) == desc
    ensures forall k :: e <= k < e + |desc| + 2 ==> text[k] != '#'
  {
    var stop := e + |desc| + 2;
    OccursChars(text, desc, e + 1);
    forall k | e <= k < stop ensures text[k] != '#' {
      if e < k < stop - 1 {
        assert text[k] == desc[k - e - 1];
      }
    }
    NoHeadingBefore(text, e, stop);
    var t := text[e..stop];
    assert t == "\n" + desc + "\n";
    if desc == "" {
      assert InClass(t[0], Space) && InClass(t[1], Space);
      TrimAllSpace(t);
    } else {
      assert InClass("\n"[0], Space);
      TrimPadded("\n", desc, "\n");
    }
  }

  /** Without a '#' in `[from, stop)` and with `###` at `stop` (or the text
      ending there), the next heading is at `stop`. */
  lemma NoHeadingBefore(text: string, from: nat, stop: nat)
    requires 0 < from <= stop <= |text|
    requires forall k :: from <= k < stop ==> text[k] != '#'
    requires stop == |text| || OccursAt(text, "###", stop)
    ensures DescriptionEnd(text, from) == stop
  {
    forall k | from <= k < stop ensures !OccursAt(text, "###", k) {
      if OccursAt(text, "###", k) {
        OccursAtIndex(text, "###", k, 0);
      }
    }
    if stop == |text| {
      forall k | k >= stop ensures !OccursAt(text, "###", k) {
      }
    }
  }

  /** One turn of the `exec` loop: a match contributes its requirement and
      the scan resumes where the match ended. */
  lemma ScanStep(text: string, p: nat, m: ReqMatch)
    requires p < |text| && ReqMatchAt(text, p) == Some(m)
    ensures ScanRequirements(text, p) == [ToRequirement(text, m)] + ScanRequirements(text, m.end)
  {
  }

  lemma ScanSkip(text: string, p: nat)
    requires p < |text| && text[p] != '#'
    ensures ScanRequirements(text, p) == ScanRequirements(text, p + 1)
  {
    assert ReqMatchAt(text, p).None?;
  }

  /** The scan passes over text without '#': no match starts there. */
  lemma {:induction false} ScanSkipRun(text: string, i: nat, j: nat)
    requires i <= j <= |text|
    requires forall k :: i <= k < j ==> text[k] != '#'
    ensures ScanRequirements(text, i) == ScanRequirements(text, j)
    decreases j - i
  {
    hide ScanRequirements, ReqMatchAt;
    if i < j {
      ScanSkip(text, i);
      ScanSkipRun(text, i + 1, j);
    }
  }

  lemma DocumentCons(sections: seq<Section>)
    requires sections != []
    ensures Document(sections) == Heading(sections[0]) + "\n" + sections[0].description + "\n" + Document(sections[1..])
  {
  }

  lemma ExpectedAllCons(sections: seq<Section>)
    requires sections != []
    ensures ExpectedAll(sections) == [Expected(sections[0])] + ExpectedAll(sections[1..])
  {
  }

  lemma DocumentStartsWithHeading(sections: seq<Section>)
    requires sections != []
    ensures OccursAt(Document(sections), "###", 0)
  {
    var d := Document(sections);
    assert d[..3] == "###";
  }

  /** The requirement read from a rendered section is the one it stands for. */
  lemma SectionRequirement(text: string, s: Section, e: nat)
    requires Renderable(s) && 0 < e <= |text|
    requires Trim(text[e..DescriptionEnd(text, e)]) == s.description
    ensures ToRequirement(text, ReqMatch(s.number, s.title, e)) == Expected(s)
  {
    TrimNoOp(s.title);
  }

  lemma RenderableParts(s: Section)
    requires Renderable(s)
    ensures Trimmed(s.description) && forall k :: 0 <= k < |s.description| ==> s.description[k] != '#'
  {
  }

  lemma EmptyScan(text: string, p: nat)
    requires p == |text|
    ensures ScanRequirements(text, p) == ExpectedAll([])
  {
  }

  /** Where a section sits in a text that continues with it at `p`. */
  lemma SectionLayout(text: string, p: nat, s: Section, rest: string)
    requires p <= |text| && text[p..] == Heading(s) + "\n" + s.description + "\n" + rest
    ensures var e := p + |Heading(s)|;
      && OccursAt(text, Heading(s), p) && e < |text| && text[e] == '\n'
      && OccursAt(text, s.description, e + 1) && e + |s.description| + 2 <= |text|
      && text[e + 1 + |s.description|] == '\n' && text[e + |s.description| + 2..] == rest
  {
    var h := Heading(s);
    var e := p + |h|;
    assert text[p..] == h + ['\n'] + (s.description + "\n" + rest);
    LineThenRest(text, p, h, '\n', s.description + "\n" + rest);
    assert text[e + 1..] == s.description + ['\n'] + rest;
    LineThenRest(text, e + 1, s.description, '\n', rest);
  }

  lemma RestStartsWithHeading(text: string, k: nat, rest: seq<Section>)
    requires k <= |text| && text[k..] == Document(rest) && rest != []
    ensures OccursAt(text, "###", k)
  {
    DocumentStartsWithHeading(rest);
    assert text[k..k + 3] == Document(rest)[..3];
  }

  /** Parsing a rendered document from `p` gives back its requirements in order. */
  lemma {:induction false} ScanDocument(text: string, p: nat, sections: seq<Section>)
    requires p <= |text| && text[p..] == Document(sections)
    requires forall i :: 0 <= i < |sections| ==> Renderable(sections[i])
    ensures ScanRequirements(text, p) == ExpectedAll(sections)
    decreases |sections|
  {
    hide ReqMatchAt, Heading, Renderable, ScanRequirements, ExpectedAll, Document, DescriptionEnd, ToRequirement;
    hide Expected, RenderSection, Trim;
    if sections == [] {
      EmptyScan(text, p);
    } else {
      var s := sections[0];
      var h := Heading(s);
      var rest := Document(sections[1..]);
      DocumentCons(sections);
      ExpectedAllCons(sections);
      var e := p + |h|;
      var next := e + |s.description| + 2;
      SectionLayout(text, p, s, rest);
      if sections[1..] != [] {
        RestStartsWithHeading(text, next, sections[1..]);
      }
      assert Renderable(s);
      RenderableParts(s);
      HeadingMatches(text, p, s);
      DescriptionOfSection(text, e, s.description);
      SectionRequirement(text, s, e);
      ScanStep(text, p, ReqMatch(s.number, s.title, e));
      ScanSkipRun(text, e, next);
      ScanDocument(text, next, sections[1..]);
    }
  }

  /** The round trip: `parseRequirements` of a rendered requirements file
      gives back each section as a requirement `req-<number>` with its
      title and description, in order. */
  lemma ParseDocument(sections: seq<Section>)
    requires forall i :: 0 <= i < |sections| ==> Renderable(sections[i])
    ensures ParseRequirements(Document(sections)) == ExpectedAll(sections)
  {
    var text := Document(sections);
    assert text[0..] == text;
    hide ScanRequirements, Document, ExpectedAll, Renderable;
    ScanDocument(text, 0, sections);
  }

  /** A heading followed directly by the next heading has an empty
      description. */
  lemma AdjacentHeadings(a: Section, b: Section)
    requires Renderable(a) && Renderable(b) && a.description == ""
    ensures var reqs := ParseRequirements(Document([a, b]));
      |reqs| == 2 && reqs[0].description == ""
  {
    ParseDocument([a, b]);
  }
}
