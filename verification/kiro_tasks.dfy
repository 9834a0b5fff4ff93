/** `parseTasks` of `src/adapters/source/kiro.ts`: the pattern
    `^-\s+\[([ x-~])\](?:\*|\\\*)?\s+(\d+(?:\.\d+)?)\.\s+(.+?)(?:\s+\(@(\w+)\))?$`
    run with the `g` and `m` flags over the whole file. The matcher follows
    the pattern's backtracking: every part is deterministic except the `\s+`
    before the title, which gives characters back only when nothing but
    whitespace is left, and the lazy title, which stops at the first place
    where the assignee group and `$` can follow. `\s` spans line terminators,
    so a match may run across lines. */
module KiroTasks {
  import opened Wrappers
  import opened Text
  import opened Models

  /** The class `[ x-~]`: a space, or a character from 'x' to '~'. */
  predicate IsMarker(c: char) {
    c == ' ' || ('x' <= c <= '~')
  }

  /** The `if` chain that maps a captured marker to a status. */
  function StatusOf(marker: char): (s: TaskStatus)
    ensures s == Done <==> marker == 'x'
    ensures s == InProgress <==> marker == '-'
    ensures s != Blocked
  {
    if marker == 'x' then Done
    else if marker == '-' then InProgress
    else if marker == '~' then Todo
    else Todo
  }

  /** The class is a range, not the three characters ' ', 'x', '-' and '~':
      it holds x y z { | } ~ and the space, and not '-'. Every marker it lets
      through reads as done exactly when it is 'x', and as todo otherwise. */
  lemma MarkerClass(c: char)
    ensures IsMarker(c) <==> c in {' ', 'x', 'y', 'z', '{', '|', '}', '~'}
    ensures !IsMarker('-')
    ensures IsMarker(c) ==> (StatusOf(c) == Done <==> c == 'x')
    ensures IsMarker(c) && c != 'x' ==> StatusOf(c) == Todo
  {
  }

  /** A match of the assignee group `\s+\(@(\w+)\)` followed by `$`. */
  datatype Suffix = Suffix(assignee: string, end: nat)

  /** The assignee group tried at `t`: whitespace (possibly across lines),
      then `(@`, a word, `)` and the end of a line. */
  function SuffixAt(text: string, t: nat): (r: Option<Suffix>)
    requires t <= |text|
    ensures r.Some? ==> t + 4 < r.value.end <= |text| && LineEnd(text, r.value.end)
    ensures r.Some? ==> r.value.assignee != "" && AllIn(r.value.assignee, Word)
  {
    var e := RunEnd(text, t, Space);
    if e > t && e + 1 < |text| && text[e] == '(' && text[e + 1] == '@' then
      var w := RunEnd(text, e + 2, Word);
      if w > e + 2 && w < |text| && text[w] == ')' && LineEnd(text, w + 1) then
        Some(Suffix(text[e + 2..w], w + 1))
      else None
    else None
  }

  /** A matched assignee group is whitespace, then `(@`, the word and `)`. */
  lemma SuffixShape(text: string, t: nat)
    requires t <= |text| && SuffixAt(text, t).Some?
    ensures var sfx := SuffixAt(text, t).value;
      var open := sfx.end - |sfx.assignee| - 3;
      && t < open
      && (forall k :: t <= k < open ==> IsSpace(text[k]))
      && OccursAt(text, "(@" + sfx.assignee + ")", open)
  {
    var e := RunEnd(text, t, Space);
    var w := RunEnd(text, e + 2, Word);
    assert text[e] == '(' && text[e + 1] == '@' && text[w] == ')';
    Bracketed(text, e, w);
    forall k | t <= k < e ensures IsSpace(text[k]) {
      assert InClass(text[k], Space);
    }
  }

  lemma Bracketed(s: string, e: nat, w: nat)
    requires e + 2 <= w < |s| && s[e] == '(' && s[e + 1] == '@' && s[w] == ')'
    ensures s[e..w + 1] == "(@" + s[e + 2..w] + ")"
  {
    var sub := "(@" + s[e + 2..w] + ")";
    assert |sub| == w + 1 - e;
    forall k | 0 <= k < |sub| ensures s[e..w + 1][k] == sub[k] {
      if 2 <= k < |sub| - 1 {
        assert sub[k] == s[e + 2..w][k - 2];
      }
    }
  }

  /** Where the lazy title ends, the assignee it is followed by, and the end
      of the whole match. */
  datatype Tail = Tail(titleEnd: nat, assignee: Option<string>, end: nat)

  /** The lazy title `(.+?)` begun at `q` and extended to `t`: it stops at the
      first position where the assignee group and `$` match, or failing that
      `$` alone, never crossing a line terminator. */
  function LazyTitle(text: string, q: nat, t: nat): (r: Tail)
    requires q < t <= |text|
    requires forall k :: q <= k < t ==> !IsLineTerminator(text[k])
    ensures t <= r.titleEnd <= r.end <= |text| && LineEnd(text, r.end)
    ensures forall k :: q <= k < r.titleEnd ==> !IsLineTerminator(text[k])
    ensures r.assignee.None? ==> r.end == r.titleEnd
    ensures r.assignee.Some? ==> r.assignee.value != "" && AllIn(r.assignee.value, Word)
    decreases |text| - t
  {
    match SuffixAt(text, t)
    case Some(sfx) => Tail(t, Some(sfx.assignee), sfx.end)
    case None =>
      if LineEnd(text, t) then Tail(t, None, t)
      else LazyTitle(text, q, t + 1)
  }

  /** The title ends where the assignee group matches, or else where the
      line ends. */
  lemma {:induction false} LazyTitleStopsAtSuffix(text: string, q: nat, t: nat)
    requires q < t <= |text|
    requires forall i :: q <= i < t ==> !IsLineTerminator(text[i])
    ensures var r := LazyTitle(text, q, t);
      match SuffixAt(text, r.titleEnd)
      case Some(sfx) => r.assignee == Some(sfx.assignee) && r.end == sfx.end
      case None => r.assignee.None? && LineEnd(text, r.titleEnd)
    decreases |text| - t
  {
    if SuffixAt(text, t).None? && !LineEnd(text, t) {
      LazyTitleStopsAtSuffix(text, q, t + 1);
    }
  }

  /** The title is as short as it can be: at no position before its end
      could the assignee group or `$` follow. */
  lemma {:induction false} LazyTitleIsShortest(text: string, q: nat, t: nat, k: nat)
    requires q < t <= |text|
    requires forall i :: q <= i < t ==> !IsLineTerminator(text[i])
    requires t <= k < LazyTitle(text, q, t).titleEnd
    ensures SuffixAt(text, k).None? && !LineEnd(text, k)
    decreases |text| - t
  {
    if k > t {
      LazyTitleIsShortest(text, q, t + 1, k);
    }
  }


  /** `\d+(?:\.\d+)?`: digits, or digits, one dot and digits. */
  predicate ValidId(id: string) {
    var k := RunEnd(id, 0, Digit);
    0 < k && (k == |id| || (k + 1 < |id| && id[k] == '.' && AllIn(id[k + 1..], Digit)))
  }

  /** `(\d+(?:\.\d+)?)\.` at `d`: the position of the dot that closes the id. */
  function IdEnd(text: string, d: nat): (r: Option<nat>)
    requires d <= |text|
    ensures r.Some? ==> d < r.value < |text| && text[r.value] == '.' && ValidId(text[d..r.value])
  {
    var d1 := RunEnd(text, d, Digit);
    if d1 == d || d1 >= |text| || text[d1] != '.' then None
    else if d1 + 1 < |text| && IsDigit(text[d1 + 1]) then
      var d2 := RunEnd(text, d1 + 1, Digit);
      if d2 < |text| && text[d2] == '.' then
        var id := text[d..d2];
        RunEndAt(id, 0, d1 - d, Digit);
        assert id[d1 - d + 1..] == text[d1 + 1..d2];
        Some(d2)
      else None
    else
      RunEndAt(text[d..d1], 0, d1 - d, Digit);
      Some(d1)
  }

  /** The captures of one match and where it ends. */
  datatype TaskMatch = TaskMatch(marker: char, id: string, rawTitle: string, assignee: Option<string>, end: nat)

  /** The optional `\*` or `\\\*` after the closing bracket at `b`. */
  function AfterStar(text: string, b: nat): (c: nat)
    requires b <= |text|
    ensures b <= c <= |text|
  {
    if b < |text| && text[b] == '*' then b + 1
    else if b + 1 < |text| && text[b] == '\\' && text[b + 1] == '*' then b + 2
    else b
  }

  /** What `^-\s+\[([ x-~])\](?:\*|\\\*)?\s+` leaves: the marker and where
      the id starts. */
  datatype Head = Head(marker: char, idStart: nat)

  function HeadAt(text: string, p: nat): (r: Option<Head>)
    requires p <= |text|
    ensures r.Some? ==> LineStart(text, p) && p < |text| && text[p] == '-'
    ensures r.Some? ==> IsMarker(r.value.marker) && p + 5 < r.value.idStart <= |text|
  {
    if !(LineStart(text, p) && p < |text| && text[p] == '-') then None
    else
      var a := RunEnd(text, p + 1, Space);
      if a == p + 1 || a + 2 >= |text| || text[a] != '[' || !IsMarker(text[a + 1]) || text[a + 2] != ']' then None
      else
        var c := AfterStar(text, a + 3);
        var d := RunEnd(text, c, Space);
        if d == c then None else Some(Head(text[a + 1], d))
  }

  /** What `\s+(.+?)(?:\s+\(@(\w+)\))?$` matches from `w0`: the raw title,
      the assignee and the end of the match. */
  datatype TitlePart = TitlePart(rawTitle: string, assignee: Option<string>, end: nat)

  function TitleFrom(text: string, w0: nat): (r: Option<TitlePart>)
    requires w0 <= |text|
    ensures r.Some? ==> w0 + 1 < r.value.end <= |text| && LineEnd(text, r.value.end)
    ensures r.Some? ==> r.value.rawTitle != "" && forall k :: 0 <= k < |r.value.rawTitle| ==> !IsLineTerminator(r.value.rawTitle[k])
    ensures r.Some? && r.value.assignee.Some? ==> r.value.assignee.value != "" && AllIn(r.value.assignee.value, Word)
  {
    var q := RunEnd(text, w0, Space);
    if q == w0 then None
    else if q < |text| then
      var tail := LazyTitle(text, q, q + 1);
      Some(TitlePart(text[q..tail.titleEnd], tail.assignee, tail.end))
    else
      // only whitespace is left: `\s+` gives back up to the last character
      // `.` accepts, which becomes a one-character title
      match LastVisible(text, w0 + 1, q)
      case None => None
      case Some(k) => Some(TitlePart(text[k..k + 1], None, k + 1))
  }

  /** The whole pattern tried at `p`. */
  function TaskMatchAt(text: string, p: nat): (r: Option<TaskMatch>)
    requires p <= |text|
    ensures r.Some? ==> LineStart(text, p) && p < |text| && text[p] == '-'
    ensures r.Some? ==> p < r.value.end <= |text| && LineEnd(text, r.value.end)
    ensures r.Some? ==> IsMarker(r.value.marker) && ValidId(r.value.id) && r.value.rawTitle != ""
    ensures r.Some? ==> forall k :: 0 <= k < |r.value.rawTitle| ==> !IsLineTerminator(r.value.rawTitle[k])
    ensures r.Some? && r.value.assignee.Some? ==> r.value.assignee.value != "" && AllIn(r.value.assignee.value, Word)
  {
    var head := HeadAt(text, p);
    if head.None? then None
    else
      var dot := IdEnd(text, head.value.idStart);
      if dot.None? then None
      else
        var title := TitleFrom(text, dot.value + 1);
        if title.None? then None
        else Some(TaskMatch(head.value.marker, text[head.value.idStart..dot.value],
                            title.value.rawTitle, title.value.assignee, title.value.end))
  }

  /** What every parsed task satisfies: todo or done, an id of the pattern's
      shape, a trimmed title, and no description or labels. */
  predicate WellFormed(t: Task) {
    && (t.status == Todo || t.status == Done)
    && ValidId(t.id) && Trim(t.title) == t.title
    && t.description.None? && t.labels.None?
  }

  /** The task one match pushes: the title trimmed, the rest as captured. */
  function ToTask(m: TaskMatch): (t: Task)
    requires IsMarker(m.marker) && ValidId(m.id)
    ensures WellFormed(t)
  {
    MarkerClass(m.marker);
    TrimNoOp(Trim(m.rawTitle));
    NewTask(m.id, Trim(m.rawTitle), StatusOf(m.marker), m.assignee)
  }

  /** The `exec` loop from `p`: the tasks of the matches at or after `p`, in
      order; each is well formed. */
  function ScanTasks(text: string, p: nat): (tasks: seq<Task>)
    requires p <= |text|
    ensures forall i :: 0 <= i < |tasks| ==> WellFormed(tasks[i])
    decreases |text| - p
  {
    if p == |text| then []
    else
      match TaskMatchAt(text, p)
      case Some(m) => [ToTask(m)] + ScanTasks(text, m.end)
      case None => ScanTasks(text, p + 1)
  }

  /** `parseTasks` on the content of an existing `tasks.md`. */
  function ParseTasks(content: string): (tasks: seq<Task>)
    ensures forall i :: 0 <= i < |tasks| ==> tasks[i].status != InProgress && tasks[i].status != Blocked
  {
    ScanTasks(content, 0)
  }

  /** A line whose title is only whitespace still matches: `\s+` gives back
      one space for `(.+?)`, and trimming leaves an empty title. */
  lemma BlankTitleTask()
    ensures var ts := ParseTasks("- [ ] 1.  ");
      |ts| == 1 && ts[0].id == "1" && ts[0].title == "" && ts[0].status == Todo
  {
    var s := "- [ ] 1.  ";
    var m := BlankTitleMatch();
    hide TaskMatchAt;
    assert ScanTasks(s, 10) == [];
    assert ScanTasks(s, 0) == [ToTask(m)] + ScanTasks(s, 10);
    assert AllIn(" ", Space);
  }

  /** The one match in `- [ ] 1.  `: id "1", and a one-space raw title. */
  lemma BlankTitleMatch() returns (m: TaskMatch)
    ensures m == TaskMatch(' ', "1", " ", None, 10)
    ensures TaskMatchAt("- [ ] 1.  ", 0) == Some(m)
  {
    hide IdEnd, TitleFrom, LazyTitle, SuffixAt;
    var s := "- [ ] 1.  ";
    assert s[0] == '-' && s[1] == ' ' && s[2] == '[' && s[3] == ' ' && s[4] == ']' && s[5] == ' ';
    assert s[6] == '1' && s[7] == '.' && s[8] == ' ' && s[9] == ' ';
    HeadOfLine(s, 0, ' ');
    BlankTitleId(s);
    var title := BlankTitlePart(s);
    MatchOfParts(s, 0, Head(' ', 6), 7, title);
    assert s[6..7] == "1";
    m := TaskMatch(' ', "1", " ", None, 10);
  }

  lemma BlankTitleId(s: string)
    requires s == "- [ ] 1.  "
    ensures IdEnd(s, 6) == Some(7)
  {
    assert s[6] == '1' && s[7] == '.' && s[8] == ' ';
    RunEndAt(s, 6, 7, Digit);
  }

  lemma BlankTitlePart(s: string) returns (title: TitlePart)
    requires s == "- [ ] 1.  "
    ensures title == TitlePart(" ", None, 10) && TitleFrom(s, 8) == Some(title)
  {
    hide LazyTitle;
    assert s[8] == ' ' && s[9] == ' ';
    RunEndAt(s, 8, 10, Space);
    assert LastVisible(s, 9, 10) == Some(9);
    assert s[9..10] == " ";
    title := TitlePart(" ", None, 10);
  }

  /** A line holding `[-]` is not a task: its marker is outside the class. */
  lemma DashMarkerIgnored(text: string, p: nat)
    requires OccursAt(text, "- [-]", p)
    ensures TaskMatchAt(text, p).None?
  {
    hide IdEnd, TitleFrom, SuffixAt, LazyTitle;
    OccursAtIndex(text, "- [-]", p, 1);
    OccursAtIndex(text, "- [-]", p, 2);
    OccursAtIndex(text, "- [-]", p, 3);
    RunEndAt(text, p + 1, p + 2, Space);
  }

  /** A sub-task written `1.1 Title`, without the dot after the id, is not a
      task: after `1.1` the pattern needs a '.'. */
  lemma SubtaskWithoutDotIgnored(text: string, p: nat)
    requires OccursAt(text, "- [ ] 1.1 ", p)
    ensures TaskMatchAt(text, p).None?
  {
    hide IdEnd, TitleFrom, LazyTitle, SuffixAt;
    var s := "- [ ] 1.1 ";
    OccursChars(text, s, p);
    assert s[1] == ' ' && s[2] == '[' && s[3] == ' ' && s[4] == ']' && s[5] == ' ';
    assert s[6] == '1' && s[7] == '.' && s[8] == '1' && s[9] == ' ';
    if LineStart(text, p) {
      HeadOfLine(text, p, ' ');
      UndottedSubtaskId(text, p + 6);
    }
  }

  /** `1.1` followed by a space is no id: the pattern wants a '.' after it. */
  lemma UndottedSubtaskId(text: string, d: nat)
    requires d + 3 < |text| && text[d] == '1' && text[d + 1] == '.' && text[d + 2] == '1' && text[d + 3] == ' '
    ensures IdEnd(text, d).None?
  {
    RunEndAt(text, d, d + 1, Digit);
    RunEndAt(text, d + 2, d + 3, Digit);
  }

  /** The head `- [m] ` of a line, followed by a character that is not
      whitespace, leaves the marker and the position after it. */
  lemma HeadOfLine(text: string, p: nat, marker: char)
    requires LineStart(text, p) && IsMarker(marker)
    requires p + 6 < |text| && !IsSpace(text[p + 6])
    requires text[p] == '-' && text[p + 1] == ' ' && text[p + 2] == '[' && text[p + 3] == marker
    requires text[p + 4] == ']' && text[p + 5] == ' '
    ensures HeadAt(text, p) == Some(Head(marker, p + 6))
  {
    RunEndAt(text, p + 1, p + 2, Space);
    assert AfterStar(text, p + 5) == p + 5;
    RunEndAt(text, p + 5, p + 6, Space);
  }

  /** One task line as the pattern expects it. */
  datatype TaskLine = TaskLine(marker: char, id: string, title: string, assignee: Option<string>)

  function Render(l: TaskLine): string {
    "- [" + [l.marker] + "] " + l.id + ". " + l.title + AssigneeSuffix(l.assignee)
  }

  function AssigneeSuffix(assignee: Option<string>): string {
    if assignee.Some? then " (@" + assignee.value + ")" else ""
  }

  /** A line that reads back as written: a marker of the class, an id of the
      pattern's shape, a one-line title without surrounding whitespace and
      without '(', and an assignee made of word characters. */
  predicate Renderable(l: TaskLine) {
    && IsMarker(l.marker) && ValidId(l.id)
    && l.title != "" && !IsSpace(l.title[0]) && !IsSpace(l.title[|l.title| - 1])
    && (forall k :: 0 <= k < |l.title| ==> !IsLineTerminator(l.title[k]) && l.title[k] != '(')
    && (l.assignee.Some? ==> l.assignee.value != "" && AllIn(l.assignee.value, Word))
  }

  /** The task a rendered line stands for. */
  function Expected(l: TaskLine): (t: Task)
    ensures t.id == l.id && t.title == l.title && t.assignee == l.assignee
  {
    NewTask(l.id, l.title, StatusOf(l.marker), l.assignee)
  }

  /** A tasks file: one rendered line per task, each ended by a newline. */
  function Document(lines: seq<TaskLine>): (d: string)
    ensures d == "" <==> lines == []
  {
    if lines == [] then "" else Render(lines[0]) + "\n" + Document(lines[1..])
  }

  /** Where the parts of a rendered line sit. */
  lemma RenderLayout(l: TaskLine)
    ensures var s := Render(l);
      var head := "- [" + [l.marker] + "] ";
      && |head| == 6 && StartsWith(s, head)
      && OccursAt(s, l.id, 6) && OccursAt(s, ". ", 6 + |l.id|)
      && OccursAt(s, l.title, 8 + |l.id|)
      && OccursAt(s, AssigneeSuffix(l.assignee), 8 + |l.id| + |l.title|)
      && |s| == 8 + |l.id| + |l.title| + |AssigneeSuffix(l.assignee)|
  {
    var head := "- [" + [l.marker] + "] ";
    var sfx := AssigneeSuffix(l.assignee);
    SixParts(head, l.id, ". ", l.title, sfx, "");
    var s := head + l.id + ". " + l.title + sfx + "";
    assert s == Render(l);
    assert s[|s| - |sfx|..] == sfx;
  }

  /** The characters of a rendered line at fixed offsets and inside its parts. */
  lemma LineChars(text: string, p: nat, l: TaskLine)
    requires OccursAt(text, Render(l), p)
    ensures text[p] == '-' && text[p + 1] == ' ' && text[p + 2] == '[' && text[p + 3] == l.marker
    ensures text[p + 4] == ']' && text[p + 5] == ' '
    ensures OccursAt(text, l.id, p + 6)
    ensures text[p + 6 + |l.id|] == '.' && text[p + 7 + |l.id|] == ' '
    ensures OccursAt(text, l.title, p + 8 + |l.id|)
    ensures OccursAt(text, AssigneeSuffix(l.assignee), p + 8 + |l.id| + |l.title|)
  {
    LineHeadChars(text, p, l);
    LineBodyParts(text, p, l);
  }

  lemma LineHeadChars(text: string, p: nat, l: TaskLine)
    requires OccursAt(text, Render(l), p)
    ensures text[p] == '-' && text[p + 1] == ' ' && text[p + 2] == '[' && text[p + 3] == l.marker
    ensures text[p + 4] == ']' && text[p + 5] == ' '
  {
    var head := "- [" + [l.marker] + "] ";
    RenderLayout(l);
    hide Render;
    var s := Render(l);
    assert s[0..|head|] == s[..|head|];
    OccursNested(text, s, p, head, 0);
    OccursChars(text, head, p);
    assert head[0] == '-' && head[1] == ' ' && head[2] == '[' && head[3] == l.marker;
    assert head[4] == ']' && head[5] == ' ';
  }

  lemma LineBodyParts(text: string, p: nat, l: TaskLine)
    requires OccursAt(text, Render(l), p)
    ensures OccursAt(text, l.id, p + 6)
    ensures text[p + 6 + |l.id|] == '.' && text[p + 7 + |l.id|] == ' '
    ensures OccursAt(text, l.title, p + 8 + |l.id|)
    ensures OccursAt(text, AssigneeSuffix(l.assignee), p + 8 + |l.id| + |l.title|)
  {
    RenderLayout(l);
    hide Render;
    var s := Render(l);
    OccursNested(text, s, p, l.id, 6);
    OccursNested(text, s, p, ". ", 6 + |l.id|);
    OccursChars(text, ". ", p + 6 + |l.id|);
    OccursNested(text, s, p, l.title, 8 + |l.id|);
    OccursNested(text, s, p, AssigneeSuffix(l.assignee), 8 + |l.id| + |l.title|);
  }

  /** An id of the pattern's shape, closed by a dot that is followed by a
      non-digit, is read up to that dot. */
  lemma IdEndAt(text: string, d: nat, id: string)
    requires OccursAt(text, id, d) && ValidId(id)
    requires d + |id| + 1 < |text| && text[d + |id|] == '.' && !IsDigit(text[d + |id| + 1])
    ensures IdEnd(text, d) == Some(d + |id|)
  {
    var k := RunEnd(id, 0, Digit);
    forall i | 0 <= i < |id| ensures text[d + i] == id[i] {
      OccursAtIndex(text, id, d, i);
    }
    RunEndAt(text, d, d + k, Digit);
    if k < |id| {
      assert forall i :: k + 1 <= i < |id| ==> id[k + 1..][i - k - 1] == id[i];
      RunEndAt(text, d + k + 1, d + |id|, Digit);
    }
  }

  /** Inside a title with no '(' and no whitespace at its end, the assignee
      group cannot start. */
  lemma NoSuffixInTitle(text: string, q: nat, title: string, k: nat)
    requires OccursAt(text, title, q) && title != "" && !IsSpace(title[|title| - 1])
    requires forall i :: 0 <= i < |title| ==> title[i] != '('
    requires q <= k < q + |title|
    ensures SuffixAt(text, k).None?
  {
    var e := RunEnd(text, k, Space);
    OccursAtIndex(text, title, q, |title| - 1);
    assert !InClass(text[q + |title| - 1], Space);
    if e > k {
      assert e < q + |title|;
      OccursAtIndex(text, title, q, e - q);
    }
  }

  /** The lazy title runs through positions where nothing can follow it. */
  lemma {:induction false} LazyTitleSkips(text: string, q: nat, t: nat, stop: nat)
    requires q < t <= stop <= |text|
    requires forall k :: q <= k < stop ==> !IsLineTerminator(text[k])
    requires forall k :: t <= k < stop ==> SuffixAt(text, k).None?
    ensures LazyTitle(text, q, t) == LazyTitle(text, q, stop)
    decreases stop - t
  {
    hide LazyTitle, SuffixAt;
    if t < stop {
      LazyTitleStep(text, q, t);
      LazyTitleSkips(text, q, t + 1, stop);
    }
  }

  lemma LazyTitleStep(text: string, q: nat, t: nat)
    requires q < t < |text| && !IsLineTerminator(text[t])
    requires forall k :: q <= k <= t ==> !IsLineTerminator(text[k])
    requires SuffixAt(text, t).None?
    ensures LazyTitle(text, q, t) == LazyTitle(text, q, t + 1)
  {
    assert !LineEnd(text, t);
  }

  /** What may follow a rendered line: the end of the text, or a line
      terminator and then nothing the assignee group could start with. */
  predicate ClosedAt(text: string, e: nat) {
    e == |text|
    || (e < |text| && IsLineTerminator(text[e])
        && (e + 1 == |text| || (e + 1 < |text| && !IsSpace(text[e + 1]) && text[e + 1] != '(')))
  }

  lemma SuffixAtLineEnd(text: string, l: TaskLine, t: nat, e: nat)
    requires Renderable(l) && t <= e && e == t + |AssigneeSuffix(l.assignee)|
    requires OccursAt(text, AssigneeSuffix(l.assignee), t) && ClosedAt(text, e)
    ensures l.assignee.Some? ==> SuffixAt(text, t) == Some(Suffix(l.assignee.value, e))
    ensures l.assignee.None? ==> SuffixAt(text, t).None? && LineEnd(text, t)
  {
    if l.assignee.Some? {
      AssigneeSuffixRead(text, l.assignee.value, t, e);
    } else {
      hide SuffixAt;
      NoSuffixAtEnd(text, t);
    }
  }

  /** A written assignee group, closed as above, is read back. */
  lemma AssigneeSuffixRead(text: string, a: string, t: nat, e: nat)
    requires a != "" && AllIn(a, Word) && e == t + |AssigneeSuffix(Some(a))|
    requires OccursAt(text, AssigneeSuffix(Some(a)), t) && ClosedAt(text, e)
    ensures SuffixAt(text, t) == Some(Suffix(a, e))
  {
    var sfx := AssigneeSuffix(Some(a));
    assert sfx == " (@" + a + ")";
    OccursChars(text, sfx, t);
    assert sfx[0] == ' ' && sfx[1] == '(' && sfx[2] == '@' && sfx[|sfx| - 1] == ')';
    assert text[t] == ' ' && text[t + 1] == '(' && text[t + 2] == '@' && text[e - 1] == ')';
    RunEndAt(text, t, t + 1, Space);
    forall i | 0 <= i < |a| ensures text[t + 3 + i] == a[i] {
      assert sfx[3 + i] == a[i];
    }
    forall k | t + 3 <= k < e - 1 ensures InClass(text[k], Word) {
      assert text[k] == a[k - t - 3];
      assert InClass(a[k - t - 3], Word);
    }
    assert !InClass(text[e - 1], Word);
    RunEndAt(text, t + 3, e - 1, Word);
    assert text[t + 3..e - 1] == a;
  }

  /** With no assignee written, the line ends right after the title. */
  lemma NoSuffixAtEnd(text: string, t: nat)
    requires t <= |text| && ClosedAt(text, t)
    ensures SuffixAt(text, t).None? && LineEnd(text, t)
  {
    if t < |text| {
      RunEndAt(text, t, t + 1, Space);
    }
  }

  /** Inside a one-line title placed at `q` there is no line terminator. */
  lemma TitleVisible(text: string, q: nat, title: string)
    requires OccursAt(text, title, q)
    requires forall i :: 0 <= i < |title| ==> !IsLineTerminator(title[i])
    ensures forall k :: q <= k < q + |title| ==> !IsLineTerminator(text[k])
  {
    forall k | q <= k < q + |title| ensures !IsLineTerminator(text[k]) {
      OccursAtIndex(text, title, q, k - q);
    }
  }

  lemma NoSuffixesInTitle(text: string, q: nat, title: string)
    requires OccursAt(text, title, q) && title != "" && !IsSpace(title[|title| - 1])
    requires forall i :: 0 <= i < |title| ==> title[i] != '('
    ensures forall k :: q <= k < q + |title| ==> SuffixAt(text, k).None?
  {
    forall k | q <= k < q + |title| ensures SuffixAt(text, k).None? {
      NoSuffixInTitle(text, q, title, k);
    }
  }

  /** The lazy title stops where the line's assignee suffix, or the line's
      end, begins. */
  lemma LazyTitleStops(text: string, q: nat, l: TaskLine, stop: nat, e: nat)
    requires Renderable(l) && q < stop <= |text|
    requires forall k :: q <= k < stop ==> !IsLineTerminator(text[k])
    requires stop <= e && e == stop + |AssigneeSuffix(l.assignee)|
    requires OccursAt(text, AssigneeSuffix(l.assignee), stop) && ClosedAt(text, e)
    ensures LazyTitle(text, q, stop) == Tail(stop, l.assignee, e)
  {
    SuffixAtLineEnd(text, l, stop, e);
  }

  /** The title and assignee of a rendered line, after the space that
      follows the id's dot. */
  lemma TitleOfLine(text: string, w0: nat, l: TaskLine, e: nat)
    requires Renderable(l) && w0 < |text| && text[w0] == ' '
    requires OccursAt(text, l.title, w0 + 1)
    requires OccursAt(text, AssigneeSuffix(l.assignee), w0 + 1 + |l.title|)
    requires e == w0 + 1 + |l.title| + |AssigneeSuffix(l.assignee)| && ClosedAt(text, e)
    ensures TitleFrom(text, w0) == Some(TitlePart(l.title, l.assignee, e))
  {
    hide LazyTitle, SuffixAt, ClosedAt;
    var q := w0 + 1;
    var stop := q + |l.title|;
    OccursAtIndex(text, l.title, q, 0);
    RunEndAt(text, w0, q, Space);
    TitleVisible(text, q, l.title);
    NoSuffixesInTitle(text, q, l.title);
    LazyTitleSkips(text, q, q + 1, stop);
    LazyTitleStops(text, q, l, stop, e);
    assert text[q..stop] == l.title;
  }

  lemma MatchOfParts(text: string, p: nat, head: Head, dot: nat, title: TitlePart)
    requires p <= |text| && HeadAt(text, p) == Some(head)
    requires IdEnd(text, head.idStart) == Some(dot) && TitleFrom(text, dot + 1) == Some(title)
    ensures TaskMatchAt(text, p) == Some(TaskMatch(head.marker, text[head.idStart..dot], title.rawTitle, title.assignee, title.end))
  {
    hide HeadAt, IdEnd, TitleFrom;
    var t := TitleFrom(text, dot + 1);
    assert t.value == title;
    var m := TaskMatch(head.marker, text[head.idStart..dot], t.value.rawTitle, t.value.assignee, t.value.end);
    assert TaskMatchAt(text, p) == Some(m);
  }

  lemma RenderableParts(l: TaskLine)
    requires Renderable(l)
    ensures IsMarker(l.marker) && ValidId(l.id) && l.id != "" && IsDigit(l.id[0])
  {
    assert InClass(l.id[0], Digit);
  }

  /** The three parts of the pattern each match their part of a rendered line. */
  lemma LineParts(text: string, p: nat, l: TaskLine)
    requires Renderable(l) && LineStart(text, p)
    requires OccursAt(text, Render(l), p) && ClosedAt(text, p + |Render(l)|)
    ensures p + 7 + |l.id| <= |text|
    ensures HeadAt(text, p) == Some(Head(l.marker, p + 6))
    ensures IdEnd(text, p + 6) == Some(p + 6 + |l.id|)
    ensures TitleFrom(text, p + 7 + |l.id|) == Some(TitlePart(l.title, l.assignee, p + |Render(l)|))
    ensures text[p + 6..p + 6 + |l.id|] == l.id
  {
    hide HeadAt, IdEnd, TitleFrom, TaskMatchAt, LazyTitle, SuffixAt, ClosedAt, LineStart, Render, Renderable;
    LineHead(text, p, l);
    LineId(text, p, l);
    LineTitle(text, p, l);
  }

  lemma LineHead(text: string, p: nat, l: TaskLine)
    requires Renderable(l) && LineStart(text, p) && OccursAt(text, Render(l), p)
    ensures HeadAt(text, p) == Some(Head(l.marker, p + 6))
  {
    hide HeadAt, IdEnd, TitleFrom, TaskMatchAt, LazyTitle, SuffixAt, LineStart;
    LineChars(text, p, l);
    RenderableParts(l);
    hide Render, Renderable, ValidId;
    OccursAtIndex(text, l.id, p + 6, 0);
    HeadOfLine(text, p, l.marker);
  }

  lemma LineId(text: string, p: nat, l: TaskLine)
    requires Renderable(l) && OccursAt(text, Render(l), p)
    ensures p + 7 + |l.id| <= |text|
    ensures IdEnd(text, p + 6) == Some(p + 6 + |l.id|)
    ensures text[p + 6..p + 6 + |l.id|] == l.id
  {
    hide HeadAt, IdEnd, TitleFrom, TaskMatchAt, LazyTitle, SuffixAt;
    LineChars(text, p, l);
    RenderLayout(l);
    RenderableParts(l);
    hide Render, Renderable;
    IdEndAt(text, p + 6, l.id);
  }

  lemma LineTitle(text: string, p: nat, l: TaskLine)
    requires Renderable(l) && OccursAt(text, Render(l), p) && ClosedAt(text, p + |Render(l)|)
    ensures p + 7 + |l.id| <= |text|
    ensures TitleFrom(text, p + 7 + |l.id|) == Some(TitlePart(l.title, l.assignee, p + |Render(l)|))
  {
    hide HeadAt, IdEnd, TitleFrom, TaskMatchAt, LazyTitle, SuffixAt, ClosedAt, Render, Renderable;
    LineBodyParts(text, p, l);
    RenderLayout(l);
    TitleOfLine(text, p + 7 + |l.id|, l, p + |Render(l)|);
  }

  /** A rendered line, at the start of a line and closed as above, is one
      match that captures exactly its parts. */
  lemma LineMatches(text: string, p: nat, l: TaskLine)
    requires Renderable(l) && LineStart(text, p)
    requires OccursAt(text, Render(l), p) && ClosedAt(text, p + |Render(l)|)
    ensures TaskMatchAt(text, p) == Some(TaskMatch(l.marker, l.id, l.title, l.assignee, p + |Render(l)|))
  {
    hide TaskMatchAt, HeadAt, IdEnd, TitleFrom;
    LineParts(text, p, l);
    MatchOfParts(text, p, Head(l.marker, p + 6), p + 6 + |l.id|, TitlePart(l.title, l.assignee, p + |Render(l)|));
  }

  lemma DocumentStartsWithDash(lines: seq<TaskLine>)
    requires lines != []
    ensures Document(lines) != "" && Document(lines)[0] == '-'
  {
  }

  /** A match starts with '-'. */
  lemma NoMatchWithoutDash(text: string, p: nat)
    requires p < |text| && text[p] != '-'
    ensures TaskMatchAt(text, p).None?
  {
  }

  /** The tasks a rendered document stands for, in order. */
  function ExpectedAll(lines: seq<TaskLine>): (tasks: seq<Task>)
    ensures |tasks| == |lines| && forall i :: 0 <= i < |lines| ==> tasks[i] == Expected(lines[i])
  {
    if lines == [] then [] else [Expected(lines[0])] + ExpectedAll(lines[1..])
  }

  lemma RenderedTitleTrimmed(l: TaskLine)
    requires Renderable(l)
    ensures Trim(l.title) == l.title
  {
    TrimNoOp(l.title);
  }

  /** One turn of the `exec` loop: a match contributes its task and the scan
      resumes where the match ended. */
  lemma ScanStep(text: string, p: nat, m: TaskMatch)
    requires p < |text| && TaskMatchAt(text, p) == Some(m)
    ensures ScanTasks(text, p) == [ToTask(m)] + ScanTasks(text, m.end)
  {
  }

  /** One turn of the `exec` loop without a match at `p`. */
  lemma ScanSkip(text: string, p: nat)
    requires p < |text| && TaskMatchAt(text, p).None?
    ensures ScanTasks(text, p) == ScanTasks(text, p + 1)
  {
  }

  lemma DocumentCons(lines: seq<TaskLine>)
    requires lines != []
    ensures Document(lines) == Render(lines[0]) + "\n" + Document(lines[1..])
  {
  }

  lemma ExpectedAllCons(lines: seq<TaskLine>)
    requires lines != []
    ensures ExpectedAll(lines) == [Expected(lines[0])] + ExpectedAll(lines[1..])
  {
  }

  lemma EmptyDocument(text: string, p: nat)
    requires p <= |text| && text[p..] == Document([])
    ensures ScanTasks(text, p) == ExpectedAll([])
  {
    assert p == |text|;
  }

  /** Parsing a rendered document from the start of a line gives back its
      tasks in order. */
  lemma {:induction false} ScanDocument(text: string, p: nat, lines: seq<TaskLine>)
    requires p <= |text| && LineStart(text, p) && text[p..] == Document(lines)
    requires forall i :: 0 <= i < |lines| ==> Renderable(lines[i])
    ensures ScanTasks(text, p) == ExpectedAll(lines)
    decreases |lines|
  {
    hide TaskMatchAt, Render, Renderable, ScanTasks, ExpectedAll, Document;
    if lines == [] {
      EmptyDocument(text, p);
    } else {
      var l := lines[0];
      var s := Render(l);
      var rest := Document(lines[1..]);
      var e := p + |s|;
      DocumentCons(lines);
      ExpectedAllCons(lines);
      assert Renderable(l);
      LineThenRest(text, p, s, '\n', rest);
      if rest != [] {
        DocumentStartsWithDash(lines[1..]);
      }
      assert ClosedAt(text, e);
      LineMatches(text, p, l);
      RenderedTitleTrimmed(l);
      var m := TaskMatch(l.marker, l.id, l.title, l.assignee, e);
      assert ToTask(m) == Expected(l);
      ScanStep(text, p, m);
      NoMatchWithoutDash(text, e);
      ScanSkip(text, e);
      ScanDocument(text, e + 1, lines[1..]);
    }
  }

  /** The round trip: `parseTasks` of a rendered tasks file yields one task
      per line, with the line's id, title, assignee and the marker's status. */
  lemma ParseDocument(lines: seq<TaskLine>)
    requires forall i :: 0 <= i < |lines| ==> Renderable(lines[i])
    ensures ParseTasks(Document(lines)) == ExpectedAll(lines)
  {
    var text := Document(lines);
    assert text[0..] == text;
    ScanDocument(text, 0, lines);
  }
}
