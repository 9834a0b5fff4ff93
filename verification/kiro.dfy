/** The merge loop of `KiroAdapter.parse` and `formatEpicTitle` in
    `src/adapters/source/kiro.ts`. The file system is replaced by its
    contents: the specs directory is either missing or lists the spec
    directories found in it, each with the files it holds. */
module Kiro {
  import opened Wrappers
  import opened Text
  import opened Models
  import opened Errors
  import KiroTasks
  import KiroRequirements
  import SpecValidation

  // ---------------------------------------------------------------------
  // formatEpicTitle

  /** `word.charAt(0).toUpperCase() + word.slice(1)`. */
  function Capitalize(w: string): (r: string)
    ensures |r| == |w|
    ensures w != "" ==> r[0] == ToUpper(w[0]) && r[1..] == w[1..]
  {
    if w == "" then "" else [ToUpper(w[0])] + w[1..]
  }

  function CapitalizeAll(ws: seq<string>): (r: seq<string>)
    ensures |r| == |ws| && forall i :: 0 <= i < |ws| ==> r[i] == Capitalize(ws[i])
  {
    seq(|ws|, i requires 0 <= i < |ws| => Capitalize(ws[i]))
  }

  /** The title character for position `k` of a kebab-case name: a '-'
      becomes a space; the first character and every character after a '-'
      is upper-cased; every other character is kept. */
  function TitleChar(s: string, k: nat): char
    requires k < |s|
  {
    if s[k] == '-' then ' '
    else if k == 0 || s[k - 1] == '-' then ToUpper(s[k])
    else s[k]
  }

  /** `formatEpicTitle`: split on '-', capitalize each piece, join with ' '.
      The title is the name rewritten character by character. */
  function FormatEpicTitle(specName: string): (title: string)
    ensures |title| == |specName|
    ensures forall k :: 0 <= k < |specName| ==> title[k] == TitleChar(specName, k)
  {
    EpicTitleChars(specName);
    Join(CapitalizeAll(Split(specName, '-')), " ")
  }

  lemma {:induction false} EpicTitleChars(s: string)
    ensures var t := Join(CapitalizeAll(Split(s, '-')), " ");
      |t| == |s| && forall k :: 0 <= k < |s| ==> t[k] == TitleChar(s, k)
    decreases |s|
  {
    match FirstIndex(s, '-')
    case None =>
      assert Split(s, '-') == [s];
      assert CapitalizeAll([s]) == [Capitalize(s)];
    case Some(i) =>
      EpicTitleChars(s[i + 1..]);
      TitleSplitStep(s, i);
      TitleCharsCons(s, i, Join(CapitalizeAll(Split(s[i + 1..], '-')), " "));
  }

  /** Splitting at the first '-' peels off the first capitalized word. */
  lemma TitleSplitStep(s: string, i: nat)
    requires FirstIndex(s, '-') == Some(i)
    ensures Join(CapitalizeAll(Split(s, '-')), " ")
      == Capitalize(s[..i]) + " " + Join(CapitalizeAll(Split(s[i + 1..], '-')), " ")
  {
    var rest := Split(s[i + 1..], '-');
    assert Split(s, '-') == [s[..i]] + rest;
    var cs := CapitalizeAll([s[..i]] + rest);
    assert cs[1..] == CapitalizeAll(rest);
  }

  /** The title characters of the name are those of its first word, a space,
      then those of the text after the first '-'. */
  lemma TitleCharsCons(s: string, i: nat, u: string)
    requires i < |s| && s[i] == '-'
    requires forall k :: 0 <= k < i ==> s[k] != '-'
    requires |u| == |s| - i - 1
    requires forall k :: 0 <= k < |u| ==> u[k] == TitleChar(s[i + 1..], k)
    ensures var t := Capitalize(s[..i]) + " " + u;
      |t| == |s| && forall k :: 0 <= k < |s| ==> t[k] == TitleChar(s, k)
  {
    var w, tail := s[..i], s[i + 1..];
    var t := Capitalize(w) + " " + u;
    forall k | 0 <= k < |s| ensures t[k] == TitleChar(s, k) {
      if k < i {
        assert t[k] == Capitalize(w)[k];
      } else if k > i {
        assert t[k] == u[k - i - 1];
        assert tail[k - i - 1] == s[k];
        assert k - i - 1 > 0 ==> tail[k - i - 2] == s[k - 1];
      }
    }
  }

  /** A name without '-' is one capitalized word. */
  lemma EpicTitleOneWord(w: string)
    requires forall k :: 0 <= k < |w| ==> w[k] != '-'
    ensures FormatEpicTitle(w) == Capitalize(w)
  {
    assert Split(w, '-') == [w];
    assert CapitalizeAll([w]) == [Capitalize(w)];
  }

  /** Two kebab-case words become two capitalized words. */
  lemma EpicTitleTwoWords(w1: string, w2: string)
    requires forall k :: 0 <= k < |w1| ==> w1[k] != '-'
    requires forall k :: 0 <= k < |w2| ==> w2[k] != '-'
    ensures FormatEpicTitle(w1 + "-" + w2) == Capitalize(w1) + " " + Capitalize(w2)
  {
    var s := w1 + "-" + w2;
    assert s[..|w1|] == w1 && s[|w1| + 1..] == w2;
    assert s[|w1|] == '-';
    assert forall k :: 0 <= k < |w1| ==> s[k] == w1[k];
    assert FirstIndex(s, '-') == Some(|w1|);
    assert Split(w2, '-') == [w2];
    assert Split(s, '-') == [w1, w2];
    assert CapitalizeAll([w1, w2]) == [Capitalize(w1), Capitalize(w2)];
  }

  /** The examples the adapter's tests pin down. */
  lemma EpicTitleExampleTwoWords()
    ensures FormatEpicTitle("user-authentication") == "User Authentication"
  {
    var user, auth := "user", "authentication";
    EpicTitleTwoWords(user, auth);
    CapitalizeExamples();
    LiteralJoins();
  }

  lemma CapitalizeExamples()
    ensures Capitalize("user") == "User" && Capitalize("authentication") == "Authentication"
  {
  }

  lemma LiteralJoins()
    ensures "user" + "-" + "authentication" == "user-authentication"
    ensures "User" + " " + "Authentication" == "User Authentication"
  {
  }

  lemma EpicTitleExampleOneWord()
    ensures FormatEpicTitle("test") == "Test"
    ensures FormatEpicTitle("") == ""
  {
    EpicTitleOneWord("test");
    hide FormatEpicTitle;
    assert Capitalize("test") == "Test";
  }

  // ---------------------------------------------------------------------
  // path.basename

  /** `path.basename` on a POSIX path: trailing separators are ignored and
      the part after the last '/' is kept. */
  function Basename(path: string): (name: string)
    ensures forall k :: 0 <= k < |name| ==> name[k] != '/'
    ensures name == LastSegment(TrimTrailingSlashes(path))
    decreases |path|
  {
    if path == "" then ""
    else if path[|path| - 1] == '/' then Basename(path[..|path| - 1])
    else LastSegment(path)
  }

  /** `path` without the run of '/' it ends with. */
  function TrimTrailingSlashes(path: string): (p: string)
    ensures |p| <= |path| && p == path[..|p|]
    ensures p == "" || p[|p| - 1] != '/'
    ensures forall k :: |p| <= k < |path| ==> path[k] == '/'
    decreases |path|
  {
    if path != "" && path[|path| - 1] == '/' then TrimTrailingSlashes(path[..|path| - 1]) else path
  }

  /** The base name of `dir/entry` is the entry, when the entry is a plain
      non-empty name: the spec's name is its directory's listing entry. */
  lemma BasenameOfJoin(dir: string, entry: string)
    requires entry != "" && forall k :: 0 <= k < |entry| ==> entry[k] != '/'
    ensures Basename(dir + "/" + entry) == entry
  {
    LastSegmentAfterSlash(dir, entry);
  }

  lemma {:induction false} LastSegmentAfterSlash(dir: string, entry: string)
    requires forall k :: 0 <= k < |entry| ==> entry[k] != '/'
    ensures LastSegment(dir + "/" + entry) == entry
    decreases |entry|
  {
    var p := dir + "/" + entry;
    if entry != "" {
      var init := entry[..|entry| - 1];
      assert p[..|p| - 1] == dir + "/" + init;
      LastSegmentAfterSlash(dir, init);
      assert entry == init + [entry[|entry| - 1]];
    }
  }

  /** The part of `path` after its last '/'. */
  function LastSegment(path: string): (seg: string)
    ensures forall k :: 0 <= k < |seg| ==> seg[k] != '/'
    ensures EndsWith(path, seg)
    ensures seg == path || path[|path| - |seg| - 1] == '/'
    decreases |path|
  {
    if path == "" || path[|path| - 1] == '/' then ""
    else
      var p := path[..|path| - 1];
      var init := LastSegment(p);
      assert p[|p| - |init|..] == init;
      assert path == p + [path[|path| - 1]];
      assert path[|path| - |init| - 1..] == p[|p| - |init|..] + [path[|path| - 1]];
      assert init != p ==> path[|path| - |init| - 2] == p[|p| - |init| - 1];
      init + [path[|path| - 1]]
  }

  // ---------------------------------------------------------------------
  // The merge loop

  /** A markdown file: its full text, and the body `gray-matter` leaves once
      the front matter is stripped. */
  datatype MarkdownFile = MarkdownFile(raw: string, body: string)

  /** One spec directory: its name (the directory's base name), its path,
      and the contents of `requirements.md`, `design.md` and `tasks.md` when
      they exist. */
  datatype SpecDir = SpecDir(
    name: string,
    path: string,
    requirements: Option<MarkdownFile>,
    design: Option<MarkdownFile>,
    tasks: Option<string>)

  /** What the loop accumulates. */
  datatype Merged = Merged(
    requirements: seq<Requirement>,
    tasks: seq<Task>,
    design: Option<Design>,
    epicDescription: string)

  const Separator: string := "\n\n---\n\n"

  /** `parseRequirements`: no file, no requirements. */
  function DirRequirements(dir: SpecDir): seq<Requirement> {
    match dir.requirements
    case None => []
    case Some(f) => KiroRequirements.ParseRequirements(f.body)
  }

  /** `parseDesign`: the stripped body of `design.md`, when it exists. */
  function DirDesign(dir: SpecDir): Option<Design> {
    match dir.design
    case None => None
    case Some(f) => Some(Design(f.body, None))
  }

  /** `parseTasks`: no file, no tasks. */
  function DirTasks(dir: SpecDir): seq<Task> {
    match dir.tasks
    case None => []
    case Some(c) => KiroTasks.ParseTasks(c)
  }

  /** `{ ...r, id: `${specName}:${r.id}` }`. */
  function PrefixRequirement(specName: string, r: Requirement): (p: Requirement)
    ensures p.id == specName + ":" + r.id
    ensures p.(id := r.id) == r
  {
    r.(id := specName + ":" + r.id)
  }

  /** The task with its id prefixed and its spec name and path filled in. */
  function PrefixTask(dir: SpecDir, t: Task): (p: Task)
    ensures p.id == dir.name + ":" + t.id && p.specName == Some(dir.name) && p.specPath == Some(dir.path)
    ensures p.(id := t.id, specName := t.specName, specPath := t.specPath) == t
  {
    t.(id := dir.name + ":" + t.id, specName := Some(dir.name), specPath := Some(dir.path))
  }

  function PrefixedRequirements(dir: SpecDir): (rs: seq<Requirement>)
    ensures |rs| == |DirRequirements(dir)|
    ensures forall i :: 0 <= i < |rs| ==> rs[i] == PrefixRequirement(dir.name, DirRequirements(dir)[i])
  {
    var parsed := DirRequirements(dir);
    seq(|parsed|, i requires 0 <= i < |parsed| => PrefixRequirement(dir.name, parsed[i]))
  }

  function PrefixedTasks(dir: SpecDir): (ts: seq<Task>)
    ensures |ts| == |DirTasks(dir)|
    ensures forall i :: 0 <= i < |ts| ==> ts[i] == PrefixTask(dir, DirTasks(dir)[i])
  {
    var parsed := DirTasks(dir);
    seq(|parsed|, i requires 0 <= i < |parsed| => PrefixTask(dir, parsed[i]))
  }

  /** Adding one `requirements.md` to the epic description: the separator
      goes in only when the description so far is truthy. */
  function AppendDescription(acc: string, content: string): (r: string)
    ensures acc == "" ==> r == content
    ensures acc != "" ==> r == acc + Separator + content
  {
    (if acc != "" then acc + Separator else acc) + content
  }

  /** One turn of the `for` loop over the spec directories. */
  function MergeStep(acc: Merged, dir: SpecDir): Merged {
    Merged(
      acc.requirements + PrefixedRequirements(dir),
      acc.tasks + PrefixedTasks(dir),
      if acc.design.None? then DirDesign(dir) else acc.design,
      match dir.requirements
      case None => acc.epicDescription
      case Some(f) => AppendDescription(acc.epicDescription, f.raw))
  }

  function MergeFrom(acc: Merged, dirs: seq<SpecDir>): Merged
    decreases |dirs|
  {
    if dirs == [] then acc else MergeFrom(MergeStep(acc, dirs[0]), dirs[1..])
  }

  const Empty := Merged([], [], None, "")

  function MergeDirs(dirs: seq<SpecDir>): Merged {
    MergeFrom(Empty, dirs)
  }

  // Reference definitions the loop is compared with.

  /** Every spec's requirements, prefixed, in directory order. */
  function AllRequirements(dirs: seq<SpecDir>): seq<Requirement>
    decreases |dirs|
  {
    if dirs == [] then [] else PrefixedRequirements(dirs[0]) + AllRequirements(dirs[1..])
  }

  function AllTasks(dirs: seq<SpecDir>): seq<Task>
    decreases |dirs|
  {
    if dirs == [] then [] else PrefixedTasks(dirs[0]) + AllTasks(dirs[1..])
  }

  /** The design of the first directory that has one. */
  function FirstDesign(dirs: seq<SpecDir>): (d: Option<Design>)
    ensures d.Some? <==> exists i :: 0 <= i < |dirs| && dirs[i].design.Some?
    decreases |dirs|
  {
    if dirs == [] then None
    else if dirs[0].design.Some? then DirDesign(dirs[0])
    else
      var d := FirstDesign(dirs[1..]);
      assert forall i :: 1 <= i < |dirs| ==> dirs[1..][i - 1] == dirs[i];
      d
  }

  /** The full texts of the `requirements.md` files that exist, in order. */
  function Contents(dirs: seq<SpecDir>): seq<string>
    decreases |dirs|
  {
    if dirs == [] then []
    else match dirs[0].requirements
      case None => Contents(dirs[1..])
      case Some(f) => [f.raw] + Contents(dirs[1..])
  }

  /** The contents before the first non-empty one leave no trace: while the
      description is still falsy no separator is added. */
  function DropLeadingEmpty(cs: seq<string>): (r: seq<string>)
    ensures r == [] || r[0] != ""
    decreases |cs|
  {
    if cs == [] then [] else if cs[0] == "" then DropLeadingEmpty(cs[1..]) else cs
  }

  /** Each content preceded by the separator. */
  function SeparatedAll(cs: seq<string>): string
    decreases |cs|
  {
    if cs == [] then "" else Separator + cs[0] + SeparatedAll(cs[1..])
  }

  lemma {:induction false} JoinCons(x: string, ys: seq<string>)
    ensures Join([x] + ys, Separator) == x + SeparatedAll(ys)
    decreases |ys|
  {
    if ys != [] {
      JoinCons(ys[0], ys[1..]);
      assert ([x] + ys)[1..] == [ys[0]] + ys[1..];
    }
  }

  /** The loop keeps requirements and tasks in directory order and then in
      file order, and takes the first design present. */
  lemma MergeLists(acc: Merged, dirs: seq<SpecDir>)
    ensures MergeFrom(acc, dirs).requirements == acc.requirements + AllRequirements(dirs)
    ensures MergeFrom(acc, dirs).tasks == acc.tasks + AllTasks(dirs)
    ensures MergeFrom(acc, dirs).design == if acc.design.Some? then acc.design else FirstDesign(dirs)
  {
    MergeRequirements(acc, dirs);
    MergeTasks(acc, dirs);
    MergeDesign(acc, dirs);
  }

  lemma {:induction false} MergeRequirements(acc: Merged, dirs: seq<SpecDir>)
    ensures MergeFrom(acc, dirs).requirements == acc.requirements + AllRequirements(dirs)
    decreases |dirs|
  {
    hide DirRequirements, DirTasks, DirDesign, PrefixedRequirements, PrefixedTasks;
    if dirs != [] {
      var next := MergeStep(acc, dirs[0]);
      MergeRequirements(next, dirs[1..]);
      assert next.requirements + AllRequirements(dirs[1..]) == acc.requirements + AllRequirements(dirs);
    }
  }

  lemma {:induction false} MergeTasks(acc: Merged, dirs: seq<SpecDir>)
    ensures MergeFrom(acc, dirs).tasks == acc.tasks + AllTasks(dirs)
    decreases |dirs|
  {
    hide DirRequirements, DirTasks, DirDesign, PrefixedRequirements, PrefixedTasks;
    if dirs != [] {
      var next := MergeStep(acc, dirs[0]);
      MergeTasks(next, dirs[1..]);
      assert next.tasks + AllTasks(dirs[1..]) == acc.tasks + AllTasks(dirs);
    }
  }

  lemma {:induction false} MergeDesign(acc: Merged, dirs: seq<SpecDir>)
    ensures MergeFrom(acc, dirs).design == if acc.design.Some? then acc.design else FirstDesign(dirs)
    decreases |dirs|
  {
    hide DirRequirements, DirTasks, PrefixedRequirements, PrefixedTasks;
    if dirs != [] {
      var next := MergeStep(acc, dirs[0]);
      MergeDesign(next, dirs[1..]);
    }
  }

  /** With a truthy description so far, every later content is appended
      after a separator. */
  lemma {:induction false} MergeDescriptionFrom(acc: Merged, dirs: seq<SpecDir>)
    requires acc.epicDescription != ""
    ensures MergeFrom(acc, dirs).epicDescription == acc.epicDescription + SeparatedAll(Contents(dirs))
    decreases |dirs|
  {
    hide DirRequirements, DirTasks, DirDesign, PrefixedRequirements, PrefixedTasks;
    if dirs != [] {
      var next := MergeStep(acc, dirs[0]);
      MergeDescriptionFrom(next, dirs[1..]);
    }
  }

  /** From an empty description, the result is the contents joined by the
      separator once the leading empty ones are dropped. */
  lemma {:induction false} MergeDescriptionEmpty(acc: Merged, dirs: seq<SpecDir>)
    requires acc.epicDescription == ""
    ensures MergeFrom(acc, dirs).epicDescription == Join(DropLeadingEmpty(Contents(dirs)), Separator)
    decreases |dirs|
  {
    hide DirRequirements, DirTasks, DirDesign, PrefixedRequirements, PrefixedTasks;
    if dirs != [] {
      var next := MergeStep(acc, dirs[0]);
      if next.epicDescription == "" {
        MergeDescriptionEmpty(next, dirs[1..]);
      } else {
        var c := dirs[0].requirements.value.raw;
        MergeDescriptionFrom(next, dirs[1..]);
        JoinCons(c, Contents(dirs[1..]));
      }
    }
  }

  /** The merged result: lists concatenated in directory order with every id
      prefixed by its directory's name, the first design, and the present
      requirement files joined by the separator. When every present
      `requirements.md` is non-empty, that is a plain join. */
  lemma MergeDirsSpec(dirs: seq<SpecDir>)
    ensures var m := MergeDirs(dirs);
      && m.requirements == AllRequirements(dirs)
      && m.tasks == AllTasks(dirs)
      && m.design == FirstDesign(dirs)
      && m.epicDescription == Join(DropLeadingEmpty(Contents(dirs)), Separator)
      && ((forall i :: 0 <= i < |Contents(dirs)| ==> Contents(dirs)[i] != "") ==>
            m.epicDescription == Join(Contents(dirs), Separator))
  {
    hide DirRequirements, DirTasks, DirDesign, PrefixedRequirements, PrefixedTasks;
    MergeLists(Empty, dirs);
    MergeDescriptionEmpty(Empty, dirs);
    var cs := Contents(dirs);
    if cs != [] && cs[0] != "" {
      assert DropLeadingEmpty(cs) == cs;
    }
  }

  /** Every merged requirement carries its directory's name before its id. */
  lemma {:induction false} AllRequirementsPrefixed(dirs: seq<SpecDir>, i: nat)
    requires i < |AllRequirements(dirs)|
    ensures exists d, r :: d in dirs && r in DirRequirements(d) && AllRequirements(dirs)[i] == PrefixRequirement(d.name, r)
    decreases |dirs|
  {
    hide DirRequirements, DirTasks, DirDesign, PrefixedRequirements, PrefixedTasks;
    var head := PrefixedRequirements(dirs[0]);
    if i < |head| {
      assert dirs[0] in dirs && DirRequirements(dirs[0])[i] in DirRequirements(dirs[0]);
    } else {
      AllRequirementsPrefixed(dirs[1..], i - |head|);
      forall d | d in dirs[1..] ensures d in dirs {
      }
    }
  }

  // ---------------------------------------------------------------------
  // parse

  const AdapterName := "kiro"

  /** The specs directory as found on disk: missing, or holding the listed
      spec directories. */
  datatype Listing = Missing | Listed(dirs: seq<SpecDir>)

  /** The `catch` clause: every error is rethrown as an adapter error. */
  function Wrap(message: string): (e: Error)
    ensures e.Adapter? && e.adapterName == AdapterName && e.Code() == Some("ADAPTER_ERROR")
  {
    Adapter(AdapterName, "Failed to parse Kiro spec: " + message)
  }

  /** The `SpecData` built after the loop; `now` stands for both calls to
      `new Date().toISOString()`. */
  function Assemble(specsDir: string, m: Merged, now: string): (data: SpecData)
    ensures data.meta == SpecMeta(Basename(specsDir), "1.0.0", now, now)
    ensures data.epicTitle == Some(FormatEpicTitle(Basename(specsDir)))
  {
    var name := Basename(specsDir);
    SpecData(SpecMeta(name, "1.0.0", now, now), m.requirements, m.design, m.tasks,
             Some(FormatEpicTitle(name)), Some(m.epicDescription), None)
  }

  /** `KiroAdapter.parse` from the resolved specs directory on. */
  function Parse(specsDir: string, listing: Listing, now: string): (r: Result<SpecData, Error>)
    ensures r.Failure? ==> r.error.Adapter? && r.error.adapterName == AdapterName
    ensures listing.Missing? ==> r == Failure(Wrap("Specifications directory not found: " + specsDir))
    ensures listing == Listed([]) ==> r == Failure(Wrap("No specification files found in " + specsDir))
    ensures r.Success? ==> SpecValidation.Valid(r.value)
    ensures r.Success? ==> listing.Listed? && r.value == Assemble(specsDir, MergeDirs(listing.dirs), now)
  {
    match listing
    case Missing => Failure(Wrap("Specifications directory not found: " + specsDir))
    case Listed(dirs) =>
      if dirs == [] then Failure(Wrap("No specification files found in " + specsDir))
      else
        var data := Assemble(specsDir, MergeDirs(dirs), now);
        match SpecValidation.ValidateSpecData(data)
        case Fail(msg) => Failure(Wrap(msg))
        case Pass => Success(data)
  }

  /** Parsing succeeds exactly when the spec directories are listed, there
      is at least one, and the merged data passes validation. */
  lemma ParseSucceeds(specsDir: string, listing: Listing, now: string)
    ensures Parse(specsDir, listing, now).Success? <==>
      listing.Listed? && listing.dirs != [] && SpecValidation.Valid(Assemble(specsDir, MergeDirs(listing.dirs), now))
  {
  }

  /** A requirements file where a heading is followed directly by the next
      heading yields a requirement with an empty description, which
      validation rejects: the whole parse fails. */
  lemma AdjacentHeadingsFailParse(specsDir: string, dirs: seq<SpecDir>, now: string,
                                  j: nat, a: KiroRequirements.Section, b: KiroRequirements.Section)
    requires j < |dirs| && dirs[j].requirements.Some?
    requires dirs[j].requirements.value.body == KiroRequirements.Document([a, b])
    requires KiroRequirements.Renderable(a) && KiroRequirements.Renderable(b) && a.description == ""
    ensures Parse(specsDir, Listed(dirs), now).Failure?
  {
    KiroRequirements.AdjacentHeadings(a, b);
    var reqs := AllRequirements(dirs);
    var k := AllRequirementsAt(dirs, j);
    assert reqs[k].description == "";
    MergeDirsSpec(dirs);
    SpecValidation.EmptyDescriptionRejected(Assemble(specsDir, MergeDirs(dirs), now), k);
  }

  /** A `tasks.md` holding a task line whose title is only whitespace yields
      a task with an empty title, which validation rejects: the whole parse
      fails. */
  lemma BlankTaskTitleFailsParse(specsDir: string, dirs: seq<SpecDir>, now: string, j: nat)
    requires j < |dirs| && dirs[j].tasks == Some("- [ ] 1.  ")
    ensures Parse(specsDir, Listed(dirs), now).Failure?
  {
    KiroTasks.BlankTitleTask();
    var k := AllTasksAt(dirs, j);
    var data := Assemble(specsDir, MergeDirs(dirs), now);
    MergeDirsSpec(dirs);
    assert data.tasks[k].title == "";
    assert !SpecValidation.TaskOk(data.tasks[k]);
  }

  /** Where the first task of directory `j` sits in the merged list. */
  lemma {:induction false} AllTasksAt(dirs: seq<SpecDir>, j: nat) returns (k: nat)
    requires j < |dirs| && |DirTasks(dirs[j])| > 0
    ensures k < |AllTasks(dirs)| && AllTasks(dirs)[k] == PrefixTask(dirs[j], DirTasks(dirs[j])[0])
    decreases |dirs|
  {
    hide DirRequirements, DirTasks, DirDesign, PrefixedRequirements, PrefixedTasks;
    var head := PrefixedTasks(dirs[0]);
    if j == 0 {
      k := 0;
    } else {
      var k' := AllTasksAt(dirs[1..], j - 1);
      k := |head| + k';
    }
  }

  /** Where the first requirement of directory `j` sits in the merged list. */
  lemma {:induction false} AllRequirementsAt(dirs: seq<SpecDir>, j: nat) returns (k: nat)
    requires j < |dirs| && |DirRequirements(dirs[j])| > 0
    ensures k < |AllRequirements(dirs)| && AllRequirements(dirs)[k] == PrefixRequirement(dirs[j].name, DirRequirements(dirs[j])[0])
    decreases |dirs|
  {
    hide DirRequirements, DirTasks, DirDesign, PrefixedRequirements, PrefixedTasks;
    var head := PrefixedRequirements(dirs[0]);
    if j == 0 {
      k := 0;
    } else {
      var k' := AllRequirementsAt(dirs[1..], j - 1);
      k := |head| + k';
    }
  }
}
