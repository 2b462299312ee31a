/** The tag-to-project table: `load_projects`, which builds it from
    `tag = project` lines, and `get_activity_project`, which resolves an
    activity's ordered tags against it, first match winning. */
module Projects {
  import opened Wrappers
  import opened Text

  type ProjectMap = map<string, string>

  /** The project of the first tag, in the activity's own order, that is a key. */
  function ProjectOf(tags: seq<string>, projects: ProjectMap): (r: Option<string>)
    ensures r.Some? ==> r.value in projects.Values
  {
    if tags == [] then None
    else if tags[0] in projects then Some(projects[tags[0]])
    else ProjectOf(tags[1..], projects)
  }

  /** Tag i is mapped and no earlier tag is. */
  ghost predicate IsFirstMapped(tags: seq<string>, projects: ProjectMap, i: int) {
    && 0 <= i < |tags| && tags[i] in projects
    && forall j :: 0 <= j < i ==> tags[j] !in projects
  }

  /** First match by tag order: None exactly when no tag is mapped, and
      otherwise the project of the first mapped tag. */
  lemma {:induction false} ProjectOfIsFirstMatch(tags: seq<string>, projects: ProjectMap)
    ensures ProjectOf(tags, projects).None? <==> forall i :: 0 <= i < |tags| ==> tags[i] !in projects
    ensures forall i :: IsFirstMapped(tags, projects, i) ==> ProjectOf(tags, projects) == Some(projects[tags[i]])
  {
    if tags != [] && tags[0] !in projects {
      ProjectOfIsFirstMatch(tags[1..], projects);
      forall i | IsFirstMapped(tags, projects, i)
        ensures ProjectOf(tags, projects) == Some(projects[tags[i]])
      {
        assert IsFirstMapped(tags[1..], projects, i - 1);
      }
      forall i | 0 <= i < |tags[1..]| && tags[1..][i] in projects
        ensures tags[i + 1] in projects
      {
      }
    }
  }

  /** Tag order matters: with tags ["b", "a"] and both mapped, "b" decides. */
  lemma TagOrderDecides()
    ensures ProjectOf(["b", "a"], map["a" := "P1", "b" := "P2"]) == Some("P2")
    ensures ProjectOf(["a", "b"], map["a" := "P1", "b" := "P2"]) == Some("P1")
  {
  }

  /** `get_activity_project(activity, tag_projects)`: scans the tags and
      returns at the first one that is a key. */
  method GetActivityProject(tags: seq<string>, projects: ProjectMap) returns (project: Option<string>)
    ensures project == ProjectOf(tags, projects)
  {
    for i := 0 to |tags|
      invariant ProjectOf(tags[i..], projects) == ProjectOf(tags, projects)
    {
      assert tags[i..][1..] == tags[i + 1..];
      if tags[i] in projects {
        return Some(projects[tags[i]]);
      }
    }
    return None;
  }

  const Other := "Other"

  /** `get_activity_project(activity, tag_projects) or 'Other'`: a missing
      project, and an empty one (which Python treats as false), read as "Other". */
  function ProjectName(tags: seq<string>, projects: ProjectMap): (name: string)
    ensures name != ""
    ensures name == Other || ProjectOf(tags, projects) == Some(name)
    ensures ProjectOf(tags, projects) == None ==> name == Other
    ensures ProjectOf(tags, projects).Some? && ProjectOf(tags, projects).value != "" ==> name == ProjectOf(tags, projects).value
  {
    match ProjectOf(tags, projects)
    case Some(p) => if p == "" then Other else p
    case None => Other
  }

  /** `line.split('=', 1)` with both halves stripped: None for a line with no
      `=`, blank lines included, where the unpacking raises ValueError. */
  function ParseLine(line: string): (r: Option<(string, string)>)
    ensures r.None? <==> '=' !in line
  {
    match SplitAtFirst(line, '=')
    case None => None
    case Some((tag, project)) => Some((Strip(tag), Strip(project)))
  }

  /** A line splits at its first `=`, so the project may itself hold `=`. */
  lemma ParseLineSplitsAtFirst(line: string)
    requires '=' in line
    ensures exists tag, project :: && line == tag + "=" + project && '=' !in tag
                                   && ParseLine(line) == Some((Strip(tag), Strip(project)))
  {
    SplitAtFirstParts(line, '=');
    var split := SplitAtFirst(line, '=').value;
    var tag, project := split.0, split.1;
    assert line == tag + "=" + project && '=' !in tag;
    assert ParseLine(line) == Some((Strip(tag), Strip(project)));
  }

  ghost predicate AllLinesParse(lines: seq<string>) {
    forall i :: 0 <= i < |lines| ==> '=' in lines[i]
  }

  /** The (tag, project) pairs of well-formed lines, in line order. */
  function ParsedLines(lines: seq<string>): (entries: seq<(string, string)>)
    requires AllLinesParse(lines)
    ensures |entries| == |lines|
  {
    if lines == [] then []
    else ParsedLines(lines[..|lines| - 1]) + [ParseLine(lines[|lines| - 1]).value]
  }

  /** Pair i is what line i parses to. */
  lemma {:induction false} ParsedLinesInOrder(lines: seq<string>)
    requires AllLinesParse(lines)
    ensures forall i :: 0 <= i < |lines| ==> ParseLine(lines[i]) == Some(ParsedLines(lines)[i])
  {
    if lines != [] {
      ParsedLinesInOrder(lines[..|lines| - 1]);
    }
  }

  /** One more well-formed line adds its pair at the end. */
  lemma ParsedLinesStep(lines: seq<string>, i: nat)
    requires i < |lines| && AllLinesParse(lines[..i]) && '=' in lines[i]
    ensures AllLinesParse(lines[..i + 1])
    ensures ParsedLines(lines[..i + 1]) == ParsedLines(lines[..i]) + [ParseLine(lines[i]).value]
  {
    assert lines[..i + 1][..i] == lines[..i];
  }

  /** The table the pairs build, each pair entered over the ones before it. */
  function TableOf(entries: seq<(string, string)>): (table: ProjectMap)
    ensures forall tag :: tag in table ==> exists i :: 0 <= i < |entries| && entries[i] == (tag, table[tag])
  {
    if entries == [] then map[]
    else
      var (tag, project) := entries[|entries| - 1];
      TableOf(entries[..|entries| - 1])[tag := project]
  }

  /** `load_projects` over the file's lines: fails on the first line without
      `=`, and otherwise holds the table the lines build. */
  method LoadProjects(lines: seq<string>) returns (table: Option<ProjectMap>)
    ensures table.None? <==> exists i :: 0 <= i < |lines| && '=' !in lines[i]
    ensures table.Some? ==> AllLinesParse(lines) && table.value == TableOf(ParsedLines(lines))
  {
    var tagProjects: ProjectMap := map[];
    for i := 0 to |lines|
      invariant AllLinesParse(lines[..i])
      invariant tagProjects == TableOf(ParsedLines(lines[..i]))
    {
      var entry := ParseLine(lines[i]);
      if entry.None? {
        return None;
      }
      ParsedLinesStep(lines, i);
      tagProjects := tagProjects[entry.value.0 := entry.value.1];
    }
    assert lines[..|lines|] == lines;
    return Some(tagProjects);
  }

  /** Pair i is the last pair whose tag is `tag`. */
  ghost predicate IsLastFor(entries: seq<(string, string)>, tag: string, i: int) {
    && 0 <= i < |entries| && entries[i].0 == tag
    && forall j :: i < j < |entries| ==> entries[j].0 != tag
  }

  /** The keys are exactly the tags of the lines, and a tag given on
      several lines takes the project of the last of them. */
  lemma {:induction false} LaterLinesOverwrite(entries: seq<(string, string)>)
    ensures forall tag :: tag in TableOf(entries) <==> exists i :: 0 <= i < |entries| && entries[i].0 == tag
    ensures forall tag, i :: IsLastFor(entries, tag, i) ==> TableOf(entries)[tag] == entries[i].1
  {
    if entries != [] {
      var n := |entries| - 1;
      var init := entries[..n];
      LaterLinesOverwrite(init);
      assert TableOf(entries) == TableOf(init)[entries[n].0 := entries[n].1];
      forall tag, i | IsLastFor(entries, tag, i)
        ensures tag in TableOf(entries) && TableOf(entries)[tag] == entries[i].1
      {
        if i < n {
          assert init[i].0 == tag;
          assert IsLastFor(init, tag, i);
        }
      }
      forall tag | tag in TableOf(entries)
        ensures exists i :: 0 <= i < |entries| && entries[i].0 == tag
      {
        if tag != entries[n].0 {
          var i :| 0 <= i < |init| && init[i].0 == tag;
          assert entries[i] == init[i];
        }
      }
      forall tag | exists i :: 0 <= i < |entries| && entries[i].0 == tag
        ensures tag in TableOf(entries)
      {
        var i :| 0 <= i < |entries| && entries[i].0 == tag;
        if i < n {
          assert init[i] == entries[i];
        }
      }
    }
  }
}
