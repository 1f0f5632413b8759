/**
 * The `list [--all] [--json]` command of internal/commands/list.go: fetch the
 * listing and show it as a table or as JSON. The model stops at what is
 * handed to the libraries: the lines written to the tab writer, and the
 * slice of records handed to `json.MarshalIndent`.
 */
module ListCommand {
  import opened Wrappers
  import opened Strings
  import opened Api

  /** Every element of the slice is a non-nil repository (the output functions dereference each one). */
  predicate AllPresent(repos: seq<RepoRef>)
  {
    forall i :: 0 <= i < |repos| ==> repos[i].Some?
  }

  // JSON output

  /** The `RepoInfo` struct declared in `outputJSON`. */
  datatype RepoInfo = RepoInfo(name: string, private: bool, fork: bool, archived: bool)

  /** A `[]RepoInfo` slice: `Null` is the nil slice, which `encoding/json` writes as `null`. */
  datatype InfoSlice = Null | Array(items: seq<RepoInfo>)
  {
    /** The elements of the slice; a nil slice has none. */
    function Elements(): seq<RepoInfo>
    {
      if Null? then [] else items
    }
  }

  /** Go's `append(s, x)`: appending to a nil slice makes a non-nil one. */
  function Append(s: InfoSlice, x: RepoInfo): InfoSlice
  {
    Array(s.Elements() + [x])
  }

  /** The record `outputJSON` builds for one repository. */
  function Info(r: Repository): RepoInfo
  {
    RepoInfo(r.name, r.private, r.fork, r.archived)
  }

  /**
   * The slice `outputJSON` builds: nil for no repositories, otherwise one
   * record per repository, in order, with the repository's four fields.
   */
  function Projection(repos: seq<RepoRef>): (p: InfoSlice)
    requires AllPresent(repos)
    ensures p.Null? <==> repos == []
    ensures |p.Elements()| == |repos|
    ensures forall i :: 0 <= i < |repos| ==>
              var info, r := p.Elements()[i], repos[i].value;
              info.name == r.name && info.private == r.private && info.fork == r.fork && info.archived == r.archived
  {
    if repos == [] then Null
    else Append(Projection(repos[..|repos| - 1]), Info(repos[|repos| - 1].value))
  }

  /** The projection loop of `outputJSON`. */
  method OutputJson(repos: seq<RepoRef>) returns (repoInfos: InfoSlice)
    requires AllPresent(repos)
    ensures repoInfos == Projection(repos)
  {
    repoInfos := Null;
    for i := 0 to |repos|
      invariant repoInfos == Projection(repos[..i])
    {
      assert repos[..i + 1][..i] == repos[..i];
      var repo := repos[i].value;
      repoInfos := Append(repoInfos, Info(repo));
    }
    assert repos[..|repos|] == repos;
  }

  /** A JSON value of one of the record's fields. */
  datatype JsonValue = JsonString(text: string) | JsonBool(truth: bool)

  /** The JSON keys of the record, from its struct tags, in field order. */
  const Keys: seq<string> := ["name", "private", "fork", "archived"]

  /** The members of the JSON object written for a record, in the order `encoding/json` writes struct fields. */
  function Members(info: RepoInfo): seq<(string, JsonValue)>
  {
    [("name", JsonString(info.name)), ("private", JsonBool(info.private)),
     ("fork", JsonBool(info.fork)), ("archived", JsonBool(info.archived))]
  }

  /** Reads a record back from the members of its JSON object, keys in the order of `Keys`. */
  function FromMembers(m: seq<(string, JsonValue)>): Option<RepoInfo>
  {
    if |m| == 4 && m[0].0 == Keys[0] && m[1].0 == Keys[1] && m[2].0 == Keys[2] && m[3].0 == Keys[3] &&
       m[0].1.JsonString? && m[1].1.JsonBool? && m[2].1.JsonBool? && m[3].1.JsonBool?
    then Some(RepoInfo(m[0].1.text, m[1].1.truth, m[2].1.truth, m[3].1.truth))
    else None
  }

  /** The object of a record has the keys name, private, fork, archived in that order, and reads back as the same record; nothing else reads back as it. */
  lemma MembersRoundTrip(info: RepoInfo, m: seq<(string, JsonValue)>)
    ensures |Members(info)| == |Keys| && forall i :: 0 <= i < |Keys| ==> Members(info)[i].0 == Keys[i]
    ensures FromMembers(m) == Some(info) <==> m == Members(info)
  {
    if FromMembers(m) == Some(info) {
      assert m == [m[0], m[1], m[2], m[3]];
    }
  }

  // Table output

  const Header := "Name\t|Private\t|Fork\t|Archived"
  const Rule := "----\t|-------\t|----\t|--------"

  /** The `%t` verb. */
  function BoolText(b: bool): string
  {
    if b then "true" else "false"
  }

  /** The line `outputTable` writes for one repository, before the tab writer aligns its cells. */
  function Row(r: Repository): string
  {
    r.name + "\t|" + BoolText(r.private) + "\t|" + BoolText(r.fork) + "\t|" + BoolText(r.archived)
  }

  /** The lines `outputTable` writes: the two header lines, then one row per repository, in order. */
  function Table(repos: seq<RepoRef>): (lines: seq<string>)
    requires AllPresent(repos)
    ensures |lines| == |repos| + 2
    ensures lines[0] == Header && lines[1] == Rule
    ensures forall i :: 0 <= i < |repos| ==> lines[i + 2] == Row(repos[i].value)
  {
    if repos == [] then [Header, Rule]
    else Table(repos[..|repos| - 1]) + [Row(repos[|repos| - 1].value)]
  }

  /** The loop of `outputTable`. */
  method OutputTable(repos: seq<RepoRef>) returns (lines: seq<string>)
    requires AllPresent(repos)
    ensures lines == Table(repos)
  {
    lines := [Header, Rule];
    for i := 0 to |repos|
      invariant lines == Table(repos[..i])
    {
      assert repos[..i + 1][..i] == repos[..i];
      var repo := repos[i].value;
      lines := lines + [Row(repo)];
    }
    assert repos[..|repos|] == repos;
  }

  /** The value of a boolean cell, `|true` or `|false`. */
  function ParseCell(cell: string): Option<bool>
  {
    if cell == "|true" then Some(true) else if cell == "|false" then Some(false) else None
  }

  /** Reads a repository back from its row: four tab-separated cells, name first. */
  function ParseRow(line: string): Option<Repository>
  {
    var cells := Split(line, '\t');
    if |cells| == 4 && ParseCell(cells[1]).Some? && ParseCell(cells[2]).Some? && ParseCell(cells[3]).Some?
    then Some(Repository(cells[0], ParseCell(cells[1]).value, ParseCell(cells[2]).value, ParseCell(cells[3]).value))
    else None
  }

  /** The cells of a repository's row, in column order. */
  function Cells(r: Repository): seq<string>
  {
    [r.name, "|" + BoolText(r.private), "|" + BoolText(r.fork), "|" + BoolText(r.archived)]
  }

  lemma CellBoundary(x: string, y: string)
    ensures x + "\t|" + y == x + ['\t'] + ("|" + y)
  {
    assert "\t|" == ['\t'] + "|";
  }

  lemma RowIsJoinedCells(r: Repository)
    ensures Row(r) == Join(Cells(r), '\t')
  {
    var p, f, a := BoolText(r.private), BoolText(r.fork), BoolText(r.archived);
    Join4(r.name, "|" + p, "|" + f, "|" + a, '\t');
    CellBoundary(r.name, p);
    CellBoundary(r.name + "\t|" + p, f);
    CellBoundary(r.name + "\t|" + p + "\t|" + f, a);
  }

  /** A row is the four cells Name, Private, Fork, Archived in that order, so the repository reads back from it (a name never holds a tab). */
  lemma RowRoundTrip(r: Repository)
    requires '\t' !in r.name
    ensures Split(Row(r), '\t') == Cells(r)
    ensures ParseRow(Row(r)) == Some(r)
  {
    RowIsJoinedCells(r);
    SplitJoin(Cells(r), '\t');
  }

  /** The header names the columns Name, Private, Fork, Archived, in the order of the row cells, and the rule underlines each. */
  lemma HeaderColumns()
    ensures Header == Join(["Name", "|Private", "|Fork", "|Archived"], '\t')
    ensures Rule == Join(["----", "|-------", "|----", "|--------"], '\t')
  {
    Join4("Name", "|Private", "|Fork", "|Archived", '\t');
    Join4("----", "|-------", "|----", "|--------", '\t');
  }

  // The command

  /** What the command shows: an error on standard error (exit status 1), the JSON records, or the table lines. */
  datatype ListOutput = Error(message: string) | JsonOutput(infos: InfoSlice) | TableOutput(lines: seq<string>)

  /** The listing has no nil entry (with `--all` the fetched slice is shown as it is, and the output would dereference a nil one). */
  ghost predicate Displayable(server: Server, showAll: bool, fuel: nat)
    requires Ends(server, QueryOptions(showAll), fuel)
  {
    Listing(server, showAll, fuel).Ok? ==> AllPresent(Listing(server, showAll, fuel).value)
  }

  /** The body of `listCmd.Run`; `clientError` is the failure of `auth.GetAPIClient`, if any. */
  method Run(server: Server, showAll: bool, jsonOutput: bool, clientError: Option<string>, ghost fuel: nat)
    returns (out: ListOutput)
    requires Ends(server, QueryOptions(showAll), fuel)
    requires Displayable(server, showAll, fuel)
    ensures clientError.Some? ==> out == Error("Error: " + clientError.value + "\n")
    ensures clientError.None? && Listing(server, showAll, fuel).Err? ==>
              out == Error("Error fetching repositories: " + Listing(server, showAll, fuel).error.Text() + "\n")
    ensures clientError.None? && Listing(server, showAll, fuel).Ok? ==>
              var repos := Listing(server, showAll, fuel).value;
              out == if jsonOutput then JsonOutput(Projection(repos)) else TableOutput(Table(repos))
  {
    if clientError.Some? {
      return Error("Error: " + clientError.value + "\n");
    }
    var repos, _ := ListRepositories(server, showAll, fuel);
    if repos.Err? {
      return Error("Error fetching repositories: " + repos.error.Text() + "\n");
    }
    if jsonOutput {
      var infos := OutputJson(repos.value);
      return JsonOutput(infos);
    }
    var lines := OutputTable(repos.value);
    return TableOutput(lines);
  }

  /**
   * Two repositories, the second a private fork, listed without `--all`:
   * the JSON output holds the first one only.
   */
  lemma JsonScenario()
    ensures var a := Repository("a", false, false, false);
      var b := Repository("b", true, true, false);
      var server := StubServer([[Some(a), Some(b)]]);
      && Ends(server, QueryOptions(false), 2)
      && Listing(server, false, 2).Ok?
      && AllPresent(Listing(server, false, 2).value)
      && Projection(Listing(server, false, 2).value) == Array([RepoInfo("a", false, false, false)])
  {
    var a := Repository("a", false, false, false);
    var b := Repository("b", true, true, false);
    var pages := [[Some(a), Some(b)]];
    var server := StubServer(pages);
    StubWalk(pages, QueryOptions(false), 2);
    var w := Walk(server, QueryOptions(false), 2);
    assert pages[0..] == pages;
    assert Flatten(pages) == [Some(a), Some(b)];
    assert Filter([Some(a), Some(b)]) == [Some(a)] by {
      assert [Some(a), Some(b)][..1] == [Some(a)];
      assert [Some(a)][..0] == [];
    }
  }
}
