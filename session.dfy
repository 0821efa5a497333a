/**
 * One run of the script after the repository is open: the range query, the
 * fresh staging folder, the selection loop, the checks after it, the manifest
 * `changes.json` and the archive's membership.
 */
module Session {
  import opened Wrappers
  import opened Dates
  import opened Commits
  import opened Staging
  import opened Selection

  /** A manifest list names exactly the staged paths, each once. */
  ghost predicate ListsExactly(files: seq<Path>, staged: set<Path>) {
    && (forall p :: p in files <==> p in staged)
    && (forall k, l :: 0 <= k < l < |files| ==> files[k] != files[l])
  }

  /**
   * `list(staged_files)` in `create_manifest`: the staged set as a list, each
   * path once, in an order the model leaves open (a set's iteration order).
   */
  method ManifestList(staged: set<Path>) returns (files: seq<Path>)
    ensures ListsExactly(files, staged)
    ensures |files| == |staged|
  {
    files := [];
    var rest := staged;
    while rest != {}
      invariant rest <= staged
      invariant forall p :: p in files <==> p in staged && p !in rest
      invariant forall k, l :: 0 <= k < l < |files| ==> files[k] != files[l]
      invariant |files| + |rest| == |staged|
      decreases |rest|
    {
      var p :| p in rest;
      files := files + [p];
      rest := rest - {p};
    }
  }

  /** How a run ends. */
  datatype SessionOutcome =
    | NoCommits                                             // nothing in the range: no folder, no archive
    | InputEnded(selected: seq<int>, staged: set<Path>)     // the input ran out before `e`: input() raises
    | NothingStaged(selected: seq<int>)                     // `e` with an empty staged set: no archive
    | Archived(selected: seq<int>, staged: set<Path>, manifest: seq<Path>, archive: map<Path, Content>)

  /**
   * After the loop: without `e` the script stops; with nothing staged it
   * exits; otherwise `changes.json` is written into the folder, replacing a
   * staged file of that name, and the archive holds every file of the folder.
   * `manifestJson` is the JSON text of a manifest list.
   */
  function Conclude(end: LoopEnd, manifest: seq<Path>, manifestJson: seq<Path> -> Content): (outcome: SessionOutcome)
    ensures !outcome.NoCommits?
    ensures outcome.Archived? <==> end.finished && end.state.overall != {}
    ensures outcome.NothingStaged? <==> end.finished && end.state.overall == {}
    ensures outcome.Archived? ==>
      && outcome.selected == end.state.selected && outcome.staged == end.state.overall
      && outcome.manifest == manifest
      && outcome.archive.Keys == end.state.staging.Keys + {ManifestName}
      && outcome.archive[ManifestName] == manifestJson(manifest)
      && forall p :: p in outcome.archive && p != ManifestName ==> outcome.archive[p] == end.state.staging[p]
  {
    if !end.finished then InputEnded(end.state.selected, end.state.overall)
    else if end.state.overall == {} then NothingStaged(end.state.selected)
    else Archived(end.state.selected, end.state.overall, manifest,
                  end.state.staging[ManifestName := manifestJson(manifest)])
  }

  /**
   * From the empty folder of a fresh run: the archive holds the staged files
   * and the manifest and nothing else; the manifest entry holds the manifest,
   * also when a staged file of that name was copied first; every other
   * archived file has its working-tree content; and the manifest lists
   * exactly the files of the folder when it is written.
   */
  lemma ArchiveMatchesManifest(lines: seq<string>, commits: seq<Commit>, env: Env,
                               manifest: seq<Path>, manifestJson: seq<Path> -> Content)
    requires ListsExactly(manifest, Run(lines, commits, env, Initial(map[])).state.overall)
    ensures var end := Run(lines, commits, env, Initial(map[]));
      var out := Conclude(end, manifest, manifestJson);
      out.Archived? ==>
        && out.archive.Keys == out.staged + {ManifestName}
        && out.archive[ManifestName] == manifestJson(manifest)
        && (forall p :: p in out.archive && p != ManifestName ==> p in env.work && out.archive[p] == env.work[p])
        && (forall p :: p in manifest <==> p in end.state.staging)
  {
    InitialIsConsistent(commits, env);
    RunKeepsConsistent(lines, commits, env, Initial(map[]));
  }

  /** The staged set of a run is the union of what its selected commits stage. */
  lemma StagedSetIsUnionOfSelected(lines: seq<string>, commits: seq<Commit>, env: Env, p: Path)
    ensures var st := Run(lines, commits, env, Initial(map[])).state;
      p in st.overall <==> exists i :: i in st.selected && 0 <= i < |commits| && p in Contribution(commits[i], env)
  {
    InitialIsConsistent(commits, env);
    RunKeepsConsistent(lines, commits, env, Initial(map[]));
    ContributionsMembers(Run(lines, commits, env, Initial(map[])).state.selected, commits, env, p);
  }

  /** Lines 123-190 of `main`, from the validated dates on. */
  method RunSession(backend: Backend, branch: string, startText: string, endText: string,
                    lines: seq<string>, env: Env, manifestJson: seq<Path> -> Content)
    returns (commits: seq<Commit>, outcome: SessionOutcome)
    ensures CheckRange(startText, endText).Refused? ==> outcome == NoCommits
    ensures CheckRange(startText, endText).Range? ==>
      var range := CheckRange(startText, endText);
      var reported := backend(branch, range.since, range.until);
      && multiset(commits) == multiset(reported)
      && NewestFirst(commits)
      && forall t :: Ties(commits, t) == Ties(reported, t)
    ensures outcome == NoCommits <==> commits == []
    ensures outcome.Archived? ==> ListsExactly(outcome.manifest, outcome.staged)
    ensures commits != [] ==>
      outcome == Conclude(Run(lines, commits, env, Initial(map[])),
                          if outcome.Archived? then outcome.manifest else [], manifestJson)
  {
    commits := GetCommitsBetweenDates(backend, branch, startText, endText);
    if commits == [] {
      return commits, NoCommits;
    }
    var folder := new StagingFolder();
    var selected, overall, finished := SelectionLoop(lines, commits, env, folder);
    if !finished {
      return commits, InputEnded(selected, overall);
    }
    if overall == {} {
      return commits, NothingStaged(selected);
    }
    var manifest := ManifestList(overall);
    folder.WriteFile(ManifestName, manifestJson(manifest));
    outcome := Archived(selected, overall, manifest, folder.files);
  }

  // ---------------------------------------------------------------------------
  // A worked run: a root commit c1, c2 changing a.txt, c3 changing a.txt and b/c.txt

  function ScenarioCommits(): seq<Commit> {
    [Commit("c3", 300, ["c2"]), Commit("c2", 200, ["c1"]), Commit("c1", 100, [])]
  }

  function ScenarioEnv(): Env {
    Env(map["a.txt" := [1], "b/c.txt" := [2]],
        (parent: string, commit: string) =>
          if commit == "c3" then ["a.txt", "b/c.txt"] else if commit == "c2" then ["a.txt"] else [],
        (p: Path) => false,
        (t: string) => if t == "0" then Some(0) else if t == "1" then Some(1)
                       else if t == "2" then Some(2) else if t == "99" then Some(99) else None)
  }

  lemma ScenarioLine(line: string, n: int)
    requires line == "0" || line == "1" || line == "2" || line == "99"
    requires n == if line == "99" then 99 else line[0] as int - '0' as int
    ensures Classify(line, ScenarioEnv().parseInt) == Index(n)
  {
    StripUnpadded(line);
    LowerWithoutCapitals(line);
  }

  lemma ScenarioLines()
    ensures Classify("0", ScenarioEnv().parseInt) == Index(0)
    ensures Classify("1", ScenarioEnv().parseInt) == Index(1)
    ensures Classify("2", ScenarioEnv().parseInt) == Index(2)
    ensures Classify("99", ScenarioEnv().parseInt) == Index(99)
    ensures Classify(" E ", ScenarioEnv().parseInt) == Finish
  {
    ScenarioLine("0", 0);
    ScenarioLine("1", 1);
    ScenarioLine("2", 2);
    ScenarioLine("99", 99);
    var e := " E ";
    assert LeadingSpaces(e) == 1 by {
      assert e[1..] == "E " && LeadingSpaces(e[1..]) == 0;
    }
    assert e[1..] == "E ";
    assert TrailingSpaces("E ") == 1 by {
      assert "E "[..1] == "E" && TrailingSpaces("E") == 0;
    }
    assert Strip(e) == "E";
  }

  /** A line other than `e` is one step of the loop. */
  lemma RunCons(line: string, rest: seq<string>, commits: seq<Commit>, env: Env, st: LoopState)
    requires Classify(line, env.parseInt) != Finish
    ensures Run([line] + rest, commits, env, st) == Run(rest, commits, env, Step(st, line, commits, env))
  {
    assert ([line] + rest)[1..] == rest;
  }

  /** What c3 and c2 stage: their diffs against their first parents, all present in the working tree. */
  lemma ScenarioContributions()
    ensures Contribution(ScenarioCommits()[0], ScenarioEnv()) == {"a.txt", "b/c.txt"}
    ensures Contribution(ScenarioCommits()[1], ScenarioEnv()) == {"a.txt"}
  {
    var env := ScenarioEnv();
    var changed: seq<Path> := ["a.txt", "b/c.txt"];
    assert env.diff("c2", "c3") == changed;
    assert env.diff("c1", "c2") == ["a.txt"];
    assert changed[..1] == ["a.txt"];
    assert StagedFiles(["a.txt"], env.work, env.copyFails) == {"a.txt"};
    assert StagedFiles(changed, env.work, env.copyFails) == {"a.txt", "b/c.txt"};
  }

  /** Selecting c3 (index 0) stages a.txt and b/c.txt. */
  lemma ScenarioSelectC3(st: LoopState)
    ensures var r := Step(st, "0", ScenarioCommits(), ScenarioEnv());
      r.selected == st.selected + [0] && r.overall == st.overall + {"a.txt", "b/c.txt"}
      && r.staging.Keys == st.staging.Keys + {"a.txt", "b/c.txt"}
  {
    ScenarioLines();
    ScenarioContributions();
    assert SelectsCommit("0", ScenarioCommits(), ScenarioEnv());
  }

  /** Selecting c2 (index 1) stages a.txt. */
  lemma ScenarioSelectC2(st: LoopState)
    ensures var r := Step(st, "1", ScenarioCommits(), ScenarioEnv());
      r.selected == st.selected + [1] && r.overall == st.overall + {"a.txt"}
      && r.staging.Keys == st.staging.Keys + {"a.txt"}
  {
    ScenarioLines();
    ScenarioContributions();
    assert SelectsCommit("1", ScenarioCommits(), ScenarioEnv());
  }

  /** Selecting the root commit c1 (index 2) is recorded and stages nothing. */
  lemma ScenarioSelectC1(st: LoopState)
    ensures Step(st, "2", ScenarioCommits(), ScenarioEnv()) == st.(selected := st.selected + [2])
  {
    ScenarioLines();
    assert ScenarioCommits()[2].parents == [];
    assert SelectsCommit("2", ScenarioCommits(), ScenarioEnv());
  }

  /** The scenario's `e` line ends the loop. */
  lemma ScenarioFinish(st: LoopState)
    ensures Run([" E "], ScenarioCommits(), ScenarioEnv(), st) == LoopEnd(st, true)
  {
    ScenarioLines();
  }

  /** Each of the scenario's index lines is one step of the loop. */
  lemma ScenarioStep(line: string, rest: seq<string>, st: LoopState)
    requires line == "0" || line == "1" || line == "2" || line == "99"
    ensures Classify(line, ScenarioEnv().parseInt) != Finish
    ensures Run([line] + rest, ScenarioCommits(), ScenarioEnv(), st)
            == Run(rest, ScenarioCommits(), ScenarioEnv(), Step(st, line, ScenarioCommits(), ScenarioEnv()))
  {
    ScenarioLines();
    RunCons(line, rest, ScenarioCommits(), ScenarioEnv(), st);
  }

  /** The folder and staged set after a run that ends with selecting c2 and then c3. */
  lemma ScenarioAfterC2C3(st: LoopState)
    requires st.overall == {} && st.staging.Keys == {}
    ensures var r := Step(Step(st, "1", ScenarioCommits(), ScenarioEnv()), "0", ScenarioCommits(), ScenarioEnv());
      r.selected == st.selected + [1, 0] && r.overall == {"a.txt", "b/c.txt"}
      && r.staging.Keys + {ManifestName} == {"a.txt", "b/c.txt", ManifestName}
  {
    ScenarioSelectC2(st);
    ScenarioSelectC3(Step(st, "1", ScenarioCommits(), ScenarioEnv()));
  }

  /** The lines selecting c2, then c3, then `e`, from any state. */
  lemma ScenarioSelectTwoRun(st: LoopState)
    ensures Run(["1", "0", " E "], ScenarioCommits(), ScenarioEnv(), st)
            == LoopEnd(Step(Step(st, "1", ScenarioCommits(), ScenarioEnv()), "0", ScenarioCommits(), ScenarioEnv()), true)
  {
    var commits, env := ScenarioCommits(), ScenarioEnv();
    ScenarioStep("1", ["0", " E "], st);
    var s1 := Step(st, "1", commits, env);
    ScenarioStep("0", [" E "], s1);
    ScenarioFinish(Step(s1, "0", commits, env));
    assert ["1", "0", " E "] == ["1"] + ["0", " E "];
    assert ["0", " E "] == ["0"] + [" E "];
  }

  /**
   * Selecting c2 and c3 and then `e` stages a.txt and b/c.txt; the archive
   * holds those two, with their working-tree contents, and the manifest.
   */
  lemma ScenarioRunSelectsTwo(manifest: seq<Path>, manifestJson: seq<Path> -> Content)
    ensures var out := Conclude(Run(["1", "0", " E "], ScenarioCommits(), ScenarioEnv(), Initial(map[])),
                                manifest, manifestJson);
      && out.Archived? && out.selected == [1, 0] && out.staged == {"a.txt", "b/c.txt"}
      && out.archive.Keys == {"a.txt", "b/c.txt", ManifestName}
      && out.archive["a.txt"] == [1] && out.archive["b/c.txt"] == [2]
      && out.archive[ManifestName] == manifestJson(manifest)
  {
    var commits, env, st := ScenarioCommits(), ScenarioEnv(), Initial(map[]);
    var lines := ["1", "0", " E "];
    ScenarioSelectTwoRun(st);
    ScenarioAfterC2C3(st);
    InitialIsConsistent(commits, env);
    RunKeepsConsistent(lines, commits, env, st);
    assert st.selected + [1, 0] == [1, 0];
  }

  /** An index out of range and then the root commit: only the index 2 is recorded. */
  lemma ScenarioNoisePrefix(st: LoopState, rest: seq<string>)
    ensures Run(["99", "2"] + rest, ScenarioCommits(), ScenarioEnv(), st)
            == Run(rest, ScenarioCommits(), ScenarioEnv(), st.(selected := st.selected + [2]))
  {
    var commits, env := ScenarioCommits(), ScenarioEnv();
    ScenarioStep("99", ["2"] + rest, st);
    assert Step(st, "99", commits, env) == st by { ScenarioLines(); }
    ScenarioStep("2", rest, st);
    ScenarioSelectC1(st);
    assert ["99", "2"] + rest == ["99"] + (["2"] + rest);
  }

  /**
   * An index out of range changes nothing, and selecting only the root
   * commit stages nothing: `e` then leaves nothing to archive.
   */
  lemma ScenarioRunRootOnly(manifest: seq<Path>, manifestJson: seq<Path> -> Content)
    ensures Conclude(Run(["99", "2", " E "], ScenarioCommits(), ScenarioEnv(), Initial(map[])), manifest, manifestJson)
            == NothingStaged([2])
  {
    var s0 := Initial(map[]);
    ScenarioNoisePrefix(s0, [" E "]);
    assert ["99", "2", " E "] == ["99", "2"] + [" E "];
    ScenarioFinish(s0.(selected := s0.selected + [2]));
  }
}
