/**
 * The interactive selection loop of `main`: the operator types commit indices
 * one per line until `e`. An index in range is recorded and its commit's
 * changed files (against the first parent) are copied to the staging folder;
 * root commits are recorded but stage nothing; anything else is ignored.
 *
 * The operator's lines are a sequence of tokens; `int()` on a line is the
 * parameter `parseInt`, and `git diff --name-only parent commit` (split into
 * lines) is the parameter `diff`.
 */
module Selection {
  import opened Wrappers
  import opened Commits
  import opened Staging

  // ---------------------------------------------------------------------------
  // Reading one line: `input(...).strip().lower()`

  /** The ASCII characters Python's `str.strip` removes. */
  predicate IsSpace(c: char) {
    c == ' ' || 9 <= c as int <= 13 || 28 <= c as int <= 31
  }

  function LeadingSpaces(s: string): (n: nat)
    ensures n <= |s|
    ensures forall k :: 0 <= k < n ==> IsSpace(s[k])
    ensures n < |s| ==> !IsSpace(s[n])
  {
    if s != [] && IsSpace(s[0]) then 1 + LeadingSpaces(s[1..]) else 0
  }

  function TrailingSpaces(s: string): (n: nat)
    ensures n <= |s|
    ensures forall k :: |s| - n <= k < |s| ==> IsSpace(s[k])
    ensures n < |s| ==> !IsSpace(s[|s| - 1 - n])
  {
    if s != [] && IsSpace(s[|s| - 1]) then 1 + TrailingSpaces(s[..|s| - 1]) else 0
  }

  /** `str.strip()`: the text without its leading and trailing white space. */
  function Strip(s: string): (t: string)
    ensures t == [] || (!IsSpace(t[0]) && !IsSpace(t[|t| - 1]))
    ensures LeadingSpaces(s) + |t| <= |s| && s[LeadingSpaces(s)..LeadingSpaces(s) + |t|] == t
    ensures forall k :: 0 <= k < |s| && !(LeadingSpaces(s) <= k < LeadingSpaces(s) + |t|) ==> IsSpace(s[k])
  {
    var l := LeadingSpaces(s);
    var rest := s[l..];
    var t := rest[..|rest| - TrailingSpaces(rest)];
    assert s[l..l + |t|] == t;
    t
  }

  function LowerChar(c: char): char {
    if 'A' <= c <= 'Z' then (c as int + 32) as char else c
  }

  /** `str.lower()` on ASCII letters: no capital is left, each capital becomes its small letter, and nothing else changes. */
  function Lower(s: string): (t: string)
    ensures |t| == |s|
    ensures forall k :: 0 <= k < |t| ==> !('A' <= t[k] <= 'Z')
    ensures forall k :: 0 <= k < |s| && 'A' <= s[k] <= 'Z' ==> t[k] == (s[k] as int - 'A' as int + 'a' as int) as char
    ensures forall k :: 0 <= k < |s| && !('A' <= s[k] <= 'Z') ==> t[k] == s[k]
  {
    seq(|s|, k requires 0 <= k < |s| => LowerChar(s[k]))
  }

  /** A line without white space at its ends is its own strip. */
  lemma StripUnpadded(s: string)
    requires s != [] && !IsSpace(s[0]) && !IsSpace(s[|s| - 1])
    ensures Strip(s) == s
  {
    assert s[0..] == s;
    assert LeadingSpaces(s) == 0;
    assert TrailingSpaces(s) == 0;
  }

  /** A line without capitals is its own lower-case form. */
  lemma LowerWithoutCapitals(s: string)
    requires forall k :: 0 <= k < |s| ==> !('A' <= s[k] <= 'Z')
    ensures Lower(s) == s
  {
  }

  lemma LowerIsE(t: string)
    ensures Lower(t) == "e" <==> t == "e" || t == "E"
  {
    if Lower(t) == "e" {
      assert |t| == 1 && LowerChar(t[0]) == 'e';
    }
  }

  /** What one line of the operator's input asks for. */
  datatype Token = Finish | Index(n: int) | Unrecognized

  /** The line is `e` (in either case, with any surrounding white space), a number, or neither. */
  function Classify(line: string, parseInt: string -> Option<int>): (tok: Token)
    ensures tok == Finish <==> Strip(line) == "e" || Strip(line) == "E"
    ensures tok.Index? <==> tok != Finish && parseInt(Lower(Strip(line))).Some?
    ensures tok.Index? ==> parseInt(Lower(Strip(line))) == Some(tok.n)
  {
    var text := Lower(Strip(line));
    LowerIsE(Strip(line));
    if text == "e" then Finish
    else
      match parseInt(text)
      case Some(n) => Index(n)
      case None => Unrecognized
  }

  // ---------------------------------------------------------------------------
  // The loop's state and one step

  /** What the loop sees of the outside world. */
  datatype Env = Env(
    work: map<Path, Content>,
    diff: (string, string) -> seq<Path>,
    copyFails: Path -> bool,
    parseInt: string -> Option<int>)

  /** The selected indices, the accumulated staged-file set and the staging folder's files. */
  datatype LoopState = LoopState(selected: seq<int>, overall: set<Path>, staging: map<Path, Content>)

  /** How the loop ended: with `e`, or because the input ran out. */
  datatype LoopEnd = LoopEnd(state: LoopState, finished: bool)

  /** The paths the copier stages for one commit: none for a root commit, else its diff against the first parent. */
  function Contribution(c: Commit, env: Env): set<Path> {
    if c.parents == [] then {}
    else StagedFiles(env.diff(c.parents[0], c.hash), env.work, env.copyFails)
  }

  /** Processing a selected commit: skip a root commit, else stage its changed files. */
  function Process(st: LoopState, c: Commit, env: Env): (r: LoopState)
    ensures r.selected == st.selected
    ensures r.overall == st.overall + Contribution(c, env)
    ensures c.parents == [] ==> r == st
    ensures c.parents != [] ==>
      r.staging == CopiedTree(st.staging, env.diff(c.parents[0], c.hash), env.work, env.copyFails)
  {
    if c.parents == [] then st
    else
      var changed := env.diff(c.parents[0], c.hash);
      if changed == [] then st
      else
        LoopState(st.selected,
                  st.overall + StagedFiles(changed, env.work, env.copyFails),
                  CopiedTree(st.staging, changed, env.work, env.copyFails))
  }

  /** The line names a commit of the list. */
  predicate SelectsCommit(line: string, commits: seq<Commit>, env: Env) {
    var tok := Classify(line, env.parseInt);
    tok.Index? && 0 <= tok.n < |commits|
  }

  /** One line other than `e`. */
  function Step(st: LoopState, line: string, commits: seq<Commit>, env: Env): (r: LoopState)
    requires Classify(line, env.parseInt) != Finish
    ensures SelectsCommit(line, commits, env) ==>
      var n := Classify(line, env.parseInt).n;
      && r.selected == st.selected + [n]
      && r.overall == st.overall + Contribution(commits[n], env)
      && (commits[n].parents == [] ==> r.overall == st.overall && r.staging == st.staging)
      && (commits[n].parents != [] ==>
            var c := commits[n];
            r.staging == CopiedTree(st.staging, env.diff(c.parents[0], c.hash), env.work, env.copyFails))
    ensures !SelectsCommit(line, commits, env) ==> r == st
  {
    match Classify(line, env.parseInt)
    case Index(n) =>
      if 0 <= n < |commits| then Process(st.(selected := st.selected + [n]), commits[n], env) else st
    case Unrecognized => st
  }

  /**
   * The loop over the operator's lines, from state st. Each line records at
   * most one index, and the loop can only end normally on a line it reads.
   */
  function Run(lines: seq<string>, commits: seq<Commit>, env: Env, st: LoopState): (r: LoopEnd)
    ensures |r.state.selected| <= |st.selected| + |lines|
    ensures r.finished ==> lines != []
    decreases |lines|
  {
    if lines == [] then LoopEnd(st, false)
    else if Classify(lines[0], env.parseInt) == Finish then LoopEnd(st, true)
    else Run(lines[1..], commits, env, Step(st, lines[0], commits, env))
  }

  /** The state when the loop starts: nothing selected or staged, and the folder as given. */
  function Initial(staging: map<Path, Content>): LoopState {
    LoopState([], {}, staging)
  }

  // ---------------------------------------------------------------------------
  // The loop as the script runs it

  /** Lines 143-171 of `main`. The folder must be the run's (empty) staging folder. */
  method SelectionLoop(lines: seq<string>, commits: seq<Commit>, env: Env, folder: StagingFolder)
    returns (selected: seq<int>, overall: set<Path>, finished: bool)
    modifies folder
    ensures Run(lines, commits, env, Initial(old(folder.files))) == LoopEnd(LoopState(selected, overall, folder.files), finished)
  {
    selected, overall := [], {};
    var k := 0;
    while k < |lines|
      invariant 0 <= k <= |lines|
      invariant Run(lines[k..], commits, env, LoopState(selected, overall, folder.files))
                == Run(lines, commits, env, Initial(old(folder.files)))
    {
      var line := lines[k];
      assert lines[k..][0] == line && lines[k..][1..] == lines[k + 1..];
      var tok := Classify(line, env.parseInt);
      if tok == Finish {
        return selected, overall, true;
      }
      if tok.Index? {
        var index := tok.n;
        if 0 <= index < |commits| {
          selected := selected + [index];
          var commit := commits[index];
          if commit.parents != [] {
            var changed := env.diff(commit.parents[0], commit.hash);
            if changed != [] {
              var staged := folder.CopyFilesToStaging(changed, env.work, env.copyFails);
              overall := overall + staged;
            }
          }
        }
      }
      k := k + 1;
    }
    finished := false;
  }

  // ---------------------------------------------------------------------------
  // Properties of the loop

  /** Nothing is read after `e`: the lines after it do not matter, and the loop ends normally. */
  lemma {:induction false} LinesAfterFinishIgnored(lines: seq<string>, e: string, rest: seq<string>,
                                                   commits: seq<Commit>, env: Env, st: LoopState)
    requires Classify(e, env.parseInt) == Finish
    ensures Run(lines + [e] + rest, commits, env, st) == Run(lines + [e], commits, env, st)
    ensures Run(lines + [e], commits, env, st).finished
    decreases |lines|
  {
    if lines == [] {
      assert (lines + [e] + rest)[0] == e && (lines + [e])[0] == e;
    } else {
      assert (lines + [e] + rest)[0] == lines[0] && (lines + [e])[0] == lines[0];
      assert (lines + [e] + rest)[1..] == lines[1..] + [e] + rest;
      assert (lines + [e])[1..] == lines[1..] + [e];
      if Classify(lines[0], env.parseInt) != Finish {
        LinesAfterFinishIgnored(lines[1..], e, rest, commits, env, Step(st, lines[0], commits, env));
      }
    }
  }

  /** The loop ends normally exactly when some line is `e`; otherwise the input runs out. */
  lemma {:induction false} FinishedExactlyWithFinishLine(lines: seq<string>, commits: seq<Commit>, env: Env, st: LoopState)
    ensures Run(lines, commits, env, st).finished <==>
            exists k :: 0 <= k < |lines| && Classify(lines[k], env.parseInt) == Finish
    decreases |lines|
  {
    if lines != [] && Classify(lines[0], env.parseInt) != Finish {
      FinishedExactlyWithFinishLine(lines[1..], commits, env, Step(st, lines[0], commits, env));
      assert forall k :: 1 <= k < |lines| ==> lines[k] == lines[1..][k - 1];
      assert forall k :: 0 <= k < |lines| - 1 ==> lines[1..][k] == lines[k + 1];
    }
  }

  /** The selected list only grows at its end, and the staged set only grows. */
  lemma {:induction false} RunOnlyGrows(lines: seq<string>, commits: seq<Commit>, env: Env, st: LoopState)
    ensures st.selected <= Run(lines, commits, env, st).state.selected
    ensures st.overall <= Run(lines, commits, env, st).state.overall
    decreases |lines|
  {
    if lines != [] && Classify(lines[0], env.parseInt) != Finish {
      RunOnlyGrows(lines[1..], commits, env, Step(st, lines[0], commits, env));
    }
  }

  /** The union of what the selected commits stage, taking the selected indices in order. */
  function Contributions(selected: seq<int>, commits: seq<Commit>, env: Env): set<Path>
    decreases |selected|
  {
    if selected == [] then {}
    else
      var last := selected[|selected| - 1];
      Contributions(selected[..|selected| - 1], commits, env)
        + (if 0 <= last < |commits| then Contribution(commits[last], env) else {})
  }

  /** A path is contributed exactly when some selected index in range names a commit that stages it. */
  lemma {:induction false} ContributionsMembers(selected: seq<int>, commits: seq<Commit>, env: Env, p: Path)
    ensures p in Contributions(selected, commits, env) <==>
      exists i :: i in selected && 0 <= i < |commits| && p in Contribution(commits[i], env)
    decreases |selected|
  {
    if selected != [] {
      var last := selected[|selected| - 1];
      var before := selected[..|selected| - 1];
      assert selected == before + [last];
      ContributionsMembers(before, commits, env, p);
    }
  }

  /** Contributions depends only on the set of selected indices. */
  lemma ContributionsOfSameSet(sel1: seq<int>, sel2: seq<int>, commits: seq<Commit>, env: Env)
    requires forall i :: i in sel1 <==> i in sel2
    ensures Contributions(sel1, commits, env) == Contributions(sel2, commits, env)
  {
    var f1, f2 := Contributions(sel1, commits, env), Contributions(sel2, commits, env);
    forall p | p in f1
      ensures p in f2
    {
      ContributionsMembers(sel1, commits, env, p);
      ContributionsMembers(sel2, commits, env, p);
      var i :| i in sel1 && 0 <= i < |commits| && p in Contribution(commits[i], env);
      assert i in sel2;
    }
    forall p | p in f2
      ensures p in f1
    {
      ContributionsMembers(sel1, commits, env, p);
      ContributionsMembers(sel2, commits, env, p);
      var i :| i in sel2 && 0 <= i < |commits| && p in Contribution(commits[i], env);
      assert i in sel1;
    }
  }

  /**
   * The invariant of the loop: every selected index is in range, the staged
   * set is what the selected commits stage, and the staging folder holds
   * exactly the staged set, each file with its working-tree content.
   */
  ghost predicate Consistent(st: LoopState, commits: seq<Commit>, env: Env) {
    && (forall k :: 0 <= k < |st.selected| ==> 0 <= st.selected[k] < |commits|)
    && st.overall == Contributions(st.selected, commits, env)
    && st.staging.Keys == st.overall
    && (forall p :: p in st.staging ==> p in env.work && st.staging[p] == env.work[p])
  }

  lemma InitialIsConsistent(commits: seq<Commit>, env: Env)
    ensures Consistent(Initial(map[]), commits, env)
  {
  }

  lemma StepKeepsConsistent(st: LoopState, line: string, commits: seq<Commit>, env: Env)
    requires Consistent(st, commits, env)
    requires Classify(line, env.parseInt) != Finish
    ensures Consistent(Step(st, line, commits, env), commits, env)
  {
    var r := Step(st, line, commits, env);
    if SelectsCommit(line, commits, env) {
      var n := Classify(line, env.parseInt).n;
      assert r.selected[..|r.selected| - 1] == st.selected;
      assert Contributions(r.selected, commits, env) == st.overall + Contribution(commits[n], env);
    }
  }

  lemma {:induction false} RunKeepsConsistent(lines: seq<string>, commits: seq<Commit>, env: Env, st: LoopState)
    requires Consistent(st, commits, env)
    ensures Consistent(Run(lines, commits, env, st).state, commits, env)
    decreases |lines|
  {
    if lines != [] && Classify(lines[0], env.parseInt) != Finish {
      StepKeepsConsistent(st, lines[0], commits, env);
      RunKeepsConsistent(lines[1..], commits, env, Step(st, lines[0], commits, env));
    }
  }

  /**
   * Given the same working tree, the staged set and the staging folder depend
   * only on WHICH commits were selected, not on how often or in what order.
   */
  lemma SameSelectionSameFiles(st1: LoopState, st2: LoopState, commits: seq<Commit>, env: Env)
    requires Consistent(st1, commits, env) && Consistent(st2, commits, env)
    requires forall i :: i in st1.selected <==> i in st2.selected
    ensures st1.overall == st2.overall
    ensures st1.staging == st2.staging
  {
    ContributionsOfSameSet(st1.selected, st2.selected, commits, env);
    var m1, m2 := st1.staging, st2.staging;
    assert m1.Keys == m2.Keys;
    forall p | p in m1
      ensures m1[p] == m2[p]
    {
      assert m1[p] == env.work[p];
    }
    assert m1 == m2;
  }

  // ---------------------------------------------------------------------------
  // Re-selecting a commit

  /** The lines contain no `e`. */
  predicate NoFinish(lines: seq<string>, env: Env) {
    forall k :: 0 <= k < |lines| ==> Classify(lines[k], env.parseInt) != Finish
  }

  /** Running two stretches of lines without `e` is running one after the other. */
  lemma {:induction false} RunAppend(xs: seq<string>, ys: seq<string>, commits: seq<Commit>, env: Env, st: LoopState)
    requires NoFinish(xs, env)
    ensures Run(xs + ys, commits, env, st) == Run(ys, commits, env, Run(xs, commits, env, st).state)
    decreases |xs|
  {
    if xs == [] {
      assert xs + ys == ys;
    } else {
      assert (xs + ys)[0] == xs[0] && (xs + ys)[1..] == xs[1..] + ys;
      assert NoFinish(xs[1..], env) by {
        assert forall k :: 0 <= k < |xs| - 1 ==> xs[1..][k] == xs[k + 1];
      }
      assert Classify(xs[0], env.parseInt) != Finish;
      RunAppend(xs[1..], ys, commits, env, Step(st, xs[0], commits, env));
    }
  }

  /** Line k is read by the loop: no line up to and including it is `e`. */
  predicate ReadBeforeFinish(lines: seq<string>, k: int, env: Env) {
    0 <= k < |lines| && forall m :: 0 <= m <= k ==> Classify(lines[m], env.parseInt) != Finish
  }

  /** Some line read before `e` names index i in range. */
  ghost predicate NamedBeforeFinish(lines: seq<string>, commits: seq<Commit>, env: Env, i: int) {
    exists k :: ReadBeforeFinish(lines, k, env) && SelectsCommit(lines[k], commits, env)
                && Classify(lines[k], env.parseInt).n == i
  }

  /** Past a first line other than `e`, line k + 1 is read exactly when line k of the rest is. */
  lemma ReadBeforeFinishShift(lines: seq<string>, k: int, env: Env)
    requires lines != [] && Classify(lines[0], env.parseInt) != Finish && 0 <= k
    ensures ReadBeforeFinish(lines, k + 1, env) <==> ReadBeforeFinish(lines[1..], k, env)
  {
    if ReadBeforeFinish(lines[1..], k, env) {
      forall m | 0 <= m <= k + 1 ensures Classify(lines[m], env.parseInt) != Finish {
        if m > 0 { assert lines[m] == lines[1..][m - 1]; }
      }
    }
    if ReadBeforeFinish(lines, k + 1, env) {
      forall m | 0 <= m <= k ensures Classify(lines[1..][m], env.parseInt) != Finish {
        assert lines[1..][m] == lines[m + 1];
      }
    }
  }

  /** Past a first line other than `e`, an index is named before `e` by that line or by the rest. */
  lemma NamedBeforeFinishShift(lines: seq<string>, commits: seq<Commit>, env: Env, i: int)
    requires lines != [] && Classify(lines[0], env.parseInt) != Finish
    ensures NamedBeforeFinish(lines, commits, env, i) <==>
            (SelectsCommit(lines[0], commits, env) && Classify(lines[0], env.parseInt).n == i)
            || NamedBeforeFinish(lines[1..], commits, env, i)
  {
    if NamedBeforeFinish(lines, commits, env, i) {
      var k :| ReadBeforeFinish(lines, k, env) && SelectsCommit(lines[k], commits, env)
               && Classify(lines[k], env.parseInt).n == i;
      if k > 0 {
        ReadBeforeFinishShift(lines, k - 1, env);
        assert lines[1..][k - 1] == lines[k];
      }
    }
    if NamedBeforeFinish(lines[1..], commits, env, i) {
      var k :| ReadBeforeFinish(lines[1..], k, env) && SelectsCommit(lines[1..][k], commits, env)
               && Classify(lines[1..][k], env.parseInt).n == i;
      ReadBeforeFinishShift(lines, k, env);
      assert lines[1..][k] == lines[k + 1];
    }
    if SelectsCommit(lines[0], commits, env) && Classify(lines[0], env.parseInt).n == i {
      assert ReadBeforeFinish(lines, 0, env);
    }
  }

  /** The indices a run records are those recorded before and those named in range by the lines read before `e`. */
  lemma {:induction false} RunSelectedIndices(lines: seq<string>, commits: seq<Commit>, env: Env, st: LoopState, i: int)
    ensures i in Run(lines, commits, env, st).state.selected <==>
            i in st.selected || NamedBeforeFinish(lines, commits, env, i)
    decreases |lines|
  {
    if lines != [] {
      if Classify(lines[0], env.parseInt) == Finish {
        forall k | 0 <= k < |lines| ensures !ReadBeforeFinish(lines, k, env) {
        }
      } else {
        RunSelectedIndices(lines[1..], commits, env, Step(st, lines[0], commits, env), i);
        NamedBeforeFinishShift(lines, commits, env, i);
      }
    }
  }

  /**
   * Selecting a commit again, by any line naming the same index, at any later
   * point before `e`, leaves the final staged set and staging folder as
   * selecting it once.
   */
  lemma ReselectionIsIdempotent(a: seq<string>, line: string, b: seq<string>, again: string, c: seq<string>,
                                commits: seq<Commit>, env: Env)
    requires NoFinish(a + [line] + b, env)
    requires SelectsCommit(line, commits, env)
    requires Classify(again, env.parseInt) == Classify(line, env.parseInt)
    ensures Run(a + [line] + b + [again] + c, commits, env, Initial(map[])).state.overall
            == Run(a + [line] + b + c, commits, env, Initial(map[])).state.overall
    ensures Run(a + [line] + b + [again] + c, commits, env, Initial(map[])).state.staging
            == Run(a + [line] + b + c, commits, env, Initial(map[])).state.staging
  {
    var init := Initial(map[]);
    var prefix := a + [line] + b;
    assert a + [line] + b + [again] + c == prefix + ([again] + c);
    assert a + [line] + b + c == prefix + c;
    RunAppend(prefix, [again] + c, commits, env, init);
    RunAppend(prefix, c, commits, env, init);
    var mid := Run(prefix, commits, env, init).state;
    InitialIsConsistent(commits, env);
    RunKeepsConsistent(prefix, commits, env, init);
    assert ([again] + c)[0] == again && ([again] + c)[1..] == c;
    var twice := Step(mid, again, commits, env);
    StepKeepsConsistent(mid, again, commits, env);
    var n := Classify(line, env.parseInt).n;
    assert n in mid.selected by {
      RunSelectedIndices(prefix, commits, env, init, n);
      assert prefix[|a|] == line;
      assert ReadBeforeFinish(prefix, |a|, env);
      assert NamedBeforeFinish(prefix, commits, env, n);
    }
    assert forall i :: i in twice.selected <==> i in mid.selected;
    // Both runs continue with c from states that agree on everything but the repeated index.
    RunSameSelection(c, commits, env, twice, mid);
  }

  /** Two consistent states with the same selected set stay so, and agree on their files, along the same lines. */
  lemma {:induction false} RunSameSelection(lines: seq<string>, commits: seq<Commit>, env: Env, st1: LoopState, st2: LoopState)
    requires Consistent(st1, commits, env) && Consistent(st2, commits, env)
    requires forall i :: i in st1.selected <==> i in st2.selected
    ensures Run(lines, commits, env, st1).state.overall == Run(lines, commits, env, st2).state.overall
    ensures Run(lines, commits, env, st1).state.staging == Run(lines, commits, env, st2).state.staging
    ensures Run(lines, commits, env, st1).finished == Run(lines, commits, env, st2).finished
    decreases |lines|
  {
    if lines == [] || Classify(lines[0], env.parseInt) == Finish {
      SameSelectionSameFiles(st1, st2, commits, env);
    } else {
      StepKeepsConsistent(st1, lines[0], commits, env);
      StepKeepsConsistent(st2, lines[0], commits, env);
      RunSameSelection(lines[1..], commits, env, Step(st1, lines[0], commits, env), Step(st2, lines[0], commits, env));
    }
  }
}
