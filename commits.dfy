/**
 * The commit-range query `get_commits_between_dates`: both date texts are
 * validated, the start must not be later than the end, and the commits the
 * version-control backend reports for the branch are re-sorted newest first.
 *
 * The backend (GitPython's `iter_commits` with `since` and `until`) is a
 * parameter: a function from the branch and the two dates to the commits it
 * returns, in whatever order it returns them.
 */
module Commits {
  import opened Wrappers
  import opened Dates

  /** A commit as the backend describes it; parents by hash, the first parent first. */
  datatype Commit = Commit(hash: string, committedDate: int, parents: seq<string>)

  /** The backend's commit enumeration for a branch between two dates. */
  type Backend = (string, Date, Date) -> seq<Commit>

  /** Newest first: commit times never increase along the list (ties are allowed). */
  predicate NewestFirst(commits: seq<Commit>) {
    forall k, l :: 0 <= k < l < |commits| ==> commits[k].committedDate >= commits[l].committedDate
  }

  /** Why a range is refused, in the order the checks are made. */
  datatype RangeError = InvalidStart | InvalidEnd | StartAfterEnd

  datatype RangeCheck = Range(since: Date, until: Date) | Refused(reason: RangeError)

  /** The three guards of the range query, each of which ends it with no commits. */
  function CheckRange(startText: string, endText: string): (r: RangeCheck)
    ensures r.Range? <==>
      ParseDate(startText).Some? && ParseDate(endText).Some?
      && DateLe(ParseDate(startText).value, ParseDate(endText).value)
    ensures r.Range? ==> Some(r.since) == ParseDate(startText) && Some(r.until) == ParseDate(endText)
    ensures r == Refused(InvalidStart) <==> ParseDate(startText).None?
    ensures r == Refused(InvalidEnd) <==> ParseDate(startText).Some? && ParseDate(endText).None?
  {
    match (ParseDate(startText), ParseDate(endText))
    case (None, _) => Refused(InvalidStart)
    case (_, None) => Refused(InvalidEnd)
    case (Some(s), Some(e)) => if !DateLe(s, e) then Refused(StartAfterEnd) else Range(s, e)
  }

  // ---------------------------------------------------------------------------
  // `commits.sort(key=lambda c: c.committed_date, reverse=True)`
  //
  // Python's sort is stable, also with reverse=True: commits with the same
  // time stay in the order the backend gave them.

  /**
   * Inserting c into a list, walking back from its end past every commit
   * strictly older than c: c lands after all commits at least as new as it.
   */
  function InsertNewest(s: seq<Commit>, c: Commit): seq<Commit>
    decreases |s|
  {
    if s == [] || s[|s| - 1].committedDate >= c.committedDate then s + [c]
    else InsertNewest(s[..|s| - 1], c) + [s[|s| - 1]]
  }

  /** The stable newest-first order of s: each commit inserted in turn. */
  function SortedNewest(s: seq<Commit>): seq<Commit>
    decreases |s|
  {
    if s == [] then [] else InsertNewest(SortedNewest(s[..|s| - 1]), s[|s| - 1])
  }

  /** The commits of s with time t, in the order s has them. */
  function Ties(s: seq<Commit>, t: int): (r: seq<Commit>)
    ensures |r| <= |s|
    ensures forall k :: 0 <= k < |r| ==> r[k].committedDate == t && r[k] in s
    decreases |s|
  {
    if s == [] then []
    else Ties(s[..|s| - 1], t) + (if s[|s| - 1].committedDate == t then [s[|s| - 1]] else [])
  }

  lemma {:induction false} InsertNewestPermutes(s: seq<Commit>, c: Commit)
    ensures multiset(InsertNewest(s, c)) == multiset(s) + multiset{c}
    decreases |s|
  {
    if s != [] && s[|s| - 1].committedDate < c.committedDate {
      var init, last := s[..|s| - 1], s[|s| - 1];
      assert s == init + [last];
      InsertNewestPermutes(init, c);
    }
  }

  lemma {:induction false} InsertNewestKeepsOrder(s: seq<Commit>, c: Commit)
    requires NewestFirst(s)
    ensures NewestFirst(InsertNewest(s, c))
    decreases |s|
  {
    if s != [] && s[|s| - 1].committedDate < c.committedDate {
      var init, last := s[..|s| - 1], s[|s| - 1];
      var r := InsertNewest(init, c);
      InsertNewestKeepsOrder(init, c);
      InsertNewestPermutes(init, c);
      forall k | 0 <= k < |r|
        ensures r[k].committedDate >= last.committedDate
      {
        assert r[k] in multiset(r);
        assert r[k] == c || r[k] in multiset(init);
        if r[k] != c {
          var m :| 0 <= m < |init| && init[m] == r[k];
          assert s[m] == init[m];
        }
      }
    }
  }

  /** Inserting c keeps the commits of every time in their order, c last among its own. */
  lemma {:induction false} InsertNewestTies(s: seq<Commit>, c: Commit, t: int)
    ensures Ties(InsertNewest(s, c), t) == Ties(s, t) + (if c.committedDate == t then [c] else [])
    decreases |s|
  {
    if s == [] || s[|s| - 1].committedDate >= c.committedDate {
      assert (s + [c])[..|s|] == s;
    } else {
      var init, last := s[..|s| - 1], s[|s| - 1];
      var r := InsertNewest(init, c);
      InsertNewestTies(init, c, t);
      assert (r + [last])[..|r|] == r;
    }
  }

  /** The stable order is newest first. */
  lemma {:induction false} SortedNewestIsNewestFirst(s: seq<Commit>)
    ensures NewestFirst(SortedNewest(s))
    decreases |s|
  {
    if s != [] {
      SortedNewestIsNewestFirst(s[..|s| - 1]);
      InsertNewestKeepsOrder(SortedNewest(s[..|s| - 1]), s[|s| - 1]);
    }
  }

  /** The stable order holds the same commits as s, as often as s. */
  lemma {:induction false} SortedNewestPermutes(s: seq<Commit>)
    ensures multiset(SortedNewest(s)) == multiset(s)
    decreases |s|
  {
    if s != [] {
      var init, last := s[..|s| - 1], s[|s| - 1];
      assert s == init + [last];
      SortedNewestPermutes(init);
      InsertNewestPermutes(SortedNewest(init), last);
    }
  }

  /** The stable order keeps the commits of each time in the order s has them. */
  lemma {:induction false} SortedNewestIsStable(s: seq<Commit>, t: int)
    ensures Ties(SortedNewest(s), t) == Ties(s, t)
    decreases |s|
  {
    if s != [] {
      var init, last := s[..|s| - 1], s[|s| - 1];
      SortedNewestIsStable(init, t);
      InsertNewestTies(SortedNewest(init), last, t);
    }
  }

  /**
   * A newest-first list with the same commits of each time, in the same
   * order, as s is the stable order of s: the sort's result is determined.
   */
  lemma {:induction false} NewestFirstStableIsUnique(r: seq<Commit>, s: seq<Commit>)
    requires NewestFirst(r)
    requires forall t :: Ties(r, t) == Ties(s, t)
    ensures r == SortedNewest(s)
  {
    SortedNewestIsNewestFirst(s);
    forall t ensures Ties(SortedNewest(s), t) == Ties(r, t) {
      SortedNewestIsStable(s, t);
    }
    SameTiesSameNewestFirst(r, SortedNewest(s));
  }

  /** Two newest-first lists with the same commits of each time, in the same order, are equal. */
  lemma {:induction false} SameTiesSameNewestFirst(a: seq<Commit>, b: seq<Commit>)
    requires NewestFirst(a) && NewestFirst(b)
    requires forall t :: Ties(a, t) == Ties(b, t)
    ensures a == b
    decreases |a| + |b|
  {
    if a == [] && b != [] {
      LastIsTie(b);
      assert false;
    } else if a != [] && b == [] {
      LastIsTie(a);
      assert false;
    } else if a != [] {
      var a', b' := a[..|a| - 1], b[..|b| - 1];
      SameLast(a, b);
      SamePrefixTies(a, b, a', b');
      PrefixNewestFirst(a);
      PrefixNewestFirst(b);
      SameTiesSameNewestFirst(a', b');
      assert a == a' + [a[|a| - 1]] && b == b' + [b[|b| - 1]];
    }
  }

  /** Newest-first lists that agree on the commits of the times of their last commits end alike. */
  lemma SameLast(a: seq<Commit>, b: seq<Commit>)
    requires NewestFirst(a) && NewestFirst(b) && a != [] && b != []
    requires Ties(a, a[|a| - 1].committedDate) == Ties(b, a[|a| - 1].committedDate)
    requires Ties(a, b[|b| - 1].committedDate) == Ties(b, b[|b| - 1].committedDate)
    ensures a[|a| - 1] == b[|b| - 1]
  {
    var x, y := a[|a| - 1], b[|b| - 1];
    LastIsTie(a);
    LastIsTie(b);
    if x.committedDate < y.committedDate {
      TiesLastOldest(b, x.committedDate);
    } else if y.committedDate < x.committedDate {
      TiesLastOldest(a, y.committedDate);
    }
  }

  /** Dropping the last commit of each of two lists with the same ties and the same last commit keeps the ties equal. */
  lemma SamePrefixTies(a: seq<Commit>, b: seq<Commit>, a': seq<Commit>, b': seq<Commit>)
    requires a != [] && b != [] && a[|a| - 1] == b[|b| - 1]
    requires a' == a[..|a| - 1] && b' == b[..|b| - 1]
    requires forall t :: Ties(a, t) == Ties(b, t)
    ensures forall t :: Ties(a', t) == Ties(b', t)
  {
    forall t ensures Ties(a', t) == Ties(b', t) {
      DropLastTie(a, t);
      DropLastTie(b, t);
    }
  }

  lemma PrefixNewestFirst(s: seq<Commit>)
    requires NewestFirst(s) && s != []
    ensures NewestFirst(s[..|s| - 1])
  {
  }

  /** The last commit of s is the last of the commits with its time. */
  lemma LastIsTie(s: seq<Commit>)
    requires s != []
    ensures var t := s[|s| - 1].committedDate;
      Ties(s, t) != [] && Ties(s, t)[|Ties(s, t)| - 1] == s[|s| - 1]
  {
  }

  /** Removing the last commit of s removes the last of the commits with its time. */
  lemma DropLastTie(s: seq<Commit>, t: int)
    requires s != []
    ensures Ties(s[..|s| - 1], t) == if s[|s| - 1].committedDate == t then Ties(s, t)[..|Ties(s, t)| - 1] else Ties(s, t)
  {
    var r := Ties(s[..|s| - 1], t);
    if s[|s| - 1].committedDate == t {
      assert (r + [s[|s| - 1]])[..|r|] == r;
    }
  }

  /** In a newest-first list, no commit is older than the last one. */
  lemma {:induction false} TiesLastOldest(s: seq<Commit>, t: int)
    requires NewestFirst(s) && s != [] && t < s[|s| - 1].committedDate
    ensures Ties(s, t) == []
    decreases |s|
  {
    var init := s[..|s| - 1];
    if init != [] {
      assert init[|init| - 1].committedDate >= s[|s| - 1].committedDate;
      TiesLastOldest(init, t);
    }
  }

  /** One step of the walk back: c passes the older last commit of s[..j]. */
  /**
   * Where InsertNewest puts c: after the last commit at least as new as c,
   * i.e. at j when j is 0 or s[j - 1] is not older than c and everything
   * from j on is strictly older.
   */
  lemma {:induction false} InsertNewestAt(s: seq<Commit>, c: Commit, j: nat)
    requires j <= |s|
    requires j == 0 || s[j - 1].committedDate >= c.committedDate
    requires forall k :: j <= k < |s| ==> s[k].committedDate < c.committedDate
    ensures InsertNewest(s, c) == s[..j] + [c] + s[j..]
    decreases |s|
  {
    if |s| == j {
      assert s[..j] == s && s[j..] == [];
    } else {
      var init := s[..|s| - 1];
      InsertNewestAt(init, c, j);
      assert init[..j] == s[..j];
      assert init[j..] + [s[|s| - 1]] == s[j..];
    }
  }

  /**
   * The walk back of the insertion step: every commit of a[..i] strictly
   * older than c, from the end, moves one place up; j is where c belongs.
   */
  method ShiftOlder(a: array<Commit>, i: nat, c: Commit) returns (j: nat)
    requires i < a.Length
    modifies a
    ensures j <= i
    ensures forall k :: 0 <= k < j ==> a[k] == old(a[k])
    ensures forall k :: j < k <= i ==> a[k] == old(a[k - 1])
    ensures forall k :: i < k < a.Length ==> a[k] == old(a[k])
    ensures j == 0 || a[j - 1].committedDate >= c.committedDate
    ensures forall k :: j < k <= i ==> a[k].committedDate < c.committedDate
  {
    j := i;
    while j > 0 && a[j - 1].committedDate < c.committedDate
      invariant 0 <= j <= i
      invariant forall k :: 0 <= k < j ==> a[k] == old(a[k])
      invariant forall k :: j < k <= i ==> a[k] == old(a[k - 1])
      invariant forall k :: i < k < a.Length ==> a[k] == old(a[k])
      invariant forall k :: j < k <= i ==> a[k].committedDate < c.committedDate
    {
      a[j] := a[j - 1];
      j := j - 1;
    }
  }

  /** The insertion step of the sort: a[..i + 1] becomes InsertNewest(a[..i], a[i]). */
  method InsertLast(a: array<Commit>, i: nat)
    requires i < a.Length
    modifies a
    ensures a[..i + 1] == InsertNewest(old(a[..i]), old(a[i]))
    ensures a[i + 1..] == old(a[i + 1..])
  {
    ghost var before := a[..];
    ghost var s := before[..i];
    var c := a[i];
    var j := ShiftOlder(a, i, c);
    forall k | j <= k < i
      ensures s[k].committedDate < c.committedDate
    {
      assert a[k + 1] == before[k];
    }
    InsertNewestAt(s, c, j);
    a[j] := c;
    ghost var inserted := s[..j] + [c] + s[j..];
    forall k | 0 <= k <= i
      ensures a[k] == inserted[k]
    {
      if k > j {
        assert a[k] == before[k - 1];
      }
    }
    assert a[..i + 1] == inserted;
    assert a[i + 1..] == before[i + 1..];
  }

  /** `commits.sort(key=committed_date, reverse=True)`, in place: the stable newest-first order. */
  method SortNewestFirst(a: array<Commit>)
    modifies a
    ensures a[..] == SortedNewest(old(a[..]))
  {
    for i := 0 to a.Length
      invariant a[..i] == SortedNewest(old(a[..])[..i])
      invariant a[i..] == old(a[..])[i..]
    {
      assert old(a[..])[..i + 1][..i] == old(a[..])[..i];
      InsertLast(a, i);
    }
    assert a[..] == a[..a.Length];
    assert old(a[..])[..a.Length] == old(a[..]);
  }

  /**
   * `get_commits_between_dates`: no commits when a date is invalid or the start
   * is after the end (whatever the backend would have said); otherwise the
   * backend's commits, all of them and nothing else, newest first, with
   * commits of the same time in the backend's order.
   */
  method GetCommitsBetweenDates(backend: Backend, branch: string, startText: string, endText: string)
    returns (commits: seq<Commit>)
    ensures CheckRange(startText, endText).Refused? ==> commits == []
    ensures CheckRange(startText, endText).Range? ==>
      var range := CheckRange(startText, endText);
      var reported := backend(branch, range.since, range.until);
      && multiset(commits) == multiset(reported)
      && NewestFirst(commits)
      && forall t :: Ties(commits, t) == Ties(reported, t)
  {
    var range := CheckRange(startText, endText);
    if range.Refused? {
      return [];
    }
    var reported := backend(branch, range.since, range.until);
    var a := new Commit[|reported|](k requires 0 <= k < |reported| => reported[k]);
    assert a[..] == reported;
    SortNewestFirst(a);
    commits := a[..];
    SortedNewestPermutes(reported);
    SortedNewestIsNewestFirst(reported);
    forall t ensures Ties(commits, t) == Ties(reported, t) {
      SortedNewestIsStable(reported, t);
    }
  }
}
