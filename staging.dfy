/**
 * The staging copier `copy_files_to_staging` and the staging folder it writes.
 *
 * The working tree and the staging folder are maps from relative paths to file
 * contents. Whether copying one existing file fails (permissions, I/O) is not
 * visible to the script; it is the parameter `copyFails`. A failed copy is
 * taken to leave the staging folder as it was.
 */
module Staging {

  type Path = string

  type Content = seq<bv8>

  /** The file the manifest is written to, inside the staging folder. */
  const ManifestName: Path := "changes.json"

  /**
   * The paths the copier reports as staged, taking the changed paths in order:
   * those that exist in the working tree and whose copy does not fail.
   */
  function StagedFiles(changed: seq<Path>, work: map<Path, Content>, copyFails: Path -> bool): (staged: set<Path>)
    ensures forall p :: p in staged <==> p in changed && p in work && !copyFails(p)
    decreases |changed|
  {
    if changed == [] then {}
    else
      var last := changed[|changed| - 1];
      assert changed == changed[..|changed| - 1] + [last];
      StagedFiles(changed[..|changed| - 1], work, copyFails) + (if last in work && !copyFails(last) then {last} else {})
  }

  /**
   * The staging folder after the copier, taking the changed paths in order:
   * every staged path holds its working-tree content, and every other path is
   * as it was.
   */
  function CopiedTree(tree: map<Path, Content>, changed: seq<Path>, work: map<Path, Content>, copyFails: Path -> bool)
    : (after: map<Path, Content>)
    ensures after.Keys == tree.Keys + StagedFiles(changed, work, copyFails)
    ensures forall p :: p in StagedFiles(changed, work, copyFails) ==> after[p] == work[p]
    ensures forall p :: p in tree && p !in StagedFiles(changed, work, copyFails) ==> after[p] == tree[p]
    decreases |changed|
  {
    if changed == [] then tree
    else
      var last := changed[|changed| - 1];
      var before := CopiedTree(tree, changed[..|changed| - 1], work, copyFails);
      if last in work && !copyFails(last) then before[last := work[last]] else before
  }

  /** The staging folder on disk. */
  class StagingFolder {
    var files: map<Path, Content>

    /** The folder as made at the start of a run: any earlier one is removed first, so it is empty. */
    constructor ()
      ensures files == map[]
    {
      files := map[];
    }

    /**
     * `copy_files_to_staging`: copies each changed path that exists in the
     * working tree to the same path in the folder and returns the paths whose
     * copy succeeded.
     */
    method CopyFilesToStaging(changed: seq<Path>, work: map<Path, Content>, copyFails: Path -> bool)
      returns (staged: set<Path>)
      modifies this
      ensures staged == StagedFiles(changed, work, copyFails)
      ensures files == CopiedTree(old(files), changed, work, copyFails)
    {
      staged := {};
      for i := 0 to |changed|
        invariant staged == StagedFiles(changed[..i], work, copyFails)
        invariant files == CopiedTree(old(files), changed[..i], work, copyFails)
      {
        var path := changed[i];
        assert changed[..i + 1] == changed[..i] + [path];
        CopyOneMore(old(files), changed[..i], path, work, copyFails);
        if path in work {
          if !copyFails(path) {
            files := files[path := work[path]];
            staged := staged + {path};
          }
        }
      }
      assert changed[..|changed|] == changed;
    }

    /** `open(path, "w")` and a write: the file at path holds content, replacing what was there. */
    method WriteFile(path: Path, content: Content)
      modifies this
      ensures files == old(files)[path := content]
    {
      files := files[path := content];
    }
  }

  /** Copying one more path extends the staged set and the folder by that path alone, if it is copied. */
  lemma CopyOneMore(tree: map<Path, Content>, changed: seq<Path>, path: Path, work: map<Path, Content>, copyFails: Path -> bool)
    ensures StagedFiles(changed + [path], work, copyFails)
            == StagedFiles(changed, work, copyFails) + (if path in work && !copyFails(path) then {path} else {})
    ensures CopiedTree(tree, changed + [path], work, copyFails)
            == if path in work && !copyFails(path) then CopiedTree(tree, changed, work, copyFails)[path := work[path]]
               else CopiedTree(tree, changed, work, copyFails)
  {
    assert (changed + [path])[..|changed|] == changed;
  }

  /**
   * Copying the same paths a second time from the same working tree changes
   * nothing more: the folder and the staged set are those of the first copy.
   */
  lemma CopyIsIdempotent(tree: map<Path, Content>, changed: seq<Path>, work: map<Path, Content>, copyFails: Path -> bool)
    ensures CopiedTree(CopiedTree(tree, changed, work, copyFails), changed, work, copyFails)
            == CopiedTree(tree, changed, work, copyFails)
  {
  }

  /** A path that is missing from the working tree is never staged and never written. */
  lemma MissingPathNotStaged(tree: map<Path, Content>, changed: seq<Path>, work: map<Path, Content>, copyFails: Path -> bool, p: Path)
    requires p !in work
    ensures p !in StagedFiles(changed, work, copyFails)
    ensures (p in CopiedTree(tree, changed, work, copyFails)) == (p in tree)
  {
  }
}
