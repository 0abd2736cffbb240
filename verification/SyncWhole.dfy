// Walk, merge and plan together.

module SyncWhole {
  import opened ListSpec
  import opened SyncWalk
  import opened SyncWalkFacts
  import opened SyncMerge
  import opened SyncPlan

  /** The rows handed to the merge are the walked files, each with its own record. */
  ghost predicate Mirrors(m: Attrs, rows: seq<Row>, files: seq<FileRow>) {
    && |rows| == |files|
    && forall i :: 0 <= i < |files| ==>
         rows[i].path == files[i].path && rows[i].ptr in m && m[rows[i].ptr].meta == files[i].meta
  }

  function SideOf(files: seq<FileRow>): Side {
    if files == [] then map[] else SideOf(files[..|files| - 1])[files[|files| - 1].path := files[|files| - 1].meta]
  }

  lemma {:induction false} SideOfRow(files: seq<FileRow>, i: nat)
    requires NoRepeats(files) && i < |files|
    ensures files[i].path in SideOf(files) && SideOf(files)[files[i].path] == files[i].meta
    decreases |files|
  {
    if i < |files| - 1 {
      SideOfRow(files[..|files| - 1], i);
    }
  }

  lemma {:induction false} SideOfPath(files: seq<FileRow>, path: string)
    ensures path in SideOf(files) <==> Visits(files, path)
    decreases |files|
  {
    if files != [] {
      var front, last := files[..|files| - 1], files[|files| - 1];
      SideOfPath(front, path);
      assert files == front + [last];
      VisitsConcat(front, [last], path);
      assert Visits([last], path) <==> last.path == path by {
        assert [last][0] == last;
      }
    }
  }

  /** A walked tree lists its own side. */
  lemma {:induction false} WalkListsSide(n: Node, m: Attrs, rows: seq<Row>)
    requires WellNamed(n) && Mirrors(m, rows, Enum("", n))
    ensures ListsSide(m, rows, SideOf(Enum("", n)))
  {
    var files := Enum("", n);
    EnumNoRepeats("", n);
    forall i | 0 <= i < |rows|
      ensures rows[i].path in SideOf(files) && m[rows[i].ptr].meta == SideOf(files)[rows[i].path]
    {
      SideOfRow(files, i);
    }
    forall i, j | 0 <= i < j < |rows|
      ensures rows[i].path != rows[j].path
    {
      assert files[i].path != files[j].path;
    }
    forall path | path in SideOf(files)
      ensures IndexOf(rows, path) < |rows|
    {
      SideOfPath(files, path);
      var i :| 0 <= i < |files| && files[i].path == path;
      assert rows[i].path == path;
    }
  }

  /** Walking two trees with the same paths and merging finds nothing on one side only. */
  lemma {:induction false} SameTreesMergeCleanly(local: Node, remote: Node, m: Attrs, l: seq<Row>, r: seq<Row>, i: nat)
    requires WellNamed(local) && WellNamed(remote)
    requires Mirrors(m, l, Enum("", local)) && Mirrors(m, r, Enum("", remote))
    requires forall parts :: Holds(local, parts) <==> Holds(remote, parts)
    requires i < |Diffs(m, l, r)|
    ensures Diffs(m, l, r)[i].class_ != LocalOnly && Diffs(m, l, r)[i].class_ != RemoteOnly
  {
    var a, b := SideOf(Enum("", local)), SideOf(Enum("", remote));
    WalkListsSide(local, m, l);
    WalkListsSide(remote, m, r);
    forall path
      ensures path in a <==> path in b
    {
      SideOfPath(Enum("", local), path);
      SideOfPath(Enum("", remote), path);
      WalkVisitsExactly(local, path);
      WalkVisitsExactly(remote, path);
    }
    SamePathsNoOnly(m, l, r, a, b, i);
  }

  /** One round of the synchroniser over two listings: merge them and plan the transfers. */
  method Synchronize(walker: SyncWalker, direct: Direct, ghost local: Side,
      ghost remote: Side) returns (tasks: seq<Task>)
    requires Separate(walker.attrs, walker.lfiles, walker.rfiles)
    requires ListsSide(walker.attrs, walker.lfiles, local) && ListsSide(walker.attrs, walker.rfiles, remote)
    modifies walker
    ensures forall t :: t in tasks <==> Wanted(local, remote, direct, t)
    ensures Distinct(tasks)
    ensures forall path :: Upload(path) in tasks <==>
      Due(local, remote, path, direct.TaskUpload? || direct.TaskBoth? || direct.TaskUploadLocalOnly?,
          direct.TaskUpload? || direct.TaskBoth?)
    ensures forall path :: Download(path) in tasks <==>
      Due(remote, local, path, direct.TaskDownload? || direct.TaskBoth? || direct.TaskDownloadRemoteOnly?,
          direct.TaskDownload? || direct.TaskBoth?)
    ensures direct.TaskBoth? ==> forall path :: path in local && path in remote ==>
      && (Upload(path) in tasks <==> local[path].mtime > remote[path].mtime + 2)
      && (Download(path) in tasks <==> remote[path].mtime > local[path].mtime + 2)
  {
    ghost var m, l, r := walker.attrs, walker.lfiles, walker.rfiles;
    var files := walker.SortMerge();
    ghost var rows := Diffs(m, l, r);
    forall i | 0 <= i < |files|
      ensures files[i].ptr in walker.attrs && Classed(walker.attrs[files[i].ptr].flags, rows[i].class_)
    {
      assert RowClassed(m, l, r, i, files[i].ptr, walker.attrs);
    }
    tasks := SyncAllFiles(files, walker.attrs, direct, rows);
    PlanOnce(m, l, r, local, remote, direct);
    forall path
      ensures Upload(path) in tasks <==>
        Due(local, remote, path, direct.TaskUpload? || direct.TaskBoth? || direct.TaskUploadLocalOnly?,
            direct.TaskUpload? || direct.TaskBoth?)
      ensures Download(path) in tasks <==>
        Due(remote, local, path, direct.TaskDownload? || direct.TaskBoth? || direct.TaskDownloadRemoteOnly?,
            direct.TaskDownload? || direct.TaskBoth?)
    {
      PlanByTime(m, l, r, local, remote, direct, path);
    }
    forall t
      ensures t in tasks <==> Wanted(local, remote, direct, t)
    {
      PlanIffWanted(m, l, r, local, remote, direct, t);
    }
  }
}
