// The transfer plan, and what is left to do after carrying it out.

module SyncPlan {
  import opened ListSpec
  import opened SyncWalk
  import opened SyncMerge

  // src/synctransferthread.h:59
  datatype Direct = TaskUpload | TaskDownload | TaskBoth | TaskUploadLocalOnly | TaskDownloadRemoteOnly

  datatype Task = Upload(path: string) | Download(path: string)

  predicate Uploads(direct: Direct, c: Class) {
    || (c == LocalOnly && (direct == TaskUpload || direct == TaskBoth || direct == TaskUploadLocalOnly))
    || (c == LocalNewer && (direct == TaskUpload || direct == TaskBoth))
  }

  predicate Downloads(direct: Direct, c: Class) {
    || (c == RemoteOnly && (direct == TaskDownload || direct == TaskBoth || direct == TaskDownloadRemoteOnly))
    || (c == RemoteNewer && (direct == TaskDownload || direct == TaskBoth))
  }

  // A merged row as the plan sees it.
  datatype Diff = Diff(path: string, class_: Class)

  function TaskOf(d: Diff, direct: Direct): seq<Task> {
    if Uploads(direct, d.class_) then [Upload(d.path)]
    else if Downloads(direct, d.class_) then [Download(d.path)]
    else []
  }

  function Plan(rows: seq<Diff>, direct: Direct): seq<Task> {
    if rows == [] then [] else Plan(rows[..|rows| - 1], direct) + TaskOf(rows[|rows| - 1], direct)
  }

  lemma {:induction false} BitsApart(flags: bv32, c: Class, d: Class)
    requires Classed(flags, c)
    ensures flags & Bit(d) != 0 <==> c == d
  {
    assert flags & Bit(d) == (flags & 0x0FC0_0000) & Bit(d);
  }

  /** syncAllFiles: tests the six bits of every row and emits the transfers. */
  method SyncAllFiles(files: seq<Row>, attrs: Attrs, direct: Direct, ghost rows: seq<Diff>) returns (tasks: seq<Task>)
    requires |rows| == |files|
    requires forall i :: 0 <= i < |files| ==>
      files[i].ptr in attrs && rows[i].path == files[i].path && Classed(attrs[files[i].ptr].flags, rows[i].class_)
    ensures tasks == Plan(rows, direct)
  {
    tasks := [];
    for i := 0 to |files|
      invariant tasks == Plan(rows[..i], direct)
    {
      var path, flags := files[i].path, attrs[files[i].ptr].flags;
      BitsApart(flags, rows[i].class_, LocalOnly);
      BitsApart(flags, rows[i].class_, RemoteOnly);
      BitsApart(flags, rows[i].class_, LocalNewer);
      BitsApart(flags, rows[i].class_, RemoteNewer);
      assert rows[..i + 1][..i] == rows[..i];
      if flags & Bit(LocalOnly) != 0 {
        if direct == TaskUpload || direct == TaskBoth {
          tasks := tasks + [Upload(path)];
        }
        if direct == TaskUploadLocalOnly {
          tasks := tasks + [Upload(path)];
        }
      }
      if flags & Bit(RemoteOnly) != 0 {
        if direct == TaskDownload || direct == TaskBoth {
          tasks := tasks + [Download(path)];
        }
        if direct == TaskDownloadRemoteOnly {
          tasks := tasks + [Download(path)];
        }
      }
      if flags & Bit(LocalNewer) != 0 {
        if direct == TaskUpload || direct == TaskBoth {
          tasks := tasks + [Upload(path)];
        }
      }
      if flags & Bit(RemoteNewer) != 0 {
        if direct == TaskDownload || direct == TaskBoth {
          tasks := tasks + [Download(path)];
        }
      }
    }
    assert rows[..|rows|] == rows;
  }

  // ----- Both directions at once -----

  function OnlyUploads(tasks: seq<Task>): seq<Task> {
    if tasks == [] then []
    else OnlyUploads(tasks[..|tasks| - 1]) + if tasks[|tasks| - 1].Upload? then [tasks[|tasks| - 1]] else []
  }

  function OnlyDownloads(tasks: seq<Task>): seq<Task> {
    if tasks == [] then []
    else OnlyDownloads(tasks[..|tasks| - 1]) + if tasks[|tasks| - 1].Download? then [tasks[|tasks| - 1]] else []
  }

  lemma {:induction false} OnlyAppend(tasks: seq<Task>, t: Task)
    ensures OnlyUploads(tasks + [t]) == if t.Upload? then OnlyUploads(tasks) + [t] else OnlyUploads(tasks)
    ensures OnlyDownloads(tasks + [t]) == if t.Download? then OnlyDownloads(tasks) + [t] else OnlyDownloads(tasks)
  {
    assert (tasks + [t])[..|tasks|] == tasks;
  }

  lemma {:induction false} PlanStep(rows: seq<Diff>, direct: Direct)
    requires rows != []
    ensures var front, d := Plan(rows[..|rows| - 1], direct), rows[|rows| - 1];
      Plan(rows, direct) == if Uploads(direct, d.class_) then front + [Upload(d.path)]
                            else if Downloads(direct, d.class_) then front + [Download(d.path)]
                            else front
  {
  }

  lemma {:induction false} BothHasDownloads(rows: seq<Diff>)
    ensures OnlyDownloads(Plan(rows, TaskBoth)) == Plan(rows, TaskDownload)
    decreases |rows|
  {
    if rows != [] {
      var front, d := rows[..|rows| - 1], rows[|rows| - 1];
      BothHasDownloads(front);
      PlanStep(rows, TaskBoth);
      PlanStep(rows, TaskDownload);
      if Uploads(TaskBoth, d.class_) {
        OnlyAppend(Plan(front, TaskBoth), Upload(d.path));
      } else if Downloads(TaskBoth, d.class_) {
        OnlyAppend(Plan(front, TaskBoth), Download(d.path));
      }
    }
  }

  lemma {:induction false} BothHasUploads(rows: seq<Diff>)
    ensures OnlyUploads(Plan(rows, TaskBoth)) == Plan(rows, TaskUpload)
    decreases |rows|
  {
    if rows != [] {
      var front, d := rows[..|rows| - 1], rows[|rows| - 1];
      BothHasUploads(front);
      PlanStep(rows, TaskBoth);
      PlanStep(rows, TaskUpload);
      if Uploads(TaskBoth, d.class_) {
        OnlyAppend(Plan(front, TaskBoth), Upload(d.path));
      } else if Downloads(TaskBoth, d.class_) {
        OnlyAppend(Plan(front, TaskBoth), Download(d.path));
      }
    }
  }

  lemma {:induction false} OnlyCounts(tasks: seq<Task>)
    ensures |tasks| == |OnlyUploads(tasks)| + |OnlyDownloads(tasks)|
    decreases |tasks|
  {
    if tasks != [] {
      OnlyCounts(tasks[..|tasks| - 1]);
    }
  }

  /** TASK_BOTH is the upload plan and the download plan, each in its own order, and nothing more. */
  lemma {:induction false} BothIsUploadsAndDownloads(rows: seq<Diff>)
    ensures OnlyUploads(Plan(rows, TaskBoth)) == Plan(rows, TaskUpload)
    ensures OnlyDownloads(Plan(rows, TaskBoth)) == Plan(rows, TaskDownload)
    ensures |Plan(rows, TaskBoth)| == |Plan(rows, TaskUpload)| + |Plan(rows, TaskDownload)|
  {
    BothHasUploads(rows);
    BothHasDownloads(rows);
    OnlyCounts(Plan(rows, TaskBoth));
  }

  // ----- The plan, path by path -----

  type Side = map<string, Meta>

  /** What the two sides say about a path. */
  function StateOf(local: Side, remote: Side, path: string): Class
    requires path in local || path in remote
  {
    if path !in remote then LocalOnly
    else if path !in local then RemoteOnly
    else Compare(remote[path], local[path])
  }

  ghost predicate Wanted(local: Side, remote: Side, direct: Direct, t: Task) {
    (t.path in local || t.path in remote) &&
    if t.Upload? then Uploads(direct, StateOf(local, remote, t.path))
    else Downloads(direct, StateOf(local, remote, t.path))
  }

  /** `rows` list one side: every path once, with its metadata. */
  ghost predicate ListsSide(m: Attrs, rows: seq<Row>, side: Side) {
    && (forall i, j :: 0 <= i < j < |rows| ==> rows[i].path != rows[j].path)
    && (forall i :: 0 <= i < |rows| ==>
          rows[i].path in side && rows[i].ptr in m && m[rows[i].ptr].meta == side[rows[i].path])
    && (forall path :: path in side ==> IndexOf(rows, path) < |rows|)
  }

  function Diffs(m: Attrs, l: seq<Row>, r: seq<Row>): (ds: seq<Diff>)
    ensures |ds| == |r + Left(l, r)|
    ensures forall i :: 0 <= i < |ds| ==> ds[i] == Diff((r + Left(l, r))[i].path, RowClass(m, l, r, i))
  {
    var files := r + Left(l, r);
    seq(|files|, i requires 0 <= i < |files| => Diff(files[i].path, RowClass(m, l, r, i)))
  }

  ghost predicate HasPath(rows: seq<Row>, path: string) {
    exists i :: 0 <= i < |rows| && rows[i].path == path
  }

  lemma {:induction false} HasPathAppend(rows: seq<Row>, x: Row, path: string)
    ensures HasPath(rows + [x], path) <==> HasPath(rows, path) || x.path == path
  {
    if HasPath(rows, path) {
      var i :| 0 <= i < |rows| && rows[i].path == path;
      assert (rows + [x])[i] == rows[i];
    }
    assert (rows + [x])[|rows|] == x;
  }

  lemma {:induction false} DropIff(rows: seq<Row>, j: nat, path: string, row: Row)
    requires j == IndexOf(rows, path)
    requires forall a, b :: 0 <= a < b < |rows| ==> rows[a].path != rows[b].path
    ensures row in DropAt(rows, j) <==> row in rows && row.path != path
    ensures forall a, b :: 0 <= a < b < |DropAt(rows, j)| ==> DropAt(rows, j)[a].path != DropAt(rows, j)[b].path
  {
    if j < |rows| {
      assert rows == rows[..j] + [rows[j]] + rows[j + 1..];
    }
  }

  /** With unique paths the unmatched local rows are exactly those no remote row names. */
  lemma {:induction false} LeftIff(l: seq<Row>, r: seq<Row>, row: Row)
    requires forall i, j :: 0 <= i < j < |l| ==> l[i].path != l[j].path
    ensures row in Left(l, r) <==> row in l && !HasPath(r, row.path)
    ensures forall i, j :: 0 <= i < j < |Left(l, r)| ==> Left(l, r)[i].path != Left(l, r)[j].path
    decreases |r|
  {
    if r != [] {
      var front, x := r[..|r| - 1], r[|r| - 1];
      LeftIff(l, front, row);
      var left := Left(l, front);
      HasPathAppend(front, x, row.path);
      assert r == front + [x];
      DropIff(left, IndexOf(left, x.path), x.path, row);
    }
  }

  lemma {:induction false} FoundIn(rows: seq<Row>, path: string, row: Row)
    requires row in rows && row.path == path
    requires forall i, j :: 0 <= i < j < |rows| ==> rows[i].path != rows[j].path
    ensures IndexOf(rows, path) < |rows| && rows[IndexOf(rows, path)] == row
  {
    var i :| 0 <= i < |rows| && rows[i] == row;
    assert IndexOf(rows, path) <= i;
  }

  lemma {:induction false} SideHasPath(m: Attrs, rows: seq<Row>, side: Side, path: string)
    requires ListsSide(m, rows, side)
    ensures path in side <==> HasPath(rows, path)
    ensures path in side ==> IndexOf(rows, path) < |rows| && rows[IndexOf(rows, path)] in rows
  {
    if path in side {
      assert rows[IndexOf(rows, path)].path == path;
    }
  }

  /** Looking a path up among the unmatched rows finds the local row, if there is one. */
  lemma {:induction false} LookupLeft(m: Attrs, l: seq<Row>, front: seq<Row>, local: Side, path: string)
    requires ListsSide(m, l, local) && !HasPath(front, path)
    ensures var left := Left(l, front); var j := IndexOf(left, path);
      if path in local then j < |left| && left[j].path == path && left[j].ptr in m && m[left[j].ptr].meta == local[path]
      else j == |left|
  {
    var left := Left(l, front);
    SideHasPath(m, l, local, path);
    if path in local {
      var row := l[IndexOf(l, path)];
      LeftIff(l, front, row);
      FoundIn(left, path, row);
    } else {
      forall k | 0 <= k < |left|
        ensures left[k].path != path
      {
        var j := LeftFrom(l, front, k);
      }
    }
  }

  /** A remote row is classified by what the two sides say about its path. */
  lemma {:induction false} RemoteClass(m: Attrs, l: seq<Row>, r: seq<Row>, local: Side, remote: Side, i: nat)
    requires ListsSide(m, l, local) && ListsSide(m, r, remote) && i < |r|
    ensures r[i].path in remote && ClassAt(m, l, r, i) == StateOf(local, remote, r[i].path)
  {
    assert !HasPath(r[..i], r[i].path);
    LookupLeft(m, l, r[..i], local, r[i].path);
  }

  lemma {:induction false} PlanHas(rows: seq<Diff>, direct: Direct, t: Task)
    ensures t in Plan(rows, direct) <==> exists i :: 0 <= i < |rows| && t in TaskOf(rows[i], direct)
    decreases |rows|
  {
    if rows != [] {
      var front := rows[..|rows| - 1];
      PlanHas(front, direct, t);
      if i :| 0 <= i < |front| && t in TaskOf(front[i], direct) {
        assert rows[i] == front[i];
      }
      if i :| 0 <= i < |rows| && t in TaskOf(rows[i], direct) {
        assert i < |front| ==> front[i] == rows[i];
      }
    }
  }

  /** Every merged row states its path's class. */
  lemma {:induction false} DiffIsState(m: Attrs, l: seq<Row>, r: seq<Row>, local: Side, remote: Side, i: nat)
    requires ListsSide(m, l, local) && ListsSide(m, r, remote) && i < |Diffs(m, l, r)|
    ensures var d := Diffs(m, l, r)[i];
      (d.path in local || d.path in remote) && d.class_ == StateOf(local, remote, d.path)
  {
    if i < |r| {
      RemoteClass(m, l, r, local, remote, i);
    } else {
      var row := Left(l, r)[i - |r|];
      LeftIff(l, r, row);
      var j := LeftFrom(l, r, i - |r|);
      SideHasPath(m, r, remote, row.path);
    }
  }

  lemma {:induction false} LocalHasDiff(m: Attrs, l: seq<Row>, r: seq<Row>, local: Side, path: string) returns (k: nat)
    requires ListsSide(m, l, local) && path in local && !HasPath(r, path)
    ensures k < |Left(l, r)| && Left(l, r)[k].path == path
  {
    LookupLeft(m, l, r, local, path);
    k := IndexOf(Left(l, r), path);
  }

  /** Every path of either side has its row. */
  lemma {:induction false} PathHasDiff(m: Attrs, l: seq<Row>, r: seq<Row>, local: Side, remote: Side,
      path: string) returns (i: nat)
    requires ListsSide(m, l, local) && ListsSide(m, r, remote) && (path in local || path in remote)
    ensures i < |r + Left(l, r)| && (r + Left(l, r))[i].path == path
  {
    SideHasPath(m, r, remote, path);
    if path in remote {
      i := IndexOf(r, path);
    } else {
      var k := LocalHasDiff(m, l, r, local, path);
      i := |r| + k;
    }
  }

  lemma {:induction false} TaskIffWanted(local: Side, remote: Side, direct: Direct, d: Diff, t: Task)
    requires d.path in local || d.path in remote
    requires d.class_ == StateOf(local, remote, d.path)
    ensures t in TaskOf(d, direct) <==> t.path == d.path && Wanted(local, remote, direct, t)
  {
  }

  /** The plan holds exactly the wanted transfers. */
  lemma {:induction false} PlanIffWanted(m: Attrs, l: seq<Row>, r: seq<Row>, local: Side, remote: Side,
      direct: Direct, t: Task)
    requires ListsSide(m, l, local) && ListsSide(m, r, remote)
    ensures t in Plan(Diffs(m, l, r), direct) <==> Wanted(local, remote, direct, t)
  {
    var rows := Diffs(m, l, r);
    PlanHas(rows, direct, t);
    forall i | 0 <= i < |rows|
      ensures t in TaskOf(rows[i], direct) <==> t.path == rows[i].path && Wanted(local, remote, direct, t)
    {
      DiffIsState(m, l, r, local, remote, i);
      TaskIffWanted(local, remote, direct, rows[i], t);
    }
    if t.path in local || t.path in remote {
      var i := PathHasDiff(m, l, r, local, remote, t.path);
      assert rows[i].path == t.path;
    }
  }

  lemma {:induction false} TaskHasPath(d: Diff, direct: Direct, t: Task)
    ensures t in TaskOf(d, direct) ==> t.path == d.path
  {
  }

  /** Where no path occurs twice no transfer is planned twice. */
  lemma {:induction false} PlanDistinct(rows: seq<Diff>, direct: Direct)
    requires forall i, j :: 0 <= i < j < |rows| ==> rows[i].path != rows[j].path
    ensures Distinct(Plan(rows, direct))
    decreases |rows|
  {
    if rows != [] {
      var front, d := rows[..|rows| - 1], rows[|rows| - 1];
      PlanDistinct(front, direct);
      if TaskOf(d, direct) != [] {
        var t := TaskOf(d, direct)[0];
        PlanHas(front, direct, t);
        forall i | 0 <= i < |front|
          ensures t !in TaskOf(front[i], direct)
        {
          TaskHasPath(front[i], direct, t);
        }
        DistinctMore(Plan(front, direct), t);
        assert TaskOf(d, direct) == [t] && t.path == d.path;
      }
    }
  }

  /** The merged list names no path twice, so a plan holds each transfer once. */
  lemma {:induction false} PlanOnce(m: Attrs, l: seq<Row>, r: seq<Row>, local: Side, remote: Side, direct: Direct)
    requires ListsSide(m, l, local) && ListsSide(m, r, remote)
    ensures Distinct(Plan(Diffs(m, l, r), direct))
  {
    var rows, left := Diffs(m, l, r), Left(l, r);
    forall i, j | 0 <= i < j < |rows|
      ensures rows[i].path != rows[j].path
    {
      if |r| <= j {
        LeftIff(l, r, left[j - |r|]);
        assert i < |r| ==> HasPath(r, r[i].path);
      }
    }
    PlanDistinct(rows, direct);
  }

  // ----- The plan in terms of sizes and times -----

  /** `path` is known on both sides, and the copy in `a` is more than two seconds younger than that in `b`. */
  ghost predicate Younger(a: Side, b: Side, path: string) {
    path in a && path in b && a[path].mtime > b[path].mtime + 2
  }

  /** What sends a path from `from` to `to`: being there alone, or being younger there, as far as the chosen
      direction covers it. */
  ghost predicate Due(from: Side, to: Side, path: string, alone: bool, younger: bool) {
    (alone && path in from && path !in to) || (younger && Younger(from, to, path))
  }

  /** A transfer is wanted for a file known on one side only, or clearly younger on one side. */
  lemma {:induction false} WantedByTime(local: Side, remote: Side, direct: Direct, path: string)
    ensures Wanted(local, remote, direct, Upload(path)) <==>
      Due(local, remote, path, direct.TaskUpload? || direct.TaskBoth? || direct.TaskUploadLocalOnly?,
          direct.TaskUpload? || direct.TaskBoth?)
    ensures Wanted(local, remote, direct, Download(path)) <==>
      Due(remote, local, path, direct.TaskDownload? || direct.TaskBoth? || direct.TaskDownloadRemoteOnly?,
          direct.TaskDownload? || direct.TaskBoth?)
  {
  }

  /** The plan, path by path, read off the metadata of the two sides. */
  lemma {:induction false} PlanByTime(m: Attrs, l: seq<Row>, r: seq<Row>, local: Side, remote: Side, direct: Direct,
      path: string)
    requires ListsSide(m, l, local) && ListsSide(m, r, remote)
    ensures Upload(path) in Plan(Diffs(m, l, r), direct) <==>
      Due(local, remote, path, direct.TaskUpload? || direct.TaskBoth? || direct.TaskUploadLocalOnly?,
          direct.TaskUpload? || direct.TaskBoth?)
    ensures Download(path) in Plan(Diffs(m, l, r), direct) <==>
      Due(remote, local, path, direct.TaskDownload? || direct.TaskBoth? || direct.TaskDownloadRemoteOnly?,
          direct.TaskDownload? || direct.TaskBoth?)
  {
    PlanIffWanted(m, l, r, local, remote, direct, Upload(path));
    PlanIffWanted(m, l, r, local, remote, direct, Download(path));
    WantedByTime(local, remote, direct, path);
  }

  lemma {:induction false} BitsOfClass(flags: bv32, c: Class)
    requires Classed(flags, c)
    ensures var bits := flags & 0x0FC0_0000;
      && (bits == 0x0040_0000 <==> c == LocalOnly) && (bits == 0x0080_0000 <==> c == RemoteOnly)
      && (bits == 0x0100_0000 <==> c == LocalNewer) && (bits == 0x0200_0000 <==> c == RemoteNewer)
      && (bits == 0x0400_0000 <==> c == Equal) && (bits == 0x0800_0000 <==> c == Different)
  {
  }

  /** The class bits of a merged row, read off the metadata of the two sides. */
  lemma {:induction false} RowBits(m0: Attrs, l: seq<Row>, r: seq<Row>, m: Attrs, local: Side, remote: Side, i: nat)
    requires ListsSide(m0, l, local) && ListsSide(m0, r, remote) && i < |r + Left(l, r)|
    requires RowsClassed(m0, l, r, r + Left(l, r), m)
    ensures (r + Left(l, r))[i].ptr in m
    ensures var path, bits := (r + Left(l, r))[i].path, m[(r + Left(l, r))[i].ptr].flags & 0x0FC0_0000;
      && (path !in remote <==> bits == 0x0040_0000) && (path !in local <==> bits == 0x0080_0000)
      && (Younger(local, remote, path) <==> bits == 0x0100_0000)
      && (Younger(remote, local, path) <==> bits == 0x0200_0000)
      && (bits == 0x0400_0000 || bits == 0x0800_0000 <==>
            path in local && path in remote && !Younger(local, remote, path) && !Younger(remote, local, path))
      && (bits == 0x0400_0000 ==> local[path].size == remote[path].size)
      && (bits == 0x0800_0000 ==> local[path].size != remote[path].size)
  {
    var row := (r + Left(l, r))[i];
    assert RowClassed(m0, l, r, i, row.ptr, m);
    DiffIsState(m0, l, r, local, remote, i);
    assert Diffs(m0, l, r)[i].path == row.path;
    BitsOfClass(m[row.ptr].flags, RowClass(m0, l, r, i));
  }

  // ----- After the transfers -----

  /** A download overwrites the local side, size and modification time included. */
  ghost function LocalAfter(local: Side, remote: Side, done: set<Task>): Side {
    local + map path | path in remote && Download(path) in done :: remote[path]
  }

  ghost function RemoteAfter(local: Side, remote: Side, done: set<Task>): Side {
    remote + map path | path in local && Upload(path) in done :: local[path]
  }

  /** A path is never wanted both ways. */
  lemma {:induction false} OneWay(local: Side, remote: Side, direct: Direct, path: string)
    ensures !(Wanted(local, remote, direct, Upload(path)) && Wanted(local, remote, direct, Download(path)))
  {
  }

  /** What is wanted after some of the wanted transfers were made is what is still undone. */
  lemma {:induction false} WantedAfter(local: Side, remote: Side, direct: Direct, done: set<Task>, t: Task)
    requires forall d :: d in done ==> Wanted(local, remote, direct, d)
    ensures Wanted(LocalAfter(local, remote, done), RemoteAfter(local, remote, done), direct, t)
        <==> Wanted(local, remote, direct, t) && t !in done
  {
    var path := t.path;
    OneWay(local, remote, direct, path);
    var local', remote' := LocalAfter(local, remote, done), RemoteAfter(local, remote, done);
    if Upload(path) in done || Download(path) in done {
      assert path in local' && path in remote' && local'[path] == remote'[path];
      assert StateOf(local', remote', path) == Equal;
    } else {
      assert path in local' <==> path in local;
      assert path in remote' <==> path in remote;
    }
  }

  /** Carrying out any part of a plan loses no path and never replaces a file by an older one. */
  lemma {:induction false} NothingGetsOlder(local: Side, remote: Side, direct: Direct, done: set<Task>, path: string)
    requires forall d :: d in done ==> Wanted(local, remote, direct, d)
    ensures var local' := LocalAfter(local, remote, done);
      path in local ==> path in local' && local'[path].mtime >= local[path].mtime
    ensures var remote' := RemoteAfter(local, remote, done);
      path in remote ==> path in remote' && remote'[path].mtime >= remote[path].mtime
  {
    WantedByTime(local, remote, direct, path);
  }

  /** Carrying out a transfer makes the two sides agree on its path; other paths are as before. */
  lemma {:induction false} TransfersAgree(local: Side, remote: Side, direct: Direct, done: set<Task>, path: string)
    requires forall d :: d in done ==> Wanted(local, remote, direct, d)
    ensures var local', remote' := LocalAfter(local, remote, done), RemoteAfter(local, remote, done);
      && (Upload(path) in done ==>
            path in local && path in local' && path in remote' && local'[path] == remote'[path] == local[path])
      && (Download(path) in done ==>
            path in remote && path in local' && path in remote' && local'[path] == remote'[path] == remote[path])
      && (Download(path) !in done ==>
            (path in local' <==> path in local) && (path in local ==> local'[path] == local[path]))
      && (Upload(path) !in done ==>
            (path in remote' <==> path in remote) && (path in remote ==> remote'[path] == remote[path]))
  {
    OneWay(local, remote, direct, path);
  }

  /** `rows` and `rows'` are listings before and after the transfers in `done`. */
  ghost predicate Resynced(m: Attrs, l: seq<Row>, r: seq<Row>, m': Attrs, l': seq<Row>, r': seq<Row>,
                           local: Side, remote: Side, done: set<Task>) {
    && ListsSide(m, l, local) && ListsSide(m, r, remote)
    && ListsSide(m', l', LocalAfter(local, remote, done)) && ListsSide(m', r', RemoteAfter(local, remote, done))
  }

  lemma {:induction false} SecondPlanHas(m: Attrs, l: seq<Row>, r: seq<Row>, m': Attrs, l': seq<Row>, r': seq<Row>,
                                         local: Side, remote: Side, direct: Direct, done: set<Task>, t: Task)
    requires Resynced(m, l, r, m', l', r', local, remote, done)
    requires forall d :: d in done ==> d in Plan(Diffs(m, l, r), direct)
    ensures t in Plan(Diffs(m', l', r'), direct) <==> t in Plan(Diffs(m, l, r), direct) && t !in done
  {
    forall d | d in done
      ensures Wanted(local, remote, direct, d)
    {
      PlanIffWanted(m, l, r, local, remote, direct, d);
    }
    PlanIffWanted(m, l, r, local, remote, direct, t);
    PlanIffWanted(m', l', r', LocalAfter(local, remote, done), RemoteAfter(local, remote, done), direct, t);
    WantedAfter(local, remote, direct, done, t);
  }

  /** Merging and planning again after part of a plan was carried out yields exactly the rest of it;
      after the whole plan it yields nothing. */
  lemma {:induction false} SecondPlanIsRest(m: Attrs, l: seq<Row>, r: seq<Row>, m': Attrs, l': seq<Row>, r': seq<Row>,
                                            local: Side, remote: Side, direct: Direct, done: set<Task>)
    requires Resynced(m, l, r, m', l', r', local, remote, done)
    requires forall t :: t in done ==> t in Plan(Diffs(m, l, r), direct)
    ensures forall t :: t in Plan(Diffs(m', l', r'), direct) <==> t in Plan(Diffs(m, l, r), direct) && t !in done
    ensures (forall t :: t in Plan(Diffs(m, l, r), direct) ==> t in done) ==> Plan(Diffs(m', l', r'), direct) == []
  {
    var first, again := Plan(Diffs(m, l, r), direct), Plan(Diffs(m', l', r'), direct);
    forall t
      ensures t in again <==> t in first && t !in done
    {
      SecondPlanHas(m, l, r, m', l', r', local, remote, direct, done, t);
    }
    assert |again| > 0 ==> again[0] in again;
  }

  /** Two sides with the same paths have no local-only and no remote-only row. */
  lemma {:induction false} SamePathsNoOnly(m: Attrs, l: seq<Row>, r: seq<Row>, local: Side, remote: Side, i: nat)
    requires ListsSide(m, l, local) && ListsSide(m, r, remote) && i < |Diffs(m, l, r)|
    ensures local.Keys == remote.Keys ==>
      Diffs(m, l, r)[i].class_ != LocalOnly && Diffs(m, l, r)[i].class_ != RemoteOnly
  {
    DiffIsState(m, l, r, local, remote, i);
  }
}
