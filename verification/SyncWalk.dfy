// The stack-driven directory walks of the synchroniser, against a recursive enumeration.

module SyncWalk {
  import opened ListSpec

  datatype Meta = Meta(size: nat, mtime: nat)

  // A directory tree. A locked folder is one that opendir fails on.
  datatype Node = Plain | Locked | Open(folder: Folder)
  datatype Entry = Entry(name: string, meta: Meta, node: Node)
  datatype Folder = Folder(entries: seq<Entry>)

  datatype FileRow = FileRow(path: string, meta: Meta)

  // One readdir result; every directory also lists "." and "..".
  datatype RawRow = RawRow(name: string, meta: Meta, isDir: bool)

  predicate Dots(name: string) {
    name == "." || name == ".."
  }

  function Strip(raw: seq<RawRow>): (s: seq<RawRow>)
    ensures |s| <= |raw|
  {
    if raw == [] then []
    else
      var front, row := Strip(raw[..|raw| - 1]), raw[|raw| - 1];
      if Dots(row.name) then front else front + [row]
  }

  /** Only the two dot names are left out. */
  lemma {:induction false} StripIff(raw: seq<RawRow>, row: RawRow)
    ensures row in Strip(raw) <==> row in raw && row.name != "." && row.name != ".."
    decreases |raw|
  {
    if raw != [] {
      var front := raw[..|raw| - 1];
      StripIff(front, row);
      assert raw == front + [raw[|raw| - 1]];
    }
  }

  // ----- What a file system says about a tree -----

  function Raw(e: Entry): RawRow {
    RawRow(e.name, e.meta, !e.node.Plain?)
  }

  /** Listing `path` and everything below it shows exactly `f`. */
  ghost predicate Represents(fs: map<string, seq<RawRow>>, path: string, f: Folder)
    decreases f
  {
    && path in fs
    && |Strip(fs[path])| == |f.entries|
    && forall i :: 0 <= i < |f.entries| ==>
         && Strip(fs[path])[i] == Raw(f.entries[i])
         && NodeRepresents(fs, path + "/" + f.entries[i].name, f.entries[i].node)
  }

  ghost predicate NodeRepresents(fs: map<string, seq<RawRow>>, path: string, n: Node)
    decreases n
  {
    match n
    case Plain => true
    case Locked => path !in fs
    case Open(f) => Represents(fs, path, f)
  }

  // ----- The order of the walk -----

  function Rows(prefix: string, es: seq<Entry>): (rows: seq<FileRow>)
    ensures |rows| == |es| && forall i :: 0 <= i < |es| ==> rows[i] == FileRow(prefix + es[i].name, es[i].meta)
  {
    seq(|es|, i requires 0 <= i < |es| => FileRow(prefix + es[i].name, es[i].meta))
  }

  /** All rows below a node: its own entries, then its folders from the last to the first. */
  function Enum(prefix: string, n: Node): seq<FileRow>
    decreases n
  {
    if n.Open? then Rows(prefix, n.folder.entries) + Inside(prefix, n.folder.entries) else []
  }

  function Inside(prefix: string, es: seq<Entry>): seq<FileRow>
    decreases es
  {
    if es == [] then []
    else Enum(prefix + es[|es| - 1].name + "/", es[|es| - 1].node) + Inside(prefix, es[..|es| - 1])
  }

  function Size(n: Node): nat
    decreases n
  {
    1 + if n.Open? then Sizes(n.folder.entries) else 0
  }

  function Sizes(es: seq<Entry>): nat
    decreases es
  {
    if es == [] then 0 else Size(es[|es| - 1].node) + Sizes(es[..|es| - 1])
  }

  // ----- The stack -----

  datatype Todo = Todo(prefix: string, node: Node)

  function EnumTodo(todo: seq<Todo>): seq<FileRow> {
    if todo == [] then []
    else Enum(todo[|todo| - 1].prefix, todo[|todo| - 1].node) + EnumTodo(todo[..|todo| - 1])
  }

  function SizeTodo(todo: seq<Todo>): nat {
    if todo == [] then 0 else Size(todo[|todo| - 1].node) + SizeTodo(todo[..|todo| - 1])
  }

  function Pushed(prefix: string, es: seq<Entry>): seq<Todo> {
    if es == [] then []
    else
      var front, e := Pushed(prefix, es[..|es| - 1]), es[|es| - 1];
      if e.node.Plain? then front else front + [Todo(prefix + e.name + "/", e.node)]
  }

  lemma {:induction false} TodoPush(todo: seq<Todo>, t: Todo)
    ensures EnumTodo(todo + [t]) == Enum(t.prefix, t.node) + EnumTodo(todo)
    ensures SizeTodo(todo + [t]) == Size(t.node) + SizeTodo(todo)
  {
    assert (todo + [t])[..|todo|] == todo;
  }

  lemma {:induction false} PushMore(todo: seq<Todo>, front: seq<Todo>, t: Todo, inside: seq<FileRow>)
    requires EnumTodo(todo + front) == inside + EnumTodo(todo)
    ensures EnumTodo(todo + (front + [t])) == Enum(t.prefix, t.node) + inside + EnumTodo(todo)
  {
    TodoPush(todo + front, t);
    Assoc(todo, front, [t]);
    Assoc(Enum(t.prefix, t.node), inside, EnumTodo(todo));
  }

  lemma {:induction false} PushedEnum(todo: seq<Todo>, prefix: string, es: seq<Entry>)
    ensures EnumTodo(todo + Pushed(prefix, es)) == Inside(prefix, es) + EnumTodo(todo)
    decreases |es|
  {
    if es == [] {
      assert todo + [] == todo;
    } else {
      var front, e := es[..|es| - 1], es[|es| - 1];
      PushedEnum(todo, prefix, front);
      if e.node.Plain? {
        assert [] + Inside(prefix, front) == Inside(prefix, front);
      } else {
        PushMore(todo, Pushed(prefix, front), Todo(prefix + e.name + "/", e.node), Inside(prefix, front));
      }
    }
  }

  lemma {:induction false} PushedSize(todo: seq<Todo>, prefix: string, es: seq<Entry>)
    ensures SizeTodo(todo + Pushed(prefix, es)) <= Sizes(es) + SizeTodo(todo)
    decreases |es|
  {
    if es == [] {
      assert todo + [] == todo;
    } else {
      var front, e := es[..|es| - 1], es[|es| - 1];
      PushedSize(todo, prefix, front);
      if !e.node.Plain? {
        var t := Todo(prefix + e.name + "/", e.node);
        TodoPush(todo + Pushed(prefix, front), t);
        assert todo + Pushed(prefix, es) == (todo + Pushed(prefix, front)) + [t];
      }
    }
  }

  /** Listing one folder and pushing its subfolders keeps what is done plus what is to do. */
  lemma {:induction false} FolderStep(files: seq<FileRow>, rest: seq<Todo>, top: Todo)
    requires top.node.Open?
    ensures var es := top.node.folder.entries;
      files + Rows(top.prefix, es) + EnumTodo(rest + Pushed(top.prefix, es)) == files + EnumTodo(rest + [top])
    ensures SizeTodo(rest + Pushed(top.prefix, top.node.folder.entries)) < SizeTodo(rest + [top])
  {
    var es := top.node.folder.entries;
    PushedEnum(rest, top.prefix, es);
    PushedSize(rest, top.prefix, es);
    TodoPush(rest, top);
    var a, b, c := Rows(top.prefix, es), Inside(top.prefix, es), EnumTodo(rest);
    Assoc(files, a, b + c);
    Assoc(a, b, c);
  }

  /** A path built from the stack, made relative to the base again. */
  lemma {:induction false} RelativePath(base: string, dir: string, prefix: string, name: string)
    requires dir + "/" == base + "/" + prefix
    ensures |base| + 1 <= |dir + "/" + name| && (dir + "/" + name)[|base| + 1..] == prefix + name
  {
    assert dir + "/" + name == (base + "/") + (prefix + name);
  }

  ghost predicate StackedAt(fs: map<string, seq<RawRow>>, base: string, path: string, t: Todo) {
    && !t.node.Plain? && NodeRepresents(fs, path, t.node)
    && path + "/" == base + "/" + t.prefix
  }

  /** Each stacked path stands for one pending folder. */
  ghost predicate Stacked(fs: map<string, seq<RawRow>>, base: string, stack: seq<string>, todo: seq<Todo>) {
    |stack| == |todo| && forall i :: 0 <= i < |todo| ==> StackedAt(fs, base, stack[i], todo[i])
  }

  function DirPaths(dir: string, es: seq<Entry>): seq<string> {
    if es == [] then []
    else
      var front, e := DirPaths(dir, es[..|es| - 1]), es[|es| - 1];
      if e.node.Plain? then front else front + [dir + "/" + e.name]
  }

  lemma {:induction false} EntryStacked(fs: map<string, seq<RawRow>>, base: string, dir: string, top: Todo, i: nat)
    requires StackedAt(fs, base, dir, top) && top.node.Open? && i < |top.node.folder.entries|
    ensures var e := top.node.folder.entries[i];
      !e.node.Plain? ==> StackedAt(fs, base, dir + "/" + e.name, Todo(top.prefix + e.name + "/", e.node))
  {
    var e := top.node.folder.entries[i];
    assert Represents(fs, dir, top.node.folder);
    assert Strip(fs[dir])[i] == Raw(e);
    var path := dir + "/" + e.name;
    assert path + "/" == (dir + "/") + (e.name + "/");
    assert base + "/" + (top.prefix + e.name + "/") == (base + "/" + top.prefix) + (e.name + "/");
  }

  lemma {:induction false} PushedStacked(fs: map<string, seq<RawRow>>, base: string, stack: seq<string>,
      rest: seq<Todo>, dir: string, top: Todo, n: nat)
    requires StackedAt(fs, base, dir, top) && top.node.Open? && n <= |top.node.folder.entries|
    requires |stack| >= |rest| && Stacked(fs, base, stack[..|rest|], rest)
    requires stack[|rest|..] == DirPaths(dir, top.node.folder.entries[..n])
    ensures Stacked(fs, base, stack, rest + Pushed(top.prefix, top.node.folder.entries[..n]))
    decreases n
  {
    var es := top.node.folder.entries;
    if n == 0 {
      assert stack == stack[..|rest|];
      assert rest + [] == rest;
    } else {
      var e := es[n - 1];
      assert es[..n][..n - 1] == es[..n - 1];
      if e.node.Plain? {
        PushedStacked(fs, base, stack, rest, dir, top, n - 1);
      } else {
        var s' := stack[..|stack| - 1];
        assert s'[..|rest|] == stack[..|rest|];
        assert stack[|rest|..] == DirPaths(dir, es[..n - 1]) + [dir + "/" + e.name];
        assert s'[|rest|..] == stack[|rest|..][..|stack| - 1 - |rest|] == DirPaths(dir, es[..n - 1]);
        PushedStacked(fs, base, s', rest, dir, top, n - 1);
        EntryStacked(fs, base, dir, top, n - 1);
        assert stack[|stack| - 1] == dir + "/" + e.name;
      }
    }
  }

  lemma {:induction false} EntryStep(dir: string, prefix: string, es: seq<Entry>, e: nat)
    requires e < |es|
    ensures Rows(prefix, es[..e + 1]) == Rows(prefix, es[..e]) + [FileRow(prefix + es[e].name, es[e].meta)]
    ensures DirPaths(dir, es[..e + 1])
         == DirPaths(dir, es[..e]) + (if es[e].node.Plain? then [] else [dir + "/" + es[e].name])
  {
    assert es[..e + 1][..e] == es[..e];
  }

  lemma {:induction false} StripGrows(raw: seq<RawRow>, k: nat)
    requires k <= |raw|
    ensures Strip(raw[..k]) <= Strip(raw)
    decreases |raw|
  {
    if k < |raw| {
      var front := raw[..|raw| - 1];
      assert front[..k] == raw[..k];
      StripGrows(front, k);
    } else {
      assert raw[..k] == raw;
    }
  }

  /** What row `k` of a listing adds: nothing for a dot name, else the next entry of the folder. */
  lemma {:induction false} NextEntry(fs: map<string, seq<RawRow>>, base: string, dir: string, top: Todo, k: nat)
    requires dir in fs && StackedAt(fs, base, dir, top) && top.node.Open? && k < |fs[dir]|
    ensures var row, es, e := fs[dir][k], top.node.folder.entries, |Strip(fs[dir][..k])|;
      if Dots(row.name) then e <= |es| && |Strip(fs[dir][..k + 1])| == e
      else
        && e < |es| && |Strip(fs[dir][..k + 1])| == e + 1 && Raw(es[e]) == row
        && |base| + 1 <= |dir + "/" + row.name|
        && (dir + "/" + row.name)[|base| + 1..] == top.prefix + es[e].name
  {
    var raw := fs[dir];
    assert Represents(fs, dir, top.node.folder);
    assert raw[..k + 1][..k] == raw[..k];
    StripGrows(raw, k + 1);
    RelativePath(base, dir, top.prefix, raw[k].name);
    if !Dots(raw[k].name) {
      assert Strip(raw)[|Strip(raw[..k])|] == raw[k];
    }
  }

  /** The inner loop: one directory is read entry by entry. */
  method ReadAll(fs: map<string, seq<RawRow>>, base: string, currDir: string, files0: seq<FileRow>,
      stack0: seq<string>, ghost top: Todo)
    returns (files: seq<FileRow>, dirStack: seq<string>)
    requires currDir in fs && StackedAt(fs, base, currDir, top)
    ensures top.node.Open?
    ensures files == files0 + Rows(top.prefix, top.node.folder.entries)
    ensures dirStack == stack0 + DirPaths(currDir, top.node.folder.entries)
  {
    files, dirStack := files0, stack0;
    var raw := fs[currDir];
    ghost var es, e := top.node.folder.entries, 0;
    for k := 0 to |raw|
      invariant e == |Strip(raw[..k])| <= |es|
      invariant files == files0 + Rows(top.prefix, es[..e])
      invariant dirStack == stack0 + DirPaths(currDir, es[..e])
    {
      NextEntry(fs, base, currDir, top, k);
      if Dots(raw[k].name) {
        continue;
      }
      EntryStep(currDir, top.prefix, es, e);
      var nopFile := (currDir + "/" + raw[k].name)[|base| + 1..];
      Assoc(files0, Rows(top.prefix, es[..e]), [FileRow(nopFile, raw[k].meta)]);
      if raw[k].isDir {
        Assoc(stack0, DirPaths(currDir, es[..e]), [currDir + "/" + raw[k].name]);
        dirStack := dirStack + [currDir + "/" + raw[k].name];
      }
      files := files + [FileRow(nopFile, raw[k].meta)];
      e := e + 1;
    }
    assert raw[..|raw|] == raw && es[..|es|] == es;
    assert Represents(fs, currDir, top.node.folder);
  }

  lemma {:induction false} PopStacked(fs: map<string, seq<RawRow>>, base: string, stack: seq<string>, todo: seq<Todo>)
    requires Stacked(fs, base, stack, todo) && stack != []
    ensures var top, rest := todo[|todo| - 1], todo[..|todo| - 1];
      && StackedAt(fs, base, stack[|stack| - 1], top) && Stacked(fs, base, stack[..|stack| - 1], rest)
      && todo == rest + [top]
      && EnumTodo(todo) == Enum(top.prefix, top.node) + EnumTodo(rest)
      && SizeTodo(todo) == Size(top.node) + SizeTodo(rest)
      && (top.node.Open? <==> stack[|stack| - 1] in fs)
  {
    var top, rest := todo[|todo| - 1], todo[..|todo| - 1];
    assert todo == rest + [top];
    TodoPush(rest, top);
    assert top.node.Open? ==> Represents(fs, stack[|stack| - 1], top.node.folder);
  }

  /** The stack after a folder was read and its subfolders pushed. */
  lemma {:induction false} FolderStacked(fs: map<string, seq<RawRow>>, base: string, stack0: seq<string>,
      rest: seq<Todo>, dir: string, top: Todo)
    requires StackedAt(fs, base, dir, top) && top.node.Open? && Stacked(fs, base, stack0, rest)
    ensures var es := top.node.folder.entries;
      Stacked(fs, base, stack0 + DirPaths(dir, es), rest + Pushed(top.prefix, es))
  {
    var es := top.node.folder.entries;
    var stack := stack0 + DirPaths(dir, es);
    assert es[..|es|] == es && stack[..|rest|] == stack0 && stack[|rest|..] == DirPaths(dir, es);
    PushedStacked(fs, base, stack, rest, dir, top, |es|);
  }

  /** The walk proper: `dirStack` is popped, listed, and its folders are pushed. */
  method Walk(fs: map<string, seq<RawRow>>, base: string, ghost root: Folder) returns (files: seq<FileRow>)
    requires Represents(fs, base, root)
    ensures files == Enum("", Open(root))
  {
    files := [];
    var dirStack := [base];
    ghost var todo := [Todo("", Open(root))];
    assert todo[..0] == [];
    while dirStack != []
      invariant Stacked(fs, base, dirStack, todo)
      invariant files + EnumTodo(todo) == Enum("", Open(root))
      decreases SizeTodo(todo)
    {
      var currDir := dirStack[|dirStack| - 1];
      ghost var top, rest := todo[|todo| - 1], todo[..|todo| - 1];
      PopStacked(fs, base, dirStack, todo);
      dirStack := dirStack[..|dirStack| - 1];
      todo := rest;
      if currDir !in fs {
        assert Enum(top.prefix, top.node) == [];
        continue;
      }
      ghost var stack0, files0 := dirStack, files;
      files, dirStack := ReadAll(fs, base, currDir, files, dirStack, top);
      todo := rest + Pushed(top.prefix, top.node.folder.entries);
      FolderStep(files0, rest, top);
      FolderStacked(fs, base, stack0, rest, currDir, top);
    }
  }
}
