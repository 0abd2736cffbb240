// The walk returns every path of the tree exactly once.

module SyncWalkFacts {
  import opened Paths
  import opened SyncWalk

  // ----- Paths of a tree, without any walking -----

  /** Following the names in `parts` from `n` leads to an entry. */
  ghost predicate Holds(n: Node, parts: seq<string>)
    decreases |parts|
  {
    parts != [] && n.Open? &&
    exists i :: 0 <= i < |n.folder.entries| && n.folder.entries[i].name == parts[0]
                && (|parts| == 1 || Holds(n.folder.entries[i].node, parts[1..]))
  }

  function Join(parts: seq<string>): string
    requires parts != []
  {
    if |parts| == 1 then parts[0] else parts[0] + "/" + Join(parts[1..])
  }

  /** Siblings have different names, all of them usable in a path. */
  ghost predicate WellNamed(n: Node)
    decreases n
  {
    n.Open? ==>
      && (forall i, j :: 0 <= i < j < |n.folder.entries| ==> n.folder.entries[i].name != n.folder.entries[j].name)
      && (forall i :: 0 <= i < |n.folder.entries| ==>
            GoodName(n.folder.entries[i].name) && WellNamed(n.folder.entries[i].node))
  }

  ghost predicate Visits(rows: seq<FileRow>, path: string) {
    exists i :: 0 <= i < |rows| && rows[i].path == path
  }

  // ----- Every path, and only those -----

  lemma {:induction false} VisitsConcat(a: seq<FileRow>, b: seq<FileRow>, path: string)
    ensures Visits(a + b, path) <==> Visits(a, path) || Visits(b, path)
  {
    if Visits(a, path) {
      var i :| 0 <= i < |a| && a[i].path == path;
      assert (a + b)[i] == a[i];
    }
    if Visits(b, path) {
      var i :| 0 <= i < |b| && b[i].path == path;
      assert (a + b)[|a| + i] == b[i];
    }
  }

  lemma {:induction false} VisitsInside(prefix: string, es: seq<Entry>, path: string)
    ensures Visits(Inside(prefix, es), path) <==>
      exists i :: 0 <= i < |es| && Visits(Enum(prefix + es[i].name + "/", es[i].node), path)
    decreases |es|
  {
    if es != [] {
      var front, e := es[..|es| - 1], es[|es| - 1];
      VisitsInside(prefix, front, path);
      VisitsConcat(Enum(prefix + e.name + "/", e.node), Inside(prefix, front), path);
      if i :| 0 <= i < |front| && Visits(Enum(prefix + front[i].name + "/", front[i].node), path) {
        assert es[i] == front[i];
      }
      if i :| 0 <= i < |es| && Visits(Enum(prefix + es[i].name + "/", es[i].node), path) {
        assert i < |front| ==> front[i] == es[i];
      }
    }
  }

  /** A path of the tree is visited. */
  lemma {:induction false} HeldIsVisited(prefix: string, n: Node, parts: seq<string>)
    requires Holds(n, parts)
    ensures Visits(Enum(prefix, n), prefix + Join(parts))
    decreases |parts|
  {
    var es := n.folder.entries;
    var i :| 0 <= i < |es| && es[i].name == parts[0] && (|parts| == 1 || Holds(es[i].node, parts[1..]));
    var path := prefix + Join(parts);
    VisitsConcat(Rows(prefix, es), Inside(prefix, es), path);
    if |parts| == 1 {
      assert Rows(prefix, es)[i].path == path;
    } else {
      HeldIsVisited(prefix + es[i].name + "/", es[i].node, parts[1..]);
      assert path == prefix + es[i].name + "/" + Join(parts[1..]);
      VisitsInside(prefix, es, path);
    }
  }

  lemma {:induction false} HoldsThrough(prefix: string, n: Node, i: nat, rest: seq<string>)
    requires n.Open? && i < |n.folder.entries| && Holds(n.folder.entries[i].node, rest)
    ensures var name := n.folder.entries[i].name;
      Holds(n, [name] + rest) && prefix + name + "/" + Join(rest) == prefix + Join([name] + rest)
  {
    var parts := [n.folder.entries[i].name] + rest;
    assert parts[1..] == rest;
    assert parts[0] == n.folder.entries[i].name;
    assert Join(parts) == parts[0] + "/" + Join(rest);
  }

  /** A visited path belongs to the tree. */
  lemma {:induction false} VisitedIsHeld(prefix: string, n: Node, path: string) returns (parts: seq<string>)
    requires Visits(Enum(prefix, n), path)
    ensures Holds(n, parts) && path == prefix + Join(parts)
    decreases n
  {
    var es := n.folder.entries;
    VisitsConcat(Rows(prefix, es), Inside(prefix, es), path);
    if Visits(Rows(prefix, es), path) {
      var i :| 0 <= i < |es| && Rows(prefix, es)[i].path == path;
      parts := [es[i].name];
    } else {
      VisitsInside(prefix, es, path);
      var i :| 0 <= i < |es| && Visits(Enum(prefix + es[i].name + "/", es[i].node), path);
      var rest := VisitedIsHeld(prefix + es[i].name + "/", es[i].node, path);
      parts := [es[i].name] + rest;
      HoldsThrough(prefix, n, i, rest);
    }
  }

  /** The walk visits exactly the paths of the tree, relative to the base. */
  lemma {:induction false} WalkVisitsExactly(n: Node, path: string)
    ensures Visits(Enum("", n), path) <==> exists parts :: Holds(n, parts) && path == Join(parts)
  {
    if Visits(Enum("", n), path) {
      var parts := VisitedIsHeld("", n, path);
    }
    if parts :| Holds(n, parts) && path == Join(parts) {
      HeldIsVisited("", n, parts);
      assert "" + Join(parts) == Join(parts);
    }
  }

  // ----- With the metadata of the entry -----

  /** Following the names in `parts` from `n` leads to an entry with the metadata `meta`. */
  ghost predicate HeldAs(n: Node, parts: seq<string>, meta: Meta)
    decreases |parts|
  {
    parts != [] && n.Open? &&
    exists i :: 0 <= i < |n.folder.entries| && n.folder.entries[i].name == parts[0]
                && (if |parts| == 1 then n.folder.entries[i].meta == meta
                    else HeldAs(n.folder.entries[i].node, parts[1..], meta))
  }

  lemma {:induction false} RowInside(prefix: string, es: seq<Entry>, row: FileRow)
    ensures row in Inside(prefix, es) <==>
      exists i :: 0 <= i < |es| && row in Enum(prefix + es[i].name + "/", es[i].node)
    decreases |es|
  {
    if es != [] {
      var front, e := es[..|es| - 1], es[|es| - 1];
      RowInside(prefix, front, row);
      if i :| 0 <= i < |front| && row in Enum(prefix + front[i].name + "/", front[i].node) {
        assert es[i] == front[i];
      }
      if i :| 0 <= i < |es| && row in Enum(prefix + es[i].name + "/", es[i].node) {
        assert i < |front| ==> front[i] == es[i];
      }
    }
  }

  lemma {:induction false} HeldHasRow(prefix: string, n: Node, parts: seq<string>, meta: Meta)
    requires HeldAs(n, parts, meta)
    ensures FileRow(prefix + Join(parts), meta) in Enum(prefix, n)
    decreases |parts|
  {
    var es := n.folder.entries;
    var i :| 0 <= i < |es| && es[i].name == parts[0]
             && (if |parts| == 1 then es[i].meta == meta else HeldAs(es[i].node, parts[1..], meta));
    var row := FileRow(prefix + Join(parts), meta);
    if |parts| == 1 {
      assert Rows(prefix, es)[i] == row;
    } else {
      HeldHasRow(prefix + es[i].name + "/", es[i].node, parts[1..], meta);
      assert prefix + Join(parts) == prefix + es[i].name + "/" + Join(parts[1..]);
      RowInside(prefix, es, row);
    }
  }

  lemma {:induction false} HeldThrough(prefix: string, n: Node, i: nat, rest: seq<string>, meta: Meta)
    requires n.Open? && i < |n.folder.entries| && HeldAs(n.folder.entries[i].node, rest, meta)
    ensures var name := n.folder.entries[i].name;
      HeldAs(n, [name] + rest, meta) && prefix + name + "/" + Join(rest) == prefix + Join([name] + rest)
  {
    var parts := [n.folder.entries[i].name] + rest;
    assert parts[1..] == rest;
    assert parts[0] == n.folder.entries[i].name;
    assert Join(parts) == parts[0] + "/" + Join(rest);
  }

  lemma {:induction false} RowIsHeld(prefix: string, n: Node, row: FileRow) returns (parts: seq<string>)
    requires row in Enum(prefix, n)
    ensures HeldAs(n, parts, row.meta) && row.path == prefix + Join(parts)
    decreases n
  {
    var es := n.folder.entries;
    if row in Rows(prefix, es) {
      var i :| 0 <= i < |es| && Rows(prefix, es)[i] == row;
      parts := [es[i].name];
    } else {
      RowInside(prefix, es, row);
      var i :| 0 <= i < |es| && row in Enum(prefix + es[i].name + "/", es[i].node);
      var rest := RowIsHeld(prefix + es[i].name + "/", es[i].node, row);
      parts := [es[i].name] + rest;
      HeldThrough(prefix, n, i, rest, row.meta);
    }
  }

  /** The walk returns a path with some metadata exactly if its names lead to an entry with that metadata. */
  lemma {:induction false} WalkRowsExactly(n: Node, row: FileRow)
    ensures row in Enum("", n) <==> exists parts :: HeldAs(n, parts, row.meta) && row.path == Join(parts)
  {
    if row in Enum("", n) {
      var parts := RowIsHeld("", n, row);
    }
    if parts :| HeldAs(n, parts, row.meta) && row.path == Join(parts) {
      HeldHasRow("", n, parts, row.meta);
      assert "" + Join(parts) == Join(parts);
    }
  }

  // ----- Each only once -----

  ghost predicate NoRepeats(rows: seq<FileRow>) {
    forall i, j :: 0 <= i < j < |rows| ==> rows[i].path != rows[j].path
  }

  lemma {:induction false} NoRepeatsConcat(a: seq<FileRow>, b: seq<FileRow>)
    requires NoRepeats(a) && NoRepeats(b)
    requires forall path :: !(Visits(a, path) && Visits(b, path))
    ensures NoRepeats(a + b)
  {
    forall i, j | 0 <= i < j < |a + b|
      ensures (a + b)[i].path != (a + b)[j].path
    {
      if i < |a| <= j {
        assert Visits(a, a[i].path);
        assert Visits(b, b[j - |a|].path);
      }
    }
  }

  /** The component right after `prefix` can be read off a path. */
  lemma {:induction false} ComponentsDiffer(prefix: string, a: string, u: string, b: string, v: string)
    requires '/' !in a && '/' !in b && a != b
    ensures prefix + a + "/" + u != prefix + b + "/" + v
  {
    var x, y := prefix + a + "/" + u, prefix + b + "/" + v;
    if |a| < |b| {
      assert x[|prefix| + |a|] == '/' && y[|prefix| + |a|] == b[|a|];
    } else if |b| < |a| {
      assert y[|prefix| + |b|] == '/' && x[|prefix| + |b|] == a[|b|];
    } else {
      var i :| 0 <= i < |a| && a[i] != b[i];
      assert x[|prefix| + i] == a[i] && y[|prefix| + i] == b[i];
    }
  }

  lemma {:induction false} ComponentOrLeaf(prefix: string, a: string, b: string, v: string)
    requires '/' !in a
    ensures prefix + a != prefix + b + "/" + v
  {
    if |a| > |b| {
      assert (prefix + a)[|prefix| + |b|] == a[|b|];
      assert (prefix + b + "/" + v)[|prefix| + |b|] == '/';
    }
  }

  lemma {:induction false} InsideNoRepeats(prefix: string, es: seq<Entry>)
    requires forall i, j :: 0 <= i < j < |es| ==> es[i].name != es[j].name
    requires forall i :: 0 <= i < |es| ==> GoodName(es[i].name) && WellNamed(es[i].node)
    ensures NoRepeats(Inside(prefix, es))
    decreases es, 0
  {
    if es != [] {
      var front, e := es[..|es| - 1], es[|es| - 1];
      var p := prefix + e.name + "/";
      InsideNoRepeats(prefix, front);
      EnumNoRepeats(p, e.node);
      forall path
        ensures !(Visits(Enum(p, e.node), path) && Visits(Inside(prefix, front), path))
      {
        if Visits(Enum(p, e.node), path) && Visits(Inside(prefix, front), path) {
          VisitsInside(prefix, front, path);
          var i :| 0 <= i < |front| && Visits(Enum(prefix + front[i].name + "/", front[i].node), path);
          var u := VisitedIsHeld(p, e.node, path);
          var v := VisitedIsHeld(prefix + front[i].name + "/", front[i].node, path);
          ComponentsDiffer(prefix, e.name, Join(u), front[i].name, Join(v));
        }
      }
      NoRepeatsConcat(Enum(p, e.node), Inside(prefix, front));
    }
  }

  /** No path is returned twice. */
  lemma {:induction false} EnumNoRepeats(prefix: string, n: Node)
    requires WellNamed(n)
    ensures NoRepeats(Enum(prefix, n))
    decreases n, 1
  {
    if n.Open? {
      var es := n.folder.entries;
      InsideNoRepeats(prefix, es);
      forall i, j | 0 <= i < j < |es|
        ensures Rows(prefix, es)[i].path != Rows(prefix, es)[j].path
      {
        assert (prefix + es[i].name)[|prefix|..] == es[i].name;
        assert (prefix + es[j].name)[|prefix|..] == es[j].name;
      }
      forall path
        ensures !(Visits(Rows(prefix, es), path) && Visits(Inside(prefix, es), path))
      {
        if Visits(Rows(prefix, es), path) && Visits(Inside(prefix, es), path) {
          var i :| 0 <= i < |es| && Rows(prefix, es)[i].path == path;
          VisitsInside(prefix, es, path);
          var j :| 0 <= j < |es| && Visits(Enum(prefix + es[j].name + "/", es[j].node), path);
          var v := VisitedIsHeld(prefix + es[j].name + "/", es[j].node, path);
          ComponentOrLeaf(prefix, es[i].name, es[j].name, Join(v));
        }
      }
      NoRepeatsConcat(Rows(prefix, es), Inside(prefix, es));
    }
  }
}
