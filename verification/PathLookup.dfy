// Indexes into the tree, and finding a node by its path.

module PathLookup {
  import opened Options
  import opened NodeHeap
  import opened Paths
  import opened Reconciling
  import opened ReconcileFacts
  import opened ListSpec

  // ----- The two index functions and parent -----

  datatype ModelIndex = Invalid | At(row: int, column: int, ptr: Ref)

  function Index(h: Heap, root: Ref, row: int, column: int, parent: ModelIndex): ModelIndex
    requires column < 4
    requires if parent.Invalid? then row == 0
             else parent.ptr in h && NodeOk(h, parent.ptr) && 0 <= row < |h[parent.ptr].childNodes|
  {
    if parent.Invalid? then At(row, column, root)
    else At(row, column, h[parent.ptr].childNodes[row])
  }

  function Parent(h: Heap, child: ModelIndex): ModelIndex
    requires child.At? ==> child.ptr in h && LinkOk(h, child.ptr)
  {
    if child.Invalid? then Invalid
    else if h[child.ptr].pNode.None? then Invalid
    else At(h[h[child.ptr].pNode.value].onRow, 0, h[child.ptr].pNode.value)
  }

  /** An index as the model itself hands them out for first-column cells. */
  ghost predicate Genuine(h: Heap, root: Ref, idx: ModelIndex) {
    idx.At? ==> idx.ptr in h && idx.column == 0 && idx.row == h[idx.ptr].onRow
  }

  /** parent() undoes index(), and index() undoes parent(). */
  lemma {:induction false} ParentUndoesIndex(h: Heap, root: Ref, next: Ref, row: int, column: int, parent: ModelIndex)
    requires Tree(h, root, next) && Genuine(h, root, parent) && column < 4
    requires if parent.Invalid? then row == 0
             else NodeOk(h, parent.ptr) && 0 <= row < |h[parent.ptr].childNodes|
    ensures var idx := Index(h, root, row, column, parent);
      && idx.ptr in h && LinkOk(h, idx.ptr)
      && Parent(h, idx) == parent
      && h[idx.ptr].onRow == row && idx.row == row && idx.column == column
  {
    var idx := Index(h, root, row, column, parent);
    assert LinkOk(h, idx.ptr);
  }

  lemma {:induction false} IndexUndoesParent(h: Heap, root: Ref, next: Ref, idx: ModelIndex)
    requires Tree(h, root, next) && Genuine(h, root, idx) && idx.At?
    ensures LinkOk(h, idx.ptr)
    ensures var up := Parent(h, idx);
      && Genuine(h, root, up)
      && (if up.Invalid? then idx.row == 0 else NodeOk(h, up.ptr) && 0 <= idx.row < |h[up.ptr].childNodes|)
      && Index(h, root, idx.row, 0, up) == idx
  {
    assert LinkOk(h, idx.ptr);
    if h[idx.ptr].pNode.Some? {
      assert NodeOk(h, h[idx.ptr].pNode.value);
    }
  }

  // ----- Lookup by path -----

  /** The first of `s`, from row `r` on, with the given name; |s| if there is none. */
  function FirstNamed(h: Heap, s: seq<Ref>, name: string, r: nat): (i: nat)
    requires r <= |s| && forall k :: k in s ==> k in h
    ensures r <= i <= |s|
    ensures i < |s| ==> h[s[i]].data.fileName == name
    ensures forall j :: r <= j < i ==> h[s[j]].data.fileName != name
    decreases |s| - r
  {
    if r == |s| || h[s[r]].data.fileName == name then r else FirstNamed(h, s, name, r + 1)
  }

  lemma {:induction false} KidsAlive(h: Heap, p: Ref)
    requires p in h && NodeOk(h, p)
    ensures forall k :: k in Kids(h, p) ==> k in h
  {
    forall k | k in Kids(h, p) ensures k in h {
      var r := KidRow(h, p, k);
    }
  }

  /** find_node_item_by_path_elements from `n`, `es` being the elements from the current level on. */
  ghost function Find(h: Heap, n: Ref, es: seq<string>): (found: (int, Ref))
    requires Shape(h) && n in h && es != []
    ensures found.1 in h
    decreases |es|
  {
    assert NodeOk(h, n);
    KidsAlive(h, n);
    var s := Kids(h, n);
    var i := FirstNamed(h, s, es[0], 0);
    if i == |s| then (0, n)
    else if |es| == 1 then (i, s[i])
    else Find(h, s[i], es[1..])
  }

  /** index(path) for an absolute path without "." and ".." parts; the empty path is the root. */
  ghost function IndexOfPath(h: Heap, root: Ref, path: string): (found: (int, Ref))
    requires Shape(h) && root in h
  {
    if path == "" then (0, root)
    else
      var es := Parts(path);
      Find(h, root, if es == [] then ["/"] else es)
  }

  /** `es` are the names met walking down from `n` to `m`. */
  ghost predicate Spells(h: Heap, n: Ref, es: seq<string>, m: Ref)
    requires Shape(h)
    decreases |es|
  {
    n in h && (if es == [] then n == m
               else exists r :: r in h[n].childNodes && NodeOk(h, n)
                                && h[h[n].childNodes[r]].data.fileName == es[0]
                                && Spells(h, h[n].childNodes[r], es[1..], m))
  }

  /** The lookup answers with the deepest node along the path, in its own row if the path is complete. */
  lemma {:induction false} FindIsDeepest(h: Heap, n: Ref, es: seq<string>) returns (depth: nat)
    requires Shape(h) && n in h && es != []
    ensures depth <= |es|
    ensures var (row, m) := Find(h, n, es);
      && Spells(h, n, es[..depth], m)
      && NodeOk(h, m)
      && (depth == |es| ==> row == h[m].onRow)
      && (depth < |es| ==> row == 0 && es[depth] !in Shown(h, m))
    decreases |es|
  {
    assert NodeOk(h, n);
    KidsAlive(h, n);
    var s := Kids(h, n);
    var i := FirstNamed(h, s, es[0], 0);
    if i == |s| {
      depth := 0;
      assert forall j :: 0 <= j < |s| ==> Shown(h, n)[j] == h[s[j]].data.fileName;
    } else {
      assert s[i] == h[n].childNodes[i];
      assert es[..1][1..] == [];
      if |es| == 1 {
        depth := 1;
        assert Spells(h, s[i], [], s[i]);
        assert NodeOk(h, s[i]);
      } else {
        var d := FindIsDeepest(h, s[i], es[1..]);
        depth := d + 1;
        assert es[..depth][1..] == es[1..][..d];
      }
    }
  }

  lemma {:induction false} SpellsOn(h: Heap, n: Ref, es: seq<string>, q: Ref, m: Ref)
    requires Shape(h) && Spells(h, n, es, q)
    requires m in h && h[m].pNode == Some(q)
    ensures Spells(h, n, es + [h[m].data.fileName], m)
    decreases |es|
  {
    var es' := es + [h[m].data.fileName];
    assert NodeOk(h, n);
    if es == [] {
      assert LinkOk(h, m);
      assert es'[1..] == [];
      assert Spells(h, m, [], m);
      assert h[n].childNodes[h[m].onRow] == m;
    } else {
      var r :| r in h[n].childNodes && h[h[n].childNodes[r]].data.fileName == es[0]
               && Spells(h, h[n].childNodes[r], es[1..], q);
      SpellsOn(h, h[n].childNodes[r], es[1..], q, m);
      assert es'[1..] == es[1..] + [h[m].data.fileName];
    }
  }

  ghost predicate NamesUnique(h: Heap)
    requires Shape(h)
  {
    forall n {:trigger NodeOk(h, n)} :: n in h && NodeOk(h, n) ==> Distinct(Shown(h, n))
  }

  /** With unique sibling names a fully spelled path leads to its one node. */
  lemma {:induction false} FindFollowsSpelling(h: Heap, n: Ref, es: seq<string>, m: Ref)
    requires Shape(h) && NamesUnique(h) && Spells(h, n, es, m) && es != []
    ensures m in h && Find(h, n, es) == (h[m].onRow as int, m)
    decreases |es|
  {
    assert NodeOk(h, n);
    KidsAlive(h, n);
    var s := Kids(h, n);
    var r :| r in h[n].childNodes && h[h[n].childNodes[r]].data.fileName == es[0]
             && Spells(h, h[n].childNodes[r], es[1..], m);
    var i := FirstNamed(h, s, es[0], 0);
    assert s[r] == h[n].childNodes[r];
    assert i <= r;
    assert Shown(h, n)[i] == Shown(h, n)[r];
    assert i == r;
    if |es| > 1 {
      FindFollowsSpelling(h, s[i], es[1..], m);
    }
  }

  /** Looking up "/" answers with the root, unless a child of the root is itself called "/". */
  lemma {:induction false} RootIsFound(h: Heap, root: Ref)
    requires Shape(h) && root in h && NodeOk(h, root) && "/" !in Shown(h, root)
    ensures IndexOfPath(h, root, "/") == (0, root) && IndexOfPath(h, root, "") == (0, root)
  {
    KidsAlive(h, root);
    var s := Kids(h, root);
    assert "/" == "" + "/" + "";
    SplitAppend("", "");
    assert Split("/") == [""] + [""];
    assert NonEmpty([""]) == [] && ([""] + [""])[..1] == [""];
    assert forall j :: 0 <= j < |s| ==> Shown(h, root)[j] == h[s[j]].data.fileName;
  }

  // ----- Paths stored in the nodes -----

  ghost predicate PathOk(h: Heap, n: Ref)
    requires n in h
  {
    h[n].pNode.Some? ==>
      h[n].pNode.value in h &&
      GoodName(h[n].data.fileName) &&
      h[n].data.fullPath == h[h[n].pNode.value].data.fullPath + "/" + h[n].data.fileName
  }

  /** Every stored path is the parent's path, a slash and the name; the root's path is empty. */
  ghost predicate PathsOk(h: Heap, root: Ref) {
    root in h && h[root].data.fullPath == "" && forall n {:trigger PathOk(h, n)} :: n in h ==> PathOk(h, n)
  }

  lemma {:induction false} OwnPathSpells(h: Heap, root: Ref, next: Ref, n: Ref)
    requires Tree(h, root, next) && PathsOk(h, root) && n in h
    ensures Spells(h, root, Parts(h[n].data.fullPath), n)
    ensures n != root ==> Parts(h[n].data.fullPath) != []
    decreases n
  {
    if n == root {
      assert Split("") == [""];
      assert Parts("") == [];
    } else {
      assert LinkOk(h, n) && PathOk(h, n);
      var q := h[n].pNode.value;
      OwnPathSpells(h, root, next, q);
      PartsAppend(h[q].data.fullPath, h[n].data.fileName);
      SpellsOn(h, root, Parts(h[q].data.fullPath), q, n);
    }
  }

  /** Looking up a node's own path finds that node, at its row. */
  lemma {:induction false} OwnPathFindsNode(h: Heap, root: Ref, next: Ref, n: Ref)
    requires Tree(h, root, next) && PathsOk(h, root) && NamesUnique(h) && n in h
    ensures IndexOfPath(h, root, h[n].data.fullPath) == (h[n].onRow as int, n)
  {
    if n != root {
      assert LinkOk(h, n) && PathOk(h, n);
      OwnPathSpells(h, root, next, n);
      FindFollowsSpelling(h, root, Parts(h[n].data.fullPath), n);
    }
  }

  // ----- Reconciling keeps the paths -----

  /** The paths the retriever writes into the entries it reads for `dir`. */
  ghost predicate EntriesOf(listing: Listing, dir: string) {
    forall j :: 0 <= j < |listing| ==>
      GoodName(listing[j].fileName) && listing[j].fullPath == dir + "/" + listing[j].fileName
  }

  lemma {:induction false} NewEntriesListed(listing: Listing, have: seq<string>, j: int)
    requires 0 <= j < |NewEntries(listing, have)|
    ensures NewEntries(listing, have)[j] in listing
    decreases |listing|
  {
    var front := listing[..|listing| - 1];
    if j < |NewEntries(front, have)| {
      NewEntriesListed(front, have, j);
    }
  }

  lemma {:induction false} NodeKeepsPath(h0: Heap, root: Ref, next: Ref, p: Ref, listing: Listing, h: Heap,
      next': Ref, n: Ref)
    requires Ran(h0, root, next, p, listing, h, next') && PathsOk(h0, root)
    requires EntriesOf(listing, h0[p].data.fullPath) && n in h
    ensures n in h0 ==> h[n].pNode == h0[n].pNode && h[n].data.fullPath == h0[n].data.fullPath
    ensures n in h0 ==> h[n].data.fileName == h0[n].data.fileName
  {
    if n in h0 && n != p {
      assert Kept(h0, p, listing, 0, h, n);
      assert PathOk(h0, n);
    }
  }

  lemma {:induction false} NewEntryPath(listing: Listing, have: seq<string>, j: int, dir: string)
    requires EntriesOf(listing, dir) && 0 <= j < |NewEntries(listing, have)|
    ensures var e := NewEntries(listing, have)[j]; GoodName(e.fileName) && e.fullPath == dir + "/" + e.fileName
  {
    NewEntriesListed(listing, have, j);
    var i :| 0 <= i < |listing| && listing[i] == NewEntries(listing, have)[j];
  }

  lemma {:induction false} AddedPath(h0: Heap, root: Ref, next: Ref, p: Ref, listing: Listing, h: Heap, next': Ref,
      n: Ref)
    requires Ran(h0, root, next, p, listing, h, next') && EntriesOf(listing, h0[p].data.fullPath) && n in h && n !in h0
    ensures h[n].pNode == Some(p) && GoodName(h[n].data.fileName)
    ensures h[n].data.fullPath == h0[p].data.fullPath + "/" + h[n].data.fileName
  {
    NewEntryPath(listing, NamesOf(h0, Stay(h0, p, listing)), n - next, h0[p].data.fullPath);
  }

  lemma {:induction false} NodeHasPath(h0: Heap, root: Ref, next: Ref, p: Ref, listing: Listing, h: Heap, next': Ref,
      n: Ref)
    requires Ran(h0, root, next, p, listing, h, next') && PathsOk(h0, root)
    requires EntriesOf(listing, h0[p].data.fullPath) && n in h
    requires h[n].pNode.Some? && h[n].pNode.value in h
    requires var q := h[n].pNode.value; q in h0 ==> h[q].data.fullPath == h0[q].data.fullPath
    ensures PathOk(h, n)
  {
    if n in h0 {
      NodeKeepsPath(h0, root, next, p, listing, h, next', n);
      assert PathOk(h0, n);
    } else {
      AddedPath(h0, root, next, p, listing, h, next', n);
    }
  }

  /** Paths and unique names survive every delivery of a listing of the same directory. */
  lemma {:induction false} ReconcileKeepsPaths(h0: Heap, root: Ref, next: Ref, p: Ref, listing: Listing, h: Heap,
      next': Ref)
    requires Ran(h0, root, next, p, listing, h, next') && PathsOk(h0, root)
    requires EntriesOf(listing, h0[p].data.fullPath)
    ensures PathsOk(h, root)
    ensures forall n :: n in h0 && n in h ==> h[n].data.fullPath == h0[n].data.fullPath
  {
    forall n | n in h
      ensures PathOk(h, n) && (n in h0 ==> h[n].data.fullPath == h0[n].data.fullPath)
    {
      NodeKeepsPath(h0, root, next, p, listing, h, next', n);
      if h[n].pNode.Some? {
        assert LinkOk(h, n);
        NodeKeepsPath(h0, root, next, p, listing, h, next', h[n].pNode.value);
        NodeHasPath(h0, root, next, p, listing, h, next', n);
      }
    }
    assert h0[root].pNode == None;
    NodeKeepsPath(h0, root, next, p, listing, h, next', root);
  }

  lemma {:induction false} ShownKept(h0: Heap, root: Ref, next: Ref, p: Ref, listing: Listing, h: Heap, next': Ref,
      n: Ref)
    requires Ran(h0, root, next, p, listing, h, next') && PathsOk(h0, root)
    requires EntriesOf(listing, h0[p].data.fullPath) && n in h && n in h0 && n != p
    ensures NodeOk(h, n) && NodeOk(h0, n) && Shown(h, n) == Shown(h0, n)
  {
    assert Kept(h0, p, listing, 0, h, n);
    assert NodeOk(h, n) && NodeOk(h0, n);
    var s := Kids(h, n);
    forall r | 0 <= r < |s|
      ensures Shown(h, n)[r] == Shown(h0, n)[r]
    {
      assert h[n].childNodes[r] == s[r] == h0[n].childNodes[r];
      NodeKeepsPath(h0, root, next, p, listing, h, next', s[r]);
    }
  }

  lemma {:induction false} ReconcileKeepsUnique(h0: Heap, root: Ref, next: Ref, p: Ref, listing: Listing, h: Heap,
      next': Ref)
    requires Ran(h0, root, next, p, listing, h, next') && NamesUnique(h0) && PathsOk(h0, root)
    requires EntriesOf(listing, h0[p].data.fullPath)
    ensures NamesUnique(h)
  {
    forall n | n in h && NodeOk(h, n)
      ensures Distinct(Shown(h, n))
    {
      if n == p {
        ReconcileRefinesList(h0, root, next, p, listing, h, next');
        AfterShowsListing(Shown(h0, p), EntryNames(listing));
      } else if n in h0 {
        ShownKept(h0, root, next, p, listing, h, next', n);
      } else {
        assert Kids(h, n) == [];
      }
    }
  }

  // ----- Renaming -----

  /** `setData` with a string: the node takes the new name and a path built from its parent's. */
  function Renamed(h: Heap, n: Ref, name: string): Heap
    requires n in h && h[n].pNode.Some? && h[n].pNode.value in h
  {
    h[n := h[n].(data := h[n].data.(
      fullPath := h[h[n].pNode.value].data.fullPath + "/" + name, fileName := name))]
  }

  lemma {:induction false} DifferentMiddle(a: string, x: string, y: string, b: string)
    requires x != y
    ensures a + x + b != a + y + b
  {
    if |x| == |y| {
      var i :| 0 <= i < |x| && x[i] != y[i];
      assert (a + x + b)[|a| + i] == x[i] && (a + y + b)[|a| + i] == y[i];
    } else {
      assert |a + x + b| != |a + y + b|;
    }
  }

  /** Stored paths survive a rename exactly when the new name can stand in a path and the renamed node has
      no loaded children: the paths below it are not repaired. */
  lemma {:induction false} RenameKeepsPathsIffLeaf(h: Heap, root: Ref, next: Ref, n: Ref, name: string)
    requires Tree(h, root, next) && PathsOk(h, root) && n in h && n != root
    requires name != "" && name != h[n].data.fileName
    requires LinkOk(h, n) && h[n].pNode.Some?
    ensures PathsOk(Renamed(h, n, name), root) <==> h[n].childNodes == map[] && '/' !in name
  {
    var h' := Renamed(h, n, name);
    assert PathOk(h, n) && NodeOk(h, n);
    if '/' in name {
      assert !PathOk(h', n);
    } else if h[n].childNodes == map[] {
      forall m | m in h'
        ensures PathOk(h', m)
      {
        assert PathOk(h, m) && LinkOk(h, m);
      }
    } else {
      assert |h[n].childNodes| > 0;
      var k := h[n].childNodes[0];
      var up := h[h[n].pNode.value].data.fullPath;
      assert PathOk(h, k);
      var a, b := up + "/", "/" + h[k].data.fileName;
      assert h[n].data.fullPath + "/" + h[k].data.fileName == a + h[n].data.fileName + b;
      assert h'[n].data.fullPath + "/" + h[k].data.fileName == a + name + b;
      DifferentMiddle(a, h[n].data.fileName, name, b);
      assert !PathOk(h', k);
    }
  }

  /** Some other child of the same parent bears the name. */
  ghost predicate NameTaken(h: Heap, n: Ref, name: string)
    requires Shape(h) && n in h && h[n].pNode.Some? && h[n].pNode.value in h
  {
    exists k :: k in h && k != n && h[k].pNode == h[n].pNode && h[k].data.fileName == name
  }

  /** The children of `m`, and their names but that of `n`, are as before the rename. */
  lemma {:induction false} RenamedRow(h: Heap, n: Ref, name: string, m: Ref, r: nat)
    requires Shape(h) && n in h && h[n].pNode.Some? && h[n].pNode.value in h && Shape(Renamed(h, n, name))
    requires m in h && NodeOk(h, m) && r < |Kids(h, m)|
    ensures var h' := Renamed(h, n, name); var k := Kids(h, m)[r];
      && m in h' && NodeOk(h', m) && |Kids(h', m)| == |Kids(h, m)| && k in h && h[k].pNode == Some(m)
      && Shown(h', m)[r] == (if k == n then name else Shown(h, m)[r]) && Shown(h, m)[r] == h[k].data.fileName
  {
    var h' := Renamed(h, n, name);
    assert NodeOk(h', m) && h'[m].childNodes == h[m].childNodes;
    assert h[m].childNodes[r] == Kids(h, m)[r] == Kids(h', m)[r];
  }

  lemma {:induction false} RenamedShown(h: Heap, n: Ref, name: string, m: Ref)
    requires Shape(h) && n in h && h[n].pNode.Some? && h[n].pNode.value in h && Shape(Renamed(h, n, name))
    requires NamesUnique(h) && !NameTaken(h, n, name) && m in h && NodeOk(Renamed(h, n, name), m)
    ensures Distinct(Shown(Renamed(h, n, name), m))
  {
    var h' := Renamed(h, n, name);
    assert NodeOk(h, m) && h'[m].childNodes == h[m].childNodes;
    forall i, j | 0 <= i < j < |Kids(h', m)|
      ensures Shown(h', m)[i] != Shown(h', m)[j]
    {
      assert |Kids(h, m)| == |Kids(h', m)|;
      RenamedRow(h, n, name, m, i);
      RenamedRow(h, n, name, m, j);
      assert Shown(h, m)[i] != Shown(h, m)[j];
    }
  }

  /** Sibling names stay unique over a rename exactly when no sibling bears the new name already. */
  lemma {:induction false} RenameKeepsUniqueIff(h: Heap, root: Ref, next: Ref, n: Ref, name: string)
    requires Tree(h, root, next) && NamesUnique(h) && n in h && n != root
    requires LinkOk(h, n) && h[n].pNode.Some?
    ensures Shape(Renamed(h, n, name)) && (NamesUnique(Renamed(h, n, name)) <==> !NameTaken(h, n, name))
  {
    var h' := Renamed(h, n, name);
    DataIsTree(h, root, next, n, h'[n].data);
    if k :| k in h && k != n && h[k].pNode == h[n].pNode && h[k].data.fileName == name {
      var p := h[n].pNode.value;
      assert LinkOk(h, k) && NodeOk(h, p) && NodeOk(h', p);
      var i: int, j: int := h[n].onRow, h[k].onRow;
      assert Kids(h, p)[i] == n && Kids(h, p)[j] == k;
      RenamedRow(h, n, name, p, i);
      RenamedRow(h, n, name, p, j);
      assert !Distinct(Shown(h', p));
    } else {
      forall m | m in h' && NodeOk(h', m)
        ensures Distinct(Shown(h', m))
      {
        RenamedShown(h, n, name, m);
      }
    }
  }
}
