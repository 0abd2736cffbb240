// Pasting a session folder: the stack-driven copy of slot_paste_selected.

module SessionCopy {
  import opened PathTree

  datatype Item = Folder | Doc(content: string)

  type Store = map<Path, Item>

  ghost predicate Nothing(fs: Store, dst: Path) {
    forall q :: q in fs ==> !(dst <= q)
  }

  /** `fs'` is `fs` plus a copy at `dst` of everything at or below `src`. */
  ghost predicate Copied(fs: Store, src: Path, dst: Path, fs': Store) {
    && (forall q :: q in fs' <==> q in fs || (dst <= q && src + q[|dst|..] in fs))
    && (forall q :: q in fs ==> q in fs' && fs'[q] == fs[q])
    && (forall q :: q in fs' && dst <= q ==> src + q[|dst|..] in fs && fs'[q] == fs[src + q[|dst|..]])
  }

  // ----- Half-way -----

  /** The parent of `rel` has been emptied onto the other side, or is being emptied and `rel` is done. */
  ghost predicate Reached(emptied: set<Path>, cur: Path, done: set<string>, rel: Path) {
    rel == [] || rel[..|rel| - 1] in emptied || (rel[..|rel| - 1] == cur && rel[|rel| - 1] in done)
  }

  ghost predicate Arrived(fs: Store, src: Path, dst: Path, emptied: set<Path>, cur: Path, done: set<string>, q: Path) {
    dst <= q && src + q[|dst|..] in fs && Reached(emptied, cur, done, q[|dst|..])
  }

  ghost predicate Copying(fs: Store, src: Path, dst: Path, emptied: set<Path>, cur: Path, done: set<string>,
      fs': Store) {
    && (forall q :: q in fs' <==> q in fs || Arrived(fs, src, dst, emptied, cur, done, q))
    && (forall q :: q in fs ==> fs'[q] == fs[q])
    && (forall q :: q in fs' && dst <= q ==> src + q[|dst|..] in fs && fs'[q] == fs[src + q[|dst|..]])
  }

  /** Which folders are on the stack: those whose parent is emptied and that are not emptied themselves. */
  ghost predicate Pending(fs: Store, src: Path, emptied: set<Path>, cur: Path, done: set<string>, stack: seq<Path>) {
    && (forall i, j :: 0 <= i < j < |stack| ==> stack[i] != stack[j])
    && (forall rel :: rel in stack <==>
          src + rel in fs && fs[src + rel] == Folder && Reached(emptied, cur, done, rel)
          && rel !in emptied && rel != cur)
  }

  /** Emptied folders are closed under parents, so nothing below a pending one is emptied. */
  ghost predicate Closed(emptied: set<Path>) {
    forall rel {:trigger rel in emptied} :: rel in emptied && rel != [] ==> rel[..|rel| - 1] in emptied
  }

  /** One child copied. */
  lemma {:induction false} CopyOne(fs: Store, src: Path, dst: Path, emptied: set<Path>, cur: Path, done: set<string>,
      fs': Store, name: string)
    requires Copying(fs, src, dst, emptied, cur, done, fs') && Nothing(fs, dst)
    requires src + cur + [name] in fs
    ensures Copying(fs, src, dst, emptied, cur, done + {name}, fs'[dst + cur + [name] := fs[src + cur + [name]]])
  {
    var to, fs'' := dst + cur + [name], fs'[dst + cur + [name] := fs[src + cur + [name]]];
    assert dst <= to && to[|dst|..] == cur + [name] && src + (cur + [name]) == src + cur + [name];
    assert (cur + [name])[..|cur|] == cur;
    forall q
      ensures q in fs'' <==> q in fs || Arrived(fs, src, dst, emptied, cur, done + {name}, q)
    {
      if dst <= q {
        var rel := q[|dst|..];
        assert q == dst + rel;
        if rel != [] && rel[..|rel| - 1] == cur && rel[|rel| - 1] == name {
          assert rel == cur + [name];
          assert q == to;
        }
      }
    }
  }

  lemma {:induction false} PushOne(fs: Store, src: Path, emptied: set<Path>, cur: Path, done: set<string>,
      stack: seq<Path>, name: string)
    requires Pending(fs, src, emptied, cur, done, stack) && src + cur + [name] in fs
    requires name !in done && cur !in emptied && Closed(emptied)
    ensures var stack' := if fs[src + cur + [name]] == Folder then stack + [cur + [name]] else stack;
      Pending(fs, src, emptied, cur, done + {name}, stack') && Closed(emptied)
  {
    var kid := cur + [name];
    assert src + kid == src + cur + [name] && kid[..|cur|] == cur && kid[|cur|] == name;
    var stack' := if fs[src + kid] == Folder then stack + [kid] else stack;
    assert kid !in stack;
    forall rel
      ensures rel in stack' <==>
        src + rel in fs && fs[src + rel] == Folder && Reached(emptied, cur, done + {name}, rel)
        && rel !in emptied && rel != cur
    {
      if rel != [] && rel[..|rel| - 1] == cur && rel[|rel| - 1] == name {
        assert rel == kid;
      }
    }
  }

  // ----- Between folders -----

  ghost predicate Waiting(fs: Store, src: Path, emptied: set<Path>, stack: seq<Path>) {
    && (forall i, j :: 0 <= i < j < |stack| ==> stack[i] != stack[j])
    && (forall rel :: rel in stack <==>
          src + rel in fs && fs[src + rel] == Folder && Reached(emptied, [], {}, rel) && rel !in emptied)
  }

  lemma {:induction false} Pop(fs: Store, src: Path, dst: Path, emptied: set<Path>, stack: seq<Path>, fs': Store)
    requires Waiting(fs, src, emptied, stack) && stack != [] && Copying(fs, src, dst, emptied, [], {}, fs')
    ensures var cur := stack[|stack| - 1];
      && src + cur in fs && fs[src + cur] == Folder && cur !in emptied && Reached(emptied, [], {}, cur)
      && Pending(fs, src, emptied, cur, {}, stack[..|stack| - 1])
      && Copying(fs, src, dst, emptied, cur, {}, fs')
  {
    var cur, rest := stack[|stack| - 1], stack[..|stack| - 1];
    assert cur in stack && stack == rest + [cur];
    forall q
      ensures Arrived(fs, src, dst, emptied, cur, {}, q) <==> Arrived(fs, src, dst, emptied, [], {}, q)
    {
    }
  }

  lemma {:induction false} FinishReached(fs: Store, src: Path, emptied: set<Path>, cur: Path, done: set<string>,
      rel: Path)
    requires forall name :: Child(fs, src + cur, name) ==> name in done
    requires src + rel in fs
    ensures Reached(emptied, cur, done, rel) <==> Reached(emptied + {cur}, [], {}, rel)
  {
    if rel != [] && rel[..|rel| - 1] == cur {
      assert src + rel == src + cur + [rel[|rel| - 1]];
      assert Child(fs, src + cur, rel[|rel| - 1]);
    }
  }

  lemma {:induction false} FinishWaiting(fs: Store, src: Path, emptied: set<Path>, cur: Path, done: set<string>,
      stack: seq<Path>)
    requires Pending(fs, src, emptied, cur, done, stack)
    requires forall name :: Child(fs, src + cur, name) ==> name in done
    ensures Waiting(fs, src, emptied + {cur}, stack)
  {
    forall rel
      ensures rel in stack <==>
        src + rel in fs && fs[src + rel] == Folder && Reached(emptied + {cur}, [], {}, rel) && rel !in emptied + {cur}
    {
      if src + rel in fs {
        FinishReached(fs, src, emptied, cur, done, rel);
      }
    }
  }

  /** When every child of `cur` is done, `cur` is emptied. */
  lemma {:induction false} Finish(fs: Store, src: Path, dst: Path, emptied: set<Path>, cur: Path, done: set<string>,
      stack: seq<Path>, fs': Store)
    requires Pending(fs, src, emptied, cur, done, stack) && Copying(fs, src, dst, emptied, cur, done, fs')
    requires forall name :: Child(fs, src + cur, name) ==> name in done
    requires Closed(emptied) && Reached(emptied, [], {}, cur)
    ensures Waiting(fs, src, emptied + {cur}, stack) && Copying(fs, src, dst, emptied + {cur}, [], {}, fs')
    ensures Closed(emptied + {cur})
  {
    FinishWaiting(fs, src, emptied, cur, done, stack);
    forall q
      ensures Arrived(fs, src, dst, emptied + {cur}, [], {}, q) <==> Arrived(fs, src, dst, emptied, cur, done, q)
    {
      if dst <= q && src + q[|dst|..] in fs {
        FinishReached(fs, src, emptied, cur, done, q[|dst|..]);
      }
    }
  }

  lemma {:induction false} BeginWaiting(fs: Store, src: Path)
    requires src in fs && fs[src] == Folder
    ensures Waiting(fs, src, {}, [[]])
  {
    var stack: seq<Path> := [[]];
    assert src + [] == src;
    forall rel
      ensures rel in stack <==> src + rel in fs && fs[src + rel] == Folder && Reached({}, [], {}, rel)
    {
      assert rel in stack <==> rel == [];
    }
  }

  lemma {:induction false} Begin(fs: Store, src: Path, dst: Path)
    requires src in fs && fs[src] == Folder && Nothing(fs, dst)
    ensures Waiting(fs, src, {}, [[]]) && Copying(fs, src, dst, {}, [], {}, fs[dst := Folder]) && Closed({})
  {
    BeginWaiting(fs, src);
    assert src + [] == src;
    forall q
      ensures Arrived(fs, src, dst, {}, [], {}, q) <==> q == dst
    {
      if dst <= q {
        assert q == dst + q[|dst|..];
      }
    }
    forall q | q in fs[dst := Folder] && dst <= q
      ensures q == dst && q[|dst|..] == []
    {
    }
  }

  /** With nothing pending, everything below the source has been reached. */
  lemma {:induction false} AllReached(fs: Store, src: Path, emptied: set<Path>, rel: Path)
    requires Rooted(fs, Folder) && Waiting(fs, src, emptied, []) && src + rel in fs
    ensures Reached(emptied, [], {}, rel)
    decreases |rel|
  {
    if rel != [] {
      var up := rel[..|rel| - 1];
      assert (src + rel)[..|src + rel| - 1] == src + up;
      AllReached(fs, src, emptied, up);
      assert up !in [];
    }
  }

  lemma {:induction false} End(fs: Store, src: Path, dst: Path, emptied: set<Path>, fs': Store)
    requires Rooted(fs, Folder) && Waiting(fs, src, emptied, []) && Copying(fs, src, dst, emptied, [], {}, fs')
    ensures Copied(fs, src, dst, fs')
  {
    forall q | dst <= q && src + q[|dst|..] in fs
      ensures Arrived(fs, src, dst, emptied, [], {}, q)
    {
      AllReached(fs, src, emptied, q[|dst|..]);
    }
  }

  /** The copy never shows up where the source is being read. */
  lemma {:induction false} SourceUntouched(fs: Store, src: Path, dst: Path, emptied: set<Path>, cur: Path,
      done: set<string>, fs': Store, p: Path)
    requires Copying(fs, src, dst, emptied, cur, done, fs') && Nothing(fs, dst)
    requires src in fs && !(src <= dst) && src <= p
    ensures p in fs' <==> p in fs
    ensures p in fs ==> fs'[p] == fs[p]
  {
    Comparable(src, dst, p);
  }

  // ----- The guard -----

  function Render(p: Path): string {
    if p == [] then "" else Render(p[..|p| - 1]) + "/" + p[|p| - 1]
  }

  lemma {:induction false} RenderPrefix(p: Path, q: Path)
    requires p <= q
    ensures Render(p) <= Render(q)
    decreases |q|
  {
    if p != q {
      RenderPrefix(p, q[..|q| - 1]);
    }
  }

  /** A target that passes the string test of the dialog is not inside the source. */
  lemma {:induction false} GuardSuffices(fs: Store, src: Path, target: Path)
    requires !(Render(src) <= Render(target)) && src in fs && src != []
    requires Nothing(fs, target + [src[|src| - 1]])
    ensures !(src <= target + [src[|src| - 1]])
  {
    var dst := target + [src[|src| - 1]];
    if src <= target {
      RenderPrefix(src, target);
    }
    PrefixOfExtended(src, target, src[|src| - 1]);
  }

  lemma {:induction false} RenderCons(x: string, p: Path)
    ensures Render([x] + p) == "/" + x + Render(p)
    decreases |p|
  {
    if p == [] {
      assert [x][..0] == [];
      assert Render([]) + "/" + x == "/" + x + "";
    } else {
      var front, y := p[..|p| - 1], p[|p| - 1];
      RenderCons(x, front);
      assert ([x] + p)[..|p|] == [x] + front;
      assert ("/" + x + Render(front)) + "/" + y == "/" + x + (Render(front) + "/" + y);
    }
  }

  lemma {:induction false} RenderSlash(p: Path)
    requires p != []
    ensures Render(p) != "" && Render(p)[0] == '/'
  {
    assert p == [p[0]] + p[1..];
    RenderCons(p[0], p[1..]);
  }

  /** Two strings that both go on with a slash or end there share a component only if it is the same. */
  lemma {:induction false} ComponentPrefix(x: string, u: string, y: string, v: string)
    requires '/' !in x && '/' !in y && (u != "" ==> u[0] == '/') && (v != "" ==> v[0] == '/')
    ensures x + u <= y + v <==> if u == "" then x <= y else x == y && u <= v
  {
    assert |x| < |y| && u != "" ==> (x + u)[|x|] == '/' && (y + v)[|x|] == y[|x|];
    assert |x| > |y| && v != "" ==> (y + v)[|y|] == '/' && (x + u)[|y|] == x[|y|];
    assert forall i :: 0 <= i < |x| && i < |y| ==> x[i] == (x + u)[i] && (y + v)[i] == y[i];
    assert forall i :: 0 <= i < |u| && i < |v| && |x| == |y| ==> u[i] == (x + u)[|x| + i] && (y + v)[|y| + i] == v[i];
    if x + u <= y + v {
      assert forall i :: 0 <= i < |x + u| ==> (x + u)[i] == (y + v)[i];
    }
  }

  ghost predicate NoSlashes(p: Path) {
    forall i :: 0 <= i < |p| ==> '/' !in p[i]
  }

  /** `target` is `src` up to the last component, and the name there begins with the name of `src`. */
  ghost predicate LooksInside(src: Path, target: Path) {
    src != [] && |src| <= |target| && src[..|src| - 1] <= target && src[|src| - 1] <= target[|src| - 1]
  }

  lemma {:induction false} SlashFirst(a: string, b: string)
    ensures "/" + a <= "/" + b <==> a <= b
  {
    assert ("/" + a)[1..] == a && ("/" + b)[1..] == b;
    if "/" + a <= "/" + b {
      assert ("/" + b)[..|a| + 1] == "/" + a;
      assert b[..|a|] == a;
    }
  }

  lemma {:induction false} LooksInsideCons(src: Path, target: Path)
    requires |src| > 1 && target != []
    ensures LooksInside(src, target) <==> src[0] == target[0] && LooksInside(src[1..], target[1..])
  {
    var a, b := src[1..], target[1..];
    assert src[..|src| - 1] == [src[0]] + a[..|a| - 1];
    assert target == [target[0]] + b;
    if |src| <= |target| {
      assert src[..|src| - 1] <= target <==> src[0] == target[0] && a[..|a| - 1] <= b;
    }
  }

  /** The string test of the dialog refuses a target exactly if it looks like one inside the source: in or
      below the source itself, or any sibling whose name merely begins with the name of the source. */
  lemma {:induction false} RefusedIff(src: Path, target: Path)
    requires src != [] && NoSlashes(src) && NoSlashes(target)
    ensures Render(src) <= Render(target) <==> LooksInside(src, target)
    decreases |src|
  {
    assert src == [src[0]] + src[1..];
    RenderCons(src[0], src[1..]);
    if target == [] {
      assert Render(target) == "";
    } else {
      var x, u, y, v := src[0], Render(src[1..]), target[0], Render(target[1..]);
      assert target == [y] + target[1..];
      RenderCons(y, target[1..]);
      if |src| > 1 {
        RenderSlash(src[1..]);
        RefusedIff(src[1..], target[1..]);
        LooksInsideCons(src, target);
      }
      if |target| > 1 {
        RenderSlash(target[1..]);
      }
      ComponentPrefix(x, u, y, v);
      SlashFirst(x + u, y + v);
      assert "/" + x + u == "/" + (x + u) && "/" + y + v == "/" + (y + v);
    }
  }

  /** So a target outside the source is refused exactly if some name on its way strictly extends the
      name of the source. */
  lemma {:induction false} RefusedOutsideIff(src: Path, target: Path)
    requires src != [] && NoSlashes(src) && NoSlashes(target)
    ensures Render(src) <= Render(target) && !(src <= target) <==>
      LooksInside(src, target) && target[|src| - 1] != src[|src| - 1]
  {
    RefusedIff(src, target);
    if LooksInside(src, target) && target[|src| - 1] == src[|src| - 1] {
      assert src == src[..|src| - 1] + [src[|src| - 1]];
    }
  }

  /** The folder "/a" cannot be pasted into its sibling "/ab". */
  lemma {:induction false} SiblingRefused()
    ensures Render(["a"]) <= Render(["ab"]) && !(["a"] <= ["ab"])
  {
    RefusedOutsideIff(["a"], ["ab"]);
  }

  ghost function Folders(fs: Store, src: Path): set<Path> {
    set q | q in fs && src <= q && fs[q] == Folder :: q[|src|..]
  }

  class SessionTree {
    var items: Store

    constructor (fs: Store)
      ensures items == fs
    {
      items := fs;
    }

    /** The inner loop: one folder's children are created on the other side. */
    method CopyChildren(src: Path, dst: Path, cur: Path, stack0: seq<Path>, ghost fs: Store, ghost emptied: set<Path>)
      returns (stack: seq<Path>, ghost done: set<string>)
      requires Nothing(fs, dst) && src in fs && !(src <= dst) && src + cur in fs && cur !in emptied && Closed(emptied)
      requires Copying(fs, src, dst, emptied, cur, {}, items) && Pending(fs, src, emptied, cur, {}, stack0)
      modifies this
      ensures Copying(fs, src, dst, emptied, cur, done, items) && Pending(fs, src, emptied, cur, done, stack)
      ensures forall name :: Child(fs, src + cur, name) ==> name in done
    {
      stack, done := stack0, {};
      var names := ListChildren(items, src + cur);
      forall name
        ensures name in names <==> Child(fs, src + cur, name)
      {
        assert src <= src + cur + [name];
        SourceUntouched(fs, src, dst, emptied, cur, {}, items, src + cur + [name]);
      }
      for i := 0 to |names|
        invariant forall name :: name in done <==> name in names[..i]
        invariant Copying(fs, src, dst, emptied, cur, done, items) && Pending(fs, src, emptied, cur, done, stack)
      {
        var from := src + cur + [names[i]];
        assert names[i] in names && Child(fs, src + cur, names[i]) && src <= from;
        SourceUntouched(fs, src, dst, emptied, cur, done, items, from);
        CopyOne(fs, src, dst, emptied, cur, done, items, names[i]);
        PushOne(fs, src, emptied, cur, done, stack, names[i]);
        if items[from] == Folder {
          items := items[dst + cur + [names[i]] := Folder];
          stack := stack + [cur + [names[i]]];
        } else {
          items := items[dst + cur + [names[i]] := items[from]];
        }
        done := done + {names[i]};
      }
      assert names[..|names|] == names;
    }

    /** The copy loop over the stack of folders. */
    method CopyFolder(src: Path, dst: Path)
      requires Rooted(items, Folder) && src in items && items[src] == Folder && Nothing(items, dst) && !(src <= dst)
      modifies this
      ensures Copied(old(items), src, dst, items)
    {
      ghost var fs, emptied: set<Path> := items, {};
      Begin(fs, src, dst);
      items := items[dst := Folder];
      var entries: seq<Path> := [[]];
      while entries != []
        invariant Waiting(fs, src, emptied, entries) && Copying(fs, src, dst, emptied, [], {}, items) && Closed(emptied)
        decreases Folders(fs, src) - emptied
      {
        Pop(fs, src, dst, emptied, entries, items);
        var cur := entries[|entries| - 1];
        entries := entries[..|entries| - 1];
        ghost var done;
        entries, done := CopyChildren(src, dst, cur, entries, fs, emptied);
        Finish(fs, src, dst, emptied, cur, done, entries, items);
        assert src + cur in fs && (src + cur)[|src|..] == cur;
        assert cur in Folders(fs, src);
        emptied := emptied + {cur};
      }
      End(fs, src, dst, emptied, items);
    }

    /** Pasting a copied folder: refused on itself and below itself, by the string test of the dialog. */
    method PasteFolder(src: Path, target: Path) returns (pasted: bool)
      requires Rooted(items, Folder) && src in items && src != [] && items[src] == Folder
      requires Nothing(items, target + [src[|src| - 1]])
      modifies this
      ensures pasted <==> !(Render(src) <= Render(target))
      ensures pasted ==> Copied(old(items), src, target + [src[|src| - 1]], items)
      ensures !pasted ==> items == old(items)
    {
      if target == src || Render(src) <= Render(target) {
        return false;
      }
      GuardSuffices(items, src, target);
      CopyFolder(src, target + [src[|src| - 1]]);
      return true;
    }
  }
}
