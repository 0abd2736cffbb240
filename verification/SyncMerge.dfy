// Merging the remote and the local file list: sortMerge over a heap of attribute records.

module SyncMerge {
  import opened SyncWalk
  import opened ListSpec

  type Ptr = nat

  datatype Class = LocalOnly | RemoteOnly | LocalNewer | RemoteNewer | Equal | Different

  // src/synchronizewindow.h:41-46
  function Bit(c: Class): bv32 {
    match c
    case LocalOnly => 0x0040_0000
    case RemoteOnly => 0x0080_0000
    case LocalNewer => 0x0100_0000
    case RemoteNewer => 0x0200_0000
    case Equal => 0x0400_0000
    case Different => 0x0800_0000
  }

  const CLASS_BITS: bv32 := 0x0FC0_0000

  predicate Clear(flags: bv32) {
    flags & CLASS_BITS == 0
  }

  /** Of the six class bits exactly the one of `c` is set. */
  predicate Classed(flags: bv32, c: Class) {
    flags & CLASS_BITS == Bit(c)
  }

  lemma {:induction false} ClassedByBit(flags: bv32, c: Class)
    requires Clear(flags)
    ensures Classed(flags | Bit(c), c)
  {
    assert (flags | Bit(c)) & 0x0FC0_0000 == (flags & 0x0FC0_0000) | (Bit(c) & 0x0FC0_0000);
  }

  datatype Attr = Attr(meta: Meta, flags: bv32)

  function Mark(a: Attr, c: Class): Attr {
    a.(flags := a.flags | Bit(c))
  }

  datatype Row = Row(path: string, ptr: Ptr)
  type Attrs = map<Ptr, Attr>

  const FILE_TIME_PRECISION := 2

  predicate SameFileTime(a: nat, b: nat) {
    if a < b then b - a <= FILE_TIME_PRECISION else a - b <= FILE_TIME_PRECISION
  }

  function Compare(r: Meta, l: Meta): Class {
    if SameFileTime(r.mtime, l.mtime) then (if r.size == l.size then Equal else Different)
    else if r.mtime > l.mtime then RemoteNewer
    else LocalNewer
  }

  // ----- What the two loops compute -----

  /** First row with the path, or the length. */
  function IndexOf(rows: seq<Row>, path: string): (j: nat)
    ensures j <= |rows|
    ensures j < |rows| ==> rows[j].path == path
    ensures forall k :: 0 <= k < j ==> rows[k].path != path
  {
    if rows == [] || rows[0].path == path then 0 else 1 + IndexOf(rows[1..], path)
  }

  function DropAt(rows: seq<Row>, j: nat): seq<Row> {
    if j < |rows| then rows[..j] + rows[j + 1..] else rows
  }

  /** The local rows still unmatched once the remote rows `r` have been looked up. */
  function Left(l: seq<Row>, r: seq<Row>): seq<Row> {
    if r == [] then l
    else
      var left := Left(l, r[..|r| - 1]);
      DropAt(left, IndexOf(left, r[|r| - 1].path))
  }

  /** The records freed on the way, in order. */
  function Freed(l: seq<Row>, r: seq<Row>): seq<Ptr> {
    if r == [] then []
    else
      var left, freed := Left(l, r[..|r| - 1]), Freed(l, r[..|r| - 1]);
      var j := IndexOf(left, r[|r| - 1].path);
      if j < |left| then freed + [left[j].ptr] else freed
  }

  /** The class remote row `i` gets. */
  function ClassAt(m: Attrs, l: seq<Row>, r: seq<Row>, i: nat): Class
    requires i < |r|
  {
    var left := Left(l, r[..i]);
    var j := IndexOf(left, r[i].path);
    if j < |left| && r[i].ptr in m && left[j].ptr in m
    then Compare(m[r[i].ptr].meta, m[left[j].ptr].meta) else RemoteOnly
  }

  function Ptrs(rows: seq<Row>): (ps: seq<Ptr>)
    ensures |ps| == |rows| && forall i :: 0 <= i < |rows| ==> ps[i] == rows[i].ptr
  {
    seq(|rows|, i requires 0 <= i < |rows| => rows[i].ptr)
  }

  /** Every row refers to a record of its own, with no class bit set yet. */
  ghost predicate Separate(m: Attrs, l: seq<Row>, r: seq<Row>) {
    && Distinct(Ptrs(l)) && Distinct(Ptrs(r))
    && (forall p :: p in Ptrs(r) ==> p in m && Clear(m[p].flags) && p !in Ptrs(l))
    && (forall p :: p in Ptrs(l) ==> p in m && Clear(m[p].flags))
  }

  /** What `Separate` says about one remote row. */
  lemma {:induction false} RemoteRecord(m: Attrs, l: seq<Row>, r: seq<Row>, i: nat)
    requires Separate(m, l, r) && i < |r|
    ensures r[i].ptr in Ptrs(r) && r[i].ptr !in Ptrs(l) && r[i].ptr in m && Clear(m[r[i].ptr].flags)
    ensures forall k :: 0 <= k < |r| && k != i ==> r[k].ptr != r[i].ptr
  {
    assert Ptrs(r)[i] == r[i].ptr;
    forall k | 0 <= k < |r| && k != i
      ensures r[k].ptr != r[i].ptr
    {
      assert Ptrs(r)[k] == r[k].ptr;
    }
  }

  lemma {:induction false} LocalRecord(m: Attrs, l: seq<Row>, r: seq<Row>, j: nat)
    requires Separate(m, l, r) && j < |l|
    ensures l[j].ptr in Ptrs(l) && l[j].ptr !in Ptrs(r) && l[j].ptr in m && Clear(m[l[j].ptr].flags)
  {
    assert Ptrs(l)[j] == l[j].ptr;
  }

  lemma {:induction false} DropCounts(rows: seq<Row>, j: nat)
    requires j < |rows|
    ensures multiset(Ptrs(rows)) == multiset(Ptrs(DropAt(rows, j))) + multiset{rows[j].ptr}
  {
    var a, b := Ptrs(rows[..j]), Ptrs(rows[j + 1..]);
    assert Ptrs(rows) == a + [rows[j].ptr] + b;
    assert Ptrs(DropAt(rows, j)) == a + b;
  }

  /** Records are conserved: each local one is either still listed or freed, exactly once. */
  lemma {:induction false} RecordsConserved(l: seq<Row>, r: seq<Row>)
    ensures multiset(Ptrs(Left(l, r))) + multiset(Freed(l, r)) == multiset(Ptrs(l))
    decreases |r|
  {
    if r != [] {
      var front := r[..|r| - 1];
      RecordsConserved(l, front);
      var left := Left(l, front);
      var j := IndexOf(left, r[|r| - 1].path);
      if j < |left| {
        DropCounts(left, j);
      }
    }
  }

  lemma {:induction false} LeftFrom(l: seq<Row>, r: seq<Row>, k: nat) returns (j: nat)
    requires k < |Left(l, r)|
    ensures k <= j < |l| && Left(l, r)[k] == l[j]
    decreases |r|
  {
    if r == [] {
      j := k;
    } else {
      var front := r[..|r| - 1];
      var left := Left(l, front);
      var d := IndexOf(left, r[|r| - 1].path);
      j := LeftFrom(l, front, if d < |left| && k >= d then k + 1 else k);
    }
  }

  lemma {:induction false} LeftDistinct(l: seq<Row>, r: seq<Row>)
    requires Distinct(Ptrs(l))
    ensures Distinct(Ptrs(Left(l, r)))
    decreases |r|
  {
    if r != [] {
      var front := r[..|r| - 1];
      LeftDistinct(l, front);
      var left := Left(l, front);
      var d := IndexOf(left, r[|r| - 1].path);
      if d < |left| {
        var left' := DropAt(left, d);
        forall a, b | 0 <= a < b < |left'|
          ensures left'[a].ptr != left'[b].ptr
        {
          var a', b' := if a < d then a else a + 1, if b < d then b else b + 1;
          assert left'[a] == left[a'] && left'[b] == left[b'];
          assert Ptrs(left)[a'] != Ptrs(left)[b'];
        }
      }
    }
  }

  // ----- The attribute records while the loops run -----

  function RecordAt(m0: Attrs, l: seq<Row>, r: seq<Row>, i: nat, k: nat): Attr
    requires k < |r| && r[k].ptr in m0
  {
    var a := m0[r[k].ptr];
    if k < i then Mark(a, ClassAt(m0, l, r, k)) else a
  }

  /** Records after `i` remote rows: flagged, freed or untouched. */
  ghost predicate Flagged(m0: Attrs, l: seq<Row>, r: seq<Row>, i: nat, m: Attrs)
    requires i <= |r|
  {
    && (forall k {:trigger RecordAt(m0, l, r, i, k)} :: 0 <= k < |r| && r[k].ptr in m0 ==>
         r[k].ptr in m && m[r[k].ptr] == RecordAt(m0, l, r, i, k))
    && (forall p :: p in m <==> p in m0 && p !in Freed(l, r[..i]))
    && (forall p :: p in m && p !in Ptrs(r) ==> m[p] == m0[p])
  }

  lemma {:induction false} FlaggedStart(m0: Attrs, l: seq<Row>, r: seq<Row>)
    requires Separate(m0, l, r)
    ensures Flagged(m0, l, r, 0, m0)
  {
    assert r[..0] == [];
  }

  lemma {:induction false} DistinctOnce(s: seq<Ptr>, k: nat)
    requires Distinct(s) && k < |s|
    ensures multiset(s)[s[k]] == 1
  {
    assert s == s[..k] + [s[k]] + s[k + 1..];
    assert s[k] !in s[..k] && s[k] !in s[k + 1..];
  }

  lemma {:induction false} NotFreed(l: seq<Row>, r: seq<Row>, j: nat)
    requires Distinct(Ptrs(l)) && j < |Left(l, r)|
    ensures Left(l, r)[j].ptr !in Freed(l, r)
  {
    var left := Left(l, r);
    var k := LeftFrom(l, r, j);
    var p := left[j].ptr;
    RecordsConserved(l, r);
    DistinctOnce(Ptrs(l), k);
    assert Ptrs(left)[j] == p;
    assert p in Ptrs(left);
    assert multiset(Ptrs(left))[p] >= 1;
    assert multiset(Freed(l, r))[p] == 0;
  }

  /** An unmatched local record is alive and unchanged. */
  lemma {:induction false} LeftAlive(m0: Attrs, l: seq<Row>, r: seq<Row>, i: nat, m: Attrs, j: nat)
    requires i <= |r| && Separate(m0, l, r) && Flagged(m0, l, r, i, m) && j < |Left(l, r[..i])|
    ensures var p := Left(l, r[..i])[j].ptr;
      p in m && p in m0 && m[p] == m0[p] && p !in Ptrs(r) && Clear(m0[p].flags)
  {
    var left := Left(l, r[..i]);
    var k := LeftFrom(l, r[..i], j);
    LocalRecord(m0, l, r, k);
    NotFreed(l, r[..i], j);
  }

  /** The records once a remote row is dealt with: flagged, and its match freed. */
  function Settled(m: Attrs, left: seq<Row>, row: Row): Attrs
    requires row.ptr in m
  {
    var j := IndexOf(left, row.path);
    var a := m[row.ptr];
    if j < |left| && left[j].ptr in m
    then m[row.ptr := Mark(a, Compare(a.meta, m[left[j].ptr].meta))] - {left[j].ptr}
    else m[row.ptr := Mark(a, RemoteOnly)]
  }

  /** What the next remote row will find. */
  lemma {:induction false} NextRow(m0: Attrs, l: seq<Row>, r: seq<Row>, i: nat, m: Attrs)
    requires i < |r| && Separate(m0, l, r) && Flagged(m0, l, r, i, m)
    ensures r[i].ptr in m && r[i].ptr in m0 && m[r[i].ptr] == m0[r[i].ptr]
    ensures var left := Left(l, r[..i]); var j := IndexOf(left, r[i].path);
      && Freed(l, r[..i + 1]) == (if j < |left| then Freed(l, r[..i]) + [left[j].ptr] else Freed(l, r[..i]))
      && Left(l, r[..i + 1]) == DropAt(left, j)
      && (forall k :: 0 <= k < |left| ==> left[k].ptr in m && left[k].ptr != r[i].ptr)
      && (j < |left| ==> left[j].ptr in m0 && m[left[j].ptr] == m0[left[j].ptr] && left[j].ptr !in Ptrs(r))
  {
    var left := Left(l, r[..i]);
    var j := IndexOf(left, r[i].path);
    assert r[..i + 1][..i] == r[..i];
    RemoteRecord(m0, l, r, i);
    var a := RecordAt(m0, l, r, i, i);
    forall k | 0 <= k < |left|
      ensures left[k].ptr in m && left[k].ptr != r[i].ptr
    {
      LeftAlive(m0, l, r, i, m, k);
    }
    if j < |left| {
      LeftAlive(m0, l, r, i, m, j);
    }
  }

  lemma {:induction false} FlagStepRow(m0: Attrs, l: seq<Row>, r: seq<Row>, i: nat, m: Attrs, k: nat)
    requires i < |r| && k < |r| && Separate(m0, l, r) && Flagged(m0, l, r, i, m)
    ensures r[i].ptr in m && r[k].ptr in m0
    ensures var m' := Settled(m, Left(l, r[..i]), r[i]);
      r[k].ptr in m' && m'[r[k].ptr] == RecordAt(m0, l, r, i + 1, k)
  {
    NextRow(m0, l, r, i, m);
    RemoteRecord(m0, l, r, k);
    var a := RecordAt(m0, l, r, i, k);
    assert m[r[k].ptr] == a;
  }

  lemma {:induction false} FlagStepKeys(m0: Attrs, l: seq<Row>, r: seq<Row>, i: nat, m: Attrs)
    requires i < |r| && Separate(m0, l, r) && Flagged(m0, l, r, i, m)
    ensures r[i].ptr in m
    ensures var m' := Settled(m, Left(l, r[..i]), r[i]);
      && (forall p :: p in m' <==> p in m0 && p !in Freed(l, r[..i + 1]))
      && (forall p :: p in m' && p !in Ptrs(r) ==> m'[p] == m0[p])
  {
    NextRow(m0, l, r, i, m);
    RemoteRecord(m0, l, r, i);
  }

  lemma {:induction false} FlagStep(m0: Attrs, l: seq<Row>, r: seq<Row>, i: nat, m: Attrs)
    requires i < |r| && Separate(m0, l, r) && Flagged(m0, l, r, i, m)
    ensures r[i].ptr in m && Flagged(m0, l, r, i + 1, Settled(m, Left(l, r[..i]), r[i]))
  {
    FlagStepKeys(m0, l, r, i, m);
    var m' := Settled(m, Left(l, r[..i]), r[i]);
    forall k | 0 <= k < |r| && r[k].ptr in m0
      ensures r[k].ptr in m' && m'[r[k].ptr] == RecordAt(m0, l, r, i + 1, k)
    {
      FlagStepRow(m0, l, r, i, m, k);
    }
  }

  // ----- The rows only known locally -----

  ghost predicate TailFlagged(m1: Attrs, left: seq<Row>, j: nat, m: Attrs) {
    && m.Keys == m1.Keys
    && (forall k :: 0 <= k < |left| ==> left[k].ptr in m1)
    && (forall k {:trigger left[k]} :: 0 <= k < |left| && k < j ==>
         m[left[k].ptr] == Mark(m1[left[k].ptr], LocalOnly))
    && (forall k {:trigger left[k]} :: j <= k < |left| ==> m[left[k].ptr] == m1[left[k].ptr])
    && (forall p :: p in m && p !in Ptrs(left) ==> m[p] == m1[p])
  }

  lemma {:induction false} TailStep(m1: Attrs, left: seq<Row>, j: nat, m: Attrs)
    requires j < |left| && Distinct(Ptrs(left)) && TailFlagged(m1, left, j, m)
    ensures var p := left[j].ptr;
      p in m && TailFlagged(m1, left, j + 1, m[p := Mark(m[p], LocalOnly)])
  {
    forall k | 0 <= k < |left| && k != j
      ensures left[k].ptr != left[j].ptr
    {
      assert Ptrs(left)[k] == left[k].ptr && Ptrs(left)[j] == left[j].ptr;
    }
    assert left[j].ptr in Ptrs(left) by { assert Ptrs(left)[j] == left[j].ptr; }
  }

  /** The class of row `i` of the merged list. */
  function RowClass(m: Attrs, l: seq<Row>, r: seq<Row>, i: nat): Class {
    if i < |r| then ClassAt(m, l, r, i) else LocalOnly
  }

  lemma {:induction false} RemoteNotLeft(m0: Attrs, l: seq<Row>, r: seq<Row>, i: nat)
    requires Separate(m0, l, r) && i < |r|
    ensures r[i].ptr !in Ptrs(Left(l, r))
  {
    var left := Left(l, r);
    RemoteRecord(m0, l, r, i);
    forall j | 0 <= j < |left|
      ensures Ptrs(left)[j] != r[i].ptr
    {
      var k := LeftFrom(l, r, j);
      LocalRecord(m0, l, r, k);
    }
  }

  ghost predicate RowClassed(m0: Attrs, l: seq<Row>, r: seq<Row>, i: nat, p: Ptr, m: Attrs) {
    p in m && p in m0 && m[p].meta == m0[p].meta && Classed(m[p].flags, RowClass(m0, l, r, i))
  }

  /** Every row of the merged list keeps its metadata and carries exactly its class bit. */
  ghost predicate RowsClassed(m0: Attrs, l: seq<Row>, r: seq<Row>, files: seq<Row>, m: Attrs) {
    forall i :: 0 <= i < |files| ==> RowClassed(m0, l, r, i, files[i].ptr, m)
  }

  lemma {:induction false} LocalRow(m0: Attrs, l: seq<Row>, r: seq<Row>, m1: Attrs, m: Attrs, j: nat)
    requires Separate(m0, l, r) && Flagged(m0, l, r, |r|, m1)
    requires TailFlagged(m1, Left(l, r), |Left(l, r)|, m) && j < |Left(l, r)|
    ensures RowClassed(m0, l, r, |r| + j, Left(l, r)[j].ptr, m)
  {
    assert r[..|r|] == r;
    LeftAlive(m0, l, r, |r|, m1, j);
    ClassedByBit(m0[Left(l, r)[j].ptr].flags, LocalOnly);
  }

  lemma {:induction false} RemoteRow(m0: Attrs, l: seq<Row>, r: seq<Row>, m1: Attrs, m: Attrs, i: nat)
    requires Separate(m0, l, r) && Flagged(m0, l, r, |r|, m1)
    requires TailFlagged(m1, Left(l, r), |Left(l, r)|, m) && i < |r|
    ensures RowClassed(m0, l, r, i, r[i].ptr, m)
  {
    RemoteNotLeft(m0, l, r, i);
    RemoteRecord(m0, l, r, i);
    var a := RecordAt(m0, l, r, |r|, i);
    ClassedByBit(m0[r[i].ptr].flags, ClassAt(m0, l, r, i));
  }

  lemma {:induction false} AnyRow(m0: Attrs, l: seq<Row>, r: seq<Row>, m1: Attrs, m: Attrs, i: nat)
    requires Separate(m0, l, r) && Flagged(m0, l, r, |r|, m1)
    requires TailFlagged(m1, Left(l, r), |Left(l, r)|, m) && i < |r + Left(l, r)|
    ensures RowClassed(m0, l, r, i, (r + Left(l, r))[i].ptr, m)
  {
    if i < |r| {
      RemoteRow(m0, l, r, m1, m, i);
    } else {
      LocalRow(m0, l, r, m1, m, i - |r|);
    }
  }

  lemma {:induction false} AllClassed(m0: Attrs, l: seq<Row>, r: seq<Row>, m1: Attrs, m: Attrs)
    requires Separate(m0, l, r) && Flagged(m0, l, r, |r|, m1)
    requires TailFlagged(m1, Left(l, r), |Left(l, r)|, m)
    ensures RowsClassed(m0, l, r, r + Left(l, r), m)
  {
    var files := r + Left(l, r);
    forall i | 0 <= i < |files|
      ensures RowClassed(m0, l, r, i, files[i].ptr, m)
    {
      AnyRow(m0, l, r, m1, m, i);
    }
  }

  class SyncWalker {
    var rfiles: seq<Row>
    var lfiles: seq<Row>
    var attrs: Attrs
    var freed: seq<Ptr>

    constructor (r: seq<Row>, l: seq<Row>, m: Attrs)
      ensures rfiles == r && lfiles == l && attrs == m && freed == []
    {
      rfiles, lfiles, attrs, freed := r, l, m, [];
    }

    method FindRow(path: string) returns (found: nat)
      ensures found == IndexOf(lfiles, path)
    {
      found := 0;
      while found < |lfiles| && lfiles[found].path != path
        invariant found <= |lfiles| && forall k :: 0 <= k < found ==> lfiles[k].path != path
      {
        found := found + 1;
      }
      assert found == IndexOf(lfiles, path) || IndexOf(lfiles, path) == |lfiles|;
    }

    /** Flags a matched pair and frees the local record. */
    method SettlePair(r: Ptr, p: Ptr, c: Class)
      requires r in attrs && p in attrs && r != p
      modifies this`attrs, this`freed
      ensures attrs == old(attrs)[r := Mark(old(attrs)[r], c)] - {p}
      ensures freed == old(freed) + [p]
    {
      attrs := attrs[r := Mark(attrs[r], c)];
      attrs := attrs[p := Mark(attrs[p], c)];
      attrs := attrs - {p};
      freed := freed + [p];
    }

    /** One remote row: look it up among the local ones, compare, flag, and drop the match. */
    method MergeRow(row: Row)
      requires row.ptr in attrs
      requires forall k :: 0 <= k < |lfiles| ==> lfiles[k].ptr in attrs && lfiles[k].ptr != row.ptr
      modifies this`lfiles, this`attrs, this`freed
      ensures attrs == Settled(old(attrs), old(lfiles), row)
      ensures var j := IndexOf(old(lfiles), row.path);
        && lfiles == DropAt(old(lfiles), j)
        && freed == old(freed) + if j < |old(lfiles)| then [old(lfiles)[j].ptr] else []
    {
      var found := FindRow(row.path);
      if found < |lfiles| {
        var p := lfiles[found].ptr;
        SettlePair(row.ptr, p, Compare(attrs[row.ptr].meta, attrs[p].meta));
        lfiles := lfiles[..found] + lfiles[found + 1..];
      } else {
        attrs := attrs[row.ptr := Mark(attrs[row.ptr], RemoteOnly)];
      }
    }

    /** The last loop: what is left in `lfiles` exists only locally. */
    method FlagRest(files0: seq<Row>) returns (files: seq<Row>)
      requires Distinct(Ptrs(lfiles)) && forall k :: 0 <= k < |lfiles| ==> lfiles[k].ptr in attrs
      modifies this`attrs
      ensures TailFlagged(old(attrs), lfiles, |lfiles|, attrs) && files == files0 + lfiles
    {
      files := files0;
      for j := 0 to |lfiles|
        invariant TailFlagged(old(attrs), lfiles, j, attrs) && files == files0 + lfiles[..j]
      {
        TailStep(old(attrs), lfiles, j, attrs);
        var p := lfiles[j].ptr;
        attrs := attrs[p := Mark(attrs[p], LocalOnly)];
        files := files + [lfiles[j]];
      }
      assert lfiles[..|lfiles|] == lfiles;
    }

    method MergeNext(i: nat, ghost m0: Attrs, ghost l: seq<Row>, ghost freed0: seq<Ptr>)
      requires i < |rfiles| && Separate(m0, l, rfiles) && Flagged(m0, l, rfiles, i, attrs)
      requires lfiles == Left(l, rfiles[..i]) && freed == freed0 + Freed(l, rfiles[..i])
      modifies this`lfiles, this`attrs, this`freed
      ensures Flagged(m0, l, rfiles, i + 1, attrs)
      ensures lfiles == Left(l, rfiles[..i + 1]) && freed == freed0 + Freed(l, rfiles[..i + 1])
    {
      ghost var r, left, freed1 := rfiles, lfiles, Freed(l, rfiles[..i]);
      NextRow(m0, l, r, i, attrs);
      FlagStep(m0, l, r, i, attrs);
      MergeRow(rfiles[i]);
      ghost var j := IndexOf(left, r[i].path);
      Assoc(freed0, freed1, if j < |left| then [left[j].ptr] else []);
    }

    /** The first loop: every remote row in turn. */
    method MergeRemote() returns (files: seq<Row>)
      requires Separate(attrs, lfiles, rfiles)
      modifies this`lfiles, this`attrs, this`freed
      ensures files == rfiles && lfiles == Left(old(lfiles), rfiles)
      ensures freed == old(freed) + Freed(old(lfiles), rfiles)
      ensures Flagged(old(attrs), old(lfiles), rfiles, |rfiles|, attrs)
    {
      ghost var m0, l, r := attrs, lfiles, rfiles;
      files := [];
      FlaggedStart(m0, l, r);
      assert r[..0] == [];
      for i := 0 to |rfiles|
        invariant Flagged(m0, l, r, i, attrs)
        invariant lfiles == Left(l, r[..i]) && freed == old(freed) + Freed(l, r[..i])
        invariant files == r[..i]
      {
        MergeNext(i, m0, l, old(freed));
        files := files + [rfiles[i]];
      }
      assert r[..|r|] == r;
    }

    /** sortMerge. */
    method SortMerge() returns (files: seq<Row>)
      requires Separate(attrs, lfiles, rfiles)
      modifies this
      ensures rfiles == [] && lfiles == []
      ensures files == old(rfiles) + Left(old(lfiles), old(rfiles))
      ensures freed == old(freed) + Freed(old(lfiles), old(rfiles))
      ensures forall p :: p in attrs <==> p in old(attrs) && p !in Freed(old(lfiles), old(rfiles))
      ensures RowsClassed(old(attrs), old(lfiles), old(rfiles), files, attrs)
    {
      ghost var m0, l, r := attrs, lfiles, rfiles;
      files := MergeRemote();
      ghost var m1 := attrs;
      assert r[..|r|] == r;
      LeftDistinct(l, r);
      forall k | 0 <= k < |lfiles| ensures lfiles[k].ptr in m1 {
        LeftAlive(m0, l, r, |r|, m1, k);
      }
      files := FlagRest(files);
      rfiles, lfiles := [], [];
      AllClassed(m0, l, r, m1, attrs);
    }
  }
}
