// The simple view of a directory: a list of names, and what a server listing does to it.

module ListSpec {

  ghost predicate Distinct<T>(s: seq<T>) {
    forall i, j :: 0 <= i < j < |s| ==> s[i] != s[j]
  }

  lemma {:induction false} DistinctMore<T>(s: seq<T>, x: T)
    requires Distinct(s) && x !in s
    ensures Distinct(s + [x])
  {
  }

  lemma {:induction false} Assoc<T>(a: seq<T>, b: seq<T>, c: seq<T>)
    ensures (a + b) + c == a + (b + c)
  {
  }

  /** The names still listed, in their old order. */
  function Keep(before: seq<string>, listed: seq<string>): (kept: seq<string>)
    ensures forall x :: x in kept <==> x in before && x in listed
  {
    if before == [] then []
    else if before[0] in listed then [before[0]] + Keep(before[1..], listed)
    else Keep(before[1..], listed)
  }

  /** First occurrences in `listed` of names not in `have`, in listing order. */
  function Fresh(listed: seq<string>, have: seq<string>): (added: seq<string>)
    ensures forall x :: x in added <==> x in listed && x !in have
  {
    if listed == [] then []
    else
      var added, x := Fresh(listed[..|listed| - 1], have), listed[|listed| - 1];
      assert listed == listed[..|listed| - 1] + [x];
      if x in have || x in added then added else added + [x]
  }

  /** The directory after the listing was taken over. */
  function After(before: seq<string>, listed: seq<string>): seq<string> {
    Keep(before, listed) + Fresh(listed, Keep(before, listed))
  }

  lemma {:induction false} KeepDistinct(before: seq<string>, listed: seq<string>)
    requires Distinct(before)
    ensures Distinct(Keep(before, listed))
    decreases |before|
  {
    if before != [] {
      KeepDistinct(before[1..], listed);
      assert before[0] !in before[1..];
    }
  }

  lemma {:induction false} FreshDistinct(listed: seq<string>, have: seq<string>)
    ensures Distinct(Fresh(listed, have))
    decreases |listed|
  {
    if listed != [] {
      FreshDistinct(listed[..|listed| - 1], have);
    }
  }

  lemma {:induction false} FirstListed(listed: seq<string>, have: seq<string>, a: nat) returns (i: nat)
    requires a < |Fresh(listed, have)|
    ensures i < |listed| && listed[i] == Fresh(listed, have)[a]
    ensures forall k :: 0 <= k < i ==> listed[k] != listed[i]
    decreases |listed|
  {
    var front := listed[..|listed| - 1];
    if a < |Fresh(front, have)| {
      i := FirstListed(front, have, a);
    } else {
      i := |listed| - 1;
      assert forall k :: 0 <= k < i ==> listed[k] == front[k] && front[k] in front;
    }
  }

  /** New names appear in the order in which they are first listed. */
  lemma {:induction false} FreshOrder(listed: seq<string>, have: seq<string>, a: nat, b: nat) returns (i: nat, j: nat)
    requires a < b < |Fresh(listed, have)|
    ensures i < j < |listed| && listed[i] == Fresh(listed, have)[a] && listed[j] == Fresh(listed, have)[b]
    ensures forall k :: 0 <= k < i ==> listed[k] != listed[i]
    ensures forall k :: 0 <= k < j ==> listed[k] != listed[j]
    decreases |listed|
  {
    var front, x := listed[..|listed| - 1], listed[|listed| - 1];
    var added := Fresh(front, have);
    if b < |added| {
      i, j := FreshOrder(front, have, a, b);
    } else {
      i := FirstListed(front, have, a);
      j := |listed| - 1;
      assert forall k :: 0 <= k < j ==> listed[k] == front[k] && front[k] in front;
    }
  }

  /** The directory shows exactly the listed names, each once if it showed each once before. */
  lemma {:induction false} AfterShowsListing(before: seq<string>, listed: seq<string>)
    ensures forall x :: x in After(before, listed) <==> x in listed
    ensures Distinct(before) ==> Distinct(After(before, listed))
  {
    var kept := Keep(before, listed);
    var added := Fresh(listed, kept);
    FreshDistinct(listed, kept);
    if Distinct(before) {
      KeepDistinct(before, listed);
      forall i, j | 0 <= i < j < |kept + added|
        ensures (kept + added)[i] != (kept + added)[j]
      {
        assert i < |kept| <= j ==> kept[i] in kept && added[j - |kept|] in added;
      }
    }
  }

  lemma {:induction false} KeepAll(before: seq<string>, listed: seq<string>)
    requires forall x :: x in before ==> x in listed
    ensures Keep(before, listed) == before
    decreases |before|
  {
    if before != [] {
      KeepAll(before[1..], listed);
    }
  }

  lemma {:induction false} FreshNone(listed: seq<string>, have: seq<string>)
    requires forall x :: x in listed ==> x in have
    ensures Fresh(listed, have) == []
    decreases |listed|
  {
    if listed != [] {
      FreshNone(listed[..|listed| - 1], have);
      assert listed[|listed| - 1] in listed;
    }
  }

  /** Taking over the same listing twice is taking it over once. */
  lemma {:induction false} AfterTwice(before: seq<string>, listed: seq<string>)
    ensures After(After(before, listed), listed) == After(before, listed)
    ensures Fresh(listed, After(before, listed)) == []
  {
    var once := After(before, listed);
    AfterShowsListing(before, listed);
    KeepAll(once, listed);
    FreshNone(listed, once);
  }

  lemma {:induction false} DistinctWithin(s: seq<string>, t: seq<string>)
    requires Distinct(s) && forall x :: x in s ==> x in t
    ensures |s| <= |t|
    decreases |t|
  {
    if s != [] {
      var x := s[|s| - 1];
      assert x in s;
      var i :| 0 <= i < |t| && t[i] == x;
      var s', t' := s[..|s| - 1], t[..i] + t[i + 1..];
      forall y | y in s' ensures y in t' {
        assert y in s;
        var j :| 0 <= j < |t| && t[j] == y;
        assert j < i ==> t'[j] == y;
        assert j > i ==> t'[j - 1] == y;
      }
      DistinctWithin(s', t');
    }
  }

  /** A directory never ends up longer than its listing. */
  lemma {:induction false} AfterFits(before: seq<string>, listed: seq<string>)
    requires Distinct(before)
    ensures |After(before, listed)| <= |listed|
  {
    AfterShowsListing(before, listed);
    DistinctWithin(After(before, listed), listed);
  }

  /** Kept names appear in the order they had. */
  lemma {:induction false} KeepOrder(before: seq<string>, listed: seq<string>, a: int, b: int) returns (i: int, j: int)
    requires 0 <= a < b < |Keep(before, listed)|
    ensures 0 <= i < j < |before|
    ensures before[i] == Keep(before, listed)[a] && before[j] == Keep(before, listed)[b]
    decreases |before|
  {
    var rest := Keep(before[1..], listed);
    if before[0] !in listed {
      i, j := KeepOrder(before[1..], listed, a, b);
      i, j := i + 1, j + 1;
    } else if a > 0 {
      i, j := KeepOrder(before[1..], listed, a - 1, b - 1);
      i, j := i + 1, j + 1;
    } else {
      i := 0;
      assert rest[b - 1] in before[1..];
      j :| 1 <= j < |before| && before[j] == rest[b - 1];
    }
  }
}
