// Slash-separated paths.

module Paths {

  /** QString::split('/'), empty parts kept. */
  function Split(s: string): (parts: seq<string>)
    ensures |parts| >= 1
    ensures forall i :: 0 <= i < |parts| ==> '/' !in parts[i]
  {
    if s == [] then [""]
    else
      var front, c := Split(s[..|s| - 1]), s[|s| - 1];
      if c == '/' then front + [""]
      else front[..|front| - 1] + [front[|front| - 1] + [c]]
  }

  function NonEmpty(parts: seq<string>): (kept: seq<string>)
    ensures forall x :: x in kept <==> x in parts && x != ""
  {
    if parts == [] then []
    else
      var front, x := NonEmpty(parts[..|parts| - 1]), parts[|parts| - 1];
      assert parts == parts[..|parts| - 1] + [x];
      if x == "" then front else front + [x]
  }

  /** QString::split('/', SkipEmptyParts). */
  function Parts(s: string): seq<string> {
    NonEmpty(Split(s))
  }

  predicate GoodName(name: string) {
    name != "" && '/' !in name
  }

  lemma {:induction false} SplitAppend(s: string, name: string)
    requires '/' !in name
    ensures Split(s + "/" + name) == Split(s) + [name]
    decreases |name|
  {
    var t := s + "/" + name;
    if name == "" {
      assert t[..|t| - 1] == s;
    } else {
      var front := name[..|name| - 1];
      assert t[..|t| - 1] == s + "/" + front;
      SplitAppend(s, front);
      assert name == front + [name[|name| - 1]];
    }
  }

  lemma {:induction false} PartsAppend(s: string, name: string)
    requires GoodName(name)
    ensures Parts(s + "/" + name) == Parts(s) + [name]
  {
    SplitAppend(s, name);
    assert (Split(s) + [name])[..|Split(s)|] == Split(s);
  }
}
