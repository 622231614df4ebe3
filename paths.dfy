/**
 * The string and path helpers the writers rely on (Go's strings.HasPrefix,
 * strings.TrimPrefix, filepath.Ext and filepath.Split), for '/'-separated paths.
 */
module Paths {

  /** strings.HasPrefix */
  predicate HasPrefix(s: string, prefix: string)
  {
    |prefix| <= |s| && s[..|prefix|] == prefix
  }

  /** strings.TrimPrefix */
  function TrimPrefix(s: string, prefix: string): (r: string)
    ensures HasPrefix(s, prefix) ==> prefix + r == s
    ensures !HasPrefix(s, prefix) ==> r == s
  {
    if HasPrefix(s, prefix) then s[|prefix|..] else s
  }

  /** filepath.Ext: the text from the last '.' of the final path element, or "" when it has none. */
  function Ext(s: string): (e: string)
    ensures e == "" || (e[0] == '.' && |e| <= |s| && s[|s| - |e|..] == e)
    ensures e != "" ==> forall k :: 1 <= k < |e| ==> e[k] != '.' && e[k] != '/'
  {
    if |s| == 0 || s[|s| - 1] == '/' then ""
    else if s[|s| - 1] == '.' then "."
    else
      var e := Ext(s[..|s| - 1]);
      if e == "" then "" else e + [s[|s| - 1]]
  }

  /** A name ending in '.' followed by a text without '.' or '/' has that text as its extension. */
  lemma {:induction false} ExtOfDotted(a: string, b: string)
    requires forall k :: 0 <= k < |b| ==> b[k] != '.' && b[k] != '/'
    ensures Ext(a + "." + b) == "." + b
  {
    if b != [] {
      var s := a + "." + b;
      assert s[..|s| - 1] == a + "." + b[..|b| - 1];
      assert s[|s| - 1] == b[|b| - 1];
      ExtOfDotted(a, b[..|b| - 1]);
      assert Ext(s) == Ext(s[..|s| - 1]) + [s[|s| - 1]];
      assert "." + b == ("." + b[..|b| - 1]) + [b[|b| - 1]];
    }
  }

  /** The index of the last '/' of s, or -1. */
  function LastSeparator(s: string): (i: int)
    ensures -1 <= i < |s| && (i >= 0 ==> s[i] == '/')
    ensures forall k :: i < k < |s| ==> s[k] != '/'
  {
    if |s| == 0 then -1
    else if s[|s| - 1] == '/' then |s| - 1
    else LastSeparator(s[..|s| - 1])
  }

  /** filepath.Split: a directory part that is empty or ends in '/', and a file name
      without '/', which together make up the path. */
  function Split(path: string): (r: (string, string))
    ensures r.0 + r.1 == path
    ensures forall k :: 0 <= k < |r.1| ==> r.1[k] != '/'
    ensures r.0 == "" || r.0[|r.0| - 1] == '/'
  {
    var i := LastSeparator(path);
    (path[..i + 1], path[i + 1..])
  }
}
