/** Character-level helpers shared by the option translator: searching a
    string for a character, and reading a string the way a C routine reads
    the NUL-terminated buffer behind `c_str()`. */
module Strings {

  /** Position of the first `c` in `s` at or after `i`, or `|s|` when there
      is none. */
  function IndexFrom(s: string, c: char, i: nat): (r: nat)
    requires i <= |s|
    ensures i <= r <= |s|
    ensures forall k :: i <= k < r ==> s[k] != c
    ensures r < |s| ==> s[r] == c
    decreases |s| - i
  {
    if i == |s| then i
    else if s[i] == c then i
    else IndexFrom(s, c, i + 1)
  }

  /** The two properties of `IndexFrom` single its result out. */
  lemma IndexFromUnique(s: string, c: char, i: nat, r: nat)
    requires i <= r <= |s|
    requires forall k :: i <= k < r ==> s[k] != c
    requires r < |s| ==> s[r] == c
    ensures IndexFrom(s, c, i) == r
  {
  }

  /** Position of the first `c` in `s`, or `|s|` when `s` holds none
      (`std::string::find_first_of` answering `npos`). */
  function IndexOf(s: string, c: char): (r: nat)
    ensures r <= |s|
    ensures forall k :: 0 <= k < r ==> s[k] != c
    ensures r < |s| ==> s[r] == c
    ensures r == |s| <==> c !in s
  {
    IndexFrom(s, c, 0)
  }

  /** The first `c` in `a + [c] + b` is the one right after `a` when `a`
      holds none. */
  lemma IndexOfAfter(a: string, c: char, b: string)
    requires c !in a
    ensures IndexOf(a + [c] + b, c) == |a|
  {
    var s := a + [c] + b;
    assert s[|a|] == c;
    assert forall k :: 0 <= k < |a| ==> s[k] == a[k];
    IndexFromUnique(s, c, 0, |a|);
  }

  /** What C code sees of `s`: everything before the first NUL character. */
  function CStr(s: string): (r: string)
    ensures '\0' !in r
    ensures r <= s
    ensures '\0' !in s ==> r == s
    ensures |r| < |s| ==> s[|r|] == '\0'
  {
    s[..IndexOf(s, '\0')]
  }
}
