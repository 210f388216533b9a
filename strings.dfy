/** The two string primitives the source relies on: `str.replace` of one character and `rfind`. */
module Strings {

  /** `s.replace(a, b)` for single characters `a` and `b`: every `a` becomes `b`, nothing else changes. */
  function Replace(s: string, a: char, b: char): (r: string)
    ensures |r| == |s|
    ensures forall i :: 0 <= i < |s| ==> r[i] == (if s[i] == a then b else s[i])
    ensures a != b ==> a !in r
    decreases |s|
  {
    if s == [] then [] else Replace(s[..|s| - 1], a, b) + [if s[|s| - 1] == a then b else s[|s| - 1]]
  }

  /** Replacing back undoes a replacement when the replacement character did not occur before. */
  lemma ReplaceUndone(s: string, a: char, b: char)
    requires b !in s
    ensures Replace(Replace(s, a, b), b, a) == s
  {
    var t := Replace(Replace(s, a, b), b, a);
    assert |t| == |s|;
    forall i | 0 <= i < |s| ensures t[i] == s[i] {
      assert s[i] != b;
    }
  }

  /** `s.rfind(c)`: the last index holding `c`, or -1 when `c` does not occur. */
  function LastIndex(s: string, c: char): (k: int)
    ensures -1 <= k < |s|
    ensures k >= 0 ==> s[k] == c
    ensures forall j :: k < j < |s| ==> s[j] != c
    decreases |s|
  {
    if s == [] then -1
    else if s[|s| - 1] == c then |s| - 1
    else LastIndex(s[..|s| - 1], c)
  }

  /** `rfind` on a concatenation: a hit in the tail wins, offset by the head's length. */
  lemma LastIndexAppend(a: string, b: string, c: char)
    ensures LastIndex(a + b, c) == if LastIndex(b, c) >= 0 then |a| + LastIndex(b, c) else LastIndex(a, c)
  {
    var k := LastIndex(a + b, c);
    var kb := LastIndex(b, c);
    var ka := LastIndex(a, c);
    if kb >= 0 {
      assert (a + b)[|a| + kb] == c;
    } else if ka >= 0 {
      assert (a + b)[ka] == c;
      assert forall j :: |a| <= j < |a + b| ==> (a + b)[j] == b[j - |a|];
    } else {
      assert forall j :: 0 <= j < |a + b| ==> (a + b)[j] != c by {
        forall j | 0 <= j < |a + b| ensures (a + b)[j] != c {
          if j < |a| { assert (a + b)[j] == a[j]; } else { assert (a + b)[j] == b[j - |a|]; }
        }
      }
    }
  }
}
