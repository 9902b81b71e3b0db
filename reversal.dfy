/** `reverse_string`: the scalar values of a string in reverse order. */
module Reversal {

  /** `reverse_string(s)`: character `i` of the result is character
      `|s| - 1 - i` of `s`. */
  function Reverse(s: string): (r: string)
    ensures |r| == |s|
    ensures forall i :: 0 <= i < |s| ==> r[i] == s[|s| - 1 - i]
  {
    if s == [] then [] else Reverse(s[1..]) + [s[0]]
  }

  /** Reversing twice gives back the input. */
  lemma {:induction false} ReverseInvolution(s: string)
    ensures Reverse(Reverse(s)) == s
  {
    var r := Reverse(Reverse(s));
    assert forall i :: 0 <= i < |s| ==> r[i] == s[i];
  }

  /** `s` reads the same from both ends, position by position. */
  predicate Symmetric(s: string)
  {
    forall i :: 0 <= i < |s| ==> s[i] == s[|s| - 1 - i]
  }

  /** The strings that reversal leaves alone are exactly the symmetric ones. */
  lemma ReverseFixedPoint(s: string)
    ensures s == Reverse(s) <==> Symmetric(s)
  {
    var r := Reverse(s);
    if forall i :: 0 <= i < |s| ==> s[i] == s[|s| - 1 - i] {
      assert forall i :: 0 <= i < |s| ==> r[i] == s[i];
      assert s == r;
    } else {
      var i :| 0 <= i < |s| && s[i] != s[|s| - 1 - i];
      assert r[i] != s[i];
    }
  }

  /** Reversal turns a concatenation around. */
  lemma {:induction false} ReverseAppend(s: string, t: string)
    ensures Reverse(s + t) == Reverse(t) + Reverse(s)
  {
    var l, r := Reverse(s + t), Reverse(t) + Reverse(s);
    assert |l| == |r|;
    forall i | 0 <= i < |l|
      ensures l[i] == r[i]
    {
      if i < |t| {
        assert l[i] == (s + t)[|s| + |t| - 1 - i] == t[|t| - 1 - i];
      } else {
        assert l[i] == (s + t)[|s| + |t| - 1 - i] == s[|s| - 1 - (i - |t|)];
      }
    }
  }

  /** Reversal keeps the characters and how often each occurs. */
  lemma {:induction false} ReversePermutes(s: string)
    ensures multiset(Reverse(s)) == multiset(s)
  {
    if s != [] {
      ReversePermutes(s[1..]);
      assert s == [s[0]] + s[1..];
    }
  }
}
