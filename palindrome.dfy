/**
 * `is_palindrome`: keep the alphanumeric characters, lowercase the ASCII
 * letters among them, and compare the result with its own reversal.
 * `char::is_alphanumeric` is the parameter `isAlnum` (see Unicode.AgreesOnAscii).
 */
module Palindrome {
  import opened Unicode
  import opened Reversal

  /** The `cleaned` string: filter by `isAlnum`, then map `to_ascii_lowercase`. */
  function Cleaned(s: string, isAlnum: char -> bool): (r: string)
    ensures |r| <= |s|
  {
    if s == [] then []
    else (if isAlnum(s[0]) then [ToAsciiLower(s[0])] else []) + Cleaned(s[1..], isAlnum)
  }

  /** `is_palindrome(s)`: the cleaned string equals its reversal, that is, it
      reads the same from both ends, position by position. */
  function IsPalindrome(s: string, isAlnum: char -> bool): (b: bool)
    ensures b <==> Symmetric(Cleaned(s, isAlnum))
  {
    var cleaned := Cleaned(s, isAlnum);
    ReverseFixedPoint(cleaned);
    cleaned == Reverse(cleaned)
  }

  lemma {:induction false} CleanedAppend(s: string, t: string, isAlnum: char -> bool)
    ensures Cleaned(s + t, isAlnum) == Cleaned(s, isAlnum) + Cleaned(t, isAlnum)
  {
    if s == [] {
      assert s + t == t;
    } else {
      var head := if isAlnum(s[0]) then [ToAsciiLower(s[0])] else [];
      assert (s + t)[0] == s[0];
      assert (s + t)[1..] == s[1..] + t;
      CleanedAppend(s[1..], t, isAlnum);
      calc {
        Cleaned(s + t, isAlnum);
        head + Cleaned(s[1..] + t, isAlnum);
        head + (Cleaned(s[1..], isAlnum) + Cleaned(t, isAlnum));
        (head + Cleaned(s[1..], isAlnum)) + Cleaned(t, isAlnum);
      }
    }
  }

  /** Filtering and mapping commute with reversal. */
  lemma {:induction false} CleanedReverse(s: string, isAlnum: char -> bool)
    ensures Cleaned(Reverse(s), isAlnum) == Reverse(Cleaned(s, isAlnum))
  {
    if s != [] {
      var head := if isAlnum(s[0]) then [ToAsciiLower(s[0])] else [];
      calc {
        Cleaned(Reverse(s), isAlnum);
        Cleaned(Reverse(s[1..]) + [s[0]], isAlnum);
        { CleanedAppend(Reverse(s[1..]), [s[0]], isAlnum); }
        Cleaned(Reverse(s[1..]), isAlnum) + Cleaned([s[0]], isAlnum);
        { CleanedReverse(s[1..], isAlnum); assert [s[0]][1..] == []; }
        Reverse(Cleaned(s[1..], isAlnum)) + head;
        { assert Reverse(head) == head; }
        Reverse(Cleaned(s[1..], isAlnum)) + Reverse(head);
        { ReverseAppend(head, Cleaned(s[1..], isAlnum)); }
        Reverse(head + Cleaned(s[1..], isAlnum));
      }
    }
  }

  /** The answer does not change when the input is reversed. */
  lemma PalindromeReverse(s: string, isAlnum: char -> bool)
    ensures IsPalindrome(Reverse(s), isAlnum) == IsPalindrome(s, isAlnum)
  {
    var c := Cleaned(s, isAlnum);
    CleanedReverse(s, isAlnum);
    ReverseInvolution(c);
  }

  /** Empty input, and input without alphanumeric characters, is a palindrome. */
  lemma {:induction false} PalindromeWithoutAlphanumerics(s: string, isAlnum: char -> bool)
    requires forall i :: 0 <= i < |s| ==> !isAlnum(s[i])
    ensures Cleaned(s, isAlnum) == []
    ensures IsPalindrome(s, isAlnum)
  {
    if s != [] {
      PalindromeWithoutAlphanumerics(s[1..], isAlnum);
    }
  }

  /** Inserting a character that is not alphanumeric anywhere changes nothing. */
  lemma IgnoresNonAlphanumeric(a: string, c: char, b: string, isAlnum: char -> bool)
    requires !isAlnum(c)
    ensures IsPalindrome(a + [c] + b, isAlnum) == IsPalindrome(a + b, isAlnum)
  {
    CleanedAppend(a + [c], b, isAlnum);
    CleanedAppend(a, [c], isAlnum);
    CleanedAppend(a, b, isAlnum);
    assert [c][1..] == [];
    assert Cleaned([c], isAlnum) == [];
    assert Cleaned(a + [c], isAlnum) == Cleaned(a, isAlnum);
  }

  /** Strings that differ only in the case of ASCII letters have the same
      cleaned form, given an `isAlnum` that is right on ASCII. */
  lemma {:induction false} CleanedIgnoresAsciiCase(s: string, t: string, isAlnum: char -> bool)
    requires AgreesOnAscii(isAlnum)
    requires |s| == |t|
    requires forall i :: 0 <= i < |s| ==> ToAsciiLower(s[i]) == ToAsciiLower(t[i])
    ensures Cleaned(s, isAlnum) == Cleaned(t, isAlnum)
  {
    if s != [] {
      SameAsciiLowerCases(s[0], t[0]);
      if s[0] != t[0] {
        assert isAlnum(s[0]) && isAlnum(t[0]);
      }
      CleanedIgnoresAsciiCase(s[1..], t[1..], isAlnum);
    }
  }

  /** Flipping the case of ASCII letters does not change the answer. */
  lemma IgnoresAsciiCase(s: string, t: string, isAlnum: char -> bool)
    requires AgreesOnAscii(isAlnum)
    requires |s| == |t|
    requires forall i :: 0 <= i < |s| ==> ToAsciiLower(s[i]) == ToAsciiLower(t[i])
    ensures IsPalindrome(s, isAlnum) == IsPalindrome(t, isAlnum)
  {
    CleanedIgnoresAsciiCase(s, t, isAlnum);
  }

  /** Case is folded for ASCII only: 'É' (U+00C9) and 'é' (U+00E9) stay distinct,
      whatever the alphanumeric table says beyond ASCII. */
  lemma NonAsciiCaseNotFolded(isAlnum: char -> bool)
    requires isAlnum('\U{C9}') && isAlnum('\U{E9}')
    ensures !IsPalindrome("\U{C9}\U{E9}", isAlnum)
  {
    var s := "\U{C9}\U{E9}";
    assert s[1..][1..] == [];
    assert Cleaned(s, isAlnum) == s;
  }

  /** On ASCII text only the ASCII facts about `isAlnum` matter. */
  lemma {:induction false} CleanedAscii(s: string, isAlnum: char -> bool)
    requires AgreesOnAscii(isAlnum)
    requires forall i :: 0 <= i < |s| ==> IsAscii(s[i])
    ensures Cleaned(s, isAlnum) == Cleaned(s, IsAsciiAlphanumeric)
  {
    if s != [] {
      CleanedAscii(s[1..], isAlnum);
    }
  }
}
