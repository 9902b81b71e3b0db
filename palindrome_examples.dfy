/**
 * Worked examples of `is_palindrome` on literal sentences. They sit in a
 * module of their own so that each proof sees only the definitions it uses.
 */
module PalindromeExamples {
  import opened Unicode
  import opened Reversal
  import opened Palindrome

  lemma CleanedPanamaHead(isAlnum: char -> bool)
    requires AgreesOnAscii(isAlnum)
    ensures Cleaned("A man a ", isAlnum) == "amana"
  {
    assert !isAlnum(' ') && isAlnum('A') && isAlnum('a') && isAlnum('m') && isAlnum('n');
  }

  lemma CleanedPanamaMiddle(isAlnum: char -> bool)
    requires AgreesOnAscii(isAlnum)
    ensures Cleaned("plan a ", isAlnum) == "plana"
  {
    assert !isAlnum(' ') && isAlnum('a') && isAlnum('l') && isAlnum('n') && isAlnum('p');
  }

  lemma CleanedPanamaCanal(isAlnum: char -> bool)
    requires AgreesOnAscii(isAlnum)
    ensures Cleaned("canal ", isAlnum) == "canal"
  {
    assert !isAlnum(' ') && isAlnum('a') && isAlnum('c') && isAlnum('l') && isAlnum('n');
  }

  lemma CleanedPanamaEnd(isAlnum: char -> bool)
    requires AgreesOnAscii(isAlnum)
    ensures Cleaned("Panama", isAlnum) == "panama"
  {
    assert isAlnum('P') && isAlnum('a') && isAlnum('m') && isAlnum('n');
  }

  lemma PanamaPieces()
    ensures "A man a plan a canal Panama" == "A man a " + "plan a canal Panama"
    ensures "plan a canal Panama" == "plan a " + "canal Panama"
    ensures "amanaplanacanalpanama" == "amana" + "planacanalpanama"
    ensures "canal Panama" == "canal " + "Panama"
    ensures "planacanalpanama" == "plana" + "canalpanama"
    ensures "canalpanama" == "canal" + "panama"
  {
  }

  lemma AmanaplanacanalpanamaIsSymmetric()
    ensures Reverse("amanaplanacanalpanama") == "amanaplanacanalpanama"
  {
    var c := "amanaplanacanalpanama";
    assert forall i :: 0 <= i < |c| ==> c[i] == c[|c| - 1 - i];
  }

  /** The example sentence is a palindrome: spaces are dropped and 'A' and 'P'
      are lowercased before the comparison. */
  lemma PanamaIsPalindrome(isAlnum: char -> bool)
    requires AgreesOnAscii(isAlnum)
    ensures IsPalindrome("A man a plan a canal Panama", isAlnum)
  {
    PanamaPieces();
    CleanedPanamaHead(isAlnum);
    CleanedPanamaMiddle(isAlnum);
    CleanedPanamaCanal(isAlnum);
    CleanedPanamaEnd(isAlnum);
    CleanedAppend("canal ", "Panama", isAlnum);
    CleanedAppend("plan a ", "canal Panama", isAlnum);
    CleanedAppend("A man a ", "plan a canal Panama", isAlnum);
    AmanaplanacanalpanamaIsSymmetric();
  }

  lemma HelloIsNotPalindrome(isAlnum: char -> bool)
    requires AgreesOnAscii(isAlnum)
    ensures !IsPalindrome("hello", isAlnum)
  {
    assert isAlnum('h') && isAlnum('e') && isAlnum('l') && isAlnum('o');
    var hello := "hello";
    assert Cleaned(hello, isAlnum) == hello;
    assert Reverse(hello)[0] == 'o';
  }
}
