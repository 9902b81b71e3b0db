/** `count_vowels`: the characters that lower-case (ASCII only) to a vowel. */
module Vowels {
  import opened Unicode

  /** The closure of `count_vowels`: lowercase with `to_ascii_lowercase`, then
      match one of a, e, i, o, u. It accepts exactly ten ASCII characters. */
  function IsVowel(c: char): (b: bool)
    ensures b <==> c in "aeiouAEIOU"
  {
    ToAsciiLower(c) in "aeiou"
  }

  /** `count_vowels(s)`: the number of characters of `s` that are vowels. */
  function CountVowels(s: string): (n: nat)
    ensures n <= |s|
    ensures n == 0 <==> forall i :: 0 <= i < |s| ==> !IsVowel(s[i])
    ensures n == |s| <==> forall i :: 0 <= i < |s| ==> IsVowel(s[i])
  {
    if s == [] then 0 else (if IsVowel(s[0]) then 1 else 0) + CountVowels(s[1..])
  }

  /** The count of a concatenation is the sum of the counts. */
  lemma {:induction false} CountVowelsAppend(s: string, t: string)
    ensures CountVowels(s + t) == CountVowels(s) + CountVowels(t)
  {
    if s == [] {
      assert s + t == t;
    } else {
      assert (s + t)[1..] == s[1..] + t;
      CountVowelsAppend(s[1..], t);
    }
  }

  /** Sum, over the ten vowel characters, of how often each occurs. */
  function VowelOccurrences(m: multiset<char>): nat
  {
    m['a'] + m['e'] + m['i'] + m['o'] + m['u'] + m['A'] + m['E'] + m['I'] + m['O'] + m['U']
  }

  /** The count depends only on how often each of the ten vowels occurs: it does
      not depend on order, and no other character contributes. */
  lemma {:induction false} CountVowelsByOccurrence(s: string)
    ensures CountVowels(s) == VowelOccurrences(multiset(s))
  {
    if s != [] {
      CountVowelsByOccurrence(s[1..]);
      MultisetOfCons(s);
      OccurrencesOfOne(s[0], multiset(s[1..]));
    }
  }

  lemma MultisetOfCons(s: string)
    requires s != []
    ensures multiset(s) == multiset{s[0]} + multiset(s[1..])
  {
    assert s == [s[0]] + s[1..];
  }

  lemma OccurrencesOfOne(c: char, rest: multiset<char>)
    ensures VowelOccurrences(multiset{c} + rest)
         == (if IsVowel(c) then 1 else 0) + VowelOccurrences(rest)
  {
    assert IsVowel(c) <==> c in "aeiouAEIOU";
  }

  lemma CountVowelsExamples()
    ensures CountVowels("AEIOUaeiou") == 10
    ensures CountVowels("xyz") == 0
  {
    var all, none := "AEIOUaeiou", "xyz";
    assert forall i :: 0 <= i < |all| ==> IsVowel(all[i]);
    assert forall i :: 0 <= i < |none| ==> !IsVowel(none[i]);
  }
}
