/**
 * `word_count` and `longest_word_length`: the tokens of `str::split_whitespace`,
 * that is the maximal runs of characters that are not whitespace.
 */
module Words {
  import opened Unicode

  /** Length of the token that starts `s`: the run of non-whitespace characters. */
  function TokenLength(s: string): (n: nat)
    requires s != [] && !IsWhitespace(s[0])
    ensures 1 <= n <= |s|
    ensures forall i :: 0 <= i < n ==> !IsWhitespace(s[i])
    ensures n < |s| ==> IsWhitespace(s[n])
  {
    if |s| == 1 || IsWhitespace(s[1]) then 1 else 1 + TokenLength(s[1..])
  }

  /** `s.split_whitespace()`: the tokens in order, skipping every run of whitespace. */
  function Words(s: string): (ws: seq<string>)
    ensures forall w :: w in ws ==> w != [] && forall c :: c in w ==> !IsWhitespace(c)
    ensures |ws| <= |s|
    decreases |s|
  {
    if s == [] then []
    else if IsWhitespace(s[0]) then Words(s[1..])
    else
      var n := TokenLength(s);
      [s[..n]] + Words(s[n..])
  }

  /** `word_count(s)`: never more than the number of characters. */
  function WordCount(s: string): (n: nat)
    ensures n <= |s|
  {
    |Words(s)|
  }

  /** Independent count of the maximal runs: the number of positions where a
      non-whitespace character follows whitespace or the start of the text
      (`afterSpace` says whether the previous character was whitespace). */
  function RunStarts(s: string, afterSpace: bool): nat
  {
    if s == [] then 0
    else (if afterSpace && !IsWhitespace(s[0]) then 1 else 0) + RunStarts(s[1..], IsWhitespace(s[0]))
  }

  /** Inside a token the count of run starts does not change. */
  lemma {:induction false} RunStartsSkipToken(s: string, k: nat)
    requires k <= |s|
    requires forall i :: 0 <= i < k ==> !IsWhitespace(s[i])
    ensures RunStarts(s, false) == RunStarts(s[k..], false)
  {
    if k > 0 {
      RunStartsSkipToken(s[1..], k - 1);
      assert s[1..][k - 1..] == s[k..];
    }
  }

  /** `word_count` counts exactly the maximal runs of non-whitespace characters. */
  lemma {:induction false} WordCountIsRunStarts(s: string)
    ensures WordCount(s) == RunStarts(s, true)
    decreases |s|
  {
    if s == [] {
    } else if IsWhitespace(s[0]) {
      WordCountIsRunStarts(s[1..]);
    } else {
      var n := TokenLength(s);
      RunStartsSkipToken(s[1..], n - 1);
      assert s[1..][n - 1..] == s[n..];
      WordCountIsRunStarts(s[n..]);
      if n < |s| {
        assert RunStarts(s[n..], false) == RunStarts(s[n..][1..], true);
        assert RunStarts(s[n..], true) == RunStarts(s[n..][1..], true);
      }
    }
  }

  /** There are no words exactly when every character is whitespace. */
  lemma {:induction false} NoWordsIffBlank(s: string)
    ensures WordCount(s) == 0 <==> forall i :: 0 <= i < |s| ==> IsWhitespace(s[i])
    decreases |s|
  {
    if s != [] && IsWhitespace(s[0]) {
      NoWordsIffBlank(s[1..]);
      assert forall i :: 1 <= i < |s| ==> s[i] == s[1..][i - 1];
    }
  }

  /** `.map(|word| word.len()).max().unwrap_or(0)`: the largest byte length, or 0. */
  function LongestLength(ws: seq<string>): (n: nat)
    ensures forall w :: w in ws ==> Utf8Len(w) <= n
    ensures ws == [] ==> n == 0
    ensures ws != [] ==> exists w :: w in ws && Utf8Len(w) == n
  {
    if ws == [] then 0
    else
      var rest := LongestLength(ws[1..]);
      if rest < Utf8Len(ws[0]) then Utf8Len(ws[0]) else rest
  }

  /** `longest_word_length(s)`, with lengths in UTF-8 bytes (`str::len`): 0
      exactly when there is no word; otherwise it bounds every word's byte
      length and is the byte length of one of them. */
  function LongestWordLength(s: string): (n: nat)
    ensures n == 0 <==> WordCount(s) == 0
    ensures forall w :: w in Words(s) ==> Utf8Len(w) <= n
    ensures WordCount(s) > 0 ==> exists w :: w in Words(s) && Utf8Len(w) == n
  {
    var ws := Words(s);
    assert ws != [] ==> ws[0] in ws && Utf8Len(ws[0]) >= 1;
    LongestLength(ws)
  }

  /** A token followed by whitespace (or by nothing) is the first word. */
  lemma WordsOfToken(w: string, rest: string)
    requires w != [] && forall i :: 0 <= i < |w| ==> !IsWhitespace(w[i])
    requires rest == [] || IsWhitespace(rest[0])
    ensures Words(w + rest) == [w] + Words(rest)
  {
    var s := w + rest;
    var n := TokenLength(s);
    assert forall i :: 0 <= i < |w| ==> s[i] == w[i];
    if |w| < |s| {
      assert s[|w|] == rest[0];
    }
    assert n == |w|;
    assert s[..n] == w && s[n..] == rest;
  }

  /** Whitespace before the text adds no word. */
  lemma WordsAfterSpace(sp: string, rest: string)
    requires forall i :: 0 <= i < |sp| ==> IsWhitespace(sp[i])
    ensures Words(sp + rest) == Words(rest)
    decreases |sp|
  {
    if sp != [] {
      assert (sp + rest)[0] == sp[0];
      assert (sp + rest)[1..] == sp[1..] + rest;
      WordsAfterSpace(sp[1..], rest);
    } else {
      assert sp + rest == rest;
    }
  }

  lemma WordCountExample()
    ensures WordCount("  a  b c  ") == 3
  {
    assert "  a  b c  " == "  " + ("a" + ("  " + ("b" + (" " + ("c" + "  ")))));
    WordsAfterSpace("  ", []);
    assert "  " + [] == "  ";
    WordsOfToken("c", "  ");
    WordsAfterSpace(" ", "c" + "  ");
    WordsOfToken("b", " " + ("c" + "  "));
    WordsAfterSpace("  ", "b" + (" " + ("c" + "  ")));
    WordsOfToken("a", "  " + ("b" + (" " + ("c" + "  "))));
    WordsAfterSpace("  ", "a" + ("  " + ("b" + (" " + ("c" + "  ")))));
  }

  lemma LongestWordExamples()
    ensures LongestWordLength("a bb ccc") == 3
    ensures LongestWordLength("") == 0
  {
    WordsOfABbCcc();
    var ws: seq<string> := ["a", "bb", "ccc"];
    assert Utf8Len(ws[0]) == 1 && Utf8Len(ws[1]) == 2 && Utf8Len(ws[2]) == 3;
    assert ws[1..][1..][1..] == [];
    assert LongestLength(ws[1..][1..]) == 3;
  }

  lemma WordsOfABbCcc()
    ensures Words("a bb ccc") == ["a", "bb", "ccc"]
  {
    assert "a bb ccc" == "a" + (" " + ("bb" + (" " + "ccc")));
    WordsOfToken("ccc", []);
    assert "ccc" + [] == "ccc";
    WordsAfterSpace(" ", "ccc");
    WordsOfToken("bb", " " + "ccc");
    WordsAfterSpace(" ", "bb" + (" " + "ccc"));
    WordsOfToken("a", " " + ("bb" + (" " + "ccc")));
  }

  /** A word is measured in bytes, not characters: "\U{E9}" (e with acute
      accent) is one character and two bytes. */
  lemma LongestWordCountsBytes()
    ensures |"\U{E9}"| == 1
    ensures LongestWordLength("\U{E9}") == 2
  {
    var s := "\U{E9}";
    WordsOfToken(s, []);
    assert s + [] == s;
  }
}
