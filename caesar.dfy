/**
 * `caesar_encrypt`: rotate every ASCII letter within its own case, leave
 * every other character as it is. The source adds `shift` to the letter's
 * offset in `u8` arithmetic and only then reduces modulo 26.
 */
module Caesar {
  import opened FixedWidth
  import opened Unicode

  const ALPHABET: int := 26

  /** Position of an ASCII letter in its own alphabet. */
  function Offset(c: char): (k: int)
    requires IsAsciiLetter(c)
    ensures 0 <= k < ALPHABET
  {
    if IsAsciiLower(c) then c as int - 'a' as int else c as int - 'A' as int
  }

  /** The letter of the same case as `c` at offset `k`. */
  function WithOffset(c: char, k: int): (r: char)
    requires IsAsciiLetter(c) && 0 <= k < ALPHABET
    ensures IsAsciiLower(r) == IsAsciiLower(c) && IsAsciiUpper(r) == IsAsciiUpper(c)
    ensures Offset(r) == k
  {
    if IsAsciiLower(c) then ('a' as int + k) as char else ('A' as int + k) as char
  }

  /** The `u8` sum `offset + shift` of the source does not overflow for `c`
      (in a debug build it would panic, in a release build wrap). */
  predicate ShiftFits(c: char, shift: byte)
  {
    IsAsciiLetter(c) ==> Offset(c) + shift as int < 0x100
  }

  predicate NoOverflow(s: string, shift: byte)
  {
    forall i :: 0 <= i < |s| ==> ShiftFits(s[i], shift)
  }

  /** Every character fits exactly when the shift is at most 230: the largest
      offset, 25 for 'z' and 'Z', leaves room for 230 more. */
  lemma ShiftFitsBound(shift: byte)
    ensures shift <= 230 <==> forall c: char :: ShiftFits(c, shift)
  {
    if shift > 230 {
      assert !ShiftFits('z', shift);
    }
  }

  /** The closure of `caesar_encrypt`, with its `u8` arithmetic: a letter
      moves `shift` places forward within its own case, anything else stays. */
  function ShiftChar(c: char, shift: byte): (r: char)
    requires ShiftFits(c, shift)
    ensures !IsAsciiLetter(c) ==> r == c
    ensures IsAsciiLetter(c) ==>
      (IsAsciiLetter(r) && IsAsciiLower(r) == IsAsciiLower(c)
       && Offset(r) == (Offset(c) + shift as int) % ALPHABET)
  {
    if IsAsciiLower(c) then ((((c as byte - 'a' as byte) + shift) % 26) + 'a' as byte) as char
    else if IsAsciiUpper(c) then ((((c as byte - 'A' as byte) + shift) % 26) + 'A' as byte) as char
    else c
  }

  /** `caesar_encrypt(s, shift)`, for inputs on which no `u8` sum overflows. */
  function CaesarEncrypt(s: string, shift: byte): (r: string)
    requires NoOverflow(s, shift)
    ensures |r| == |s|
    ensures forall i :: 0 <= i < |s| && !IsAsciiLetter(s[i]) ==> r[i] == s[i]
    ensures forall i :: 0 <= i < |s| && IsAsciiLower(s[i]) ==>
      IsAsciiLower(r[i]) && Offset(r[i]) == (Offset(s[i]) + shift as int) % ALPHABET
    ensures forall i :: 0 <= i < |s| && IsAsciiUpper(s[i]) ==>
      IsAsciiUpper(r[i]) && Offset(r[i]) == (Offset(s[i]) + shift as int) % ALPHABET
  {
    seq(|s|, i requires 0 <= i < |s| => ShiftChar(s[i], shift))
  }

  /** Letters are determined by their case and offset. */
  lemma SameOffsetSameLetter(a: char, b: char)
    requires IsAsciiLetter(a) && IsAsciiLetter(b)
    requires IsAsciiLower(a) == IsAsciiLower(b)
    requires Offset(a) == Offset(b)
    ensures a == b
  {
  }

  /** A shift of 0 changes nothing. */
  lemma CaesarZeroIsIdentity(s: string)
    ensures NoOverflow(s, 0)
    ensures CaesarEncrypt(s, 0) == s
  {
    var r := CaesarEncrypt(s, 0);
    forall i | 0 <= i < |s|
      ensures r[i] == s[i]
    {
      if IsAsciiLetter(s[i]) {
        SameOffsetSameLetter(r[i], s[i]);
      }
    }
  }

  /** One character, shifted by `shift < 26` and then by `26 - shift`. */
  lemma ShiftCharRoundTrip(c: char, shift: byte)
    requires shift < 26
    ensures ShiftFits(c, shift) && ShiftFits(ShiftChar(c, shift), 26 - shift)
    ensures ShiftChar(ShiftChar(c, shift), 26 - shift) == c
  {
    if IsAsciiLetter(c) {
      var k := Offset(c);
      var d := ShiftChar(c, shift);
      assert Offset(ShiftChar(d, 26 - shift)) == ((k + shift as int) % ALPHABET + 26 - shift as int) % ALPHABET == k;
      SameOffsetSameLetter(ShiftChar(d, 26 - shift), c);
    }
  }

  /** For a shift below 26, shifting by `26 - shift` undoes it. */
  lemma CaesarRoundTrip(s: string, shift: byte)
    requires shift < 26
    ensures NoOverflow(s, shift)
    ensures NoOverflow(CaesarEncrypt(s, shift), 26 - shift)
    ensures CaesarEncrypt(CaesarEncrypt(s, shift), 26 - shift) == s
  {
    forall i | 0 <= i < |s|
      ensures ShiftFits(s[i], shift)
    {
      ShiftCharRoundTrip(s[i], shift);
    }
    var t := CaesarEncrypt(s, shift);
    forall i | 0 <= i < |t|
      ensures ShiftFits(t[i], 26 - shift) && ShiftChar(t[i], 26 - shift) == s[i]
    {
      ShiftCharRoundTrip(s[i], shift);
    }
    var r := CaesarEncrypt(t, 26 - shift);
    assert forall i :: 0 <= i < |s| ==> r[i] == s[i];
  }

  lemma CaesarExamples()
    ensures NoOverflow("abc", 1) && CaesarEncrypt("abc", 1) == "bcd"
    ensures NoOverflow("xyz", 3) && CaesarEncrypt("xyz", 3) == "abc"
  {
  }

  /** What a release build computes for one character: the `u8` sum wraps
      modulo 256 before the reduction modulo 26. */
  function ShiftCharWrapping(c: char, shift: byte): (r: char)
    ensures !IsAsciiLetter(c) ==> r == c
    ensures IsAsciiLetter(c) ==>
      (IsAsciiLetter(r) && IsAsciiLower(r) == IsAsciiLower(c)
       && Offset(r) == (Offset(c) + shift as int) % 0x100 % ALPHABET)
  {
    if IsAsciiLower(c) then ((((c as int - 'a' as int) + shift as int) % 0x100 % 26) + 'a' as int) as char
    else if IsAsciiUpper(c) then ((((c as int - 'A' as int) + shift as int) % 0x100 % 26) + 'A' as int) as char
    else c
  }

  /** `caesar_encrypt(s, shift)` in a release build. */
  function CaesarEncryptWrapping(s: string, shift: byte): (r: string)
    ensures |r| == |s|
    ensures forall i :: 0 <= i < |s| && !IsAsciiLetter(s[i]) ==> r[i] == s[i]
    ensures forall i :: 0 <= i < |s| && IsAsciiLower(s[i]) ==>
      IsAsciiLower(r[i]) && Offset(r[i]) == (Offset(s[i]) + shift as int) % 0x100 % ALPHABET
    ensures forall i :: 0 <= i < |s| && IsAsciiUpper(s[i]) ==>
      IsAsciiUpper(r[i]) && Offset(r[i]) == (Offset(s[i]) + shift as int) % 0x100 % ALPHABET
  {
    seq(|s|, i requires 0 <= i < |s| => ShiftCharWrapping(s[i], shift))
  }

  /** Without overflow, the wrapped sum is the sum itself. */
  lemma ShiftCharWrappingAgrees(c: char, shift: byte)
    requires ShiftFits(c, shift)
    ensures ShiftCharWrapping(c, shift) == ShiftChar(c, shift)
  {
    if IsAsciiLetter(c) {
      var sum := Offset(c) + shift as int;
      assert sum % 0x100 == sum;
      SameOffsetSameLetter(ShiftCharWrapping(c, shift), ShiftChar(c, shift));
    }
  }

  /** Where nothing overflows, the release build agrees with the model above. */
  lemma WrappingAgreesWithoutOverflow(s: string, shift: byte)
    requires NoOverflow(s, shift)
    ensures CaesarEncryptWrapping(s, shift) == CaesarEncrypt(s, shift)
  {
    forall i | 0 <= i < |s|
      ensures ShiftCharWrapping(s[i], shift) == ShiftChar(s[i], shift)
    {
      ShiftCharWrappingAgrees(s[i], shift);
    }
  }

  /** One character rotated as evidently intended: the shift is reduced
      modulo 26 first, so no sum can overflow. */
  function ShiftCharReduced(c: char, shift: byte): (r: char)
    ensures !IsAsciiLetter(c) ==> r == c
    ensures IsAsciiLetter(c) ==>
      (IsAsciiLetter(r) && IsAsciiLower(r) == IsAsciiLower(c)
       && Offset(r) == (Offset(c) + shift as int) % ALPHABET)
  {
    if IsAsciiLetter(c) then WithOffset(c, (Offset(c) + shift as int % ALPHABET) % ALPHABET) else c
  }

  /** `caesar_encrypt` as evidently intended: every `u8` shift is accepted. */
  function CaesarEncryptReduced(s: string, shift: byte): (r: string)
    ensures |r| == |s|
    ensures forall i :: 0 <= i < |s| && !IsAsciiLetter(s[i]) ==> r[i] == s[i]
    ensures forall i :: 0 <= i < |s| && IsAsciiLower(s[i]) ==>
      IsAsciiLower(r[i]) && Offset(r[i]) == (Offset(s[i]) + shift as int) % ALPHABET
    ensures forall i :: 0 <= i < |s| && IsAsciiUpper(s[i]) ==>
      IsAsciiUpper(r[i]) && Offset(r[i]) == (Offset(s[i]) + shift as int) % ALPHABET
  {
    seq(|s|, i requires 0 <= i < |s| => ShiftCharReduced(s[i], shift))
  }

  /** Where the source does not overflow, the corrected rotation gives the
      same text. */
  lemma ReducedAgreesWithoutOverflow(s: string, shift: byte)
    requires NoOverflow(s, shift)
    ensures CaesarEncryptReduced(s, shift) == CaesarEncrypt(s, shift)
  {
    forall i | 0 <= i < |s|
      ensures ShiftCharReduced(s[i], shift) == ShiftChar(s[i], shift)
    {
      if IsAsciiLetter(s[i]) {
        SameOffsetSameLetter(ShiftCharReduced(s[i], shift), ShiftChar(s[i], shift));
      }
    }
  }

  /** Shifts that agree modulo 26 encrypt alike. */
  lemma ReducedDependsOnShiftModulo26(s: string, shift: byte)
    ensures CaesarEncryptReduced(s, shift) == CaesarEncryptReduced(s, shift % 26)
  {
    forall i | 0 <= i < |s|
      ensures ShiftCharReduced(s[i], shift) == ShiftCharReduced(s[i], shift % 26)
    {
      if IsAsciiLetter(s[i]) {
        var k := Offset(s[i]);
        assert (k + shift as int) % ALPHABET == (k + (shift % 26) as int) % ALPHABET;
        SameOffsetSameLetter(ShiftCharReduced(s[i], shift), ShiftCharReduced(s[i], shift % 26));
      }
    }
  }

  /** Adding `shift` and then `26 - shift % 26` is the identity modulo 26. */
  lemma ComplementCancels(k: int, shift: int)
    requires 0 <= k < ALPHABET && 0 <= shift
    ensures ((k + shift) % ALPHABET + (26 - shift % 26)) % ALPHABET == k
  {
    var q := shift / 26;
    assert shift == 26 * q + shift % 26;
    var r := shift % 26;
    assert (k + shift) % ALPHABET == (k + r) % ALPHABET by {
      assert k + shift == 26 * q + (k + r);
    }
    if k + r < 26 {
      assert (k + r + 26 - r) % ALPHABET == k;
    } else {
      assert (k + r - 26 + 26 - r) % ALPHABET == k;
    }
  }

  /** One character, rotated by `shift` and then by `26 - shift % 26`. */
  lemma ShiftCharReducedRoundTrip(c: char, shift: byte)
    ensures ShiftCharReduced(ShiftCharReduced(c, shift), 26 - shift % 26) == c
  {
    if IsAsciiLetter(c) {
      var back: byte := 26 - shift % 26;
      var d := ShiftCharReduced(c, shift);
      var e := ShiftCharReduced(d, back);
      ComplementCancels(Offset(c), shift as int);
      assert Offset(e) == (Offset(d) + back as int) % ALPHABET;
      SameOffsetSameLetter(e, c);
    }
  }

  /** For every `u8` shift, shifting by the complement `26 - shift % 26`
      restores the input. */
  lemma ReducedRoundTrip(s: string, shift: byte)
    ensures CaesarEncryptReduced(CaesarEncryptReduced(s, shift), 26 - shift % 26) == s
  {
    var t := CaesarEncryptReduced(s, shift);
    forall i | 0 <= i < |s|
      ensures ShiftCharReduced(t[i], 26 - shift % 26) == s[i]
    {
      ShiftCharReducedRoundTrip(s[i], shift);
    }
  }

  /** The source and the intended rotation part ways on ("z", 255): the sum
      25 + 255 overflows `u8`; a debug build panics, a release build gives "y",
      and rotating by 255 mod 26 = 21 gives "u". */
  lemma OverflowCounterexample()
    ensures !NoOverflow("z", 255)
    ensures CaesarEncryptWrapping("z", 255) == "y"
    ensures CaesarEncryptReduced("z", 255) == "u"
  {
    assert !ShiftFits("z"[0], 255);
    var w := CaesarEncryptWrapping("z", 255);
    assert Offset(w[0]) == 24;
    var c := CaesarEncryptReduced("z", 255);
    assert Offset(c[0]) == 20;
  }
}
