# Rust WebAssembly string and integer utilities, in Dafny

This project models the exported functions of the Rust WebAssembly module
`wasm_modules/rust_module/src/lib.rs` and proves properties about them:

- text utilities: `count_vowels`, `reverse_string`, `is_palindrome`,
  `hash_string`, `longest_word_length`, `word_count` and `caesar_encrypt`;
- integer helpers: `add`, `multiply` and `memory_intensive`.

A Rust `&str` is a sequence of Unicode scalar values (`string` here) stored as
UTF-8. Where the source works on bytes (`str::bytes`, `str::len`), the model
encodes the string with a concrete UTF-8 encoder. Fixed-width integers are
newtypes, defined once in `FixedWidth`: `byte` (Rust `u8`), `u32` and `i32`.
`usize` is 32 bits, as on the wasm32 target.

The modules follow the functions:

| file | module | models |
|---|---|---|
| fixed_width.dfy | `FixedWidth` | `u8`, `u32`, `i32` and the modulus 2^32 |
| unicode.dfy | `Unicode` | character classes, `to_ascii_lowercase`, `is_whitespace`, UTF-8 bytes and byte length |
| vowels.dfy | `Vowels` | `count_vowels` |
| reversal.dfy | `Reversal` | `reverse_string` |
| palindrome.dfy | `Palindrome` | `is_palindrome` |
| palindrome_examples.dfy | `PalindromeExamples` | `is_palindrome` on the sentences "A man a plan a canal Panama" and "hello" |
| hashing.dfy | `Hashing` | `hash_string` |
| words.dfy | `Words` | `word_count`, `longest_word_length` |
| caesar.dfy | `Caesar` | `caesar_encrypt` |
| arithmetic.dfy | `Arithmetic` | `add`, `multiply`, `memory_intensive` |

**Pure functions and loops.**

- Iterator chains become recursive functions with lemmas.
- The two functions that update variables in a loop are methods proved against a pure specification:
  - `hash_string` is `Hashing.HashString`, whose `for` loop keeps `h` equal to the djb2 fold of the bytes read so far.
  - `memory_intensive` is `Arithmetic.MemoryIntensive`, which fills an `array` with the range and then sums it.

**`char::is_alphanumeric` as a parameter.** `char::is_alphanumeric` consults the Unicode Alphabetic and Numeric tables. The model takes it as a parameter `isAlnum: char -> bool`. Lemmas that need facts about it require `Unicode.AgreesOnAscii(isAlnum)`: on ASCII it holds exactly for letters and digits.

**Whitespace.** `char::is_whitespace`, which `split_whitespace` uses, is small. It is written out as the 25 code points of the Unicode White_Space property.

**Integer overflow.** Rust's `+`, `*` and `sum` on `i32`, and the `u8` additions in `caesar_encrypt`, panic on overflow in a debug build and wrap in a release build.

- The model does not pick a build. `Add`, `Multiply`, `MemoryIntensive` and `CaesarEncrypt` require that no overflow happens; on such inputs both builds agree.
- Separate functions show where the builds part:
  - `Arithmetic.Wrap` is two's-complement wrap-around;
  - `Caesar.CaesarEncryptWrapping` is `caesar_encrypt` in a release build.
- Lemmas prove that these agree with the checked versions wherever nothing overflows.

**Where the code is subtle, the model follows it:**

- `longest_word_length` measures each word with `word.len()`. That is a UTF-8 byte count, not a character count (`Words.LongestWordCountsBytes`).
- `is_palindrome` folds case with `to_ascii_lowercase`. Non-ASCII capitals are not folded (`Palindrome.NonAsciiCaseNotFolded`).
- `caesar_encrypt` adds the shift to the letter offset in `u8` before reducing modulo 26. The `u8` sum overflows for a shift above 230 (see Findings).
- `add(2147483647, 1)` wraps only in a release build; a debug build panics. `Arithmetic.AddOverflowWraps` shows the release result, and `Add` does not accept these arguments.

## Model

| member | source | states |
|---|---|---|
| Unicode.ToAsciiLower | wasm_modules/rust_module/src/lib.rs:28 | `to_ascii_lowercase` (also used at line 13) never returns an uppercase ASCII letter: it maps 'A'..'Z' to 'a'..'z' at the same alphabet position, keeps every other character, and keeps ASCII text ASCII |
| Unicode.SameAsciiLowerCases | wasm_modules/rust_module/src/lib.rs:28 | two characters with the same `to_ascii_lowercase` image are equal or are both ASCII letters |
| Unicode.IsWhitespace | wasm_modules/rust_module/src/lib.rs:47 | `char::is_whitespace`, the separator test of `split_whitespace` (also at line 56): on ASCII it holds exactly for space, tab, line feed, vertical tab, form feed and carriage return; no whitespace character is an ASCII letter or digit |
| Unicode.EncodeChar | wasm_modules/rust_module/src/lib.rs:38 | the UTF-8 encoding of a character has `len_utf8` bytes: one byte, equal to the character, exactly for ASCII; continuation bytes lie in 0x80..0xBF |
| Unicode.DecodeEncodeChar | wasm_modules/rust_module/src/lib.rs:38 | the encoding of one character is lossless: decoding its bytes gives the scalar value back |
| Unicode.Utf8Len | wasm_modules/rust_module/src/lib.rs:48 | the byte length of a string lies between its character count and four times that |
| Unicode.Encode | wasm_modules/rust_module/src/lib.rs:38 | `s.bytes()` yields exactly `s.len()` bytes, the length `word.len()` measures at line 48 |
| Unicode.EncodeAppend | wasm_modules/rust_module/src/lib.rs:38 | the bytes of a concatenation are the concatenation of the bytes |
| Unicode.EncodeAscii | wasm_modules/rust_module/src/lib.rs:38 | for ASCII text, bytes and characters coincide one to one |
| Vowels.IsVowel | wasm_modules/rust_module/src/lib.rs:13 | the closure matches exactly the ten characters a, e, i, o, u, A, E, I, O, U |
| Vowels.CountVowels | wasm_modules/rust_module/src/lib.rs:11-15 | the count is at most the character count; it is 0 exactly when no character is a vowel and equals the length exactly when every character is one |
| Vowels.CountVowelsAppend | wasm_modules/rust_module/src/lib.rs:11-15 | the count of a concatenation is the sum of the counts |
| Vowels.CountVowelsByOccurrence | wasm_modules/rust_module/src/lib.rs:11-15 | the count is the total number of occurrences of the ten vowel characters; order and other characters do not matter |
| Vowels.CountVowelsExamples | wasm_modules/rust_module/src/lib.rs:11-15 | "AEIOUaeiou" gives 10 and "xyz" gives 0 |
| Reversal.Reverse | wasm_modules/rust_module/src/lib.rs:19-21 | the result has the input's length, and its character i is the input's character \|s\|-1-i |
| Reversal.ReverseInvolution | wasm_modules/rust_module/src/lib.rs:19-21 | reversing twice returns the input |
| Reversal.ReverseFixedPoint | wasm_modules/rust_module/src/lib.rs:31 | a string equals its reversal exactly when it reads the same at positions i and \|s\|-1-i for every i |
| Reversal.ReverseAppend | wasm_modules/rust_module/src/lib.rs:19-21 | the reverse of s + t is the reverse of t followed by the reverse of s |
| Reversal.ReversePermutes | wasm_modules/rust_module/src/lib.rs:19-21 | reversal keeps every character and how often it occurs |
| Palindrome.Cleaned | wasm_modules/rust_module/src/lib.rs:26-29 | the cleaned string is never longer than the input |
| Palindrome.IsPalindrome | wasm_modules/rust_module/src/lib.rs:25-32 | the answer is true exactly when the cleaned string reads the same at positions i and \|c\|-1-i for every i |
| Palindrome.CleanedAppend | wasm_modules/rust_module/src/lib.rs:26-29 | cleaning distributes over concatenation |
| Palindrome.CleanedReverse | wasm_modules/rust_module/src/lib.rs:26-31 | filtering and lowercasing commute with reversal |
| Palindrome.PalindromeReverse | wasm_modules/rust_module/src/lib.rs:25-32 | the answer is the same for a text and its reversal |
| Palindrome.PalindromeWithoutAlphanumerics | wasm_modules/rust_module/src/lib.rs:25-32 | empty input, and input without alphanumeric characters, cleans to the empty string and is a palindrome |
| Palindrome.IgnoresNonAlphanumeric | wasm_modules/rust_module/src/lib.rs:27 | inserting a non-alphanumeric character anywhere does not change the answer |
| Palindrome.CleanedIgnoresAsciiCase | wasm_modules/rust_module/src/lib.rs:27-28 | texts equal up to ASCII case clean to the same string |
| Palindrome.IgnoresAsciiCase | wasm_modules/rust_module/src/lib.rs:25-32 | flipping the case of ASCII letters does not change the answer |
| Palindrome.NonAsciiCaseNotFolded | wasm_modules/rust_module/src/lib.rs:28 | "Éé" (U+00C9 then U+00E9) is not a palindrome: only ASCII case is folded |
| Palindrome.CleanedAscii | wasm_modules/rust_module/src/lib.rs:27 | on ASCII text the filter keeps exactly the ASCII letters and digits |
| PalindromeExamples.PanamaIsPalindrome | wasm_modules/rust_module/src/lib.rs:25-32 | "A man a plan a canal Panama" is a palindrome |
| PalindromeExamples.HelloIsNotPalindrome | wasm_modules/rust_module/src/lib.rs:25-32 | "hello" is not a palindrome |
| Hashing.ShiftAddIsStep | wasm_modules/rust_module/src/lib.rs:39 | `((h << 5) wrapping+ h) wrapping+ b` equals (33·h + b) mod 2^32 |
| Hashing.HashFrom | wasm_modules/rust_module/src/lib.rs:38-40 | the fold of (33·h + b) mod 2^32 over the bytes equals the polynomial seed·33^n + Σ b_i·33^(n-1-i) evaluated exactly and reduced once modulo 2^32 |
| Hashing.Djb2 | wasm_modules/rust_module/src/lib.rs:36-42 | the hash of a byte string is (5381·33^n + Σ b_i·33^(n-1-i)) mod 2^32 |
| Hashing.HashString | wasm_modules/rust_module/src/lib.rs:36-42 | the loop returns the djb2 left fold, seeded with 5381, over the UTF-8 bytes of the input |
| Hashing.HashFromAppend | wasm_modules/rust_module/src/lib.rs:38-40 | hashing a + b continues from the hash of a |
| Hashing.HashStringAppend | wasm_modules/rust_module/src/lib.rs:36-42 | the hash of a string concatenation continues from the hash of the first string over the bytes of the second |
| Hashing.HashExamples | wasm_modules/rust_module/src/lib.rs:36-42 | "" hashes to 5381, "a" to 177670; "ab" and "ba" hash differently |
| Words.TokenLength | wasm_modules/rust_module/src/lib.rs:47 | a token is the longest run of non-whitespace characters at the start of the text |
| Words.Words | wasm_modules/rust_module/src/lib.rs:47 | `split_whitespace` yields only nonempty words without whitespace |
| Words.WordCount | wasm_modules/rust_module/src/lib.rs:55-57 | the word count never exceeds the number of characters |
| Words.WordCountIsRunStarts | wasm_modules/rust_module/src/lib.rs:55-57 | the word count equals the number of maximal runs of non-whitespace characters |
| Words.NoWordsIffBlank | wasm_modules/rust_module/src/lib.rs:55-57 | there are no words exactly when every character is whitespace |
| Words.LongestLength | wasm_modules/rust_module/src/lib.rs:48-50 | the maximum byte length bounds every word, is attained by some word, and is 0 for no words |
| Words.LongestWordLength | wasm_modules/rust_module/src/lib.rs:46-51 | the result is 0 exactly when the word count is 0; otherwise it bounds every word's byte length and equals one of them |
| Words.WordsOfToken | wasm_modules/rust_module/src/lib.rs:47 | a token followed by whitespace or the end of the text is the first word |
| Words.WordsAfterSpace | wasm_modules/rust_module/src/lib.rs:47 | leading whitespace adds no word |
| Words.WordCountExample | wasm_modules/rust_module/src/lib.rs:55-57 | "  a  b c  " has 3 words |
| Words.LongestWordExamples | wasm_modules/rust_module/src/lib.rs:46-51 | "a bb ccc" gives 3 and "" gives 0 |
| Words.LongestWordCountsBytes | wasm_modules/rust_module/src/lib.rs:48 | the one-character word "é" (U+00E9) has length 2: `len` counts bytes |
| Caesar.ShiftFitsBound | wasm_modules/rust_module/src/lib.rs:65-67 | the `u8` sum of every letter's offset and the shift fits exactly when the shift is at most 230 |
| Caesar.ShiftChar | wasm_modules/rust_module/src/lib.rs:63-71 | a non-letter is kept; a letter keeps its case and moves to offset (offset + shift) mod 26 |
| Caesar.CaesarEncrypt | wasm_modules/rust_module/src/lib.rs:61-73 | length is kept, non-letters are unchanged, and lower (upper) case letters become lower (upper) case letters at offset (offset + shift) mod 26 |
| Caesar.CaesarZeroIsIdentity | wasm_modules/rust_module/src/lib.rs:61-73 | shift 0 changes nothing |
| Caesar.ShiftCharRoundTrip | wasm_modules/rust_module/src/lib.rs:63-71 | for shift < 26, one character shifted by shift and then by 26 - shift is itself again |
| Caesar.CaesarRoundTrip | wasm_modules/rust_module/src/lib.rs:61-73 | for shift < 26, encrypting with shift and then with 26 - shift restores any text |
| Caesar.CaesarExamples | wasm_modules/rust_module/src/lib.rs:61-73 | "abc" with shift 1 gives "bcd"; "xyz" with shift 3 gives "abc" |
| Caesar.ShiftCharWrapping | wasm_modules/rust_module/src/lib.rs:63-71 | in a release build the `u8` sum wraps: a non-letter is kept, and a letter keeps its case and moves to offset ((offset + shift) mod 256) mod 26 |
| Caesar.CaesarEncryptWrapping | wasm_modules/rust_module/src/lib.rs:61-73 | `caesar_encrypt` in a release build: length is kept, non-letters are unchanged, and letters keep their case and move to offset ((offset + shift) mod 256) mod 26 |
| Caesar.ShiftCharWrappingAgrees | wasm_modules/rust_module/src/lib.rs:65-67 | without overflow, a release build's wrapped sum gives the same character |
| Caesar.WrappingAgreesWithoutOverflow | wasm_modules/rust_module/src/lib.rs:61-73 | on inputs without overflow, the release build gives the same text as the checked model |
| Caesar.ShiftCharReduced | wasm_modules/rust_module/src/lib.rs:63-71 | the corrected rotation keeps non-letters and moves a letter to offset (offset + shift) mod 26 within its case, for every `u8` shift |
| Caesar.CaesarEncryptReduced | wasm_modules/rust_module/src/lib.rs:61-73 | the corrected `caesar_encrypt` accepts every `u8` shift: length is kept, non-letters are unchanged, and letters keep their case and move to offset (offset + shift) mod 26 |
| Caesar.ReducedAgreesWithoutOverflow | wasm_modules/rust_module/src/lib.rs:61-73 | where the source does not overflow, the corrected rotation gives the same text |
| Caesar.ReducedDependsOnShiftModulo26 | wasm_modules/rust_module/src/lib.rs:61-73 | with the corrected rotation, shifts equal modulo 26 encrypt alike |
| Caesar.ShiftCharReducedRoundTrip | wasm_modules/rust_module/src/lib.rs:63-71 | one character rotated by shift and then by 26 - shift mod 26 is itself again |
| Caesar.ReducedRoundTrip | wasm_modules/rust_module/src/lib.rs:61-73 | for every `u8` shift, rotating by shift and then by 26 - shift mod 26 restores any text |
| Caesar.OverflowCounterexample | wasm_modules/rust_module/src/lib.rs:65 | ("z", 255) overflows the `u8` sum; a release build gives "y", where rotating by 255 mod 26 gives "u" |
| Arithmetic.Wrap | wasm_modules/rust_module/src/lib.rs:78 | two's-complement wrap-around is congruent to its argument modulo 2^32 and is the identity on `i32` values |
| Arithmetic.Add | wasm_modules/rust_module/src/lib.rs:77-79 | without overflow, the result is the mathematical sum, which a release build's wrap also gives |
| Arithmetic.Multiply | wasm_modules/rust_module/src/lib.rs:83-85 | without overflow, the result is the mathematical product, which a release build's wrap also gives |
| Arithmetic.AddOverflowWraps | wasm_modules/rust_module/src/lib.rs:78 | 2147483647 + 1 leaves the `i32` range; a release build wraps it to -2147483648 |
| Arithmetic.AsI32 | wasm_modules/rust_module/src/lib.rs:90 | `size as i32` is congruent to `size` modulo 2^32 and lies in the `i32` range: it keeps sizes up to 2^31 - 1 and maps larger `usize` values to size - 2^32, which is negative |
| Arithmetic.RangeLength | wasm_modules/rust_module/src/lib.rs:90 | the range `0..size as i32` has exactly `size` elements for sizes up to 2^31 - 1 and none for larger sizes |
| Arithmetic.SumBelow | wasm_modules/rust_module/src/lib.rs:91 | 0 + 1 + ... + (n-1) equals n·(n-1)/2 |
| Arithmetic.SumBelowFitsExactly | wasm_modules/rust_module/src/lib.rs:91 | the sum fits in `i32` exactly for ranges of at most 65536 elements |
| Arithmetic.MemoryIntensive | wasm_modules/rust_module/src/lib.rs:89-92 | collecting the range into a vector and summing it gives 0 + ... + (n-1) for the range length n |
| Arithmetic.MemoryIntensiveResult | wasm_modules/rust_module/src/lib.rs:89-92 | the result is n·(n-1)/2 for the range length n, so size·(size-1)/2 for every size up to 65536; it fits in `i32` exactly for sizes up to 65536 and for those the cast makes negative, where it is 0; size 0 gives 0 |
| Arithmetic.MemoryIntensiveExamples | wasm_modules/rust_module/src/lib.rs:89-92 | sizes 5, 0 and 65536 give 10, 0 and 2147450880 |

## Left out

- The `#[wasm_bindgen]` attributes and the `wasm_bindgen::prelude` import (lib.rs:7 and each export) are host-binding glue without logic.
- The Unicode Alphabetic and Numeric tables behind `char::is_alphanumeric` are not modelled: `is_palindrome` takes the test as the parameter `isAlnum`, and only its ASCII behaviour (`AgreesOnAscii`) is assumed where a lemma needs it.
- The heap allocation of the vector in `memory_intensive`, and the abort when it fails, are not modelled; the method allocates a Dafny array of the range length.
- Add: requires the sum to be an `i32`. A debug build panics otherwise and a release build wraps; `Wrap` and `AddOverflowWraps` describe the wrap, but `Add` does not return it.
- Multiply: requires the product to be an `i32`, for the same reason as `Add`.
- MemoryIntensive: requires the sum to fit in `i32` (range lengths up to 65536). Beyond that a debug build panics and a release build returns the sum modulo 2^32 as a signed value, which is not modelled.
- CaesarEncrypt: requires that no `u8` sum overflows (a shift of at most 230 is enough for every text, `ShiftFitsBound`). A debug build panics otherwise; the release behaviour is `CaesarEncryptWrapping`.
- ShiftChar: requires the `u8` sum to fit, for the same reason as `CaesarEncrypt`.
- Grapheme clusters are not considered: like the source, every function works on Unicode scalar values one at a time.

## Findings

| source | as written | input that shows it | evidently intended | confidence | as-written member | corrected member |
|---|---|---|---|---|---|---|
| wasm_modules/rust_module/src/lib.rs:65-67 | the letter offset and the `u8` shift are added in `u8` before `% 26`, so any shift above 230 overflows for 'z' or 'Z' | `caesar_encrypt("z", 255)`: 25 + 255 = 280 overflows `u8`; a debug build panics and a release build returns "y" | reduce the shift modulo 26 first, so every `u8` shift rotates: ("z", 255) gives "u" | medium, not executed | Caesar.OverflowCounterexample | Caesar.CaesarEncryptReduced |
