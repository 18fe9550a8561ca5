/** ASCII case folding, as used by Rust's `str::eq_ignore_ascii_case`.

    Rust compares the UTF-8 bytes of the two strings: equal length and, byte
    by byte, equal after `u8::to_ascii_lowercase`. Folding maps ASCII bytes to
    ASCII bytes and leaves every other byte alone, so on strings of characters
    the same relation is: equal length and, character by character, equal
    after folding only 'A'..'Z'.
 */
module AsciiCase {

  predicate IsAsciiUpper(c: char) {
    'A' <= c <= 'Z'
  }

  /** `char::to_ascii_lowercase`: 'A'..'Z' go to 'a'..'z', everything else is kept. */
  function ToAsciiLowercase(c: char): (r: char)
    ensures !IsAsciiUpper(r)
    ensures r != c <==> IsAsciiUpper(c)
    ensures IsAsciiUpper(c) ==> r as int - c as int == 'a' as int - 'A' as int
  {
    if IsAsciiUpper(c) then (c as int + ('a' as int - 'A' as int)) as char else c
  }

  /** `str::to_ascii_lowercase`, character by character. */
  function ToAsciiLower(s: string): (r: string)
    ensures |r| == |s|
    ensures forall i :: 0 <= i < |s| ==> r[i] == ToAsciiLowercase(s[i])
  {
    if |s| == 0 then [] else [ToAsciiLowercase(s[0])] + ToAsciiLower(s[1..])
  }

  /** `str::eq_ignore_ascii_case`: equal lengths, then a pairwise walk. */
  predicate EqIgnoreAsciiCase(a: string, b: string) {
    && |a| == |b|
    && (|a| == 0 ||
        (ToAsciiLowercase(a[0]) == ToAsciiLowercase(b[0]) && EqIgnoreAsciiCase(a[1..], b[1..])))
  }

  /** The pairwise walk agrees with comparing the two folded strings. */
  lemma {:induction false} EqIgnoreAsciiCaseIffLowerEqual(a: string, b: string)
    ensures EqIgnoreAsciiCase(a, b) <==> ToAsciiLower(a) == ToAsciiLower(b)
    decreases |a|
  {
    if |a| != 0 && |a| == |b| {
      EqIgnoreAsciiCaseIffLowerEqual(a[1..], b[1..]);
      assert ToAsciiLower(a) == [ToAsciiLowercase(a[0])] + ToAsciiLower(a[1..]);
      assert ToAsciiLower(b) == [ToAsciiLowercase(b[0])] + ToAsciiLower(b[1..]);
    }
  }

  /** Ignoring ASCII case is an equivalence relation on strings. */
  lemma EqIgnoreAsciiCaseIsEquivalence(a: string, b: string, c: string)
    ensures EqIgnoreAsciiCase(a, a)
    ensures EqIgnoreAsciiCase(a, b) ==> EqIgnoreAsciiCase(b, a)
    ensures EqIgnoreAsciiCase(a, b) && EqIgnoreAsciiCase(b, c) ==> EqIgnoreAsciiCase(a, c)
  {
    EqIgnoreAsciiCaseIffLowerEqual(a, a);
    EqIgnoreAsciiCaseIffLowerEqual(a, b);
    EqIgnoreAsciiCaseIffLowerEqual(b, a);
    EqIgnoreAsciiCaseIffLowerEqual(b, c);
    EqIgnoreAsciiCaseIffLowerEqual(a, c);
  }

  /** The strings equal to "file" ignoring ASCII case are exactly the sixteen
      spellings that choose a case for each of its four letters. */
  lemma EqIgnoreCaseFileIff(t: string)
    ensures EqIgnoreAsciiCase(t, "file") <==>
      && |t| == 4
      && (t[0] == 'f' || t[0] == 'F')
      && (t[1] == 'i' || t[1] == 'I')
      && (t[2] == 'l' || t[2] == 'L')
      && (t[3] == 'e' || t[3] == 'E')
  {
    EqIgnoreAsciiCaseIffLowerEqual(t, "file");
    if |t| == 4 {
      assert ToAsciiLower("file") == "file";
      assert ToAsciiLower(t) == "file" <==>
        (ToAsciiLower(t)[0] == 'f' && ToAsciiLower(t)[1] == 'i' &&
         ToAsciiLower(t)[2] == 'l' && ToAsciiLower(t)[3] == 'e');
    }
  }
}
