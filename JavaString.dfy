/**
  The few java.lang.String and java.io.File operations the core relies on.
  `IndexOf` and `LastIndexOf` are recursive functions whose own contracts say
  what the Java library promises (indices are `int` because Java returns -1
  for "not found"). `Utf16Length` is defined by its body, one code unit per
  character plus one more per supplementary character; its contract and
  `Utf16LengthExtremes` give its bounds and extremes. The properties of
  `StripTrailingSeparators` and `FileName` are stated by the lemmas that
  follow them.
 */
module JavaString {

  /** `s.endsWith(suffix)`: a case-sensitive suffix test. */
  predicate EndsWith(s: string, suffix: string) {
    |suffix| <= |s| && s[|s| - |suffix|..] == suffix
  }

  /** `s.indexOf(c)`: the first position of `c`, or -1 when `c` does not occur. */
  function IndexOf(s: string, c: char): (r: int)
    ensures -1 <= r < |s|
    ensures r == -1 <==> c !in s
    ensures r != -1 ==> s[r] == c && c !in s[..r]
  {
    if |s| == 0 then -1
    else if s[0] == c then 0
    else
      var k := IndexOf(s[1..], c);
      if k == -1 then -1 else k + 1
  }

  /** `s.lastIndexOf(c)`: the last position of `c`, or -1 when `c` does not occur. */
  function LastIndexOf(s: string, c: char): (r: int)
    ensures -1 <= r < |s|
    ensures r == -1 <==> c !in s
    ensures r != -1 ==> s[r] == c && c !in s[r + 1..]
  {
    if |s| == 0 then -1
    else if s[|s| - 1] == c then |s| - 1
    else LastIndexOf(s[..|s| - 1], c)
  }

  /** Whether `c` lies outside the Basic Multilingual Plane, so Java stores it as a surrogate pair. */
  predicate IsSupplementary(c: char) {
    c as int >= 0x1_0000
  }

  /**
    `s.length()`: the number of UTF-16 code units, one per character of the
    Basic Multilingual Plane and two per supplementary character.
   */
  function Utf16Length(s: string): (r: nat)
    ensures |s| <= r <= 2 * |s|
  {
    if |s| == 0 then 0
    else (if IsSupplementary(s[0]) then 2 else 1) + Utf16Length(s[1..])
  }

  /**
    The UTF-16 length is the character count exactly when no character is
    supplementary, and twice it exactly when every character is.
   */
  lemma {:induction false} Utf16LengthExtremes(s: string)
    ensures Utf16Length(s) == |s| <==> forall i :: 0 <= i < |s| ==> !IsSupplementary(s[i])
    ensures Utf16Length(s) == 2 * |s| <==> forall i :: 0 <= i < |s| ==> IsSupplementary(s[i])
  {
    if |s| > 0 {
      Utf16LengthExtremes(s[1..]);
      assert forall i :: 1 <= i < |s| ==> s[i] == s[1..][i - 1];
    }
  }

  /** A suffix fixes the last character. */
  lemma EndsWithLast(s: string, suffix: string)
    ensures EndsWith(s, suffix) && |suffix| > 0 ==> s[|s| - 1] == suffix[|suffix| - 1]
  {
    if EndsWith(s, suffix) && |suffix| > 0 {
      assert s[|s| - |suffix|..][|suffix| - 1] == s[|s| - 1];
    }
  }

  /** A first occurrence is what `IndexOf` finds. */
  lemma {:induction false} IndexOfAt(s: string, c: char, i: nat)
    requires i < |s| && s[i] == c && c !in s[..i]
    ensures IndexOf(s, c) == i
  {
    if i > 0 {
      assert s[0] == s[..i][0];
      assert s[1..][..i - 1] == s[1..i];
      IndexOfAt(s[1..], c, i - 1);
    }
  }

  /** A last occurrence is what `LastIndexOf` finds. */
  lemma {:induction false} LastIndexOfAt(s: string, c: char, i: nat)
    requires i < |s| && s[i] == c && c !in s[i + 1..]
    ensures LastIndexOf(s, c) == i
  {
    if i < |s| - 1 {
      assert s[|s| - 1] == s[i + 1..][|s| - i - 2];
      assert s[..|s| - 1][i + 1..] == s[i + 1..|s| - 1];
      LastIndexOfAt(s[..|s| - 1], c, i);
    }
  }

  /**
    When `name` is what follows the last separator of `path`, a suffix without
    separators ends the one exactly when it ends the other.
   */
  lemma SuffixOfLastName(path: string, name: string, suffix: string, separator: char)
    requires separator !in name && separator !in suffix
    requires |name| <= |path| && path[|path| - |name|..] == name
    requires |name| == |path| || path[|path| - |name| - 1] == separator
    ensures EndsWith(name, suffix) <==> EndsWith(path, suffix)
  {
    if EndsWith(path, suffix) && |suffix| <= |name| {
      assert name[|name| - |suffix|..] == path[|path| - |suffix|..];
    }
    if EndsWith(name, suffix) {
      assert path[|path| - |suffix|..] == name[|name| - |suffix|..];
    }
  }

  /** The separator `java.io.File` uses on Unix. */
  const Separator: char := '/'

  /** The path with its trailing separators removed, as `java.io.File` normalises it. */
  function StripTrailingSeparators(path: string): string {
    if |path| > 0 && path[|path| - 1] == Separator then StripTrailingSeparators(path[..|path| - 1])
    else path
  }

  /** Normalising removes exactly the trailing run of separators. */
  lemma {:induction false} StripTrailingSeparatorsShape(path: string)
    ensures var r := StripTrailingSeparators(path);
            && |r| <= |path| && r == path[..|r|]
            && (r == [] || r[|r| - 1] != Separator)
            && forall i :: |r| <= i < |path| ==> path[i] == Separator
  {
    if |path| > 0 && path[|path| - 1] == Separator {
      StripTrailingSeparatorsShape(path[..|path| - 1]);
    }
  }

  /** `new File(path).getName()`: the last name of the normalised path. */
  function FileName(path: string): string {
    var p := StripTrailingSeparators(path);
    p[LastIndexOf(p, Separator) + 1..]
  }

  /** The file name is the part of the normalised path after its last separator. */
  lemma FileNameShape(path: string)
    ensures var p := StripTrailingSeparators(path);
            var r := FileName(path);
            && Separator !in r
            && |r| <= |p| && p[|p| - |r|..] == r
            && (|r| == |p| || p[|p| - |r| - 1] == Separator)
  {
  }
}
