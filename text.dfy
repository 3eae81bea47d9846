/** The parts of the .NET string library that the command system relies on:
    `char.IsWhiteSpace`, `ToLowerInvariant` (ASCII letters only), `Trim`,
    `TrimStart(char)` and an ordinal case-insensitive `IndexOf`. */
module Text {

  /** `char.IsWhiteSpace`: the Unicode separators plus the control
      characters U+0009..U+000D and U+0085. */
  predicate IsWhiteSpace(c: char): (b: bool)
    ensures b ==> c != '"' && c != '/' && !('A' <= c <= 'Z') && !('0' <= c <= '9')
  {
    var n := c as int;
    || (0x09 <= n <= 0x0D) || n == 0x20 || n == 0x85 || n == 0xA0 || n == 0x1680
    || (0x2000 <= n <= 0x200A) || n == 0x2028 || n == 0x2029 || n == 0x202F
    || n == 0x205F || n == 0x3000
  }

  /** Lower-casing of one character; only `A`..`Z` are mapped. */
  function LowerChar(c: char): (d: char)
    ensures IsWhiteSpace(d) <==> IsWhiteSpace(c)
    ensures !('A' <= d <= 'Z')
  {
    if 'A' <= c <= 'Z' then (c as int + 32) as char else c
  }

  function Lower(s: string): (r: string)
    ensures |r| == |s|
    ensures forall i :: 0 <= i < |s| ==> r[i] == LowerChar(s[i])
  {
    seq(|s|, i requires 0 <= i < |s| => LowerChar(s[i]))
  }

  /** No leading and no trailing white space. */
  predicate IsTrimmed(s: string) {
    s == [] || (!IsWhiteSpace(s[0]) && !IsWhiteSpace(s[|s| - 1]))
  }

  /** Removes the leading white space. */
  function TrimStart(s: string): (r: string)
    ensures |r| <= |s|
    ensures r == [] || !IsWhiteSpace(r[0])
  {
    if |s| > 0 && IsWhiteSpace(s[0]) then TrimStart(s[1..]) else s
  }

  /** Removes the trailing white space. */
  function TrimEnd(s: string): (r: string)
    ensures |r| <= |s|
    ensures r == [] || !IsWhiteSpace(r[|r| - 1])
  {
    if |s| > 0 && IsWhiteSpace(s[|s| - 1]) then TrimEnd(s[..|s| - 1]) else s
  }

  /** `string.Trim()`. */
  function Trim(s: string): (r: string)
    ensures |r| <= |s|
  {
    TrimEnd(TrimStart(s))
  }

  /** `TrimStart` keeps the suffix of `s` that starts at its first
      non-white character. */
  lemma {:induction false} TrimStartIsSuffix(s: string)
    ensures TrimStart(s) == s[|s| - |TrimStart(s)|..]
    ensures forall k :: 0 <= k < |s| - |TrimStart(s)| ==> IsWhiteSpace(s[k])
  {
    if |s| > 0 && IsWhiteSpace(s[0]) {
      TrimStartIsSuffix(s[1..]);
    }
  }

  /** `TrimEnd` keeps the prefix of `s` that ends at its last non-white
      character. */
  lemma {:induction false} TrimEndIsPrefix(s: string)
    ensures TrimEnd(s) == s[..|TrimEnd(s)|]
    ensures forall k :: |TrimEnd(s)| <= k < |s| ==> IsWhiteSpace(s[k])
  {
    if |s| > 0 && IsWhiteSpace(s[|s| - 1]) {
      TrimEndIsPrefix(s[..|s| - 1]);
    }
  }

  /** The result of `Trim` has no white space at either end. */
  lemma TrimIsTrimmed(s: string)
    ensures IsTrimmed(Trim(s))
  {
    var t := TrimStart(s);
    TrimEndIsPrefix(t);
    if Trim(s) != [] {
      assert Trim(s)[0] == t[0];
    }
  }

  /** `Trim` cuts out an inner slice and drops only white space around it. */
  lemma TrimIsInnerSlice(s: string) returns (i: nat, j: nat)
    ensures i <= j <= |s| && Trim(s) == s[i..j]
    ensures forall k :: 0 <= k < i ==> IsWhiteSpace(s[k])
    ensures forall k :: j <= k < |s| ==> IsWhiteSpace(s[k])
  {
    var t := TrimStart(s);
    TrimStartIsSuffix(s);
    TrimEndIsPrefix(t);
    i := |s| - |t|;
    j := i + |Trim(s)|;
    assert t == s[i..];
    assert Trim(s) == t[..j - i];
    forall k | j <= k < |s| ensures IsWhiteSpace(s[k]) {
      assert s[k] == t[k - i];
    }
  }

  lemma TrimOfTrimmed(s: string)
    requires IsTrimmed(s)
    ensures Trim(s) == s
  {
  }

  lemma {:induction false} TrimIdempotent(s: string)
    ensures Trim(Trim(s)) == Trim(s)
  {
    TrimIsTrimmed(s);
    TrimOfTrimmed(Trim(s));
  }

  lemma {:induction false} LowerTrimStart(s: string)
    ensures Lower(TrimStart(s)) == TrimStart(Lower(s))
  {
    if |s| > 0 && IsWhiteSpace(s[0]) {
      assert Lower(s)[1..] == Lower(s[1..]);
      LowerTrimStart(s[1..]);
    }
  }

  lemma {:induction false} LowerTrimEnd(s: string)
    ensures Lower(TrimEnd(s)) == TrimEnd(Lower(s))
  {
    if |s| > 0 && IsWhiteSpace(s[|s| - 1]) {
      assert Lower(s)[..|s| - 1] == Lower(s[..|s| - 1]);
      LowerTrimEnd(s[..|s| - 1]);
    }
  }

  /** Lower-casing and trimming commute, because lower-casing maps white
      space to white space and nothing else to white space. */
  lemma LowerTrim(s: string)
    ensures Lower(Trim(s)) == Trim(Lower(s))
  {
    LowerTrimStart(s);
    LowerTrimEnd(TrimStart(s));
  }

  lemma LowerIdempotent(s: string)
    ensures Lower(Lower(s)) == Lower(s)
  {
  }

  /** `TrimStart(ch)`: removes every leading occurrence of `ch`. */
  function TrimStartOf(s: string, ch: char): (r: string)
    ensures |r| <= |s|
    ensures r == [] || r[0] != ch
  {
    if |s| > 0 && s[0] == ch then TrimStartOf(s[1..], ch) else s
  }

  /** What `TrimStart(ch)` keeps is the suffix after the leading run of
      `ch`, and that run consists of `ch` alone. */
  lemma {:induction false} TrimStartOfIsSuffix(s: string, ch: char)
    ensures TrimStartOf(s, ch) == s[|s| - |TrimStartOf(s, ch)|..]
    ensures forall k :: 0 <= k < |s| - |TrimStartOf(s, ch)| ==> s[k] == ch
  {
    if |s| > 0 && s[0] == ch {
      TrimStartOfIsSuffix(s[1..], ch);
    }
  }

  /** Prefixing any number of `ch` makes no difference to `TrimStart(ch)`. */
  lemma {:induction false} TrimStartOfPrefix(n: nat, s: string, ch: char)
    ensures TrimStartOf(seq(n, _ => ch) + s, ch) == TrimStartOf(s, ch)
  {
    if n > 0 {
      var t := seq(n, _ => ch) + s;
      assert t[1..] == seq(n - 1, _ => ch) + s;
      TrimStartOfPrefix(n - 1, s, ch);
    } else {
      assert seq(n, _ => ch) + s == s;
    }
  }

  /** `q` occurs in `s` at position `i`, comparing letters without case. */
  predicate MatchesAt(s: string, q: string, i: nat)
    requires i + |q| <= |s|
  {
    Lower(s[i..i + |q|]) == Lower(q)
  }

  /** `s.IndexOf(q, StringComparison.OrdinalIgnoreCase) >= 0`; the empty
      query occurs at position 0 of every string. */
  predicate ContainsIgnoreCase(s: string, q: string): (b: bool)
    ensures q == [] ==> b
    ensures b ==> |q| <= |s|
  {
    assert q == [] ==> MatchesAt(s, q, 0);
    exists i: nat | i + |q| <= |s| :: MatchesAt(s, q, i)
  }
}
