/**
 * The JavaScript string primitives the validation catalogue relies on:
 * the characters `\s` and `String.prototype.trim` treat as white space,
 * ASCII case mapping, `includes`, `split` on one character and `join("")`.
 * Strings are sequences of Unicode scalar values.
 */
module Text {

  /** ECMAScript LineTerminator: LF, CR, LINE SEPARATOR, PARAGRAPH SEPARATOR. */
  predicate IsLineTerminator(c: char) {
    c == '\n' || c == '\r' || c == '\U{2028}' || c == '\U{2029}'
  }

  /**
   * The class `\s` of JavaScript regular expressions, which is also the set
   * `trim()` strips: ECMAScript WhiteSpace (TAB, VT, FF, ZWNBSP and the
   * space separators of category Zs) plus the line terminators.
   */
  predicate IsWhitespace(c: char) {
    || c == '\t' || c == '\U{000B}' || c == '\U{000C}' || c == ' '
    || c == '\U{00A0}' || c == '\U{1680}' || ('\U{2000}' <= c <= '\U{200A}')
    || c == '\U{202F}' || c == '\U{205F}' || c == '\U{3000}' || c == '\U{FEFF}'
    || IsLineTerminator(c)
  }

  predicate AllWhitespace(s: string) {
    forall i :: 0 <= i < |s| ==> IsWhitespace(s[i])
  }

  predicate NoWhitespace(s: string) {
    forall i :: 0 <= i < |s| ==> !IsWhitespace(s[i])
  }

  /** Lower-cases an ASCII letter; every other character is returned as it is. */
  function LowerChar(c: char): (d: char)
    ensures 'A' <= c <= 'Z' ==> 'a' <= d <= 'z' && d as int == c as int + 32
    ensures !('A' <= c <= 'Z') ==> d == c
  {
    if 'A' <= c <= 'Z' then (c as int + 32) as char else c
  }

  /** Upper-cases an ASCII letter; every other character is returned as it is. */
  function UpperChar(c: char): (d: char)
    ensures 'a' <= c <= 'z' ==> 'A' <= d <= 'Z' && d as int == c as int - 32
    ensures !('a' <= c <= 'z') ==> d == c
  {
    if 'a' <= c <= 'z' then (c as int - 32) as char else c
  }

  /** `String.prototype.toLowerCase`, restricted to ASCII letters. */
  function ToLowerCase(s: string): (r: string)
    ensures |r| == |s|
    ensures forall i :: 0 <= i < |s| ==> r[i] == LowerChar(s[i])
  {
    seq(|s|, i requires 0 <= i < |s| => LowerChar(s[i]))
  }

  /** `String.prototype.toUpperCase`, restricted to ASCII letters. */
  function ToUpperCase(s: string): (r: string)
    ensures |r| == |s|
    ensures forall i :: 0 <= i < |s| ==> r[i] == UpperChar(s[i])
  {
    seq(|s|, i requires 0 <= i < |s| => UpperChar(s[i]))
  }

  lemma {:induction false} ToLowerCaseIdempotent(s: string)
    ensures ToLowerCase(ToLowerCase(s)) == ToLowerCase(s)
  {
    var once := ToLowerCase(s);
    var twice := ToLowerCase(once);
    forall i | 0 <= i < |s| ensures twice[i] == once[i] {
      assert once[i] == LowerChar(s[i]);
    }
  }

  /** `needle` occurs in `hay` starting at position `i`. */
  predicate OccursAt(hay: string, needle: string, i: nat) {
    i + |needle| <= |hay| && hay[i..i + |needle|] == needle
  }

  /** `hay.includes(needle)`: needle occurs in hay at some position. */
  predicate Includes(hay: string, needle: string) {
    exists i: nat :: i <= |hay| && OccursAt(hay, needle, i)
  }

  /** `s.trimStart()`. */
  function TrimStart(s: string): (r: string)
    ensures |r| <= |s| && r == s[|s| - |r|..]
    ensures AllWhitespace(s[..|s| - |r|])
    ensures |r| > 0 ==> !IsWhitespace(r[0])
    decreases |s|
  {
    if |s| > 0 && IsWhitespace(s[0]) then TrimStart(s[1..]) else s
  }

  /** `s.trimEnd()`. */
  function TrimEnd(s: string): (r: string)
    ensures |r| <= |s| && r == s[..|r|]
    ensures AllWhitespace(s[|r|..])
    ensures |r| > 0 ==> !IsWhitespace(r[|r| - 1])
    decreases |s|
  {
    if |s| > 0 && IsWhitespace(s[|s| - 1]) then TrimEnd(s[..|s| - 1]) else s
  }

  /**
   * Cutting white space off the front of `s` to get `t`, then off the back
   * of `t` to get `r`, leaves an infix of `s` with only white space around
   * it; when `t` does not start and `r` does not end with white space,
   * neither end of `r` is white space.
   */
  lemma TrimBoth(s: string, t: string, r: string)
    requires |t| <= |s| && t == s[|s| - |t|..] && AllWhitespace(s[..|s| - |t|]) && (|t| > 0 ==> !IsWhitespace(t[0]))
    requires |r| <= |t| && r == t[..|r|] && AllWhitespace(t[|r|..]) && (|r| > 0 ==> !IsWhitespace(r[|r| - 1]))
    ensures exists i, j :: 0 <= i <= j <= |s| && r == s[i..j] && AllWhitespace(s[..i]) && AllWhitespace(s[j..])
    ensures |r| > 0 ==> !IsWhitespace(r[0]) && !IsWhitespace(r[|r| - 1])
  {
    var i := |s| - |t|;
    var j := i + |r|;
    assert s[j..] == t[|r|..];
    assert r == s[i..j];
    if |r| > 0 {
      assert r[0] == t[0];
    }
  }

  /**
   * `s.trim()`: the result is the infix of `s` left after removing the
   * longest white-space prefix and suffix.
   */
  function Trimmed(s: string): (r: string)
    ensures exists i, j :: 0 <= i <= j <= |s| && r == s[i..j] && AllWhitespace(s[..i]) && AllWhitespace(s[j..])
    ensures |r| > 0 ==> !IsWhitespace(r[0]) && !IsWhitespace(r[|r| - 1])
  {
    var t := TrimStart(s);
    var r := TrimEnd(t);
    TrimBoth(s, t, r);
    r
  }

  /** `s.split(sep)` for a one-character separator. */
  function Split(s: string, sep: char): (parts: seq<string>)
    ensures |parts| == multiset(s)[sep] + 1
    ensures forall i :: 0 <= i < |parts| ==> sep !in parts[i]
    decreases |s|
  {
    if s == [] then [""]
    else
      var rest := Split(s[1..], sep);
      assert s == [s[0]] + s[1..];
      if s[0] == sep then [""] + rest
      else [[s[0]] + rest[0]] + rest[1..]
  }

  /** `parts.join(sep)`, the inverse of `Split`. */
  function JoinWith(parts: seq<string>, sep: char): string
    requires |parts| > 0
    decreases |parts|
  {
    if |parts| == 1 then parts[0] else parts[0] + [sep] + JoinWith(parts[1..], sep)
  }

  lemma {:induction false} SplitJoinRoundTrip(s: string, sep: char)
    ensures JoinWith(Split(s, sep), sep) == s
    decreases |s|
  {
    if s != [] {
      var rest := Split(s[1..], sep);
      SplitJoinRoundTrip(s[1..], sep);
      SplitStep(s, sep);
      if s[0] == sep {
        JoinWithEmptyFirst(rest, sep);
      } else {
        JoinWithGrowFirst(s[0], rest, sep);
      }
      assert s == [s[0]] + s[1..];
    }
  }

  /** One step of `Split`: the first character starts a new part or grows the first one. */
  lemma SplitStep(s: string, sep: char)
    requires s != []
    ensures s[0] == sep ==> Split(s, sep) == [""] + Split(s[1..], sep)
    ensures s[0] != sep ==> Split(s, sep) == [[s[0]] + Split(s[1..], sep)[0]] + Split(s[1..], sep)[1..]
  {
  }

  /** Joining after an empty first part puts one separator in front. */
  lemma JoinWithEmptyFirst(rest: seq<string>, sep: char)
    requires |rest| > 0
    ensures JoinWith([""] + rest, sep) == [sep] + JoinWith(rest, sep)
  {
    assert ([""] + rest)[1..] == rest;
  }

  /** Joining after a character is added to the first part puts that character in front. */
  lemma JoinWithGrowFirst(c: char, rest: seq<string>, sep: char)
    requires |rest| > 0
    ensures JoinWith([[c] + rest[0]] + rest[1..], sep) == [c] + JoinWith(rest, sep)
  {
    var parts := [[c] + rest[0]] + rest[1..];
    if |rest| > 1 {
      assert parts[1..] == rest[1..];
    }
  }

  /** With exactly one separator at position k, `split` yields the two sides of it. */
  lemma {:induction false} SplitAtOnlySeparator(s: string, sep: char, k: nat)
    requires k < |s| && s[k] == sep
    requires sep !in s[..k] && sep !in s[k + 1..]
    ensures Split(s, sep) == [s[..k], s[k + 1..]]
    decreases k
  {
    if k == 0 {
      SplitWithoutSeparator(s[1..], sep);
    } else {
      assert s[1..][..k - 1] == s[1..k];
      assert s[1..][k..] == s[k + 1..];
      SplitAtOnlySeparator(s[1..], sep, k - 1);
      assert [s[0]] + s[1..k] == s[..k];
    }
  }

  lemma {:induction false} SplitWithoutSeparator(s: string, sep: char)
    requires sep !in s
    ensures Split(s, sep) == [s]
    decreases |s|
  {
    if s != [] {
      SplitWithoutSeparator(s[1..], sep);
      assert [s[0]] + s[1..] == s;
    }
  }

  /** `parts.join("")`: the concatenation of the parts. */
  function Join(parts: seq<string>): (r: string)
    ensures forall c :: c in r <==> exists i :: 0 <= i < |parts| && c in parts[i]
    decreases |parts|
  {
    if parts == [] then ""
    else
      var rest := Join(parts[1..]);
      assert forall i :: 1 <= i < |parts| ==> parts[i] == parts[1..][i - 1];
      parts[0] + rest
  }

  /** `sub` is obtained from `s` by deleting characters, keeping the order of the rest. */
  predicate IsSubsequence(sub: string, s: string)
    decreases |s|
  {
    if sub == [] then true
    else if s == [] then false
    else if sub[0] == s[0] then IsSubsequence(sub[1..], s[1..])
    else IsSubsequence(sub, s[1..])
  }

  lemma {:induction false} SubsequenceOfTail(sub: string, s: string)
    requires s != [] && IsSubsequence(sub, s[1..])
    ensures IsSubsequence(sub, s)
    decreases |s|, 0
  {
    if sub != [] && sub[0] == s[0] {
      SubsequenceDropFirst(sub, s[1..]);
    }
  }

  lemma {:induction false} SubsequenceDropFirst(sub: string, s: string)
    requires sub != [] && IsSubsequence(sub, s)
    ensures IsSubsequence(sub[1..], s)
    decreases |s|, 1
  {
    if sub[0] == s[0] {
      if sub[1..] != [] {
        SubsequenceOfTail(sub[1..], s);
      }
    } else {
      SubsequenceDropFirst(sub, s[1..]);
      if sub[1..] != [] {
        SubsequenceOfTail(sub[1..], s);
      }
    }
  }

  /** Without white space at either end, `trim` returns its input. */
  lemma TrimmedUnchanged(s: string)
    requires |s| > 0 ==> !IsWhitespace(s[0]) && !IsWhitespace(s[|s| - 1])
    ensures Trimmed(s) == s
  {
  }

  /** `trim` adds no character: one absent from `s` is absent from `s.trim()`. */
  lemma TrimmedKeepsOut(s: string, c: char)
    requires c !in s
    ensures c !in Trimmed(s)
  {
    var t := TrimStart(s);
    var r := TrimEnd(t);
    assert Trimmed(s) == r;
    forall m | 0 <= m < |r| ensures r[m] != c {
      assert r[m] == t[m] == s[|s| - |t| + m];
    }
  }

  /** `trim` is idempotent. */
  lemma TrimmedIdempotent(s: string)
    ensures Trimmed(Trimmed(s)) == Trimmed(s)
  {
    TrimmedUnchanged(Trimmed(s));
  }

  /** A string none of whose members is white space has no white space. */
  lemma NoWhitespaceByMembers(s: string)
    requires forall c :: c in s ==> !IsWhitespace(c)
    ensures NoWhitespace(s)
  {
    forall i | 0 <= i < |s| ensures !IsWhitespace(s[i]) {
      assert s[i] in s;
    }
  }

  /** A character absent before and after position k occurs only at k. */
  lemma OnlyOccurrence(s: string, c: char, k: nat)
    requires k < |s| && c !in s[..k] && c !in s[k + 1..]
    ensures forall i :: 0 <= i < |s| && s[i] == c ==> i == k
  {
    forall i | 0 <= i < k ensures s[i] != c {
      assert s[..k][i] == s[i];
    }
    forall i | k < i < |s| ensures s[i] != c {
      assert s[k + 1..][i - k - 1] == s[i];
    }
  }

  /** A needle whose first character never occurs in the haystack is not included. */
  lemma NotIncludedFirstChar(hay: string, needle: string)
    requires |needle| > 0 && needle[0] !in hay
    ensures !Includes(hay, needle)
  {
    forall i: nat | i <= |hay| ensures !OccursAt(hay, needle, i) {
      if i + |needle| <= |hay| {
        assert hay[i..i + |needle|][0] == hay[i];
        assert hay[i] in hay;
      }
    }
  }

  /** A string none of whose characters ends a line is a single line. */
  lemma SingleLineByMembers(s: string)
    requires forall c :: c in s ==> !IsLineTerminator(c)
    ensures forall i :: 0 <= i < |s| ==> !IsLineTerminator(s[i])
  {
    forall i | 0 <= i < |s| ensures !IsLineTerminator(s[i]) {
      assert s[i] in s;
    }
  }

  /** Upper-casing after lower-casing is upper-casing. */
  lemma UpperOfLower(s: string)
    ensures ToUpperCase(ToLowerCase(s)) == ToUpperCase(s)
  {
    forall i | 0 <= i < |s| ensures UpperChar(LowerChar(s[i])) == UpperChar(s[i]) {
    }
  }

  /** Lower-casing works character by character, so it distributes over concatenation. */
  lemma ToLowerCaseConcat(s: string, t: string)
    ensures ToLowerCase(s + t) == ToLowerCase(s) + ToLowerCase(t)
  {
    var r := ToLowerCase(s + t);
    forall i | 0 <= i < |s| + |t| ensures r[i] == (ToLowerCase(s) + ToLowerCase(t))[i] {
      if i < |s| {
        assert (s + t)[i] == s[i];
      } else {
        assert (s + t)[i] == t[i - |s|];
      }
    }
  }

  /** A concatenation has no white space exactly when neither side has. */
  lemma NoWhitespaceConcat(s: string, t: string)
    ensures NoWhitespace(s + t) <==> NoWhitespace(s) && NoWhitespace(t)
  {
    if NoWhitespace(s + t) {
      forall i | 0 <= i < |s| ensures !IsWhitespace(s[i]) {
        assert (s + t)[i] == s[i];
      }
      forall i | 0 <= i < |t| ensures !IsWhitespace(t[i]) {
        assert (s + t)[|s| + i] == t[i];
      }
    }
    if NoWhitespace(s) && NoWhitespace(t) {
      forall i | 0 <= i < |s + t| ensures !IsWhitespace((s + t)[i]) {
        if i < |s| {
          assert (s + t)[i] == s[i];
        } else {
          assert (s + t)[i] == t[i - |s|];
        }
      }
    }
  }

  /** `trimStart` cuts exactly at the first character that is not white space. */
  lemma {:induction false} TrimStartAt(s: string, j: nat)
    requires j <= |s| && AllWhitespace(s[..j])
    requires j < |s| ==> !IsWhitespace(s[j])
    ensures TrimStart(s) == s[j..]
    decreases j
  {
    if j > 0 {
      assert s[..j][0] == s[0];
      assert s[1..][..j - 1] == s[1..j];
      assert forall i :: 0 <= i < j - 1 ==> s[1..j][i] == s[..j][i + 1];
      TrimStartAt(s[1..], j - 1);
      assert s[1..][j - 1..] == s[j..];
    }
  }

  /** A string splits into two parts exactly when the separator at k is its only one. */
  lemma SplitInTwo(s: string, sep: char, k: nat)
    requires k < |s| && s[k] == sep
    ensures |Split(s, sep)| == 2 <==> sep !in s[..k] && sep !in s[k + 1..]
    ensures |Split(s, sep)| == 2 ==> Split(s, sep) == [s[..k], s[k + 1..]]
  {
    assert s == s[..k] + [s[k]] + s[k + 1..];
    assert multiset(s)[sep] == multiset(s[..k])[sep] + 1 + multiset(s[k + 1..])[sep];
    if sep !in s[..k] && sep !in s[k + 1..] {
      SplitAtOnlySeparator(s, sep, k);
    }
  }
}
