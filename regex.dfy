/**
 * The fragment of JavaScript regular expressions the validation catalogue
 * uses: character classes, concatenation, alternation, `?`, `*`, `+` and
 * counted repetition. `Matches(r, s)` is the language of `r`: whether `r`
 * can match all of `s`. For the anchored patterns `/^…$/` this is exactly
 * what `RegExp.prototype.test` answers, whatever order the backtracking
 * engine tries the alternatives in.
 */
module Regex {
  import opened Text
  import opened Results

  /** A bracketed character class such as `[a-zA-Z0-9]`, `[^\s@]` or `\d`. */
  datatype CharClass =
    | Single(c: char)
    | Range(lo: char, hi: char)
    | AnyOf(chars: string)
    | Space
    | Union(left: CharClass, right: CharClass)
    | Not(inner: CharClass)
  {
    predicate Has(x: char) {
      match this
      case Single(c) => x == c
      case Range(lo, hi) => lo <= x <= hi
      case AnyOf(chars) => x in chars
      case Space => IsWhitespace(x)
      case Union(l, r) => l.Has(x) || r.Has(x)
      case Not(i) => !i.Has(x)
    }
  }

  /** `\d` and `[0-9]` */
  const Digit := Range('0', '9')
  /** `[1-9]` */
  const NonZeroDigit := Range('1', '9')
  /** `[A-Z]` */
  const Upper := Range('A', 'Z')
  /** `[a-z]` */
  const Lower := Range('a', 'z')
  /** `[a-zA-Z]`, and `[A-Z]` or `[a-z]` under the `i` flag */
  const Letter := Union(Lower, Upper)
  /** `[a-zA-Z0-9]` */
  const AlphaNumeric := Union(Letter, Digit)
  /** `[0-9a-fA-F]` */
  const HexDigit := Union(Digit, Union(Range('a', 'f'), Range('A', 'F')))
  /** `\w` */
  const WordChar := Union(AlphaNumeric, Single('_'))

  /** Every character of `s` is in the class. */
  predicate AllIn(cc: CharClass, s: string) {
    forall i :: 0 <= i < |s| ==> cc.Has(s[i])
  }

  datatype Re =
    | Empty
    | Class(cc: CharClass)
    | Cat(front: Re, back: Re)
    | Alt(either: Re, or: Re)
    | Star(body: Re)

  /** `r` matches the whole of `s`. */
  function Matches(r: Re, s: string): bool
    decreases r, |s|
  {
    match r
    case Empty => s == []
    case Class(cc) => |s| == 1 && cc.Has(s[0])
    case Cat(a, b) => exists k :: 0 <= k <= |s| && Matches(a, s[..k]) && Matches(b, s[k..])
    case Alt(a, b) => Matches(a, s) || Matches(b, s)
    case Star(a) => s == [] || exists k :: 1 <= k <= |s| && Matches(a, s[..k]) && Matches(r, s[k..])
  }

  /** `RegExp.prototype.test` of an unanchored pattern: some infix of `s` matches. */
  predicate Search(r: Re, s: string) {
    exists i, j :: 0 <= i <= j <= |s| && Matches(r, s[i..j])
  }

  /** Under the `m` flag `^` holds at the start of the input and after a line terminator. */
  predicate LineStart(s: string, i: nat) {
    i == 0 || (i <= |s| && IsLineTerminator(s[i - 1]))
  }

  /** Under the `m` flag `$` holds at the end of the input and before a line terminator. */
  predicate LineEnd(s: string, j: nat) {
    j == |s| || (j < |s| && IsLineTerminator(s[j]))
  }

  /** `RegExp.prototype.test` of `/^r$/m`: some infix between line boundaries matches. */
  predicate TestMultiline(r: Re, s: string) {
    exists i: nat, j: nat :: i <= j <= |s| && LineStart(s, i) && LineEnd(s, j) && Matches(r, s[i..j])
  }

  /** `c` as a one-character pattern. */
  function Lit(c: char): Re {
    Class(Single(c))
  }

  /** `c` under the `i` flag: the character and its other ASCII case. */
  function LitI(c: char): Re {
    Class(Union(Single(LowerChar(c)), Single(UpperChar(c))))
  }

  /** The literal text `w`. */
  function Word(w: string): Re
    decreases |w|
  {
    if w == [] then Empty else Cat(Lit(w[0]), Word(w[1..]))
  }

  /** The literal text `w` under the `i` flag. */
  function WordI(w: string): Re
    decreases |w|
  {
    if w == [] then Empty else Cat(LitI(w[0]), WordI(w[1..]))
  }

  /** `r?` */
  function Opt(r: Re): Re {
    Alt(r, Empty)
  }

  /** `r+` */
  function Plus(r: Re): Re {
    Cat(r, Star(r))
  }

  /** `r{n}` */
  function Rep(r: Re, n: nat): Re {
    if n == 0 then Empty else Cat(r, Rep(r, n - 1))
  }

  /** `r{0,n}` */
  function UpTo(r: Re, n: nat): Re {
    if n == 0 then Empty else Opt(Cat(r, UpTo(r, n - 1)))
  }

  /** `r{m,n}` */
  function Between(r: Re, m: nat, n: nat): Re
    requires m <= n
  {
    Cat(Rep(r, m), UpTo(r, n - m))
  }

  /** `r{m,}` */
  function AtLeast(r: Re, m: nat): Re {
    Cat(Rep(r, m), Star(r))
  }

  /** The concatenation of the patterns in order. */
  function Seq(rs: seq<Re>): Re
    decreases |rs|
  {
    if rs == [] then Empty else if |rs| == 1 then rs[0] else Cat(rs[0], Seq(rs[1..]))
  }

  /** The length of every string `r` matches, when that length is fixed. */
  function Width(r: Re): Option<nat> {
    match r
    case Empty => Some(0)
    case Class(_) => Some(1)
    case Cat(a, b) =>
      if Width(a).Some? && Width(b).Some? then Some(Width(a).value + Width(b).value) else None
    case Alt(a, b) => if Width(a) == Width(b) then Width(a) else None
    case Star(_) => None
  }

  /** Some character class of `r` contains `c`. */
  predicate Admits(r: Re, c: char) {
    match r
    case Empty => false
    case Class(cc) => cc.Has(c)
    case Cat(a, b) => Admits(a, c) || Admits(b, c)
    case Alt(a, b) => Admits(a, c) || Admits(b, c)
    case Star(a) => Admits(a, c)
  }

  /** Every string `r` matches contains the literal `c`. */
  predicate Needs(r: Re, c: char) {
    match r
    case Empty => false
    case Class(cc) => cc == Single(c)
    case Cat(a, b) => Needs(a, c) || Needs(b, c)
    case Alt(a, b) => Needs(a, c) && Needs(b, c)
    case Star(_) => false
  }

  /**
   * `s.replace(/[cc]/g, '')`: every character in the class is deleted and
   * the others are kept, in their order.
   */
  function RemoveAll(cc: CharClass, s: string): (r: string)
    ensures forall i :: 0 <= i < |r| ==> !cc.Has(r[i])
    decreases |s|
  {
    if s == [] then []
    else
      var rest := RemoveAll(cc, s[1..]);
      assert s == [s[0]] + s[1..];
      if cc.Has(s[0]) then rest else [s[0]] + rest
  }

  /** `RemoveAll` keeps every occurrence of every character outside the class. */
  lemma {:induction false} RemoveAllKeepsOthers(cc: CharClass, s: string)
    ensures forall c :: multiset(RemoveAll(cc, s))[c] == if cc.Has(c) then 0 else multiset(s)[c]
    decreases |s|
  {
    if s != [] {
      RemoveAllKeepsOthers(cc, s[1..]);
      assert s == [s[0]] + s[1..];
    }
  }

  /** `RemoveAll` keeps the surviving characters in their order. */
  lemma {:induction false} RemoveAllKeepsOrder(cc: CharClass, s: string)
    ensures IsSubsequence(RemoveAll(cc, s), s)
    decreases |s|
  {
    if s != [] {
      var rest := RemoveAll(cc, s[1..]);
      RemoveAllKeepsOrder(cc, s[1..]);
      if cc.Has(s[0]) {
        SubsequenceOfTail(rest, s);
      } else {
        assert ([s[0]] + rest)[1..] == rest;
      }
    }
  }

  // ---------------------------------------------------------------------
  // Laws of the matcher
  // ---------------------------------------------------------------------

  lemma {:induction false} WidthOfMatch(r: Re, s: string)
    requires Width(r).Some? && Matches(r, s)
    ensures |s| == Width(r).value
    decreases r
  {
    match r
    case Empty =>
    case Class(_) =>
    case Cat(a, b) =>
      var k :| 0 <= k <= |s| && Matches(a, s[..k]) && Matches(b, s[k..]);
      WidthOfMatch(a, s[..k]);
      WidthOfMatch(b, s[k..]);
    case Alt(a, b) =>
      if Matches(a, s) { WidthOfMatch(a, s); } else { WidthOfMatch(b, s); }
  }

  /** A concatenation whose first part has a fixed width splits at that width. */
  lemma CatFixedFront(a: Re, b: Re, s: string)
    requires Width(a).Some?
    ensures Matches(Cat(a, b), s) <==>
      Width(a).value <= |s| && Matches(a, s[..Width(a).value]) && Matches(b, s[Width(a).value..])
  {
    if Matches(Cat(a, b), s) {
      var k :| 0 <= k <= |s| && Matches(a, s[..k]) && Matches(b, s[k..]);
      WidthOfMatch(a, s[..k]);
    }
  }

  /** A concatenation whose last part has a fixed width splits that far from the end. */
  lemma CatFixedBack(a: Re, b: Re, s: string)
    requires Width(b).Some?
    ensures Matches(Cat(a, b), s) <==>
      Width(b).value <= |s| && Matches(a, s[..|s| - Width(b).value]) && Matches(b, s[|s| - Width(b).value..])
  {
    var n := Width(b).value;
    if Matches(Cat(a, b), s) {
      CatFixedBackSplit(a, b, s);
    }
    if n <= |s| {
      var k := |s| - n;
      if Matches(a, s[..k]) && Matches(b, s[k..]) {
        CatJoin(a, b, s, k);
      }
    }
  }

  /** A match of a concatenation whose last part has a fixed width splits that far from the end. */
  lemma CatFixedBackSplit(a: Re, b: Re, s: string)
    requires Width(b).Some? && Matches(Cat(a, b), s)
    ensures Width(b).value <= |s| && Matches(a, s[..|s| - Width(b).value]) && Matches(b, s[|s| - Width(b).value..])
  {
    var k :| 0 <= k <= |s| && Matches(a, s[..k]) && Matches(b, s[k..]);
    CatFixedBackAt(a, b, s, k);
  }

  /** Any split of a concatenation whose last part has a fixed width is the one that far from the end. */
  lemma CatFixedBackAt(a: Re, b: Re, s: string, k: nat)
    requires Width(b).Some? && k <= |s| && Matches(a, s[..k]) && Matches(b, s[k..])
    ensures Width(b).value <= |s| && Matches(a, s[..|s| - Width(b).value]) && Matches(b, s[|s| - Width(b).value..])
  {
    WidthOfMatch(b, s[k..]);
    assert k == |s| - Width(b).value;
  }

  /** Matches of the two parts on either side of a cut make a match of the concatenation. */
  lemma CatJoin(a: Re, b: Re, s: string, k: nat)
    requires k <= |s| && Matches(a, s[..k]) && Matches(b, s[k..])
    ensures Matches(Cat(a, b), s)
  {
  }

  /** `[cc]*` matches exactly the strings drawn from the class. */
  lemma {:induction false} StarClass(cc: CharClass, s: string)
    ensures Matches(Star(Class(cc)), s) <==> AllIn(cc, s)
    decreases |s|
  {
    if s != [] {
      StarClass(cc, s[1..]);
      if AllIn(cc, s) {
        assert AllIn(cc, s[1..]);
        assert Matches(Class(cc), s[..1]);
      }
      if Matches(Star(Class(cc)), s) {
        var k :| 1 <= k <= |s| && Matches(Class(cc), s[..k]) && Matches(Star(Class(cc)), s[k..]);
        assert k == 1;
        assert forall i :: 1 <= i < |s| ==> s[i] == s[1..][i - 1];
      }
    }
  }

  /** `[cc]+` matches exactly the non-empty strings drawn from the class. */
  lemma PlusClass(cc: CharClass, s: string)
    ensures Matches(Plus(Class(cc)), s) <==> |s| > 0 && AllIn(cc, s)
  {
    CatFixedFront(Class(cc), Star(Class(cc)), s);
    if |s| > 0 {
      StarClass(cc, s[1..]);
      assert forall i :: 1 <= i < |s| ==> s[i] == s[1..][i - 1];
    }
  }

  lemma {:induction false} WidthOfRep(r: Re, n: nat)
    requires Width(r) == Some(1)
    ensures Width(Rep(r, n)) == Some(n)
  {
    if n > 0 { WidthOfRep(r, n - 1); }
  }

  /** `[cc]{n}` matches exactly the strings of length n drawn from the class. */
  lemma {:induction false} RepClass(cc: CharClass, n: nat, s: string)
    ensures Matches(Rep(Class(cc), n), s) <==> |s| == n && AllIn(cc, s)
  {
    if n > 0 {
      CatFixedFront(Class(cc), Rep(Class(cc), n - 1), s);
      if |s| > 0 {
        RepClass(cc, n - 1, s[1..]);
        assert forall i :: 1 <= i < |s| ==> s[i] == s[1..][i - 1];
      }
    }
  }

  /** `[cc]{0,n}` matches exactly the strings of length at most n drawn from the class. */
  lemma {:induction false} UpToClass(cc: CharClass, n: nat, s: string)
    ensures Matches(UpTo(Class(cc), n), s) <==> |s| <= n && AllIn(cc, s)
  {
    if n > 0 {
      CatFixedFront(Class(cc), UpTo(Class(cc), n - 1), s);
      if |s| > 0 {
        UpToClass(cc, n - 1, s[1..]);
        assert forall i :: 1 <= i < |s| ==> s[i] == s[1..][i - 1];
      }
    }
  }

  /** `[cc]{m,n}` matches exactly the strings of length m to n drawn from the class. */
  lemma BetweenClass(cc: CharClass, m: nat, n: nat, s: string)
    requires m <= n
    ensures Matches(Between(Class(cc), m, n), s) <==> m <= |s| <= n && AllIn(cc, s)
  {
    WidthOfRep(Class(cc), m);
    CatFixedFront(Rep(Class(cc), m), UpTo(Class(cc), n - m), s);
    if m <= |s| {
      RepClass(cc, m, s[..m]);
      UpToClass(cc, n - m, s[m..]);
      assert forall i :: m <= i < |s| ==> s[i] == s[m..][i - m];
    }
  }

  /** A literal text matches itself and nothing else. */
  lemma {:induction false} WordMatches(w: string, s: string)
    ensures Matches(Word(w), s) <==> s == w
    decreases |w|
  {
    if w != [] {
      CatFixedFront(Lit(w[0]), Word(w[1..]), s);
      if |s| > 0 {
        WordMatches(w[1..], s[1..]);
        if s[1..] == w[1..] && s[0] == w[0] {
          assert s == [s[0]] + s[1..];
          assert w == [w[0]] + w[1..];
        }
      }
    }
  }

  /** A character outside every class of `r` never occurs in a match of `r`. */
  lemma {:induction false} MatchOnlyAdmitted(r: Re, s: string)
    requires Matches(r, s)
    ensures forall i :: 0 <= i < |s| ==> Admits(r, s[i])
    decreases r, |s|
  {
    match r
    case Empty =>
    case Class(_) =>
    case Cat(a, b) =>
      var k :| 0 <= k <= |s| && Matches(a, s[..k]) && Matches(b, s[k..]);
      MatchOnlyAdmitted(a, s[..k]);
      MatchOnlyAdmitted(b, s[k..]);
      forall i | 0 <= i < |s| ensures Admits(r, s[i]) {
        if i < k { assert s[i] == s[..k][i]; } else { assert s[i] == s[k..][i - k]; }
      }
    case Alt(a, b) =>
      if Matches(a, s) { MatchOnlyAdmitted(a, s); } else { MatchOnlyAdmitted(b, s); }
    case Star(a) =>
      if s != [] {
        var k :| 1 <= k <= |s| && Matches(a, s[..k]) && Matches(r, s[k..]);
        MatchOnlyAdmitted(a, s[..k]);
        MatchOnlyAdmitted(r, s[k..]);
        forall i | 0 <= i < |s| ensures Admits(r, s[i]) {
          if i < k { assert s[i] == s[..k][i]; } else { assert s[i] == s[k..][i - k]; }
        }
      }
  }

  /** A literal that every match of `r` needs occurs in each string `r` matches. */
  lemma {:induction false} MatchHasNeeded(r: Re, c: char, s: string)
    requires Needs(r, c) && Matches(r, s)
    ensures c in s
    decreases r
  {
    match r
    case Class(_) =>
      assert s[0] == c;
    case Cat(a, b) =>
      var k :| 0 <= k <= |s| && Matches(a, s[..k]) && Matches(b, s[k..]);
      if Needs(a, c) {
        MatchHasNeeded(a, c, s[..k]);
      } else {
        MatchHasNeeded(b, c, s[k..]);
      }
    case Alt(a, b) =>
      if Matches(a, s) { MatchHasNeeded(a, c, s); } else { MatchHasNeeded(b, c, s); }
  }

  /** Concatenated matches match the concatenation. */
  lemma CatIntro(a: Re, b: Re, x: string, y: string)
    requires Matches(a, x) && Matches(b, y)
    ensures Matches(Cat(a, b), x + y)
  {
    assert (x + y)[..|x|] == x && (x + y)[|x|..] == y;
  }

  /** Without line terminators, the `m` flag changes nothing. */
  lemma TestMultilineSingleLine(r: Re, s: string)
    requires forall i :: 0 <= i < |s| ==> !IsLineTerminator(s[i])
    ensures TestMultiline(r, s) <==> Matches(r, s)
  {
    if TestMultiline(r, s) {
      var i: nat, j: nat :| i <= j <= |s| && LineStart(s, i) && LineEnd(s, j) && Matches(r, s[i..j]);
      assert i == 0 && j == |s|;
      assert s[i..j] == s;
    }
    if Matches(r, s) {
      assert LineStart(s, 0) && LineEnd(s, |s|) && s[0..|s|] == s;
    }
  }

  /** Two class characters in a row: what `/[cc]{2,}/` finds anywhere in `s`. */
  predicate AdjacentPair(cc: CharClass, s: string) {
    exists i :: 0 <= i < |s| - 1 && cc.Has(s[i]) && cc.Has(s[i + 1])
  }

  /** `/[cc]{2,}/.test(s)` holds exactly when two class characters are adjacent in `s`. */
  lemma SearchAtLeastTwo(cc: CharClass, s: string)
    ensures Search(AtLeast(Class(cc), 2), s) <==> AdjacentPair(cc, s)
  {
    var r := AtLeast(Class(cc), 2);
    if Search(r, s) {
      var i, j :| 0 <= i <= j <= |s| && Matches(r, s[i..j]);
      AtLeastTwoStartsWithPair(cc, s[i..j]);
      assert s[i..j][0] == s[i] && s[i..j][1] == s[i + 1];
    }
    if AdjacentPair(cc, s) {
      var i :| 0 <= i < |s| - 1 && cc.Has(s[i]) && cc.Has(s[i + 1]);
      PairMatchesAtLeastTwo(cc, s[i..i + 2]);
    }
  }

  lemma AtLeastTwoStartsWithPair(cc: CharClass, t: string)
    requires Matches(AtLeast(Class(cc), 2), t)
    ensures |t| >= 2 && cc.Has(t[0]) && cc.Has(t[1])
  {
    WidthOfRep(Class(cc), 2);
    CatFixedFront(Rep(Class(cc), 2), Star(Class(cc)), t);
    RepClass(cc, 2, t[..2]);
    assert t[..2][0] == t[0] && t[..2][1] == t[1];
  }

  lemma PairMatchesAtLeastTwo(cc: CharClass, t: string)
    requires |t| == 2 && cc.Has(t[0]) && cc.Has(t[1])
    ensures Matches(AtLeast(Class(cc), 2), t)
  {
    RepClass(cc, 2, t);
    StarClass(cc, []);
    CatIntro(Rep(Class(cc), 2), Star(Class(cc)), t, []);
    assert t + [] == t;
  }

  // ---------------------------------------------------------------------
  // Laws of RemoveAll
  // ---------------------------------------------------------------------

  /** One step of `RemoveAll`: the first character is kept unless it is in the class. */
  lemma RemoveAllCons(cc: CharClass, c: char, s: string)
    ensures RemoveAll(cc, [c] + s) == if cc.Has(c) then RemoveAll(cc, s) else [c] + RemoveAll(cc, s)
  {
    assert ([c] + s)[0] == c && ([c] + s)[1..] == s;
  }

  /** Deleting class characters distributes over concatenation. */
  lemma {:induction false} RemoveAllConcat(cc: CharClass, s: string, t: string)
    ensures RemoveAll(cc, s + t) == RemoveAll(cc, s) + RemoveAll(cc, t)
    decreases |s|
  {
    if s == [] {
      assert s + t == t;
    } else {
      assert s + t == [s[0]] + (s[1..] + t);
      assert s == [s[0]] + s[1..];
      RemoveAllCons(cc, s[0], s[1..] + t);
      RemoveAllCons(cc, s[0], s[1..]);
      RemoveAllConcat(cc, s[1..], t);
    }
  }

  /** A string without class characters is left as it is. */
  lemma {:induction false} RemoveAllUnchanged(cc: CharClass, s: string)
    requires forall i :: 0 <= i < |s| ==> !cc.Has(s[i])
    ensures RemoveAll(cc, s) == s
    decreases |s|
  {
    if s != [] {
      RemoveAllUnchanged(cc, s[1..]);
      assert s == [s[0]] + s[1..];
    }
  }

  /** A string made only of class characters is removed entirely. */
  lemma {:induction false} RemoveAllEverything(cc: CharClass, s: string)
    requires AllIn(cc, s)
    ensures RemoveAll(cc, s) == []
    decreases |s|
  {
    if s != [] {
      RemoveAllEverything(cc, s[1..]);
    }
  }

  /** Removing a class twice is removing it once. */
  lemma RemoveAllIdempotent(cc: CharClass, s: string)
    ensures RemoveAll(cc, RemoveAll(cc, s)) == RemoveAll(cc, s)
  {
    RemoveAllUnchanged(cc, RemoveAll(cc, s));
  }

  // ---------------------------------------------------------------------
  // Fixed layouts: patterns built from classes by concatenation only
  // ---------------------------------------------------------------------

  /** `r` uses no alternation and no repetition. */
  predicate IsFixed(r: Re) {
    match r
    case Empty => true
    case Class(_) => true
    case Cat(a, b) => IsFixed(a) && IsFixed(b)
    case Alt(_, _) => false
    case Star(_) => false
  }

  /** The classes of a fixed pattern, position by position. */
  function Positions(r: Re): seq<CharClass>
    requires IsFixed(r)
  {
    match r
    case Empty => []
    case Class(cc) => [cc]
    case Cat(a, b) => Positions(a) + Positions(b)
  }

  /** `s` has one character per position of the layout, each in its class. */
  predicate Fits(s: string, layout: seq<CharClass>) {
    |s| == |layout| && forall i :: 0 <= i < |s| ==> layout[i].Has(s[i])
  }

  lemma {:induction false} WidthOfFixed(r: Re)
    requires IsFixed(r)
    ensures Width(r) == Some(|Positions(r)|)
  {
    match r
    case Empty =>
    case Class(_) =>
    case Cat(a, b) =>
      WidthOfFixed(a);
      WidthOfFixed(b);
  }

  /** A fixed pattern matches exactly the strings that fit its layout. */
  lemma {:induction false} FixedMatches(r: Re, s: string)
    requires IsFixed(r)
    ensures Matches(r, s) <==> Fits(s, Positions(r))
  {
    match r
    case Empty =>
    case Class(_) =>
    case Cat(a, b) =>
      WidthOfFixed(a);
      var n := |Positions(a)|;
      CatFixedFront(a, b, s);
      if n <= |s| {
        FixedMatches(a, s[..n]);
        FixedMatches(b, s[n..]);
        FitsConcat(s, Positions(a), Positions(b));
      }
  }

  /** A string fits two layouts in a row exactly when its two pieces fit them. */
  lemma FitsConcat(s: string, front: seq<CharClass>, back: seq<CharClass>)
    requires |front| <= |s|
    ensures Fits(s, front + back) <==> Fits(s[..|front|], front) && Fits(s[|front|..], back)
  {
    var n := |front|;
    var layout := front + back;
    if Fits(s, layout) {
      assert forall i :: 0 <= i < n ==> s[..n][i] == s[i] && layout[i] == front[i];
      assert forall i :: 0 <= i < |s| - n ==> s[n..][i] == s[n + i] && layout[n + i] == back[i];
    }
    if Fits(s[..n], front) && Fits(s[n..], back) {
      forall i | 0 <= i < |s| ensures layout[i].Has(s[i]) {
        if i < n {
          assert s[..n][i] == s[i];
        } else {
          assert s[n..][i - n] == s[i];
        }
      }
    }
  }

  // ---------------------------------------------------------------------
  // Counting the characters of a class in a match
  // ---------------------------------------------------------------------

  /** The number of characters of `s` in the class. */
  function Count(cc: CharClass, s: string): nat
    decreases |s|
  {
    if s == [] then 0 else (if cc.Has(s[0]) then 1 else 0) + Count(cc, s[1..])
  }

  lemma {:induction false} CountConcat(cc: CharClass, s: string, t: string)
    ensures Count(cc, s + t) == Count(cc, s) + Count(cc, t)
    decreases |s|
  {
    if s == [] {
      assert s + t == t;
    } else {
      var st := s + t;
      assert st[0] == s[0] && st[1..] == s[1..] + t;
      CountConcat(cc, s[1..], t);
    }
  }

  /** Cutting a string anywhere splits its count in two. */
  lemma CountCut(cc: CharClass, s: string, n: nat)
    requires n <= |s|
    ensures Count(cc, s) == Count(cc, s[..n]) + Count(cc, s[n..])
  {
    assert s == s[..n] + s[n..];
    CountConcat(cc, s[..n], s[n..]);
  }

  /** Keeping only the class characters keeps `Count` of them. */
  lemma {:induction false} CountIsKept(cc: CharClass, s: string)
    ensures |RemoveAll(Not(cc), s)| == Count(cc, s)
    decreases |s|
  {
    if s != [] {
      CountIsKept(cc, s[1..]);
    }
  }

  /** An infix has no more class characters than the whole string. */
  lemma CountOfInfix(cc: CharClass, s: string, i: nat, j: nat)
    requires i <= j <= |s|
    ensures Count(cc, s[i..j]) <= Count(cc, s)
  {
    assert s == s[..i] + s[i..j] + s[j..];
    CountConcat(cc, s[..i] + s[i..j], s[j..]);
    CountConcat(cc, s[..i], s[i..j]);
  }

  /**
   * A sufficient, syntactic test that no character is in both classes; `cc`
   * is a range or a single character.
   */
  predicate Disjoint(k: CharClass, cc: CharClass) {
    match k
    case Single(c) => !cc.Has(c)
    case Range(lo, hi) =>
      (cc.Range? && (hi < cc.lo || cc.hi < lo)) || (cc.Single? && !(lo <= cc.c <= hi))
    case AnyOf(chars) => forall i :: 0 <= i < |chars| ==> !cc.Has(chars[i])
    case Space =>
      (cc.Range? && ((cc.hi < '\t') || (' ' < cc.lo && cc.hi < '\U{00A0}'))) || (cc.Single? && !IsWhitespace(cc.c))
    case Union(a, b) => Disjoint(a, cc) && Disjoint(b, cc)
    case Not(_) => false
  }

  lemma {:induction false} DisjointSound(k: CharClass, cc: CharClass, x: char)
    requires Disjoint(k, cc) && k.Has(x)
    ensures !cc.Has(x)
  {
    match k
    case Single(_) =>
    case Range(_, _) =>
    case AnyOf(chars) =>
      var i :| 0 <= i < |chars| && chars[i] == x;
    case Space =>
    case Union(a, b) =>
      if a.Has(x) { DisjointSound(a, cc, x); } else { DisjointSound(b, cc, x); }
  }

  /** How many characters of `cc` every match of `r` holds, when that number is fixed. */
  function CountIn(cc: CharClass, r: Re): Option<nat> {
    match r
    case Empty => Some(0)
    case Class(k) => if k == cc then Some(1) else if Disjoint(k, cc) then Some(0) else None
    case Cat(a, b) =>
      if CountIn(cc, a).Some? && CountIn(cc, b).Some? then Some(CountIn(cc, a).value + CountIn(cc, b).value) else None
    case Alt(a, b) => if CountIn(cc, a) == CountIn(cc, b) then CountIn(cc, a) else None
    case Star(a) => if CountIn(cc, a) == Some(0) then Some(0) else None
  }

  /** Every match of `r` holds exactly `CountIn(cc, r)` characters of `cc`. */
  lemma {:induction false} CountOfMatch(cc: CharClass, r: Re, s: string)
    requires CountIn(cc, r).Some? && Matches(r, s)
    ensures Count(cc, s) == CountIn(cc, r).value
    decreases r, |s|
  {
    match r
    case Empty =>
    case Class(k) =>
      assert s == [s[0]];
      if k != cc { DisjointSound(k, cc, s[0]); }
    case Cat(a, b) =>
      var n :| 0 <= n <= |s| && Matches(a, s[..n]) && Matches(b, s[n..]);
      CountOfMatch(cc, a, s[..n]);
      CountOfMatch(cc, b, s[n..]);
      CountCut(cc, s, n);
    case Alt(a, b) =>
      if Matches(a, s) { CountOfMatch(cc, a, s); } else { CountOfMatch(cc, b, s); }
    case Star(a) =>
      if s != [] {
        var n :| 1 <= n <= |s| && Matches(a, s[..n]) && Matches(r, s[n..]);
        CountOfMatch(cc, a, s[..n]);
        CountOfMatch(cc, r, s[n..]);
        CountCut(cc, s, n);
      }
  }

  /** The first character of a non-empty string and the rest. */
  lemma AllInCons(cc: CharClass, s: string)
    requires |s| > 0
    ensures AllIn(cc, s) <==> cc.Has(s[0]) && AllIn(cc, s[1..])
  {
    if cc.Has(s[0]) && AllIn(cc, s[1..]) {
      forall i | 1 <= i < |s| ensures cc.Has(s[i]) {
        assert s[i] == s[1..][i - 1];
      }
    }
  }

  /** `RemoveAll(cc, s)` is the subsequence of `s` made of exactly its characters outside `cc`. */
  lemma Filtered(cc: CharClass, s: string)
    ensures IsSubsequence(RemoveAll(cc, s), s)
    ensures forall c :: !cc.Has(c) ==> multiset(RemoveAll(cc, s))[c] == multiset(s)[c]
    ensures forall c :: cc.Has(c) ==> c !in RemoveAll(cc, s)
  {
    RemoveAllKeepsOrder(cc, s);
    RemoveAllKeepsOthers(cc, s);
  }

  /** The named classes spelled out character by character. */
  lemma NamedClasses()
    ensures forall c :: Letter.Has(c) <==> 'a' <= c <= 'z' || 'A' <= c <= 'Z'
    ensures forall c :: AlphaNumeric.Has(c) <==> '0' <= c <= '9' || 'a' <= c <= 'z' || 'A' <= c <= 'Z'
    ensures forall c :: WordChar.Has(c) <==> '0' <= c <= '9' || 'a' <= c <= 'z' || 'A' <= c <= 'Z' || c == '_'
    ensures forall c :: HexDigit.Has(c) <==> '0' <= c <= '9' || 'a' <= c <= 'f' || 'A' <= c <= 'F'
  {
    forall c ensures Letter.Has(c) <==> 'a' <= c <= 'z' || 'A' <= c <= 'Z' {
      assert Letter.Has(c) == (Lower.Has(c) || Upper.Has(c));
    }
    forall c ensures AlphaNumeric.Has(c) <==> '0' <= c <= '9' || 'a' <= c <= 'z' || 'A' <= c <= 'Z' {
      assert AlphaNumeric.Has(c) == (Letter.Has(c) || Digit.Has(c));
    }
    forall c ensures WordChar.Has(c) <==> '0' <= c <= '9' || 'a' <= c <= 'z' || 'A' <= c <= 'Z' || c == '_' {
      assert WordChar.Has(c) == (AlphaNumeric.Has(c) || Single('_').Has(c));
    }
    forall c ensures HexDigit.Has(c) <==> '0' <= c <= '9' || 'a' <= c <= 'f' || 'A' <= c <= 'F' {
      assert HexDigit.Has(c) == (Digit.Has(c) || Union(Range('a', 'f'), Range('A', 'F')).Has(c));
      assert Union(Range('a', 'f'), Range('A', 'F')).Has(c) == (Range('a', 'f').Has(c) || Range('A', 'F').Has(c));
    }
  }

  /** A class holds every character of a string when it holds every member. */
  lemma AllInByMembers(cc: CharClass, s: string)
    requires forall c :: c in s ==> cc.Has(c)
    ensures AllIn(cc, s)
  {
    forall i | 0 <= i < |s| ensures cc.Has(s[i]) {
      assert s[i] in s;
    }
  }

  /** An optional leading class character: either absent, or the first character. */
  lemma CatOptClassFront(cc: CharClass, b: Re, s: string)
    ensures Matches(Cat(Opt(Class(cc)), b), s) <==>
      Matches(b, s) || (|s| > 0 && cc.Has(s[0]) && Matches(b, s[1..]))
  {
    var o := Opt(Class(cc));
    if Matches(Cat(o, b), s) {
      OptClassSplit(cc, b, s);
    }
    if Matches(b, s) {
      assert Matches(Empty, []);
      CatIntro(o, b, [], s);
      assert [] + s == s;
    }
    if |s| > 0 && cc.Has(s[0]) && Matches(b, s[1..]) {
      assert Matches(Class(cc), [s[0]]);
      CatIntro(o, b, [s[0]], s[1..]);
      assert [s[0]] + s[1..] == s;
    }
  }

  /** A match of `[cc]?b` is a match of `b`, or a class character followed by one. */
  lemma OptClassSplit(cc: CharClass, b: Re, s: string)
    requires Matches(Cat(Opt(Class(cc)), b), s)
    ensures Matches(b, s) || (|s| > 0 && cc.Has(s[0]) && Matches(b, s[1..]))
  {
    var k :| 0 <= k <= |s| && Matches(Opt(Class(cc)), s[..k]) && Matches(b, s[k..]);
    if Matches(Empty, s[..k]) {
      assert s[k..] == s;
    } else {
      assert Matches(Class(cc), s[..k]);
      assert s[..k][0] == s[0];
    }
  }

  /** An optional tail: `a` alone, or `a` followed by `b`. */
  lemma CatOptBack(a: Re, b: Re, s: string)
    ensures Matches(Cat(a, Opt(b)), s) <==> Matches(a, s) || Matches(Cat(a, b), s)
  {
    if Matches(Cat(a, Opt(b)), s) {
      var k :| 0 <= k <= |s| && Matches(a, s[..k]) && Matches(Opt(b), s[k..]);
      assert Matches(b, s[k..]) || Matches(Empty, s[k..]);
      if !Matches(b, s[k..]) {
        assert k == |s| && s[..k] == s;
      }
    }
    if Matches(a, s) {
      assert Matches(Empty, s[|s|..]);
      assert s[..|s|] == s && Matches(Opt(b), s[|s|..]);
    }
  }

  /**
   * A run of class characters followed by the literal `c`: the run is the
   * non-empty prefix before some occurrence of `c`.
   */
  lemma PlusClassThenLit(cc: CharClass, c: char, r: Re, s: string)
    ensures Matches(Cat(Plus(Class(cc)), Cat(Lit(c), r)), s) <==>
      exists k :: 0 < k < |s| && s[k] == c && AllIn(cc, s[..k]) && Matches(r, s[k + 1..])
  {
    if Matches(Cat(Plus(Class(cc)), Cat(Lit(c), r)), s) {
      var k :| 0 <= k <= |s| && Matches(Plus(Class(cc)), s[..k]) && Matches(Cat(Lit(c), r), s[k..]);
      PlusClassThenLitSplit(cc, c, r, s, k);
    }
    if exists k :: 0 < k < |s| && s[k] == c && AllIn(cc, s[..k]) && Matches(r, s[k + 1..]) {
      var k :| 0 < k < |s| && s[k] == c && AllIn(cc, s[..k]) && Matches(r, s[k + 1..]);
      PlusClassThenLitJoin(cc, c, r, s, k);
    }
  }

  lemma PlusClassThenLitSplit(cc: CharClass, c: char, r: Re, s: string, k: nat)
    requires k <= |s| && Matches(Plus(Class(cc)), s[..k]) && Matches(Cat(Lit(c), r), s[k..])
    ensures 0 < k < |s| && s[k] == c && AllIn(cc, s[..k]) && Matches(r, s[k + 1..])
  {
    PlusClass(cc, s[..k]);
    CatFixedFront(Lit(c), r, s[k..]);
    assert s[k..][..1][0] == s[k] && s[k..][1..] == s[k + 1..];
  }

  lemma PlusClassThenLitJoin(cc: CharClass, c: char, r: Re, s: string, k: nat)
    requires 0 < k < |s| && s[k] == c && AllIn(cc, s[..k]) && Matches(r, s[k + 1..])
    ensures Matches(Cat(Plus(Class(cc)), Cat(Lit(c), r)), s)
  {
    PlusClass(cc, s[..k]);
    CatFixedFront(Lit(c), r, s[k..]);
    assert s[k..][..1] == [c] && s[k..][1..] == s[k + 1..];
    CatIntro(Plus(Class(cc)), Cat(Lit(c), r), s[..k], s[k..]);
    assert s[..k] + s[k..] == s;
  }

  /** A string is drawn from a class exactly when both sides of any cut are. */
  lemma AllInCut(cc: CharClass, s: string, k: nat)
    requires k <= |s|
    ensures AllIn(cc, s) <==> AllIn(cc, s[..k]) && AllIn(cc, s[k..])
  {
    if AllIn(cc, s[..k]) && AllIn(cc, s[k..]) {
      forall i | 0 <= i < |s| ensures cc.Has(s[i]) {
        if i < k { assert s[..k][i] == s[i]; } else { assert s[k..][i - k] == s[i]; }
      }
    }
  }

  /** Splitting a class membership test at position `j`. */
  lemma AllInSplit(cc: CharClass, s: string, j: int)
    requires 0 <= j < |s|
    ensures AllIn(cc, s) <==> AllIn(cc, s[..j]) && cc.Has(s[j]) && AllIn(cc, s[j + 1..])
  {
    if AllIn(cc, s[..j]) && cc.Has(s[j]) && AllIn(cc, s[j + 1..]) {
      forall i | 0 <= i < |s| ensures cc.Has(s[i]) {
        if i < j {
          assert s[..j][i] == s[i];
        } else if i > j {
          assert s[j + 1..][i - j - 1] == s[i];
        }
      }
    }
  }

  /**
   * `x+cx+` over a class that contains `c`: all characters in the class,
   * and `c` somewhere strictly inside.
   */
  lemma PlusLitPlus(cc: CharClass, c: char, s: string)
    requires cc.Has(c)
    ensures Matches(Cat(Plus(Class(cc)), Cat(Lit(c), Plus(Class(cc)))), s) <==>
      AllIn(cc, s) && exists j :: 0 < j < |s| - 1 && s[j] == c
  {
    PlusClassThenLit(cc, c, Plus(Class(cc)), s);
    if Matches(Cat(Plus(Class(cc)), Cat(Lit(c), Plus(Class(cc)))), s) {
      var k :| 0 < k < |s| && s[k] == c && AllIn(cc, s[..k]) && Matches(Plus(Class(cc)), s[k + 1..]);
      PlusClass(cc, s[k + 1..]);
      AllInSplit(cc, s, k);
    }
    if AllIn(cc, s) && exists j :: 0 < j < |s| - 1 && s[j] == c {
      var j :| 0 < j < |s| - 1 && s[j] == c;
      AllInSplit(cc, s, j);
      PlusClass(cc, s[j + 1..]);
    }
  }

  /** `x+(cx*)?`: characters of the class, optionally split once by `c` after the first. */
  lemma PlusThenOptLitStar(cc: CharClass, c: char, s: string)
    ensures Matches(Cat(Plus(Class(cc)), Opt(Cat(Lit(c), Star(Class(cc))))), s) <==>
      (|s| > 0 && AllIn(cc, s)) ||
      exists k :: 0 < k < |s| && s[k] == c && AllIn(cc, s[..k]) && AllIn(cc, s[k + 1..])
  {
    var x := Class(cc);
    CatOptBack(Plus(x), Cat(Lit(c), Star(x)), s);
    PlusClass(cc, s);
    PlusClassThenLit(cc, c, Star(x), s);
    if exists k :: 0 < k < |s| && s[k] == c && AllIn(cc, s[..k]) && Matches(Star(x), s[k + 1..]) {
      var k :| 0 < k < |s| && s[k] == c && AllIn(cc, s[..k]) && Matches(Star(x), s[k + 1..]);
      StarClass(cc, s[k + 1..]);
    }
    if exists k :: 0 < k < |s| && s[k] == c && AllIn(cc, s[..k]) && AllIn(cc, s[k + 1..]) {
      var k :| 0 < k < |s| && s[k] == c && AllIn(cc, s[..k]) && AllIn(cc, s[k + 1..]);
      StarClass(cc, s[k + 1..]);
    }
  }

  /** `cx+`: the character `c` followed by at least one character of the class. */
  lemma LitThenPlus(cc: CharClass, c: char, s: string)
    ensures Matches(Cat(Lit(c), Plus(Class(cc))), s) <==> |s| > 1 && s[0] == c && AllIn(cc, s[1..])
  {
    CatFixedFront(Lit(c), Plus(Class(cc)), s);
    if |s| > 0 {
      PlusClass(cc, s[1..]);
      assert Matches(Lit(c), s[..1]) <==> s[0] == c by {
        assert s[..1] == [s[0]];
      }
    }
  }

  /** `[cc]?` matches the empty string or one character of the class. */
  lemma OptClassMeaning(cc: CharClass, x: string)
    ensures Matches(Opt(Class(cc)), x) <==> |x| <= 1 && AllIn(cc, x)
  {
    assert Matches(Opt(Class(cc)), x) == (Matches(Class(cc), x) || Matches(Empty, x));
  }

  /** Some suffix of `s` matches `r`. */
  predicate EndsWithMatch(r: Re, s: string) {
    exists k :: 0 <= k <= |s| && Matches(r, s[k..])
  }

  /** Whatever ends with a match of `ab` ends with a match of `b`. */
  lemma SuffixOfCat(a: Re, b: Re, s: string)
    requires EndsWithMatch(Cat(a, b), s)
    ensures EndsWithMatch(b, s)
  {
    var k :| 0 <= k <= |s| && Matches(Cat(a, b), s[k..]);
    var t := s[k..];
    var j :| 0 <= j <= |t| && Matches(a, t[..j]) && Matches(b, t[j..]);
    assert t[j..] == s[k + j..];
  }

  /** A string holds at most as many class characters as it has characters. */
  lemma {:induction false} CountAtMost(cc: CharClass, s: string)
    ensures Count(cc, s) <= |s|
    ensures (forall i :: 0 <= i < |s| ==> !cc.Has(s[i])) ==> Count(cc, s) == 0
    decreases |s|
  {
    if s != [] {
      CountAtMost(cc, s[1..]);
      assert forall i :: 1 <= i < |s| ==> s[1..][i - 1] == s[i];
    }
  }

  /** A repetition admits only what its body admits. */
  lemma {:induction false} AdmitsRep(r: Re, n: nat, c: char)
    ensures Admits(Rep(r, n), c) ==> Admits(r, c)
  {
    if n > 0 {
      AdmitsRep(r, n - 1, c);
    }
  }

  /** A match of `ab` is a match of `a` followed by a match of `b`. */
  lemma CatSplit(a: Re, b: Re, s: string)
    requires Matches(Cat(a, b), s)
    ensures exists x, y :: s == x + y && Matches(a, x) && Matches(b, y)
  {
    var k :| 0 <= k <= |s| && Matches(a, s[..k]) && Matches(b, s[k..]);
    assert s == s[..k] + s[k..];
  }

  /** A match of `[cc]?b`: at most one class character, then a match of `b`. */
  lemma OptClassCut(cc: CharClass, b: Re, s: string)
    requires Matches(Cat(Opt(Class(cc)), b), s)
    ensures exists x, y :: s == x + y && |x| <= 1 && AllIn(cc, x) && Matches(b, y)
  {
    CatSplit(Opt(Class(cc)), b, s);
    var x, y :| s == x + y && Matches(Opt(Class(cc)), x) && Matches(b, y);
    OptClassMeaning(cc, x);
  }

  /** A match of `c?b`: nothing or `c`, then a match of `b`. */
  lemma OptLitCut(c: char, b: Re, s: string)
    requires Matches(Cat(Opt(Lit(c)), b), s)
    ensures exists x, y :: s == x + y && (x == [] || x == [c]) && Matches(b, y)
  {
    CatSplit(Opt(Lit(c)), b, s);
    var x, y :| s == x + y && Matches(Opt(Lit(c)), x) && Matches(b, y);
    OptLitMeaning(c, x);
  }

  /** A match of `[cc]{n}b`: `n` class characters, then a match of `b`. */
  lemma RepClassCut(cc: CharClass, n: nat, b: Re, s: string)
    requires Matches(Cat(Rep(Class(cc), n), b), s)
    ensures exists x, y :: s == x + y && |x| == n && AllIn(cc, x) && Matches(b, y)
  {
    CatSplit(Rep(Class(cc), n), b, s);
    var x, y :| s == x + y && Matches(Rep(Class(cc), n), x) && Matches(b, y);
    RepClass(cc, n, x);
  }

  /** `c?` matches the empty string and the one-character string `c`, and nothing else. */
  lemma OptLitMeaning(c: char, x: string)
    ensures Matches(Opt(Lit(c)), x) <==> x == [] || x == [c]
  {
    OptClassMeaning(Single(c), x);
    if |x| == 1 {
      assert x == [x[0]];
    }
  }

  /** A string none of whose characters is in the class has none of them to count. */
  lemma CountNoneByMembers(cc: CharClass, s: string)
    requires forall c :: c in s ==> !cc.Has(c)
    ensures Count(cc, s) == 0
  {
    forall i | 0 <= i < |s| ensures !cc.Has(s[i]) {
      assert s[i] in s;
    }
    CountAtMost(cc, s);
  }

  /** A leading class character: the first character is in the class and `b` matches the rest. */
  lemma ClassThen(cc: CharClass, b: Re, s: string)
    ensures Matches(Cat(Class(cc), b), s) <==> |s| > 0 && cc.Has(s[0]) && Matches(b, s[1..])
  {
    CatFixedFront(Class(cc), b, s);
  }

  /** An optional class character can never be present in a string with none of its characters. */
  lemma OptClassAbsent(cc: CharClass, b: Re, s: string)
    requires forall i :: 0 <= i < |s| ==> !cc.Has(s[i])
    ensures Matches(Cat(Opt(Class(cc)), b), s) <==> Matches(b, s)
  {
    CatOptClassFront(cc, b, s);
  }

  /** `[cc]{m}c[cc]{n}`: m class characters, the literal `c`, n class characters. */
  lemma RepLitRep(cc: CharClass, m: nat, c: char, n: nat, s: string)
    ensures Matches(Cat(Rep(Class(cc), m), Cat(Lit(c), Rep(Class(cc), n))), s) <==>
      |s| == m + 1 + n && AllIn(cc, s[..m]) && s[m] == c && AllIn(cc, s[m + 1..])
  {
    WidthOfRep(Class(cc), m);
    CatFixedFront(Rep(Class(cc), m), Cat(Lit(c), Rep(Class(cc), n)), s);
    if m <= |s| {
      RepClass(cc, m, s[..m]);
      ClassThen(Single(c), Rep(Class(cc), n), s[m..]);
      if m < |s| {
        assert s[m..][1..] == s[m + 1..];
        RepClass(cc, n, s[m + 1..]);
      }
    }
  }

  /** Under the `i` flag a character matches `c`, not an upper-case letter, when it lower-cases to `c`. */
  lemma LitIHas(c: char, x: char)
    requires !('A' <= c <= 'Z')
    ensures Matches(LitI(c), [x]) <==> LowerChar(x) == c
  {
    var cc := Union(Single(LowerChar(c)), Single(UpperChar(c)));
    assert LitI(c) == Class(cc);
    assert [x][0] == x;
    assert Matches(LitI(c), [x]) <==> cc.Has(x);
    assert LowerChar(c) == c;
    if 'a' <= c <= 'z' {
      assert LowerChar(UpperChar(c)) == c;
      if LowerChar(x) == c && 'A' <= x <= 'Z' {
        assert x as int == UpperChar(c) as int;
        assert x == UpperChar(c);
        assert cc.Has(x);
      } else if 'A' <= x <= 'Z' {
        assert x != c && x != UpperChar(c);
        assert !cc.Has(x);
      } else {
        assert LowerChar(x) == x && x != UpperChar(c);
        assert cc.Has(x) <==> x == c;
        assert (LowerChar(x) == c) <==> x == c;
      }
    } else {
      assert LowerChar(c) == c && UpperChar(c) == c;
      if 'A' <= x <= 'Z' {
        assert 'a' <= LowerChar(x) <= 'z';
        assert LowerChar(x) != c && x != c;
        assert !cc.Has(x);
      } else {
        assert LowerChar(x) == x;
        assert cc.Has(x) <==> x == c;
      }
    }
  }

  /** Under the `i` flag a text without upper-case letters matches what lower-cases to it. */
  lemma {:induction false} WordIMatches(w: string, s: string)
    requires forall i :: 0 <= i < |w| ==> !('A' <= w[i] <= 'Z')
    ensures Matches(WordI(w), s) <==> ToLowerCase(s) == w
    decreases |w|
  {
    if w != [] {
      CatFixedFront(LitI(w[0]), WordI(w[1..]), s);
      if |s| > 0 {
        LitIHas(w[0], s[0]);
        assert s[..1] == [s[0]];
        WordIMatches(w[1..], s[1..]);
        assert ToLowerCase(s) == [LowerChar(s[0])] + ToLowerCase(s[1..]);
        assert w == [w[0]] + w[1..];
      }
    }
  }

  /** `[cc]{m,n}` followed by `r`: a run of m to n class characters, then a match of `r`. */
  lemma BoundedRunThen(cc: CharClass, m: nat, n: nat, r: Re, s: string)
    requires m <= n
    ensures Matches(Cat(Between(Class(cc), m, n), r), s) <==>
      exists k :: m <= k <= n && k <= |s| && AllIn(cc, s[..k]) && Matches(r, s[k..])
  {
    if Matches(Cat(Between(Class(cc), m, n), r), s) {
      var k :| 0 <= k <= |s| && Matches(Between(Class(cc), m, n), s[..k]) && Matches(r, s[k..]);
      BetweenClass(cc, m, n, s[..k]);
    }
    if exists k :: m <= k <= n && k <= |s| && AllIn(cc, s[..k]) && Matches(r, s[k..]) {
      var k :| m <= k <= n && k <= |s| && AllIn(cc, s[..k]) && Matches(r, s[k..]);
      BetweenClass(cc, m, n, s[..k]);
    }
  }

  /** `[cc]*` followed by `r`: a run of class characters, then a match of `r`. */
  lemma StarRunThen(cc: CharClass, r: Re, y: string)
    ensures Matches(Cat(Star(Class(cc)), r), y) <==>
      exists k :: 0 <= k <= |y| && AllIn(cc, y[..k]) && Matches(r, y[k..])
  {
    if Matches(Cat(Star(Class(cc)), r), y) {
      var k :| 0 <= k <= |y| && Matches(Star(Class(cc)), y[..k]) && Matches(r, y[k..]);
      StarClass(cc, y[..k]);
    }
    if exists k :: 0 <= k <= |y| && AllIn(cc, y[..k]) && Matches(r, y[k..]) {
      var k :| 0 <= k <= |y| && AllIn(cc, y[..k]) && Matches(r, y[k..]);
      StarClass(cc, y[..k]);
    }
  }

  /** `a` and `b` around the literal `c`: the string splits at some `c`. */
  lemma AroundLit(a: Re, c: char, b: Re, t: string)
    ensures Matches(Cat(a, Cat(Lit(c), b)), t) <==>
      exists k :: 0 <= k < |t| && t[k] == c && Matches(a, t[..k]) && Matches(b, t[k + 1..])
  {
    if Matches(Cat(a, Cat(Lit(c), b)), t) {
      AroundLitForward(a, c, b, t);
    }
    if exists k :: 0 <= k < |t| && t[k] == c && Matches(a, t[..k]) && Matches(b, t[k + 1..]) {
      var k :| 0 <= k < |t| && t[k] == c && Matches(a, t[..k]) && Matches(b, t[k + 1..]);
      AroundLitJoin(a, c, b, t, k);
    }
  }

  lemma AroundLitForward(a: Re, c: char, b: Re, t: string)
    requires Matches(Cat(a, Cat(Lit(c), b)), t)
    ensures exists k :: 0 <= k < |t| && t[k] == c && Matches(a, t[..k]) && Matches(b, t[k + 1..])
  {
    var k :| 0 <= k <= |t| && Matches(a, t[..k]) && Matches(Cat(Lit(c), b), t[k..]);
    AroundLitSplit(c, b, t, k);
  }

  lemma AroundLitSplit(c: char, b: Re, t: string, k: nat)
    requires k <= |t| && Matches(Cat(Lit(c), b), t[k..])
    ensures k < |t| && t[k] == c && Matches(b, t[k + 1..])
  {
    CatFixedFront(Lit(c), b, t[k..]);
    assert t[k..][..1][0] == t[k] && t[k..][1..] == t[k + 1..];
  }

  /** Matches of `a` before and `b` after an occurrence of `c` make a match of `a c b`. */
  lemma AroundLitJoin(a: Re, c: char, b: Re, t: string, k: nat)
    requires k < |t| && t[k] == c && Matches(a, t[..k]) && Matches(b, t[k + 1..])
    ensures Matches(Cat(a, Cat(Lit(c), b)), t)
  {
    var u := t[k..];
    assert u[..1] == [c] && u[1..] == t[k + 1..];
    assert Matches(Lit(c), u[..1]);
    CatJoin(Lit(c), b, u, 1);
    CatJoin(a, Cat(Lit(c), b), t, k);
  }

  /** `[cc]+` followed by `r`: a non-empty run of class characters, then a match of `r`. */
  lemma PlusRunThen(cc: CharClass, r: Re, y: string)
    ensures Matches(Cat(Plus(Class(cc)), r), y) <==>
      exists k :: 1 <= k <= |y| && AllIn(cc, y[..k]) && Matches(r, y[k..])
  {
    if Matches(Cat(Plus(Class(cc)), r), y) {
      var k :| 0 <= k <= |y| && Matches(Plus(Class(cc)), y[..k]) && Matches(r, y[k..]);
      PlusClass(cc, y[..k]);
    }
    if exists k :: 1 <= k <= |y| && AllIn(cc, y[..k]) && Matches(r, y[k..]) {
      var k :| 1 <= k <= |y| && AllIn(cc, y[..k]) && Matches(r, y[k..]);
      PlusClass(cc, y[..k]);
    }
  }

  /**
   * A non-empty run of `\s` followed by a string of kind `solid`, which never
   * starts with white space: the string starts with white space and
   * `trimStart` leaves a string of that kind.
   */
  lemma SpaceRunThen(y: string, solid: string -> bool)
    requires forall x :: solid(x) ==> |x| > 0 && !IsWhitespace(x[0])
    ensures (exists k :: 1 <= k <= |y| && AllIn(Space, y[..k]) && solid(y[k..])) <==>
      |y| > 0 && IsWhitespace(y[0]) && solid(TrimStart(y))
  {
    if exists k :: 1 <= k <= |y| && AllIn(Space, y[..k]) && solid(y[k..]) {
      var k :| 1 <= k <= |y| && AllIn(Space, y[..k]) && solid(y[k..]);
      SpaceRunCut(y, k);
    }
    if |y| > 0 && IsWhitespace(y[0]) && solid(TrimStart(y)) {
      SpaceRunFound(y, solid);
    }
  }

  /** Where `trimStart` stops is the end of a non-empty run of `\s`. */
  lemma SpaceRunFound(y: string, solid: string -> bool)
    requires forall x :: solid(x) ==> |x| > 0 && !IsWhitespace(x[0])
    requires |y| > 0 && IsWhitespace(y[0]) && solid(TrimStart(y))
    ensures exists k :: 1 <= k <= |y| && AllIn(Space, y[..k]) && solid(y[k..])
  {
    var t := TrimStart(y);
    var k := |y| - |t|;
    assert y[k..] == t;
    assert t[0] == y[k];
    assert AllIn(Space, y[..k]);
  }

  /** A non-empty run of white space before a character that is not: `trimStart` drops the run. */
  lemma SpaceRunCut(y: string, k: nat)
    requires 1 <= k < |y| && AllIn(Space, y[..k]) && !IsWhitespace(y[k])
    ensures IsWhitespace(y[0]) && TrimStart(y) == y[k..]
  {
    assert y[..k][0] == y[0];
    TrimStartAt(y, k);
  }

}
