/** The few `java.lang.String` operations the change extraction relies on,
    with Java's exact semantics. A `char` here is a Unicode code point where
    Java has a UTF-16 code unit; the two agree on every text without
    characters outside the Basic Multilingual Plane. */
module JavaText {

  // ---------------------------------------------------------------------------
  // trim()
  // ---------------------------------------------------------------------------

  /** `String.trim()` strips every character whose value is at most U+0020. */
  predicate IsBlank(c: char) {
    c <= ' '
  }

  ghost predicate AllBlank(s: string) {
    forall i :: 0 <= i < |s| ==> IsBlank(s[i])
  }

  function TrimStart(s: string): string {
    if s == [] || !IsBlank(s[0]) then s else TrimStart(s[1..])
  }

  function TrimEnd(s: string): string {
    if s == [] || !IsBlank(s[|s| - 1]) then s else TrimEnd(s[..|s| - 1])
  }

  /** `String.trim()`. */
  function Trim(s: string): string {
    TrimEnd(TrimStart(s))
  }

  lemma {:induction false} TrimStartFacts(s: string)
    ensures var r := TrimStart(s);
            |r| <= |s| && r == s[|s| - |r|..] && AllBlank(s[..|s| - |r|]) && (r == [] || !IsBlank(r[0]))
  {
    if s != [] && IsBlank(s[0]) {
      var rest := s[1..];
      TrimStartFacts(rest);
      var r := TrimStart(rest);
      assert s[|s| - |r|..] == rest[|rest| - |r|..];
      assert s[..|s| - |r|] == [s[0]] + rest[..|rest| - |r|];
    }
  }

  lemma {:induction false} TrimEndFacts(s: string)
    ensures var r := TrimEnd(s);
            |r| <= |s| && r == s[..|r|] && AllBlank(s[|r|..]) && (r == [] || !IsBlank(r[|r| - 1]))
  {
    if s != [] && IsBlank(s[|s| - 1]) {
      var init := s[..|s| - 1];
      TrimEndFacts(init);
      var r := TrimEnd(init);
      assert init[..|r|] == s[..|r|];
      assert s[|r|..] == init[|r|..] + [s[|s| - 1]];
    }
  }

  /** The trim is empty exactly when the input is blank throughout, and
      otherwise neither of its ends is blank. */
  lemma TrimFacts(s: string)
    ensures Trim(s) == [] <==> AllBlank(s)
    ensures Trim(s) != [] ==> !IsBlank(Trim(s)[0]) && !IsBlank(Trim(s)[|Trim(s)| - 1])
  {
    var front := TrimStart(s);
    TrimStartFacts(s);
    TrimEndFacts(front);
    if TrimEnd(front) != [] {
      assert front[0] == TrimEnd(front)[0];
    }
  }

  /** Text without blank ends is its own trim. */
  lemma TrimUnpadded(s: string)
    requires s == [] || (!IsBlank(s[0]) && !IsBlank(s[|s| - 1]))
    ensures Trim(s) == s
  {
  }

  /** Trimming twice is trimming once. */
  lemma TrimIdempotent(s: string)
    ensures Trim(Trim(s)) == Trim(s)
  {
    TrimFacts(s);
    TrimUnpadded(Trim(s));
  }

  // ---------------------------------------------------------------------------
  // startsWith, endsWith, contains
  // ---------------------------------------------------------------------------

  predicate StartsWith(s: string, prefix: string) {
    |prefix| <= |s| && s[..|prefix|] == prefix
  }

  predicate EndsWith(s: string, suffix: string) {
    |suffix| <= |s| && s[|s| - |suffix|..] == suffix
  }

  /** `t` occurs in `s` starting at index `i`. */
  ghost predicate OccursAt(s: string, t: string, i: int) {
    0 <= i && i + |t| <= |s| && s[i..i + |t|] == t
  }

  /** `t` occurs somewhere in `s`. */
  ghost predicate Occurs(s: string, t: string) {
    exists i :: OccursAt(s, t, i)
  }

  /** `String.contains`, scanning from the left. */
  function Contains(s: string, t: string): bool
    decreases |s|
  {
    StartsWith(s, t) || (s != [] && Contains(s[1..], t))
  }

  /** What the scan finds is an occurrence. */
  lemma {:induction false} ContainsSound(s: string, t: string)
    requires Contains(s, t)
    ensures Occurs(s, t)
    decreases |s|
  {
    if StartsWith(s, t) {
      assert OccursAt(s, t, 0);
    } else {
      ContainsSound(s[1..], t);
      var i :| OccursAt(s[1..], t, i);
      assert s[i + 1..i + 1 + |t|] == s[1..][i..i + |t|];
      assert OccursAt(s, t, i + 1);
    }
  }

  /** The scan finds every occurrence. */
  lemma {:induction false} ContainsComplete(s: string, t: string, i: int)
    requires OccursAt(s, t, i)
    ensures Contains(s, t)
    decreases i
  {
    if i == 0 {
      assert StartsWith(s, t);
    } else {
      assert s[1..][i - 1..i - 1 + |t|] == s[i..i + |t|];
      ContainsComplete(s[1..], t, i - 1);
    }
  }

  /** The scan agrees with the definition of a substring occurrence. */
  lemma ContainsIff(s: string, t: string)
    ensures Contains(s, t) <==> Occurs(s, t)
  {
    if Contains(s, t) {
      ContainsSound(s, t);
    }
    if Occurs(s, t) {
      var i :| OccursAt(s, t, i);
      ContainsComplete(s, t, i);
    }
  }

  /** A string contains each of its suffixes. */
  lemma ContainsSuffix(s: string, t: string)
    requires EndsWith(s, t)
    ensures Contains(s, t)
  {
    ContainsIff(s, t);
    assert OccursAt(s, t, |s| - |t|);
  }

  // ---------------------------------------------------------------------------
  // indexOf, lastIndexOf, substring(lastIndexOf(..) + 1)
  // ---------------------------------------------------------------------------

  /** `String.indexOf(c)`: the first index holding `c`, or -1. */
  function IndexOf(s: string, c: char): (r: int)
    ensures -1 <= r < |s|
  {
    if s == [] then -1
    else if s[0] == c then 0
    else
      var i := IndexOf(s[1..], c);
      if i < 0 then -1 else i + 1
  }

  lemma {:induction false} IndexOfFacts(s: string, c: char)
    ensures var r := IndexOf(s, c);
            (r == -1 <==> c !in s) && (r >= 0 ==> s[r] == c && c !in s[..r])
  {
    if s != [] && s[0] != c {
      IndexOfFacts(s[1..], c);
      var i := IndexOf(s[1..], c);
      assert s == [s[0]] + s[1..];
      if i >= 0 {
        assert s[..i + 1] == [s[0]] + s[1..][..i];
      }
    }
  }

  /** Appending a character finds `c` at the same place, or at the new end
      when it is `c` and the prefix has none. */
  lemma {:induction false} IndexOfSnoc(s: string, x: char, c: char)
    ensures IndexOf(s + [x], c) == if IndexOf(s, c) >= 0 then IndexOf(s, c) else if x == c then |s| else -1
  {
    if s != [] && s[0] != c {
      IndexOfSnoc(s[1..], x, c);
      assert (s + [x])[1..] == s[1..] + [x];
    }
  }

  /** `String.lastIndexOf(c)`: the last index holding `c`, or -1. */
  function LastIndexOf(s: string, c: char): (r: int)
    ensures -1 <= r < |s|
  {
    if s == [] then -1
    else if s[|s| - 1] == c then |s| - 1
    else LastIndexOf(s[..|s| - 1], c)
  }

  lemma {:induction false} LastIndexOfFacts(s: string, c: char)
    ensures var r := LastIndexOf(s, c);
            (r == -1 <==> c !in s) && (r >= 0 ==> s[r] == c && c !in s[r + 1..])
  {
    if s != [] && s[|s| - 1] != c {
      LastIndexOfFacts(s[..|s| - 1], c);
      assert s == s[..|s| - 1] + [s[|s| - 1]];
    }
  }

  /** `path.substring(path.lastIndexOf("/") + 1)`: the text after the last
      slash, or the whole path when it has none. */
  function BaseName(path: string): (r: string)
    ensures '/' !in r && EndsWith(path, r)
    ensures r == path || path[|path| - |r| - 1] == '/'
  {
    LastIndexOfFacts(path, '/');
    path[LastIndexOf(path, '/') + 1..]
  }

  // ---------------------------------------------------------------------------
  // split
  // ---------------------------------------------------------------------------

  /** The number of occurrences of `c` in `s`. */
  function Count(s: string, c: char): nat {
    if s == [] then 0 else Count(s[..|s| - 1], c) + (if s[|s| - 1] == c then 1 else 0)
  }

  lemma {:induction false} CountZero(s: string, c: char)
    ensures Count(s, c) == 0 <==> c !in s
  {
    if s != [] {
      CountZero(s[..|s| - 1], c);
      assert s == s[..|s| - 1] + [s[|s| - 1]];
    }
  }

  /** Every piece between two separators, empty ones included, in order:
      what Java's `split` produces before it drops trailing empty pieces. */
  function Pieces(s: string, sep: char): (r: seq<string>)
    ensures r != []
  {
    if s == [] then [[]]
    else
      var p := Pieces(s[..|s| - 1], sep);
      if s[|s| - 1] == sep then p + [[]]
      else p[..|p| - 1] + [p[|p| - 1] + [s[|s| - 1]]]
  }

  /** One more piece than separators, and no piece holds a separator. */
  lemma {:induction false} PiecesFacts(s: string, sep: char)
    ensures |Pieces(s, sep)| == Count(s, sep) + 1
    ensures forall i :: 0 <= i < |Pieces(s, sep)| ==> sep !in Pieces(s, sep)[i]
  {
    if s != [] {
      PiecesFacts(s[..|s| - 1], sep);
    }
  }

  /** Glue pieces back together with the separator. */
  function Join(pieces: seq<string>, sep: char): string
    requires pieces != []
  {
    if |pieces| == 1 then pieces[0]
    else Join(pieces[..|pieces| - 1], sep) + [sep] + pieces[|pieces| - 1]
  }

  /** Splitting loses nothing: joining the pieces gives the input back. */
  lemma {:induction false} JoinPieces(s: string, sep: char)
    ensures Join(Pieces(s, sep), sep) == s
  {
    if s != [] {
      var init := s[..|s| - 1];
      var p := Pieces(init, sep);
      JoinPieces(init, sep);
      assert s == init + [s[|s| - 1]];
      if s[|s| - 1] == sep {
        assert (p + [[]])[..|p|] == p;
      } else if |p| > 1 {
        var q := p[..|p| - 1] + [p[|p| - 1] + [s[|s| - 1]]];
        assert q[..|q| - 1] == p[..|p| - 1];
      }
    }
  }

  /** A string without the separator is a single piece. */
  lemma PiecesWithoutSeparator(s: string, sep: char)
    requires sep !in s
    ensures Pieces(s, sep) == [s]
  {
    CountZero(s, sep);
    PiecesFacts(s, sep);
    JoinPieces(s, sep);
  }

  /** A separator followed by separator-free text adds that text as one
      more piece. */
  lemma {:induction false} PiecesAfterSeparator(a: string, b: string, sep: char)
    requires sep !in b
    ensures Pieces(a + [sep] + b, sep) == Pieces(a, sep) + [b]
  {
    if b != [] {
      var init := b[..|b| - 1];
      PiecesAfterSeparator(a, init, sep);
      assert (a + [sep] + b)[..|a + [sep] + b| - 1] == a + [sep] + init;
      assert b == init + [b[|b| - 1]];
    } else {
      assert a + [sep] + b == a + [sep];
      assert (a + [sep])[..|a|] == a;
    }
  }

  /** The first piece is the text before the first separator. */
  lemma {:induction false} PiecesFirst(s: string, sep: char)
    ensures Pieces(s, sep)[0] == if IndexOf(s, sep) >= 0 then s[..IndexOf(s, sep)] else s
  {
    if s != [] {
      var init, x := s[..|s| - 1], s[|s| - 1];
      var p := Pieces(init, sep);
      PiecesFirst(init, sep);
      assert s == init + [x];
      IndexOfSnoc(init, x, sep);
      var i := IndexOf(init, sep);
      if i >= 0 {
        assert s[..i] == init[..i];
      }
      if x != sep {
        PiecesFacts(init, sep);
        CountZero(init, sep);
        IndexOfFacts(init, sep);
        if |p| == 1 {
          assert Pieces(s, sep)[0] == p[0] + [x];
        } else {
          assert Pieces(s, sep)[0] == p[0];
        }
      } else {
        assert Pieces(s, sep)[0] == p[0];
      }
    }
  }

  /** The last piece is the text after the last separator. */
  lemma {:induction false} PiecesLast(s: string, sep: char)
    ensures var p := Pieces(s, sep); p[|p| - 1] == s[LastIndexOf(s, sep) + 1..]
  {
    if s != [] {
      var init, x := s[..|s| - 1], s[|s| - 1];
      var p := Pieces(init, sep);
      PiecesLast(init, sep);
      if x == sep {
        assert Pieces(s, sep) == p + [[]];
        assert LastIndexOf(s, sep) == |s| - 1;
      } else {
        var q := p[..|p| - 1] + [p[|p| - 1] + [x]];
        assert Pieces(s, sep) == q;
        var i := LastIndexOf(init, sep);
        assert LastIndexOf(s, sep) == i;
        assert s[i + 1..] == init[i + 1..] + [x];
      }
    }
  }

  /** `s` with every trailing occurrence of `c` removed. */
  function StripTrailing(s: string, c: char): string {
    if s != [] && s[|s| - 1] == c then StripTrailing(s[..|s| - 1], c) else s
  }

  /** The stripped string is a prefix not ending in `c`, followed only by `c`s. */
  lemma {:induction false} StripTrailingFacts(s: string, c: char)
    ensures var r := StripTrailing(s, c);
            && |r| <= |s| && r == s[..|r|]
            && (r == [] || r[|r| - 1] != c)
            && forall i :: |r| <= i < |s| ==> s[i] == c
  {
    if s != [] && s[|s| - 1] == c {
      StripTrailingFacts(s[..|s| - 1], c);
    }
  }

  /** The pieces with every trailing empty piece removed. */
  function DropTrailingEmpty(pieces: seq<string>): seq<string> {
    if pieces != [] && pieces[|pieces| - 1] == [] then DropTrailingEmpty(pieces[..|pieces| - 1])
    else pieces
  }

  /** Java's `s.split(String.valueOf(sep))` for a separator that is not a
      regular-expression metacharacter: with no match the result is `[s]`;
      otherwise every piece, a leading empty one included, with the trailing
      empty pieces removed. */
  function Split(s: string, sep: char): seq<string> {
    if IndexOf(s, sep) < 0 then [s] else DropTrailingEmpty(Pieces(s, sep))
  }

  lemma {:induction false} DropTrailingEmptyPieces(s: string, sep: char)
    ensures var t := StripTrailing(s, sep);
            DropTrailingEmpty(Pieces(s, sep)) == if t == [] then [] else Pieces(t, sep)
  {
    if s != [] {
      var init, x := s[..|s| - 1], s[|s| - 1];
      var p := Pieces(init, sep);
      if x == sep {
        DropTrailingEmptyPieces(init, sep);
        assert Pieces(s, sep) == p + [[]];
        assert (p + [[]])[..|p|] == p;
        assert StripTrailing(s, sep) == StripTrailing(init, sep);
      } else {
        var q := p[..|p| - 1] + [p[|p| - 1] + [x]];
        assert Pieces(s, sep) == q;
        assert q[|q| - 1] != [];
        assert StripTrailing(s, sep) == s;
      }
    }
  }

  /** Splitting a non-empty string is splitting it without its trailing
      separators; a string made only of separators splits into nothing. */
  lemma SplitDropsTrailingSeparators(s: string, sep: char)
    requires s != []
    ensures var t := StripTrailing(s, sep);
            Split(s, sep) == if t == [] then [] else Pieces(t, sep)
  {
    IndexOfFacts(s, sep);
    if sep in s {
      DropTrailingEmptyPieces(s, sep);
    } else {
      PiecesWithoutSeparator(s, sep);
      assert StripTrailing(s, sep) == s;
    }
  }

  // ---------------------------------------------------------------------------
  // String.valueOf(int)
  // ---------------------------------------------------------------------------

  predicate IsDigit(c: char) {
    '0' <= c <= '9'
  }

  function DigitChar(d: nat): (c: char)
    requires d < 10
    ensures IsDigit(c)
  {
    (d + '0' as int) as char
  }

  function DigitValue(c: char): nat {
    if IsDigit(c) then c as int - '0' as int else 0
  }

  /** `String.valueOf(n)` for a non-negative `n`: its decimal digits. */
  function Decimal(n: nat): (r: string)
    ensures r != [] && forall i :: 0 <= i < |r| ==> IsDigit(r[i])
  {
    if n < 10 then [DigitChar(n)] else Decimal(n / 10) + [DigitChar(n % 10)]
  }

  /** The number a string of decimal digits denotes. */
  function DecimalValue(s: string): nat {
    if s == [] then 0 else DecimalValue(s[..|s| - 1]) * 10 + DigitValue(s[|s| - 1])
  }

  lemma {:induction false} DecimalRoundTrip(n: nat)
    ensures DecimalValue(Decimal(n)) == n
  {
    if n >= 10 {
      DecimalRoundTrip(n / 10);
      var s := Decimal(n);
      assert s[..|s| - 1] == Decimal(n / 10);
    }
  }

  /** Different numbers print differently. */
  lemma DecimalInjective(m: nat, n: nat)
    requires Decimal(m) == Decimal(n)
    ensures m == n
  {
    DecimalRoundTrip(m);
    DecimalRoundTrip(n);
  }
}
