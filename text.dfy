/** The handful of Rust string operations the identity derivation and the
    template rendering are built from, modelled on `seq<char>`:
    `str::split` with a one-character separator, `str::replace` with a
    non-empty pattern, `str::contains`, `join`, `collect::<String>()` and an
    ASCII-only `to_lowercase` / `to_uppercase`. Each is a recursive function;
    the lemmas give each one an independent characterisation. */
module Text {

  // ---------------------------------------------------------------------
  // Characters (ASCII case mapping)
  // ---------------------------------------------------------------------

  predicate IsUpper(c: char) { 'A' <= c <= 'Z' }

  predicate IsLower(c: char) { 'a' <= c <= 'z' }

  /** Lower-cases an ASCII capital letter; every other character is kept. */
  function LowerChar(c: char): (d: char)
    ensures !IsUpper(d)
    ensures d == c || (IsUpper(c) && IsLower(d))
  {
    if IsUpper(c) then (c as int + 32) as char else c
  }

  /** Upper-cases an ASCII small letter; every other character is kept. */
  function UpperChar(c: char): (d: char)
    ensures !IsLower(d)
    ensures d == c || (IsLower(c) && IsUpper(d))
    ensures LowerChar(d) == LowerChar(c)
  {
    if IsLower(c) then (c as int - 32) as char else c
  }

  /** `to_lowercase`, character by character. */
  function Lower(s: string): (r: string)
    ensures |r| == |s|
    ensures forall i :: 0 <= i < |s| ==> r[i] == LowerChar(s[i])
  {
    if s == [] then [] else [LowerChar(s[0])] + Lower(s[1..])
  }

  lemma LowerIdempotent(s: string)
    ensures Lower(Lower(s)) == Lower(s)
  {
  }

  lemma {:induction false} LowerAppend(a: string, b: string)
    ensures Lower(a + b) == Lower(a) + Lower(b)
  {
    if a == [] {
      assert a + b == b;
    } else {
      assert (a + b)[0] == a[0] && (a + b)[1..] == a[1..] + b;
      LowerAppend(a[1..], b);
    }
  }

  // ---------------------------------------------------------------------
  // Counting, containment
  // ---------------------------------------------------------------------

  /** The number of occurrences of `c` in `s`. */
  function Count(s: string, c: char): (n: nat)
    ensures n <= |s|
    ensures n == 0 <==> c !in s
  {
    if s == [] then 0 else (if s[0] == c then 1 else 0) + Count(s[1..], c)
  }

  /** `s.contains(pat)`: `pat` occurs somewhere in `s`. */
  predicate Contains(s: string, pat: string)
  {
    pat <= s || (s != [] && Contains(s[1..], pat))
  }

  /** `Contains` agrees with the position-based reading of "occurs in". */
  lemma {:induction false} ContainsAt(s: string, pat: string, i: nat)
    requires i + |pat| <= |s| && s[i..i + |pat|] == pat
    ensures Contains(s, pat)
  {
    if i > 0 {
      assert s[1..][i - 1..i - 1 + |pat|] == s[i..i + |pat|];
      ContainsAt(s[1..], pat, i - 1);
    } else {
      assert s[..|pat|] == pat;
    }
  }

  lemma {:induction false} ContainsWitness(s: string, pat: string) returns (i: nat)
    requires Contains(s, pat)
    ensures i + |pat| <= |s| && s[i..i + |pat|] == pat
  {
    if pat <= s {
      i := 0;
    } else {
      var j := ContainsWitness(s[1..], pat);
      assert s[1..][j..j + |pat|] == s[j + 1..j + 1 + |pat|];
      i := j + 1;
    }
  }

  /** A pattern longer than the text cannot occur in it. */
  lemma {:induction false} ContainsNeedsRoom(s: string, pat: string)
    requires |s| < |pat|
    ensures !Contains(s, pat)
  {
    if s != [] {
      ContainsNeedsRoom(s[1..], pat);
    }
  }

  /** A pattern of the text's own length occurs only as the whole text. */
  lemma ContainsSameLength(s: string, pat: string)
    requires |s| == |pat| && s != pat
    ensures !Contains(s, pat)
  {
    if s != [] {
      ContainsNeedsRoom(s[1..], pat);
    }
  }

  /** A one-character pattern occurs exactly when that character does. */
  lemma {:induction false} ContainsChar(s: string, c: char)
    ensures Contains(s, [c]) <==> c in s
  {
    if s != [] {
      ContainsChar(s[1..], c);
      assert s == [s[0]] + s[1..];
    }
  }

  // ---------------------------------------------------------------------
  // Replacing
  // ---------------------------------------------------------------------

  /** `s.replace(pat, rep)`: every non-overlapping occurrence of `pat`,
      found from left to right, is replaced by `rep`. */
  function ReplaceAll(s: string, pat: string, rep: string): (r: string)
    requires pat != []
    ensures !Contains(s, pat) ==> r == s
    ensures pat == rep ==> r == s
    decreases |s|
  {
    if s == [] then []
    else if pat <= s then rep + ReplaceAll(s[|pat|..], pat, rep)
    else [s[0]] + ReplaceAll(s[1..], pat, rep)
  }

  /** A text that is exactly the pattern becomes exactly the replacement. */
  lemma ReplaceWhole(pat: string, rep: string)
    requires pat != []
    ensures ReplaceAll(pat, pat, rep) == rep
  {
    assert pat[|pat|..] == [];
  }

  /** Text free of the pattern's first character is copied unchanged,
      whatever follows it. */
  lemma {:induction false} ReplaceSkipsFree(x: string, rest: string, pat: string, rep: string)
    requires pat != [] && pat[0] !in x
    ensures ReplaceAll(x + rest, pat, rep) == x + ReplaceAll(rest, pat, rep)
    decreases |x|
  {
    if x == [] {
      assert x + rest == rest;
    } else {
      var s := x + rest;
      var r := ReplaceAll(rest, pat, rep);
      assert ReplaceAll(s, pat, rep) == [x[0]] + ReplaceAll(x[1..] + rest, pat, rep) by {
        assert s[0] == x[0] && s[1..] == x[1..] + rest;
        ReplaceOther(s, pat, rep);
      }
      assert ReplaceAll(x[1..] + rest, pat, rep) == x[1..] + r by {
        ReplaceSkipsFree(x[1..], rest, pat, rep);
      }
      ConsTail(x, r);
    }
  }

  /** A text that does not start with the pattern's first character keeps
      that character. */
  lemma ReplaceOther(s: string, pat: string, rep: string)
    requires pat != [] && s != [] && s[0] != pat[0]
    ensures ReplaceAll(s, pat, rep) == [s[0]] + ReplaceAll(s[1..], pat, rep)
  {
    assert !(pat <= s);
  }

  /** A text that starts with the pattern starts with the replacement. */
  lemma ReplaceAtStart(pat: string, rest: string, rep: string)
    requires pat != []
    ensures ReplaceAll(pat + rest, pat, rep) == rep + ReplaceAll(rest, pat, rep)
  {
    assert pat <= pat + rest;
    assert (pat + rest)[|pat|..] == rest;
  }

  /** Every occurrence is replaced: pieces joined by the pattern, none of
      which holds the pattern's first character, come out joined by the
      replacement. */
  lemma {:induction false} ReplaceJoin(xs: seq<string>, pat: string, rep: string)
    requires pat != [] && xs != []
    requires forall x :: x in xs ==> pat[0] !in x
    ensures ReplaceAll(Join(xs, pat), pat, rep) == Join(xs, rep)
  {
    assert xs[0] in xs;
    if |xs| == 1 {
      ReplaceSkipsFree(xs[0], [], pat, rep);
      assert xs[0] + [] == xs[0];
    } else {
      var tail := Join(xs[1..], pat);
      assert Join(xs, pat) == xs[0] + (pat + tail);
      ReplaceSkipsFree(xs[0], pat + tail, pat, rep);
      ReplaceAtStart(pat, tail, rep);
      ReplaceJoin(xs[1..], pat, rep);
    }
  }

  /** A separator that neither extends nor is extended by the pattern, and
      holds the pattern's first character at most at its start, is copied
      unchanged. */
  lemma ReplaceSkipsOther(sep: string, rest: string, pat: string, rep: string)
    requires pat != [] && sep != []
    requires pat[0] !in sep[1..] && !(pat <= sep) && !(sep <= pat)
    ensures ReplaceAll(sep + rest, pat, rep) == sep + ReplaceAll(rest, pat, rep)
  {
    NoPrefixOfAppend(sep, rest, pat);
    ReplaceNoMatch(sep, rest, pat, rep);
    ReplaceSkipsFree(sep[1..], rest, pat, rep);
    ConsTail(sep, ReplaceAll(rest, pat, rep));
  }

  lemma ConsTail(x: string, r: string)
    requires x != []
    ensures [x[0]] + (x[1..] + r) == x + r
  {
    assert [x[0]] + x[1..] == x;
  }

  /** A text that does not start with the pattern keeps its first character. */
  lemma ReplaceNoMatch(x: string, rest: string, pat: string, rep: string)
    requires pat != [] && x != [] && !(pat <= x + rest)
    ensures ReplaceAll(x + rest, pat, rep) == [x[0]] + ReplaceAll(x[1..] + rest, pat, rep)
  {
    assert (x + rest)[0] == x[0] && (x + rest)[1..] == x[1..] + rest;
  }

  /** Appending to a text that neither starts nor is started by `pat` does
      not make it start with `pat`. */
  lemma NoPrefixOfAppend(a: string, b: string, pat: string)
    requires !(pat <= a) && !(a <= pat)
    ensures !(pat <= a + b)
  {
    if |pat| <= |a| {
      assert (a + b)[..|pat|] == a[..|pat|];
    } else {
      assert (a + b)[..|a|] == a;
    }
  }

  /** Replacing a pattern other than the separator leaves the joined text
      alone when neither the pieces nor the separator's tail can start it. */
  lemma {:induction false} ReplaceOtherJoin(xs: seq<string>, sep: string, pat: string, rep: string)
    requires pat != [] && sep != [] && xs != []
    requires forall x :: x in xs ==> pat[0] !in x
    requires pat[0] !in sep[1..] && !(pat <= sep) && !(sep <= pat)
    ensures ReplaceAll(Join(xs, sep), pat, rep) == Join(xs, sep)
  {
    assert xs[0] in xs;
    if |xs| == 1 {
      ReplaceSkipsFree(xs[0], [], pat, rep);
      assert xs[0] + [] == xs[0];
    } else {
      var tail := Join(xs[1..], sep);
      assert Join(xs, sep) == xs[0] + (sep + tail);
      ReplaceSkipsFree(xs[0], sep + tail, pat, rep);
      ReplaceSkipsOther(sep, tail, pat, rep);
      ReplaceOtherJoin(xs[1..], sep, pat, rep);
    }
  }

  /** No proper suffix of `pat` is also a prefix of it, so two occurrences
      of `pat` can never overlap. */
  predicate BorderFree(pat: string)
  {
    forall k :: 0 < k < |pat| ==> !(pat[k..] <= pat)
  }

  /** A pattern whose first character does not occur again is border-free. */
  lemma BorderFreeByHead(pat: string)
    requires pat != [] && pat[0] !in pat[1..]
    ensures BorderFree(pat)
  {
    forall k | 0 < k < |pat|
      ensures !(pat[k..] <= pat)
    {
      assert pat[k] == pat[1..][k - 1];
    }
  }

  /** Text that holds no occurrence, followed by an occurrence or by
      nothing, does not start with a border-free pattern. */
  lemma NoMatchBeforeOccurrence(x: string, rest: string, pat: string)
    requires pat != [] && BorderFree(pat) && x != [] && !Contains(x, pat)
    requires rest == [] || pat <= rest
    ensures !(pat <= x + rest)
  {
    var t := x + rest;
    if |pat| <= |x| {
      assert t[..|pat|] == x[..|pat|];
    } else if rest != [] && |pat| <= |t| {
      var k := |x|;
      var m := |pat| - k;
      assert !(pat[k..] <= pat);
      assert t[k..|pat|] == rest[..m];
      assert rest[..m] == pat[..m] by {
        assert rest[..|pat|] == pat;
      }
    }
  }

  /** Text without an occurrence of a border-free pattern is copied
      unchanged when an occurrence, or the end, follows it. */
  lemma {:induction false} ReplaceSkipsNoOcc(x: string, rest: string, pat: string, rep: string)
    requires pat != [] && BorderFree(pat) && !Contains(x, pat)
    requires rest == [] || pat <= rest
    ensures ReplaceAll(x + rest, pat, rep) == x + ReplaceAll(rest, pat, rep)
    decreases |x|
  {
    if x == [] {
      assert x + rest == rest;
    } else {
      NoMatchBeforeOccurrence(x, rest, pat);
      ReplaceNoMatch(x, rest, pat, rep);
      ReplaceSkipsNoOcc(x[1..], rest, pat, rep);
      ConsTail(x, ReplaceAll(rest, pat, rep));
    }
  }

  /** Every occurrence of a border-free pattern is replaced: pieces joined
      by the pattern, none of which holds the pattern, come out joined by
      the replacement. */
  lemma {:induction false} ReplaceJoinGeneral(xs: seq<string>, pat: string, rep: string)
    requires pat != [] && xs != [] && BorderFree(pat)
    requires forall x :: x in xs ==> !Contains(x, pat)
    ensures ReplaceAll(Join(xs, pat), pat, rep) == Join(xs, rep)
  {
    assert xs[0] in xs;
    if |xs| == 1 {
      ReplaceSkipsNoOcc(xs[0], [], pat, rep);
      assert xs[0] + [] == xs[0];
    } else {
      var tail := Join(xs[1..], pat);
      JoinHead(xs, pat);
      assert ReplaceAll(xs[0] + (pat + tail), pat, rep) == xs[0] + ReplaceAll(pat + tail, pat, rep) by {
        assert pat <= pat + tail;
        ReplaceSkipsNoOcc(xs[0], pat + tail, pat, rep);
      }
      assert ReplaceAll(pat + tail, pat, rep) == rep + ReplaceAll(tail, pat, rep) by {
        ReplaceAtStart(pat, tail, rep);
      }
      assert ReplaceAll(tail, pat, rep) == Join(xs[1..], rep) by {
        assert forall x :: x in xs[1..] ==> x in xs;
        ReplaceJoinGeneral(xs[1..], pat, rep);
      }
    }
  }

  /** Every text is its occurrence-free pieces joined by the pattern,
      cutting at each occurrence from left to right. */
  lemma {:induction false} JoinOfPieces(s: string, pat: string) returns (xs: seq<string>)
    requires pat != []
    ensures xs != [] && Join(xs, pat) == s
    ensures forall x :: x in xs ==> !Contains(x, pat)
    decreases |s|
  {
    if s == [] {
      xs := [[]];
    } else if pat <= s {
      var ys := JoinOfPieces(s[|pat|..], pat);
      xs := [[]] + ys;
      JoinCons([], ys, pat);
      assert pat + s[|pat|..] == s;
    } else {
      var ys := JoinOfPieces(s[1..], pat);
      var y := [s[0]] + ys[0];
      xs := [y] + ys[1..];
      JoinExtendFirst([s[0]], ys, pat);
      JoinFirstIsPrefix(ys, pat);
      assert ys[0] in ys && y[1..] == ys[0];
      assert y == s[..|y|];
      assert forall x :: x in xs ==> x == y || x in ys;
    }
  }

  /** Replacing a border-free pattern, in any text, turns the text's
      occurrence-free pieces joined by the pattern into the same pieces
      joined by the replacement. */
  lemma ReplaceAllByPieces(s: string, pat: string, rep: string)
    requires pat != [] && BorderFree(pat)
    ensures exists xs :: (xs != [] && Join(xs, pat) == s && (forall x :: x in xs ==> !Contains(x, pat))
      && ReplaceAll(s, pat, rep) == Join(xs, rep))
  {
    var xs := JoinOfPieces(s, pat);
    ReplaceJoinGeneral(xs, pat, rep);
  }

  /** A pattern occurs only where its first character does. */
  lemma {:induction false} ContainsFirstChar(s: string, pat: string)
    requires pat != [] && pat[0] !in s
    ensures !Contains(s, pat)
  {
    if s != [] {
      ContainsFirstChar(s[1..], pat);
    }
  }

  /** Replacing a single character by text without it leaves none of it. */
  lemma {:induction false} ReplaceCharRemovesIt(s: string, c: char, rep: string)
    requires c !in rep
    ensures c !in ReplaceAll(s, [c], rep)
    decreases |s|
  {
    if s != [] {
      ReplaceCharRemovesIt(s[1..], c, rep);
    }
  }

  /** Replacing keeps a lower-case text lower-case when the replacement is. */
  lemma {:induction false} ReplaceKeepsLower(s: string, pat: string, rep: string)
    requires pat != []
    requires Lower(s) == s && Lower(rep) == rep
    ensures Lower(ReplaceAll(s, pat, rep)) == ReplaceAll(s, pat, rep)
    decreases |s|
  {
    if s != [] {
      if pat <= s {
        var rest := s[|pat|..];
        assert Lower(rest) == rest by {
          assert forall i :: 0 <= i < |rest| ==> rest[i] == s[i + |pat|];
        }
        ReplaceKeepsLower(rest, pat, rep);
        LowerAppend(rep, ReplaceAll(rest, pat, rep));
      } else {
        assert Lower(s[1..]) == s[1..] by {
          assert forall i :: 0 <= i < |s[1..]| ==> s[1..][i] == s[i + 1];
        }
        ReplaceKeepsLower(s[1..], pat, rep);
        LowerAppend([s[0]], ReplaceAll(s[1..], pat, rep));
      }
    }
  }

  // ---------------------------------------------------------------------
  // Joining and splitting
  // ---------------------------------------------------------------------

  /** `collect::<String>()` over string pieces: plain concatenation. */
  function Concat(xs: seq<string>): (r: string)
    ensures r == Join(xs, [])
  {
    if xs == [] then [] else xs[0] + Concat(xs[1..])
  }

  lemma {:induction false} ConcatAppend(a: seq<string>, b: seq<string>)
    ensures Concat(a + b) == Concat(a) + Concat(b)
  {
    if a != [] {
      assert (a + b)[1..] == a[1..] + b;
      ConcatAppend(a[1..], b);
    } else {
      assert a + b == b;
    }
  }

  /** `join(sep)`: the pieces with `sep` between each neighbouring pair. */
  function Join(xs: seq<string>, sep: string): string
  {
    if xs == [] then []
    else if |xs| == 1 then xs[0]
    else xs[0] + sep + Join(xs[1..], sep)
  }

  /** A character in neither the pieces nor the separator is not in the join. */
  lemma {:induction false} JoinAvoids(xs: seq<string>, sep: string, c: char)
    requires c !in sep && forall x :: x in xs ==> c !in x
    ensures c !in Join(xs, sep)
  {
    if xs != [] {
      assert xs[0] in xs;
      if |xs| > 1 {
        JoinAvoids(xs[1..], sep, c);
      }
    }
  }

  /** `s.split(sep)` for a one-character separator: the maximal
      separator-free pieces, one more than there are separators, and
      joining them back with the separator restores `s`. */
  function Split(s: string, sep: char): (r: seq<string>)
    ensures |r| == Count(s, sep) + 1
    ensures forall t :: t in r ==> sep !in t
    ensures Join(r, [sep]) == s
  {
    if s == [] then [[]]
    else
      var rest := Split(s[1..], sep);
      if s[0] == sep then [[]] + rest
      else [[s[0]] + rest[0]] + rest[1..]
  }

  /** The first piece is empty exactly when `s` is empty or starts with the separator. */
  lemma SplitFirstEmpty(s: string, sep: char)
    ensures Split(s, sep)[0] == [] <==> s == [] || s[0] == sep
  {
  }

  /** The first piece is the longest separator-free prefix of `s`. */
  lemma {:induction false} SplitFirstIsPrefix(s: string, sep: char)
    ensures Split(s, sep)[0] <= s
    ensures Split(s, sep)[0] == s || s[|Split(s, sep)[0]|] == sep
  {
    if s != [] && s[0] != sep {
      SplitFirstIsPrefix(s[1..], sep);
    }
  }

  /** Pieces hold only characters of `s`. */
  lemma {:induction false} SplitKeepsAbsent(s: string, sep: char, c: char)
    requires c !in s
    ensures forall t :: t in Split(s, sep) ==> c !in t
  {
    if s != [] {
      SplitKeepsAbsent(s[1..], sep, c);
    }
  }

  /** A text free of the separator is one piece. */
  lemma {:induction false} SplitNoSeparator(s: string, sep: char)
    requires sep !in s
    ensures Split(s, sep) == [s]
  {
    if s != [] {
      SplitNoSeparator(s[1..], sep);
    }
  }

  /** Splitting `l + sep + rest` with a separator-free `l` yields `l` first,
      then the pieces of `rest`. */
  lemma {:induction false} SplitAtFirst(l: string, sep: char, rest: string)
    requires sep !in l
    ensures Split(l + [sep] + rest, sep) == [l] + Split(rest, sep)
  {
    if l == [] {
      assert l + [sep] + rest == [sep] + rest;
      assert ([sep] + rest)[1..] == rest;
    } else {
      assert (l + [sep] + rest)[1..] == l[1..] + [sep] + rest;
      SplitAtFirst(l[1..], sep, rest);
      assert [l[0]] + l[1..] == l;
    }
  }

  /** Splitting undoes joining, when no piece holds the separator. */
  lemma {:induction false} SplitJoin(xs: seq<string>, sep: char)
    requires xs != []
    requires forall x :: x in xs ==> sep !in x
    ensures Split(Join(xs, [sep]), sep) == xs
  {
    if |xs| == 1 {
      SplitNoSeparator(xs[0], sep);
    } else {
      SplitJoin(xs[1..], sep);
      SplitAtFirst(xs[0], sep, Join(xs[1..], [sep]));
      assert [xs[0]] + xs[1..] == xs;
    }
  }

  /** Joining the pieces of a one-character split with `rep` is replacing
      that character by `rep`. */
  lemma {:induction false} JoinSplitIsReplace(s: string, sep: char, rep: string)
    ensures Join(Split(s, sep), rep) == ReplaceAll(s, [sep], rep)
  {
    if s != [] {
      JoinSplitIsReplace(s[1..], sep, rep);
      if s[0] == sep {
        JoinSplitAtSeparator(s, sep, rep);
      } else {
        JoinSplitAtOther(s, sep, rep);
      }
    }
  }

  lemma JoinSplitAtSeparator(s: string, sep: char, rep: string)
    requires s != [] && s[0] == sep
    requires Join(Split(s[1..], sep), rep) == ReplaceAll(s[1..], [sep], rep)
    ensures Join(Split(s, sep), rep) == ReplaceAll(s, [sep], rep)
  {
    var rest := Split(s[1..], sep);
    assert Split(s, sep) == [[]] + rest by {
      SplitAtSeparator(s, sep);
    }
    assert Join([[]] + rest, rep) == rep + Join(rest, rep) by {
      JoinCons([], rest, rep);
      assert [] + rep == rep;
    }
    assert ReplaceAll(s, [sep], rep) == rep + ReplaceAll(s[1..], [sep], rep) by {
      ReplaceCharAtStart(s, sep, rep);
    }
  }

  lemma ReplaceCharAtStart(s: string, c: char, rep: string)
    requires s != [] && s[0] == c
    ensures ReplaceAll(s, [c], rep) == rep + ReplaceAll(s[1..], [c], rep)
  {
    assert [c] <= s;
  }

  lemma JoinSplitAtOther(s: string, sep: char, rep: string)
    requires s != [] && s[0] != sep
    requires Join(Split(s[1..], sep), rep) == ReplaceAll(s[1..], [sep], rep)
    ensures Join(Split(s, sep), rep) == ReplaceAll(s, [sep], rep)
  {
    SplitAtOther(s, sep);
    JoinExtendFirst([s[0]], Split(s[1..], sep), rep);
    ReplaceOther(s, [sep], rep);
  }

  lemma SplitAtSeparator(s: string, sep: char)
    requires s != [] && s[0] == sep
    ensures Split(s, sep) == [[]] + Split(s[1..], sep)
  {
  }

  lemma SplitAtOther(s: string, sep: char)
    requires s != [] && s[0] != sep
    ensures var rest := Split(s[1..], sep);
      Split(s, sep) == [[s[0]] + rest[0]] + rest[1..]
  {
  }

  lemma JoinHead(xs: seq<string>, sep: string)
    requires |xs| > 1
    ensures Join(xs, sep) == xs[0] + (sep + Join(xs[1..], sep))
  {
    assert xs[0] + sep + Join(xs[1..], sep) == xs[0] + (sep + Join(xs[1..], sep));
  }

  lemma JoinCons(x: string, xs: seq<string>, sep: string)
    requires xs != []
    ensures Join([x] + xs, sep) == x + sep + Join(xs, sep)
  {
    assert ([x] + xs)[1..] == xs;
  }

  lemma JoinFirstIsPrefix(xs: seq<string>, sep: string)
    requires xs != []
    ensures xs[0] <= Join(xs, sep)
  {
  }

  lemma JoinExtendFirst(c: string, xs: seq<string>, sep: string)
    requires xs != []
    ensures Join([c + xs[0]] + xs[1..], sep) == c + Join(xs, sep)
  {
    if |xs| > 1 {
      JoinCons(c + xs[0], xs[1..], sep);
    }
  }

  /** Lower-casing commutes with joining. */
  lemma {:induction false} LowerJoin(xs: seq<string>, sep: string)
    ensures Lower(Join(xs, sep)) == Join(Map(Lower, xs), Lower(sep))
  {
    if |xs| > 1 {
      LowerJoin(xs[1..], sep);
      LowerAppend(xs[0] + sep, Join(xs[1..], sep));
      LowerAppend(xs[0], sep);
      assert Map(Lower, xs)[1..] == Map(Lower, xs[1..]);
    }
  }

  /** Lower-casing commutes with splitting on a character that is not a letter. */
  lemma {:induction false} LowerSplit(s: string, sep: char)
    requires !IsUpper(sep) && !IsLower(sep)
    ensures Split(Lower(s), sep) == Map(Lower, Split(s, sep))
  {
    if s != [] {
      LowerSplit(s[1..], sep);
      assert Lower(s)[1..] == Lower(s[1..]);
      var rest := Split(s[1..], sep);
      if s[0] != sep {
        LowerAppend([s[0]], rest[0]);
        assert Map(Lower, rest)[1..] == Map(Lower, rest[1..]);
      }
    }
  }

  // ---------------------------------------------------------------------
  // Iterator adaptors
  // ---------------------------------------------------------------------

  /** `iter.filter(keep)`: the elements that pass, in their original order. */
  function Filter<T(!new)>(keep: T -> bool, xs: seq<T>): (r: seq<T>)
    ensures |r| <= |xs|
    ensures forall x :: x in r <==> x in xs && keep(x)
  {
    if xs == [] then []
    else if keep(xs[0]) then [xs[0]] + Filter(keep, xs[1..])
    else Filter(keep, xs[1..])
  }

  /** Filtering works element by element: a concatenation filters to the
      concatenation of what each part filters to, so order and repeats are kept. */
  lemma {:induction false} FilterAppend<T(!new)>(keep: T -> bool, a: seq<T>, b: seq<T>)
    ensures Filter(keep, a + b) == Filter(keep, a) + Filter(keep, b)
  {
    if a == [] {
      assert a + b == b;
    } else {
      assert (a + b)[0] == a[0] && (a + b)[1..] == a[1..] + b;
      var tail := Filter(keep, a[1..]) + Filter(keep, b);
      assert Filter(keep, a[1..] + b) == tail by {
        FilterAppend(keep, a[1..], b);
      }
      if keep(a[0]) {
        assert Filter(keep, a + b) == [a[0]] + tail;
        assert [a[0]] + tail == ([a[0]] + Filter(keep, a[1..])) + Filter(keep, b);
      } else {
        assert Filter(keep, a + b) == tail;
      }
    }
  }

  /** One element is kept exactly when it passes. */
  lemma FilterOne<T(!new)>(keep: T -> bool, x: T)
    ensures Filter(keep, [x]) == if keep(x) then [x] else []
  {
  }

  /** `iter.map(f)`: `f` applied to each element, position by position. */
  function Map<T, U>(f: T -> U, xs: seq<T>): (r: seq<U>)
    ensures |r| == |xs|
    ensures forall i :: 0 <= i < |xs| ==> r[i] == f(xs[i])
  {
    if xs == [] then [] else [f(xs[0])] + Map(f, xs[1..])
  }
}
