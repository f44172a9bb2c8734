/** Identity derivation from a corporate email address (src/lib.rs): the
    login `username` and the display `fullname`, both computed from the text
    before the first `@`, lower-cased and split on `.`. */
module Identity {
  import opened Text

  /** The marker segment that is dropped from usernames and stripped from full names. */
  const Contractor := "contractor"

  /** The one way `username` can fail: the first `.`-token has no first character. */
  datatype IdentityError = NoFirstCharacter

  datatype Result<T> = Ok(value: T) | Err(error: IdentityError)

  // ---------------------------------------------------------------------
  // The local part and its tokens
  // ---------------------------------------------------------------------

  /** `email.split("@").next()`: the longest `@`-free prefix of `email`. */
  function LocalPart(email: string): (l: string)
    ensures '@' !in l && l <= email
    ensures l == email || email[|l|] == '@'
  {
    SplitFirstIsPrefix(email, '@');
    Split(email, '@')[0]
  }

  /** The lower-cased local part split on `.`. */
  function NameTokens(email: string): (ts: seq<string>)
    ensures ts != []
  {
    Split(Lower(LocalPart(email)), '.')
  }

  // ---------------------------------------------------------------------
  // username
  // ---------------------------------------------------------------------

  predicate LongerThanOne(t: string) { |t| > 1 }

  predicate FreeOfContractor(t: string) { !Contains(t, Contractor) }

  /** `replace("-", "")`: no hyphen is left, and a hyphen-free token is kept. */
  function StripHyphens(t: string): (r: string)
    ensures '-' !in r
    ensures '-' !in t ==> r == t
  {
    ReplaceCharRemovesIt(t, '-', "");
    ContainsChar(t, '-');
    ReplaceAll(t, "-", "")
  }

  /** The single hard-coded abbreviation: only "ki" changes. */
  function ShortenKi(t: string): (r: string)
    ensures r != t <==> t == "ki"
    ensures t == "ki" ==> r == "k"
  {
    if t == "ki" then "k" else t
  }

  /** The surname fragment: the tokens after the first, through the two
      filters and the two maps of the iterator chain, collected into one string. */
  function Surname(rest: seq<string>): string
  {
    Concat(Map(ShortenKi, Map(StripHyphens, Filter(FreeOfContractor, Filter(LongerThanOne, rest)))))
  }

  /** `username(email)`: the first character of the first token followed by
      the surname fragment. It fails exactly when the address is empty or
      starts with `@` or `.`, and otherwise starts with the address's first
      character, lower-cased. */
  function Username(email: string): (r: Result<string>)
    ensures r.Err? <==> email == [] || email[0] == '@' || email[0] == '.'
    ensures r.Ok? ==> r.value != [] && r.value[0] == LowerChar(email[0])
  {
    var tokens := NameTokens(email);
    FirstTokenEmpty(email);
    if tokens[0] == [] then Err(NoFirstCharacter)
    else Ok([tokens[0][0]] + Surname(tokens[1..]))
  }

  /** The first token is empty exactly when the address is empty or starts
      with `@` or `.`; otherwise it starts with the address's first
      character, lower-cased. */
  lemma FirstTokenEmpty(email: string)
    ensures NameTokens(email)[0] == [] <==> email == [] || email[0] == '@' || email[0] == '.'
    ensures NameTokens(email)[0] != [] ==> NameTokens(email)[0][0] == LowerChar(email[0])
  {
    var l := Lower(LocalPart(email));
    SplitFirstEmpty(l, '.');
    SplitFirstIsPrefix(l, '.');
  }

  /** What one non-first token adds to the username, on its own. */
  function Contribution(t: string): string
  {
    if |t| <= 1 || Contains(t, Contractor) then []
    else ShortenKi(StripHyphens(t))
  }

  /** The contributions of the tokens, in token order, with no separator. */
  function Contributions(ts: seq<string>): string
  {
    if ts == [] then [] else Contribution(ts[0]) + Contributions(ts[1..])
  }

  /** The iterator chain is the token-by-token concatenation of contributions. */
  lemma {:induction false} SurnameIsContributions(ts: seq<string>)
    ensures Surname(ts) == Contributions(ts)
  {
    if ts != [] {
      SurnameIsContributions(ts[1..]);
      var t := ts[0];
      if |t| > 1 && !Contains(t, Contractor) {
        var kept := Filter(FreeOfContractor, Filter(LongerThanOne, ts));
        assert kept == [t] + Filter(FreeOfContractor, Filter(LongerThanOne, ts[1..]));
        assert Map(ShortenKi, Map(StripHyphens, kept))
            == [ShortenKi(StripHyphens(t))] + Map(ShortenKi, Map(StripHyphens, kept[1..]));
      }
    }
  }

  lemma {:induction false} ContributionsAppend(a: seq<string>, b: seq<string>)
    ensures Contributions(a + b) == Contributions(a) + Contributions(b)
  {
    if a == [] {
      assert a + b == b;
    } else {
      assert (a + b)[1..] == a[1..] + b;
      ContributionsAppend(a[1..], b);
    }
  }

  lemma {:induction false} ContributionsAround(a: seq<string>, t: string, b: seq<string>)
    ensures Contributions(a + [t] + b) == Contributions(a) + Contribution(t) + Contributions(b)
  {
    ContributionsAppend(a + [t], b);
    ContributionsAppend(a, [t]);
    ContributionsOne(t);
  }

  lemma ContributionsOne(t: string)
    ensures Contributions([t]) == Contribution(t)
  {
    assert [t][1..] == [];
  }

  /** A non-first token of length at most one, or one containing
      "contractor", contributes nothing wherever it stands. */
  lemma DroppedTokenAddsNothing(a: seq<string>, t: string, b: seq<string>)
    requires |t| <= 1 || Contains(t, Contractor)
    ensures Surname(a + [t] + b) == Surname(a + b)
  {
    SurnameIsContributions(a + [t] + b);
    SurnameIsContributions(a + b);
    ContributionsAround(a, t, b);
    ContributionsAppend(a, b);
  }

  /** Any other token contributes itself with the hyphens removed, or "k"
      when that leaves "ki", at its own place in token order. */
  lemma KeptTokenAddsItself(a: seq<string>, t: string, b: seq<string>)
    requires |t| > 1 && !Contains(t, Contractor)
    ensures var s := ReplaceAll(t, "-", "");
      Surname(a + [t] + b) == Surname(a) + (if s == "ki" then "k" else s) + Surname(b)
  {
    SurnameIsContributions(a + [t] + b);
    SurnameIsContributions(a);
    SurnameIsContributions(b);
    ContributionsAround(a, t, b);
  }

  /** Tokens that pass both filters and hold neither a hyphen nor the
      abbreviation are concatenated unchanged. */
  lemma {:induction false} PlainTokensConcatenate(ts: seq<string>)
    requires forall t :: t in ts ==> |t| > 1 && !Contains(t, Contractor) && '-' !in t && t != "ki"
    ensures Surname(ts) == Concat(ts)
  {
    SurnameIsContributions(ts);
    PlainContributions(ts);
  }

  lemma {:induction false} PlainContributions(ts: seq<string>)
    requires forall t :: t in ts ==> |t| > 1 && !Contains(t, Contractor) && '-' !in t && t != "ki"
    ensures Contributions(ts) == Concat(ts)
  {
    if ts != [] {
      assert ts[0] in ts;
      ContainsChar(ts[0], '-');
      PlainContributions(ts[1..]);
    }
  }

  /** A username whose non-first tokens all pass both filters and hold
      neither a hyphen nor the abbreviation is the first character followed
      by those tokens, concatenated unchanged. */
  lemma UsernameOfPlainTokens(email: string)
    requires Username(email).Ok?
    requires forall t :: t in NameTokens(email)[1..] ==>
      |t| > 1 && !Contains(t, Contractor) && '-' !in t && t != "ki"
    ensures Username(email).value == [LowerChar(email[0])] + Concat(NameTokens(email)[1..])
  {
    PlainTokensConcatenate(NameTokens(email)[1..]);
  }

  /** The surname fragment never holds a hyphen. */
  lemma {:induction false} SurnameHasNoHyphen(ts: seq<string>)
    ensures '-' !in Surname(ts)
  {
    SurnameIsContributions(ts);
    ContributionsHaveNoHyphen(ts);
  }

  lemma {:induction false} ContributionsHaveNoHyphen(ts: seq<string>)
    ensures '-' !in Contributions(ts)
  {
    if ts != [] {
      ReplaceCharRemovesIt(ts[0], '-', "");
      ContributionsHaveNoHyphen(ts[1..]);
    }
  }

  /** Everything after the username's first character is hyphen-free. */
  lemma UsernameTailHasNoHyphen(email: string)
    requires Username(email).Ok?
    ensures '-' !in Username(email).value[1..]
  {
    SurnameHasNoHyphen(NameTokens(email)[1..]);
    assert Username(email).value[1..] == Surname(NameTokens(email)[1..]);
  }

  // ---------------------------------------------------------------------
  // fullname
  // ---------------------------------------------------------------------

  /** `uppercase_first_letter(s)`: the same text, the first character
      upper-cased, the rest unchanged. */
  function UppercaseFirstLetter(s: string): (r: string)
    ensures |r| == |s|
    ensures s != [] ==> r[1..] == s[1..] && !IsLower(r[0])
    ensures Lower(r) == Lower(s)
  {
    if s == [] then [] else [UpperChar(s[0])] + s[1..]
  }

  lemma UppercaseFirstLetterIdempotent(s: string)
    ensures UppercaseFirstLetter(UppercaseFirstLetter(s)) == UppercaseFirstLetter(s)
  {
  }

  lemma CapitalisingKeepsSpaceFree(t: string)
    requires ' ' !in t
    ensures ' ' !in UppercaseFirstLetter(t)
  {
    if t != [] {
      assert t == [t[0]] + t[1..];
    }
  }

  /** The local part, lower-cased, with every "contractor" removed. */
  function StrippedLocalPart(email: string): (s: string)
    ensures Lower(s) == s
  {
    var l := Lower(LocalPart(email));
    LowerIdempotent(LocalPart(email));
    ReplaceKeepsLower(l, Contractor, "");
    ReplaceAll(l, Contractor, "")
  }

  /** "contractor" has no proper suffix that is also a prefix, so its
      occurrences never overlap. */
  lemma ContractorBorderFree()
    ensures BorderFree(Contractor)
  {
    forall k | 0 < k < |Contractor|
      ensures !(Contractor[k..] <= Contractor)
    {
      if k == 6 {
        assert Contractor[k..][1] == 't' && Contractor[1] == 'o';
      } else {
        assert Contractor[k..][0] != 'c';
      }
    }
  }

  /** Every "contractor" is removed, wherever it stands and even inside a
      token: a lower-cased local part made of pieces without "contractor",
      joined by "contractor", is stripped to those pieces run together (so
      "alice.contractor" becomes "alice." and "xcontractory" becomes "xy"). */
  lemma StrippedLocalPartRemovesContractor(email: string, xs: seq<string>)
    requires xs != [] && forall x :: x in xs ==> !Contains(x, Contractor)
    requires Lower(LocalPart(email)) == Join(xs, Contractor)
    ensures StrippedLocalPart(email) == Concat(xs)
  {
    ContractorBorderFree();
    ReplaceJoinGeneral(xs, Contractor, "");
  }

  /** For every address, the stripped local part is the lower-cased local
      part cut at each "contractor" and run back together. */
  lemma StrippedLocalPartDecomposes(email: string)
    ensures exists xs :: (xs != [] && Join(xs, Contractor) == Lower(LocalPart(email))
      && (forall x :: x in xs ==> !Contains(x, Contractor)) && StrippedLocalPart(email) == Concat(xs))
  {
    ContractorBorderFree();
    var xs := JoinOfPieces(Lower(LocalPart(email)), Contractor);
    StrippedLocalPartRemovesContractor(email, xs);
  }

  /** A trailing "contractor" is removed: when the lower-cased local part
      is a contractor-free `l` followed by "contractor", the stripped local
      part is `l` (`alice.contractor@corp` gives `alice.`). */
  lemma TrailingContractorRemoved(email: string, l: string)
    requires !Contains(l, Contractor)
    requires Lower(LocalPart(email)) == l + Contractor
    ensures StrippedLocalPart(email) == l
  {
    var xs := [l, ""];
    assert StrippedLocalPart(email) == Concat(xs) by {
      assert !Contains("", Contractor) by {
        ContainsNeedsRoom("", Contractor);
      }
      assert forall x :: x in xs ==> x == l || x == "";
      assert Join(xs, Contractor) == l + Contractor by {
        assert xs[1..] == [""];
      }
      StrippedLocalPartRemovesContractor(email, xs);
    }
    assert Concat(xs) == l by {
      assert xs[1..] == [""];
    }
  }

  /** `fullname(email)`: the capitalised `.`-tokens of the stripped local
      part joined by single spaces; up to case it is the stripped local part
      with every `.` turned into a space. */
  function Fullname(email: string): (r: string)
    ensures Lower(r) == ReplaceAll(StrippedLocalPart(email), ".", " ")
  {
    var s := StrippedLocalPart(email);
    CapitalisedJoinLower(s);
    Join(Map(UppercaseFirstLetter, Split(s, '.')), " ")
  }

  lemma CapitalisedJoinLower(s: string)
    requires Lower(s) == s
    ensures Lower(Join(Map(UppercaseFirstLetter, Split(s, '.')), " ")) == ReplaceAll(s, ".", " ")
  {
    var ts := Split(s, '.');
    var caps := Map(UppercaseFirstLetter, ts);
    LowerJoin(caps, " ");
    LowerJoin(ts, " ");
    assert Map(Lower, caps) == Map(Lower, ts);
    JoinSplitIsReplace(s, '.', " ");
    ReplaceKeepsLower(s, ".", " ");
  }

  /** For a space-free stripped local part, splitting the full name on
      spaces gives back one capitalised segment per `.`-token, empty tokens
      included, so the full name has exactly as many spaces as there are dots. */
  lemma FullnameSegments(email: string)
    requires ' ' !in StrippedLocalPart(email)
    ensures Split(Fullname(email), ' ') == Map(UppercaseFirstLetter, Split(StrippedLocalPart(email), '.'))
    ensures Count(Fullname(email), ' ') == Count(StrippedLocalPart(email), '.')
  {
    var s := StrippedLocalPart(email);
    var ts := Split(s, '.');
    var caps := Map(UppercaseFirstLetter, ts);
    SplitKeepsAbsent(s, '.', ' ');
    forall x | x in caps
      ensures ' ' !in x
    {
      var i :| 0 <= i < |caps| && caps[i] == x;
      assert ts[i] in ts;
      CapitalisingKeepsSpaceFree(ts[i]);
    }
    SplitJoin(caps, ' ');
  }

  // ---------------------------------------------------------------------
  // Properties of the whole derivation
  // ---------------------------------------------------------------------

  /** Only the text before the first `@` matters. */
  lemma LocalPartOnly(l: string, domain: string)
    requires '@' !in l
    ensures LocalPart(l + "@" + domain) == LocalPart(l) == l
    ensures Username(l + "@" + domain) == Username(l)
    ensures Fullname(l + "@" + domain) == Fullname(l)
  {
    SplitAtFirst(l, '@', domain);
    SplitNoSeparator(l, '@');
  }

  /** Lower-casing the address first changes nothing. */
  lemma CaseInsensitive(email: string)
    ensures Username(Lower(email)) == Username(email)
    ensures Fullname(Lower(email)) == Fullname(email)
  {
    LowerSplit(email, '@');
    assert LocalPart(Lower(email)) == Lower(LocalPart(email));
    LowerIdempotent(LocalPart(email));
  }
}
