// Formula normalisation (`ExcelUtils.normalizeFormula`): the same formula can come back from
// the spreadsheet library as " 1 + 2" or as "1+2", so the comparison drops the spaces that
// lie outside string literals before comparing formulas.

module ExcelUtils {
  import JavaText

  /** The number of double quotes in `s`. */
  function Quotes(s: string): nat {
    if s == [] then 0 else (if s[0] == '"' then 1 else 0) + Quotes(s[1..])
  }

  /** Every string literal of `s` is closed. */
  predicate Balanced(s: string) {
    Quotes(s) % 2 == 0
  }

  /**
   * Whether the position after `prefix` lies inside a string literal, for a scan that started
   * inside one exactly when `inString` holds.
   */
  predicate Inside(inString: bool, prefix: string) {
    inString != (Quotes(prefix) % 2 == 1)
  }

  /**
   * The scan of `normalizeFormula` from a given state: each '"' flips `inString`, each ' '
   * outside a literal is deleted, everything else is kept.
   */
  function StripSpaces(s: string, inString: bool): string {
    if s == [] then []
    else if s[0] == '"' then ['"'] + StripSpaces(s[1..], !inString)
    else if s[0] == ' ' && !inString then StripSpaces(s[1..], inString)
    else [s[0]] + StripSpaces(s[1..], inString)
  }

  /** What `normalizeFormula` returns: the trimmed formula with outside spaces stripped. */
  function Normalized(original: string): string {
    StripSpaces(JavaText.Trim(original), false)
  }

  lemma {:induction false} QuotesAppend(a: string, b: string)
    ensures Quotes(a + b) == Quotes(a) + Quotes(b)
  {
    if a == [] {
      assert a + b == b;
    } else {
      assert (a + b)[0] == a[0] && (a + b)[1..] == a[1..] + b;
      QuotesAppend(a[1..], b);
    }
  }

  /** One step of the scan at index `n`, and the quote count of the scanned prefix. */
  lemma ScanStep(s: string, n: nat, inString: bool)
    requires n < |s|
    ensures StripSpaces(s[n..], inString) ==
      if s[n] == '"' then ['"'] + StripSpaces(s[n + 1..], !inString)
      else if s[n] == ' ' && !inString then StripSpaces(s[n + 1..], inString)
      else [s[n]] + StripSpaces(s[n + 1..], inString)
    ensures Quotes(s[..n + 1]) == Quotes(s[..n]) + (if s[n] == '"' then 1 else 0)
  {
    assert s[n..][0] == s[n] && s[n..][1..] == s[n + 1..];
    assert s[..n + 1] == s[..n] + [s[n]];
    QuotesAppend(s[..n], [s[n]]);
  }

  /** Deleting the space at index `n` keeps the prefix before it and the quote count. */
  lemma DeleteSpace(s: string, n: nat)
    requires n < |s| && s[n] == ' '
    ensures var s' := s[..n] + s[n + 1..];
      s'[..n] == s[..n] && s'[n..] == s[n + 1..] && Quotes(s') == Quotes(s)
  {
    var s' := s[..n] + s[n + 1..];
    assert s == s[..n] + ([s[n]] + s[n + 1..]);
    QuotesAppend(s[..n], [s[n]] + s[n + 1..]);
    QuotesAppend(s[..n], s[n + 1..]);
    assert ([s[n]] + s[n + 1..])[1..] == s[n + 1..];
  }

  /** Keeping the character at `n` (a quote flips the flag) moves the scan one place on. */
  lemma KeepStep(s: string, n: nat, inString: bool)
    requires n < |s| && !(s[n] == ' ' && !inString)
    ensures var q := if s[n] == '"' then !inString else inString;
      && s[..n + 1] + StripSpaces(s[n + 1..], q) == s[..n] + StripSpaces(s[n..], inString)
      && (inString == (Quotes(s[..n]) % 2 == 1) ==> q == (Quotes(s[..n + 1]) % 2 == 1))
  {
    ScanStep(s, n, inString);
    assert s[..n + 1] == s[..n] + [s[n]];
  }

  /** Deleting the space at `n`, outside a literal, leaves the scan where it was. */
  lemma DropStep(s: string, n: nat, inString: bool)
    requires n < |s| && s[n] == ' ' && !inString
    ensures var s' := s[..n] + s[n + 1..];
      && n <= |s'|
      && s'[..n] + StripSpaces(s'[n..], inString) == s[..n] + StripSpaces(s[n..], inString)
      && Quotes(s') == Quotes(s) && Quotes(s'[..n]) == Quotes(s[..n])
  {
    ScanStep(s, n, inString);
    DeleteSpace(s, n);
  }

  /**
   * The loop of `normalizeFormula` over the trimmed formula held in a StringBuilder: it is
   * scanned left to right; a space outside a literal is deleted in place and the index steps
   * back so that the next character is not skipped. `endsInString` is the flag the Java
   * `assert !inString` inspects.
   */
  method StripOutsideSpaces(trimmed: string) returns (r: string, ghost endsInString: bool)
    ensures r == StripSpaces(trimmed, false)
    ensures endsInString <==> !Balanced(trimmed)
  {
    var str := trimmed;
    var inString := false;
    var n: int := 0;
    while n < |str|
      invariant 0 <= n <= |str|
      invariant str[..n] + StripSpaces(str[n..], inString) == StripSpaces(trimmed, false)
      invariant Quotes(str) == Quotes(trimmed)
      invariant inString == (Quotes(str[..n]) % 2 == 1)
      decreases |str| - n
    {
      if str[n] == '"' {
        KeepStep(str, n, inString);
        inString := !inString;
      } else if str[n] == ' ' && !inString {
        DropStep(str, n, inString);
        str := str[..n] + str[n + 1..];
        n := n - 1;
      } else {
        KeepStep(str, n, inString);
      }
      n := n + 1;
    }
    assert str[..n] == str && str[n..] == [];
    endsInString := inString;
    r := str;
  }

  /**
   * `normalizeFormula`: trims the formula, then deletes the spaces outside its literals. The
   * Java assertion holds exactly when the trimmed formula closes every literal it opens.
   */
  method NormalizeFormula(original: string) returns (r: string, ghost endsInString: bool)
    ensures r == Normalized(original)
    ensures endsInString <==> !Balanced(JavaText.Trim(original))
  {
    r, endsInString := StripOutsideSpaces(JavaText.Trim(original));
  }

  // ---------------------------------------------------------------------------------------
  // What the normalisation guarantees.

  /** The space-free text of a string: what survives deleting every ' '. */
  function WithoutSpaces(s: string): string {
    if s == [] then [] else (if s[0] == ' ' then [] else [s[0]]) + WithoutSpaces(s[1..])
  }

  /** The characters of `s` that lie inside string literals, quotes excluded. */
  function Literals(s: string, inString: bool): string {
    if s == [] then []
    else if s[0] == '"' then Literals(s[1..], !inString)
    else (if inString then [s[0]] else []) + Literals(s[1..], inString)
  }

  /**
   * Only spaces are removed: every other character survives, in order; the quotes are all
   * kept; the contents of every literal are untouched; and no space is left outside a
   * literal.
   */
  lemma {:induction false} StripSpacesExactly(s: string, inString: bool)
    ensures var r := StripSpaces(s, inString);
      && |r| <= |s|
      && WithoutSpaces(r) == WithoutSpaces(s)
      && Quotes(r) == Quotes(s)
      && Literals(r, inString) == Literals(s, inString)
      && NoOutsideSpace(r, inString)
  {
    StripSpacesKeepsText(s, inString);
    StripSpacesKeepsLiterals(s, inString);
    StripSpacesLeavesNoOutsideSpace(s, inString);
  }

  /** The scan deletes spaces and nothing else: every other character and every quote stays. */
  lemma {:induction false} StripSpacesKeepsText(s: string, inString: bool)
    ensures var r := StripSpaces(s, inString);
      |r| <= |s| && WithoutSpaces(r) == WithoutSpaces(s) && Quotes(r) == Quotes(s)
  {
    if s != [] {
      var q := if s[0] == '"' then !inString else inString;
      StripSpacesKeepsText(s[1..], q);
      var t := StripSpaces(s[1..], q);
      if !(s[0] == ' ' && !inString) {
        assert ([s[0]] + t)[0] == s[0] && ([s[0]] + t)[1..] == t;
      }
    }
  }

  /** The contents of every literal are untouched. */
  lemma {:induction false} StripSpacesKeepsLiterals(s: string, inString: bool)
    ensures Literals(StripSpaces(s, inString), inString) == Literals(s, inString)
  {
    if s != [] {
      var q := if s[0] == '"' then !inString else inString;
      StripSpacesKeepsLiterals(s[1..], q);
      var t := StripSpaces(s[1..], q);
      if !(s[0] == ' ' && !inString) {
        assert ([s[0]] + t)[0] == s[0] && ([s[0]] + t)[1..] == t;
      }
    }
  }

  /** Every space of `r` lies inside a literal, for a scan that starts in the state `inString`. */
  predicate NoOutsideSpace(r: string, inString: bool) {
    forall k :: 0 <= k < |r| && r[k] == ' ' ==> Inside(inString, r[..k])
  }

  /** No space is left outside a literal. */
  lemma {:induction false} StripSpacesLeavesNoOutsideSpace(s: string, inString: bool)
    ensures NoOutsideSpace(StripSpaces(s, inString), inString)
  {
    if s != [] {
      var c, rest := s[0], s[1..];
      var q := if c == '"' then !inString else inString;
      StripSpacesLeavesNoOutsideSpace(rest, q);
      var t := StripSpaces(rest, q);
      var r := StripSpaces(s, inString);
      if c == ' ' && !inString {
        assert r == t;
      } else {
        assert r == [c] + t;
        forall k | 0 <= k < |r| && r[k] == ' '
          ensures Inside(inString, r[..k])
        {
          if k > 0 {
            assert r[..k] == [c] + t[..k - 1];
            assert r[..k][0] == c && r[..k][1..] == t[..k - 1];
            assert r[k] == t[k - 1];
          }
        }
      }
    }
  }

  /** A first or last character that is not a space survives the scan, in place. */
  lemma {:induction false} StripSpacesKeepsEnds(s: string, inString: bool)
    requires s != []
    ensures s[0] != ' ' ==> StripSpaces(s, inString) != [] && StripSpaces(s, inString)[0] == s[0]
    ensures s[|s| - 1] != ' ' ==>
      StripSpaces(s, inString) != [] && StripSpaces(s, inString)[|StripSpaces(s, inString)| - 1] == s[|s| - 1]
  {
    if |s| > 1 {
      var q := if s[0] == '"' then !inString else inString;
      StripSpacesKeepsEnds(s[1..], q);
    }
  }

  /** A second scan finds nothing more to delete. */
  lemma {:induction false} StripSpacesIdempotent(s: string, inString: bool)
    ensures StripSpaces(StripSpaces(s, inString), inString) == StripSpaces(s, inString)
  {
    if s != [] {
      var q := if s[0] == '"' then !inString else inString;
      StripSpacesIdempotent(s[1..], q);
      var t := StripSpaces(s[1..], q);
      if !(s[0] == ' ' && !inString) {
        assert ([s[0]] + t)[1..] == t;
      }
    }
  }

  /** A string that starts and ends with a non-space keeps both ends through the scan. */
  lemma StripSpacesKeepsTrimmed(t: string)
    requires t == [] || (!JavaText.IsTrimmed(t[0]) && !JavaText.IsTrimmed(t[|t| - 1]))
    ensures var r := StripSpaces(t, false);
      r == [] || (!JavaText.IsTrimmed(r[0]) && !JavaText.IsTrimmed(r[|r| - 1]))
  {
    if t != [] {
      StripSpacesKeepsEnds(t, false);
    }
  }

  /**
   * A normalised formula is its own normal form: it is already trimmed, and it has no space
   * outside a literal left to delete.
   */
  lemma NormalizedIdempotent(original: string)
    ensures Normalized(Normalized(original)) == Normalized(original)
  {
    var t := JavaText.Trim(original);
    StripSpacesKeepsTrimmed(t);
    StripSpacesIdempotent(t, false);
  }

  /** The two forms in which the library returns "= 1 + 2" normalise to the same formula. */
  lemma SpacedAndUnspacedAgree()
    ensures Normalized(" 1 + 2") == Normalized("1+2") == "1+2"
  {
    TrimsTo(" 1 + 2", "1 + 2");
    TrimsTo("1+2", "1+2");
    StripsSpaced();
    StripsUnspaced();
    NormalizedVia(" 1 + 2", "1 + 2", "1+2");
    NormalizedVia("1+2", "1+2", "1+2");
  }

  lemma NormalizedVia(original: string, trimmed: string, result: string)
    requires JavaText.Trim(original) == trimmed && StripSpaces(trimmed, false) == result
    ensures Normalized(original) == result
  {
  }

  lemma StripsSpaced()
    ensures StripSpaces("1 + 2", false) == "1+2"
  {
  }

  lemma StripsUnspaced()
    ensures StripSpaces("1+2", false) == "1+2"
  {
  }

  /** `t` is `s` without its single leading space, if it has one, and ends in a non-space. */
  lemma TrimsTo(s: string, t: string)
    requires t != [] && !JavaText.IsTrimmed(t[0]) && !JavaText.IsTrimmed(t[|t| - 1])
    requires s == t || s == [' '] + t
    ensures JavaText.Trim(s) == t
  {
    if s != t {
      assert s[1..] == t;
      assert JavaText.TrimStart(s) == JavaText.TrimStart(t) == t;
    }
  }

  /** The normalised formula is balanced exactly when the trimmed one is. */
  lemma NormalizedKeepsBalance(original: string)
    ensures Balanced(Normalized(original)) <==> Balanced(JavaText.Trim(original))
  {
    StripSpacesExactly(JavaText.Trim(original), false);
  }
}
