/**
  The MAC address check `validateMAC` (utils.go). The source compiles the
  regular expression

      ([0-9A-Fa-f]{2}[:-]?){5}[0-9A-Fa-f]{2}  |  ([0-9A-Fa-f]{4}\.){2}[0-9A-Fa-f]{4}

  and accepts the input when `FindAllString` finds at least one match, that
  is, when SOME substring belongs to the language of the expression; nothing
  is anchored. The language is given here as a grammar on whole strings
  (`MacShaped`), and the check itself as a deterministic matcher tried at
  every start position (`ValidateMAC`); `ValidateMACCorrect` proves the two
  agree.
 */
module MacAddress {
  import opened Wrappers
  import GoStrings

  /** The character class `[0-9A-Fa-f]`. */
  predicate IsHexDigit(c: char) {
    '0' <= c <= '9' || 'A' <= c <= 'F' || 'a' <= c <= 'f'
  }

  /** The character class `[:-]`. */
  predicate IsSeparator(c: char) {
    c == ':' || c == '-'
  }

  // ---------------------------------------------------------------------------
  // The language of the expression, as a grammar on whole strings
  // ---------------------------------------------------------------------------

  /**
    `t` is `n` groups of `hex hex [:-]?` followed by one final `hex hex`.
    Both ways of matching the optional separator are allowed.
   */
  ghost predicate PairGroups(t: string, n: nat): (r: bool)
    ensures r ==> 2 * n + 2 <= |t| <= 3 * n + 2
    decreases n
  {
    && |t| >= 2 && IsHexDigit(t[0]) && IsHexDigit(t[1])
    && if n == 0 then |t| == 2
       else PairGroups(t[2..], n - 1) || (|t| >= 3 && IsSeparator(t[2]) && PairGroups(t[3..], n - 1))
  }

  /** First alternative: six hex pairs, each of the first five optionally followed by ':' or '-'. */
  ghost predicate ColonDashForm(t: string) {
    PairGroups(t, 5)
  }

  /** Second alternative: three four-digit hex groups separated by '.'. */
  ghost predicate DotForm(t: string) {
    && |t| == 14 && t[4] == '.' && t[9] == '.'
    && forall k :: 0 <= k < 14 && k != 4 && k != 9 ==> IsHexDigit(t[k])
  }

  /** `t` as a whole is in the language of the expression: between 12 and 17 characters. */
  ghost predicate MacShaped(t: string): (r: bool)
    ensures r ==> 12 <= |t| <= 17
  {
    ColonDashForm(t) || DotForm(t)
  }

  /** Some substring of `s` is in the language: what "at least one match" means. */
  ghost predicate ContainsMac(s: string): (r: bool)
    ensures r ==> |s| >= 12
  {
    exists i, j :: 0 <= i <= j <= |s| && MacShaped(s[i..j])
  }

  // ---------------------------------------------------------------------------
  // The check
  // ---------------------------------------------------------------------------

  /**
    Match `n` groups and a final pair starting at position `i` of `s`; the
    end of the match, if there is one. The optional separator needs no
    backtracking: a character that is ':' or '-' is never a hex digit.
   */
  function PairsEnd(s: string, i: nat, n: nat): (r: Option<nat>)
    ensures r.Some? ==> i + 2 * n + 2 <= r.value <= |s|
    decreases n
  {
    if i + 2 <= |s| && IsHexDigit(s[i]) && IsHexDigit(s[i + 1]) then
      if n == 0 then Some(i + 2)
      else if i + 2 < |s| && IsSeparator(s[i + 2]) then PairsEnd(s, i + 3, n - 1)
      else PairsEnd(s, i + 2, n - 1)
    else None
  }

  /** Four hex digits at positions `i` to `i + 3`. */
  predicate QuadAt(s: string, i: nat)
    requires i + 4 <= |s|
  {
    IsHexDigit(s[i]) && IsHexDigit(s[i + 1]) && IsHexDigit(s[i + 2]) && IsHexDigit(s[i + 3])
  }

  /** The dotted form matches starting at position `i`. */
  predicate QuadsAt(s: string, i: nat) {
    && i + 14 <= |s|
    && QuadAt(s, i) && s[i + 4] == '.' && QuadAt(s, i + 5) && s[i + 9] == '.' && QuadAt(s, i + 10)
  }

  /** One of the two alternatives matches starting at position `i`. */
  predicate MatchAt(s: string, i: nat) {
    PairsEnd(s, i, 5).Some? || QuadsAt(s, i)
  }

  /** `validateMAC`: the expression matches somewhere in `s`; the shortest match is twelve characters. */
  predicate ValidateMAC(s: string): (r: bool)
    ensures r ==> |s| >= 12
  {
    exists i | 0 <= i < |s| :: MatchAt(s, i)
  }

  // ---------------------------------------------------------------------------
  // The check decides the language
  // ---------------------------------------------------------------------------

  /** A match found by `PairsEnd` is a string of the first alternative's grammar. */
  lemma {:induction false} PairsEndSound(s: string, i: nat, n: nat)
    requires PairsEnd(s, i, n).Some?
    ensures PairGroups(s[i..PairsEnd(s, i, n).value], n)
    decreases n
  {
    var j := PairsEnd(s, i, n).value;
    var t := s[i..j];
    assert t[0] == s[i] && t[1] == s[i + 1];
    if n > 0 {
      if i + 2 < |s| && IsSeparator(s[i + 2]) {
        PairsEndSound(s, i + 3, n - 1);
        assert t[3..] == s[i + 3..j];
        assert t[2] == s[i + 2];
      } else {
        PairsEndSound(s, i + 2, n - 1);
        assert t[2..] == s[i + 2..j];
      }
    }
  }

  /** Every substring in the first alternative's grammar is found by `PairsEnd`, with the same end. */
  lemma {:induction false} PairsEndComplete(s: string, i: nat, j: nat, n: nat)
    requires i <= j <= |s| && PairGroups(s[i..j], n)
    ensures PairsEnd(s, i, n) == Some(j)
    decreases n
  {
    var t := s[i..j];
    assert t[0] == s[i] && t[1] == s[i + 1];
    if n > 0 {
      if PairGroups(t[2..], n - 1) {
        assert t[2..] == s[i + 2..j];
        assert t[2..][0] == s[i + 2];
        PairsEndComplete(s, i + 2, j, n - 1);
      } else {
        assert t[3..] == s[i + 3..j];
        assert t[2] == s[i + 2];
        PairsEndComplete(s, i + 3, j, n - 1);
      }
    }
  }

  /** `QuadsAt` is the dotted form on the fourteen characters from `i`. */
  lemma QuadsAtSpec(s: string, i: nat)
    ensures QuadsAt(s, i) <==> i + 14 <= |s| && DotForm(s[i..i + 14])
  {
    if i + 14 <= |s| {
      var t := s[i..i + 14];
      assert forall k :: 0 <= k < 14 ==> t[k] == s[i + k];
    }
  }

  /** A match starts at `i` exactly when some substring starting at `i` is in the language. */
  lemma MatchAtSpec(s: string, i: nat)
    ensures MatchAt(s, i) <==> exists j :: i <= j <= |s| && MacShaped(s[i..j])
  {
    QuadsAtSpec(s, i);
    if MatchAt(s, i) {
      if PairsEnd(s, i, 5).Some? {
        PairsEndSound(s, i, 5);
        var j := PairsEnd(s, i, 5).value;
        assert MacShaped(s[i..j]);
      } else {
        assert MacShaped(s[i..i + 14]);
      }
    }
    if j :| i <= j <= |s| && MacShaped(s[i..j]) {
      if ColonDashForm(s[i..j]) {
        PairsEndComplete(s, i, j, 5);
      } else {
        assert j == i + 14;
      }
    }
  }

  /** `validateMAC(s)` holds exactly when some substring of `s` has one of the two shapes. */
  lemma ValidateMACCorrect(s: string)
    ensures ValidateMAC(s) <==> ContainsMac(s)
  {
    if ValidateMAC(s) {
      var i :| 0 <= i < |s| && MatchAt(s, i);
      MatchAtSpec(s, i);
    }
    if ContainsMac(s) {
      var i, j :| 0 <= i <= j <= |s| && MacShaped(s[i..j]);
      MatchAtSpec(s, i);
      if ColonDashForm(s[i..j]) {
        PairsEndComplete(s, i, j, 5);
      }
      assert MatchAt(s, i);
    }
  }

  // ---------------------------------------------------------------------------
  // Consequences
  // ---------------------------------------------------------------------------

  /** The match is not anchored: text around an accepted string does not make it rejected. */
  lemma SubstringLoose(p: string, s: string, q: string)
    requires ValidateMAC(s)
    ensures ValidateMAC(p + s + q)
  {
    ValidateMACCorrect(s);
    var i, j :| 0 <= i <= j <= |s| && MacShaped(s[i..j]);
    var w := p + s + q;
    assert w[|p| + i..|p| + j] == s[i..j];
    ValidateMACCorrect(w);
  }

  /** Six hex pairs joined by the given (possibly empty) separators. */
  function Interleave(pairs: seq<string>, seps: seq<string>): (t: string)
    requires |pairs| == |seps| + 1
    decreases seps
  {
    if seps == [] then pairs[0] else pairs[0] + seps[0] + Interleave(pairs[1..], seps[1..])
  }

  predicate IsHexPair(t: string) {
    |t| == 2 && IsHexDigit(t[0]) && IsHexDigit(t[1])
  }

  /** What `[:-]?` can match. */
  predicate IsOptionalSeparator(t: string) {
    t == "" || t == ":" || t == "-"
  }

  /** Hex pairs joined by optional separators belong to the first alternative's grammar. */
  lemma {:induction false} InterleaveGroups(pairs: seq<string>, seps: seq<string>)
    requires |pairs| == |seps| + 1
    requires forall k :: 0 <= k < |pairs| ==> IsHexPair(pairs[k])
    requires forall k :: 0 <= k < |seps| ==> IsOptionalSeparator(seps[k])
    ensures PairGroups(Interleave(pairs, seps), |seps|)
    decreases seps
  {
    var t := Interleave(pairs, seps);
    if seps != [] {
      InterleaveGroups(pairs[1..], seps[1..]);
      var rest := Interleave(pairs[1..], seps[1..]);
      assert t == pairs[0] + seps[0] + rest;
      assert t[0] == pairs[0][0] && t[1] == pairs[0][1];
      if seps[0] == "" {
        assert t[2..] == rest;
      } else {
        assert t[2] == seps[0][0];
        assert t[3..] == rest;
      }
    }
  }

  /**
    Each separator is optional and either ':' or '-' will do, independently:
    twelve bare hex digits and mixed separators are accepted alike.
   */
  lemma AnySeparatorsAccepted(pairs: seq<string>, seps: seq<string>)
    requires |pairs| == 6 && |seps| == 5
    requires forall k :: 0 <= k < 6 ==> IsHexPair(pairs[k])
    requires forall k :: 0 <= k < 5 ==> IsOptionalSeparator(seps[k])
    ensures ValidateMAC(Interleave(pairs, seps))
  {
    var t := Interleave(pairs, seps);
    InterleaveGroups(pairs, seps);
    assert t[0..|t|] == t;
    assert ContainsMac(t);
    ValidateMACCorrect(t);
  }

  /** Twelve consecutive hex digits, with no separators at all, are accepted. */
  lemma TwelveHexDigitsAccepted(t: string)
    requires |t| == 12 && forall k :: 0 <= k < 12 ==> IsHexDigit(t[k])
    ensures ValidateMAC(t)
  {
    var pairs := [t[0..2], t[2..4], t[4..6], t[6..8], t[8..10], t[10..12]];
    var seps := ["", "", "", "", ""];
    assert Interleave(pairs, seps) == t;
    AnySeparatorsAccepted(pairs, seps);
  }

  /** Three four-digit hex groups joined by dots are accepted. */
  lemma DottedQuadsAccepted(t: string)
    requires DotForm(t)
    ensures ValidateMAC(t)
  {
    QuadsAtSpec(t, 0);
    assert t[0..14] == t;
    assert MatchAt(t, 0);
  }

  /** Lower-casing changes no hex digit into a non-digit, nor a separator, nor a dot. */
  lemma LowerCharClasses(c: char)
    ensures IsHexDigit(GoStrings.LowerChar(c)) == IsHexDigit(c)
    ensures IsSeparator(GoStrings.LowerChar(c)) == IsSeparator(c)
    ensures (GoStrings.LowerChar(c) == '.') == (c == '.')
  {
  }

  lemma {:induction false} PairsEndLower(s: string, i: nat, n: nat)
    ensures PairsEnd(GoStrings.ToLower(s), i, n) == PairsEnd(s, i, n)
    decreases n
  {
    var l := GoStrings.ToLower(s);
    if i < |s| { LowerCharClasses(s[i]); }
    if i + 1 < |s| { LowerCharClasses(s[i + 1]); }
    if i + 2 < |s| { LowerCharClasses(s[i + 2]); }
    if n > 0 {
      PairsEndLower(s, i + 2, n - 1);
      PairsEndLower(s, i + 3, n - 1);
    }
  }

  /** Upper- and lower-case hex digits are accepted alike: lower-casing never changes the verdict. */
  lemma ValidateMACIgnoresCase(s: string)
    ensures ValidateMAC(GoStrings.ToLower(s)) == ValidateMAC(s)
  {
    var l := GoStrings.ToLower(s);
    forall i | 0 <= i < |s|
      ensures MatchAt(l, i) == MatchAt(s, i)
    {
      PairsEndLower(s, i, 5);
      forall k | i <= k < |s| && k < i + 14 {
        LowerCharClasses(s[k]);
      }
    }
  }

  /** The flag default `11:22:33:44:55:66` is a valid MAC address. */
  lemma DefaultMACAccepted()
    ensures ValidateMAC("11:22:33:44:55:66")
  {
    var s := "11:22:33:44:55:66";
    assert PairsEnd(s, 15, 0) == Some(17);
    assert PairsEnd(s, 12, 1) == Some(17);
    assert PairsEnd(s, 9, 2) == Some(17);
    assert PairsEnd(s, 6, 3) == Some(17);
    assert PairsEnd(s, 3, 4) == Some(17);
    assert PairsEnd(s, 0, 5) == Some(17);
    assert MatchAt(s, 0);
  }
}
