/**
  The two operations of Go's `strings` package that the configuration code
  uses: `strings.ToLower` and `strings.Replace(s, ":", "", -1)`.
 */
module GoStrings {

  /** ASCII upper-case letter. */
  predicate IsAsciiUpper(c: char) {
    'A' <= c <= 'Z'
  }

  /** Lower-case one character: ASCII letters are shifted, everything else is kept. */
  function LowerChar(c: char): (r: char)
    ensures !IsAsciiUpper(r)
    ensures IsAsciiUpper(c) ==> r as int == c as int + 32
    ensures !IsAsciiUpper(c) ==> r == c
  {
    if IsAsciiUpper(c) then (c as int + 32) as char else c
  }

  /** `strings.ToLower`, character by character. */
  function ToLower(s: string): (r: string)
    ensures |r| == |s|
    ensures forall k :: 0 <= k < |r| ==> r[k] == LowerChar(s[k])
    ensures forall k :: 0 <= k < |r| ==> !IsAsciiUpper(r[k])
  {
    seq(|s|, k requires 0 <= k < |s| => LowerChar(s[k]))
  }

  /** Lower-casing a lower-cased string changes nothing. */
  lemma ToLowerIdempotent(s: string)
    ensures ToLower(ToLower(s)) == ToLower(s)
  {
    var t := ToLower(s);
    assert forall k :: 0 <= k < |t| ==> LowerChar(t[k]) == t[k];
  }

  /** Lower-casing never turns another character into ':' nor ':' into anything else. */
  lemma ColonSurvivesLower(s: string)
    ensures (':' in ToLower(s)) == (':' in s)
  {
    var l := ToLower(s);
    if ':' in s {
      var k :| 0 <= k < |s| && s[k] == ':';
      assert l[k] == ':';
    }
    if ':' in l {
      var k :| 0 <= k < |l| && l[k] == ':';
      assert s[k] == ':';
    }
  }

  /** `strings.Replace(s, ":", "", -1)`: every ':' removed, everything else kept in order. */
  function StripColons(s: string): (r: string)
    ensures ':' !in r
    ensures |r| <= |s|
    ensures ':' in s ==> |r| < |s|
  {
    if s == [] then []
    else if s[0] == ':' then StripColons(s[1..])
    else [s[0]] + StripColons(s[1..])
  }

  /** Removing colons distributes over concatenation, so the order of the kept characters is preserved. */
  lemma {:induction false} StripColonsConcat(a: string, b: string)
    ensures StripColons(a + b) == StripColons(a) + StripColons(b)
  {
    if a == [] {
      assert a + b == b;
    } else {
      assert (a + b)[1..] == a[1..] + b;
      StripColonsConcat(a[1..], b);
    }
  }

  /** A string without colons is left as it is. */
  lemma {:induction false} StripColonsKeepsColonFree(s: string)
    requires ':' !in s
    ensures StripColons(s) == s
  {
    if s != [] {
      assert s == [s[0]] + s[1..];
      StripColonsKeepsColonFree(s[1..]);
    }
  }

  /** Every character other than ':' occurs in the result exactly as often as in the input. */
  lemma {:induction false} StripColonsCounts(s: string, c: char)
    requires c != ':'
    ensures multiset(StripColons(s))[c] == multiset(s)[c]
  {
    if s != [] {
      assert s == [s[0]] + s[1..];
      StripColonsCounts(s[1..], c);
    }
  }
}
