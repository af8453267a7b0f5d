/** The two JavaScript string operations the validation rules rely on:
    `String.prototype.trim` and `String.prototype.toLowerCase`.
    Characters are Dafny `char`s and length is the number of characters. */
module JsString {

  /** ECMAScript WhiteSpace and LineTerminator code points: exactly the
      characters `trim` strips from both ends. */
  predicate IsWhitespace(c: char)
  {
    var n := c as int;
    || n == 0x09 || n == 0x0A || n == 0x0B || n == 0x0C || n == 0x0D
    || n == 0x20 || n == 0xA0 || n == 0x1680
    || (0x2000 <= n <= 0x200A)
    || n == 0x2028 || n == 0x2029 || n == 0x202F || n == 0x205F
    || n == 0x3000 || n == 0xFEFF
  }

  /** A string made only of whitespace (the empty string included). */
  predicate IsBlank(s: string)
  {
    forall i | 0 <= i < |s| :: IsWhitespace(s[i])
  }

  /** `s.trim()`: strips whitespace from both ends. The result is empty
      exactly for a blank string, otherwise it begins and ends with a
      non-whitespace character; a string that already does so is returned
      unchanged. */
  function Trim(s: string): (r: string)
    ensures |r| <= |s|
    ensures r == [] <==> IsBlank(s)
    ensures r != [] ==> !IsWhitespace(r[0]) && !IsWhitespace(r[|r| - 1])
    ensures s == [] || (!IsWhitespace(s[0]) && !IsWhitespace(s[|s| - 1])) ==> r == s
    decreases |s|
  {
    if s == [] then s
    else if IsWhitespace(s[0]) then
      var r := Trim(s[1..]);
      assert IsBlank(s[1..]) ==> IsBlank(s) by {
        if IsBlank(s[1..]) {
          forall i | 1 <= i < |s| ensures IsWhitespace(s[i]) {
            assert s[i] == s[1..][i - 1];
          }
        }
      }
      r
    else if IsWhitespace(s[|s| - 1]) then
      Trim(s[..|s| - 1])
    else
      s
  }

  /** Trimming only removes characters, never adds or changes one. */
  lemma {:induction false} TrimRemovesOnly(s: string)
    ensures multiset(Trim(s)) <= multiset(s)
    decreases |s|
  {
    if s != [] && IsWhitespace(s[0]) {
      TrimRemovesOnly(s[1..]);
      assert Trim(s) == Trim(s[1..]);
      assert s == [s[0]] + s[1..];
      assert multiset(s) == multiset([s[0]]) + multiset(s[1..]);
    } else if s != [] && IsWhitespace(s[|s| - 1]) {
      TrimRemovesOnly(s[..|s| - 1]);
      assert Trim(s) == Trim(s[..|s| - 1]);
      assert s == s[..|s| - 1] + [s[|s| - 1]];
      assert multiset(s) == multiset(s[..|s| - 1]) + multiset([s[|s| - 1]]);
    }
  }

  /** `trim` returns a contiguous middle slice of its input whose two cut
      ends are blank; with Trim's own contract (the slice begins and ends
      with non-whitespace) this fixes exactly which characters it keeps. */
  lemma {:induction false} TrimIsMiddleSlice(s: string) returns (i: nat, j: nat)
    ensures i <= j <= |s|
    ensures Trim(s) == s[i..j]
    ensures IsBlank(s[..i]) && IsBlank(s[j..])
    decreases |s|
  {
    if s == [] {
      i, j := 0, 0;
    } else if IsWhitespace(s[0]) {
      var i', j' := TrimIsMiddleSlice(s[1..]);
      BlankEndsAfterFirst(s, i', j');
      i, j := i' + 1, j' + 1;
    } else if IsWhitespace(s[|s| - 1]) {
      i, j := TrimIsMiddleSlice(s[..|s| - 1]);
      BlankEndsBeforeLast(s, i, j);
    } else {
      i, j := 0, |s|;
    }
  }

  /** A middle slice of `s[1..]` with blank ends, seen inside `s` whose
      first character is whitespace. */
  lemma BlankEndsAfterFirst(s: string, i: nat, j: nat)
    requires s != [] && IsWhitespace(s[0]) && i <= j <= |s| - 1
    requires IsBlank(s[1..][..i]) && IsBlank(s[1..][j..])
    ensures s[1..][i..j] == s[i + 1..j + 1]
    ensures IsBlank(s[..i + 1]) && IsBlank(s[j + 1..])
  {
    forall k | 0 < k < i + 1 ensures IsWhitespace(s[k]) {
      assert s[k] == s[1..][..i][k - 1];
    }
    assert s[j + 1..] == s[1..][j..];
  }

  /** A middle slice of `s[..|s| - 1]` with blank ends, seen inside `s`
      whose last character is whitespace. */
  lemma BlankEndsBeforeLast(s: string, i: nat, j: nat)
    requires s != [] && IsWhitespace(s[|s| - 1]) && i <= j <= |s| - 1
    requires IsBlank(s[..|s| - 1][..i]) && IsBlank(s[..|s| - 1][j..])
    ensures s[..|s| - 1][i..j] == s[i..j]
    ensures IsBlank(s[..i]) && IsBlank(s[j..])
  {
    assert s[..i] == s[..|s| - 1][..i];
    forall k | j <= k < |s| - 1 ensures IsWhitespace(s[k]) {
      assert s[k] == s[..|s| - 1][j..][k - j];
    }
  }

  /** Lower-cases one character: ASCII `A`..`Z` map to `a`..`z`, every
      other character is left alone. */
  function LowerChar(c: char): char
  {
    if 'A' <= c <= 'Z' then (c as int + 32) as char else c
  }

  /** `s.toLowerCase()`, character by character. */
  function ToLowerCase(s: string): (r: string)
    ensures |r| == |s|
    ensures forall i | 0 <= i < |s| :: r[i] == LowerChar(s[i])
  {
    seq(|s|, i requires 0 <= i < |s| => LowerChar(s[i]))
  }

  /** Lower-casing never produces an upper-case ASCII letter, and it
      leaves a string without upper-case ASCII letters unchanged. */
  lemma ToLowerCaseFixedPoints(s: string)
    ensures forall i | 0 <= i < |s| :: !('A' <= ToLowerCase(s)[i] <= 'Z')
    ensures ToLowerCase(s) == s <==> forall i | 0 <= i < |s| :: !('A' <= s[i] <= 'Z')
  {
    if forall i | 0 <= i < |s| :: !('A' <= s[i] <= 'Z') {
      assert ToLowerCase(s) == s;
    }
    if ToLowerCase(s) == s {
      forall i | 0 <= i < |s|
        ensures !('A' <= s[i] <= 'Z')
      {
        assert s[i] == ToLowerCase(s)[i];
      }
    }
  }
}
