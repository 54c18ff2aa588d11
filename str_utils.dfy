/**
 * `str_utils`: ASCII lower-casing, whitespace trimming and prefix / suffix
 * tests over byte strings, with the character classes of the "C" locale.
 */
module StrUtils {

  /** `std::isspace` in the "C" locale: space, and '\t' '\n' '\v' '\f' '\r'. */
  predicate IsSpace(c: char) {
    c == ' ' || '\t' <= c <= '\r'
  }

  predicate IsUpper(c: char) {
    'A' <= c <= 'Z'
  }

  /** `std::tolower` in the "C" locale: only 'A'..'Z' change. */
  function LowerChar(c: char): (l: char)
    ensures IsUpper(c) ==> l as int == c as int + 32
    ensures !IsUpper(c) ==> l == c
    ensures !IsUpper(l)
  {
    if IsUpper(c) then (c as int + 32) as char else c
  }

  /** The string `to_lower` builds: each byte lowered on its own. */
  function Lower(s: seq<char>): (r: seq<char>)
    ensures |r| == |s|
    ensures forall i :: 0 <= i < |s| ==> r[i] == LowerChar(s[i])
  {
    seq(|s|, i requires 0 <= i < |s| => LowerChar(s[i]))
  }

  /** Lowering twice is lowering once. */
  lemma {:induction false} LowerIdempotent(s: seq<char>)
    ensures Lower(Lower(s)) == Lower(s)
  {
    assert forall i :: 0 <= i < |s| ==> Lower(Lower(s))[i] == Lower(s)[i];
  }

  /** Two strings that differ only in the case of their letters lower to
      the same string. */
  lemma {:induction false} LowerCaseInsensitive(s: seq<char>, t: seq<char>)
    requires |s| == |t|
    requires forall i :: 0 <= i < |s| ==> LowerChar(s[i]) == LowerChar(t[i])
    ensures Lower(s) == Lower(t)
  {
  }

  /** `to_lower`: a fresh string, one `push_back` per input byte. */
  method ToLower(str: seq<char>) returns (res: seq<char>)
    ensures |res| == |str|
    ensures forall i :: 0 <= i < |str| ==> res[i] == LowerChar(str[i])
  {
    res := [];
    for i := 0 to |str|
      invariant |res| == i
      invariant forall k :: 0 <= k < i ==> res[k] == LowerChar(str[k])
    {
      res := res + [LowerChar(str[i])];
    }
  }

  predicate AllSpace(s: seq<char>) {
    forall i :: 0 <= i < |s| ==> IsSpace(s[i])
  }

  /** `trim_left`: the view after the longest run of leading whitespace. */
  method TrimLeft(line: seq<char>) returns (r: seq<char>)
    ensures |r| <= |line| && r == line[|line| - |r|..]
    ensures AllSpace(line[..|line| - |r|])
    ensures |r| > 0 ==> !IsSpace(r[0])
  {
    var left := 0;
    while left != |line|
      invariant left <= |line|
      invariant AllSpace(line[..left])
    {
      if !IsSpace(line[left]) {
        break;
      }
      left := left + 1;
    }
    r := line[left..];
  }

  /** `trim_right`: the view before the longest run of trailing whitespace. */
  method TrimRight(line: seq<char>) returns (r: seq<char>)
    ensures |r| <= |line| && r == line[..|r|]
    ensures AllSpace(line[|r|..])
    ensures |r| > 0 ==> !IsSpace(r[|r| - 1])
  {
    // `right` counts the bytes the reverse iterator has not yet passed.
    var right: nat := |line|;
    while right != 0
      invariant right <= |line|
      invariant AllSpace(line[right..])
    {
      if !IsSpace(line[right - 1]) {
        break;
      }
      right := right - 1;
    }
    r := line[..right];
  }

  /** `trim`: `trim_right` of `trim_left`. What is left is a contiguous
      piece of the line with only whitespace around it, neither starting
      nor ending with whitespace; it is empty exactly when the whole line is
      whitespace. */
  method Trim(line: seq<char>) returns (r: seq<char>)
    ensures exists a, b ::
      (0 <= a <= b <= |line| && r == line[a..b] && AllSpace(line[..a]) && AllSpace(line[b..]))
    ensures |r| > 0 ==> !IsSpace(r[0]) && !IsSpace(r[|r| - 1])
    ensures |r| == 0 <==> AllSpace(line)
  {
    var str := TrimLeft(line);
    var a := |line| - |str|;
    r := TrimRight(str);
    var b := a + |r|;
    assert r == line[a..b];
    assert line[b..] == str[|r|..];
    if |r| == 0 {
      assert line == line[..a] + line[b..];
    } else {
      assert r[0] == str[0];
      assert !IsSpace(line[a]);
    }
  }

  /** `starts_with`: a length check, then a byte comparison. */
  function StartsWith(str: seq<char>, prefix: seq<char>): bool {
    if |str| < |prefix| then false else str[..|prefix|] == prefix
  }

  /** `ends_with`: a length check, then a byte comparison of the tail. */
  function EndsWith(str: seq<char>, postfix: seq<char>): bool {
    if |str| < |postfix| then false else str[|str| - |postfix|..] == postfix
  }

  /** `starts_with(s, p)` holds exactly when `s` is `p` followed by something. */
  lemma {:induction false} StartsWithIff(str: seq<char>, prefix: seq<char>)
    ensures StartsWith(str, prefix) <==> exists rest :: str == prefix + rest
  {
    if StartsWith(str, prefix) {
      assert str == prefix + str[|prefix|..];
    }
    if exists rest :: str == prefix + rest {
      var rest :| str == prefix + rest;
      assert str[..|prefix|] == prefix;
    }
  }

  /** `ends_with(s, p)` holds exactly when `s` is something followed by `p`. */
  lemma {:induction false} EndsWithIff(str: seq<char>, postfix: seq<char>)
    ensures EndsWith(str, postfix) <==> exists front :: str == front + postfix
  {
    if EndsWith(str, postfix) {
      assert str == str[..|str| - |postfix|] + postfix;
    }
    if exists front :: str == front + postfix {
      var front :| str == front + postfix;
      assert str[|front|..] == postfix;
    }
  }

  /** The empty string is a prefix and a suffix of every string. */
  lemma {:induction false} EmptyAffix(str: seq<char>)
    ensures StartsWith(str, []) && EndsWith(str, [])
  {
    assert str[..0] == [];
    assert str[|str|..] == [];
  }
}
