/** The Python string primitives the analyzer relies on, over ASCII:
    character classes, `str.lower`, `str.strip`, `str.split()` and `' '.join`. */
module Text {

  predicate IsDigit(c: char) { '0' <= c <= '9' }
  predicate IsUpper(c: char) { 'A' <= c <= 'Z' }
  predicate IsLowerLetter(c: char) { 'a' <= c <= 'z' }
  predicate IsLetter(c: char) { IsUpper(c) || IsLowerLetter(c) }

  /** A character of the regular-expression class `\w`. */
  predicate IsWordChar(c: char) { IsLetter(c) || IsDigit(c) || c == '_' }

  /** `str.isspace` on one character: tab, newline, vertical tab, form feed,
      carriage return, the four separators 0x1C-0x1F, and space. */
  predicate IsSpace(c: char) { c == ' ' || 9 <= c as int <= 13 || 28 <= c as int <= 31 }

  predicate AllSpace(t: string) { forall k :: 0 <= k < |t| ==> IsSpace(t[k]) }
  predicate NoSpace(t: string) { forall k :: 0 <= k < |t| ==> !IsSpace(t[k]) }
  predicate NoUpper(t: string) { forall k :: 0 <= k < |t| ==> !IsUpper(t[k]) }

  /** `str.lower` on one character. */
  function LowerChar(c: char): (d: char)
    ensures !IsUpper(d)
    ensures IsUpper(c) ==> IsLowerLetter(d)
    ensures !IsUpper(c) ==> d == c
    ensures IsLetter(d) == IsLetter(c) && IsWordChar(d) == IsWordChar(c) && IsSpace(d) == IsSpace(c)
  {
    if IsUpper(c) then (c as int + 32) as char else c
  }

  /** `str.lower`: upper-case letters become lower-case, every other character stays. */
  function Lower(s: string): (r: string)
    ensures |r| == |s| && NoUpper(r)
    ensures forall i :: 0 <= i < |s| && !IsUpper(s[i]) ==> r[i] == s[i]
    ensures forall i :: 0 <= i < |s| && IsUpper(s[i]) ==> IsLowerLetter(r[i])
  {
    seq(|s|, i requires 0 <= i < |s| => LowerChar(s[i]))
  }

  lemma LowerConcat(a: string, b: string)
    ensures Lower(a + b) == Lower(a) + Lower(b)
  {
    assert forall i :: 0 <= i < |a + b| ==> Lower(a + b)[i] == (Lower(a) + Lower(b))[i];
  }

  /** Lowering changes nothing in a string without upper-case letters. */
  lemma LowerOfNoUpper(s: string)
    requires NoUpper(s)
    ensures Lower(s) == s
  {
    assert forall i :: 0 <= i < |s| ==> Lower(s)[i] == s[i];
  }

  /** `str.lstrip()`: the suffix left after dropping leading whitespace. */
  function TrimStart(s: string): (r: string)
    ensures |r| <= |s| && r == s[|s| - |r|..]
    ensures AllSpace(s[..|s| - |r|])
    ensures r == [] || !IsSpace(r[0])
    decreases |s|
  {
    if |s| > 0 && IsSpace(s[0]) then
      var r := TrimStart(s[1..]);
      var n := |s| - |r|;
      assert s[1..][n - 1..] == s[n..];
      assert forall k :: 1 <= k < n ==> s[k] == s[1..][..n - 1][k - 1];
      r
    else s
  }

  /** `str.rstrip()`: the prefix left after dropping trailing whitespace. */
  function TrimEnd(s: string): (r: string)
    ensures |r| <= |s| && r == s[..|r|]
    ensures AllSpace(s[|r|..])
    ensures r == [] || !IsSpace(r[|r| - 1])
    decreases |s|
  {
    if |s| > 0 && IsSpace(s[|s| - 1]) then
      var r := TrimEnd(s[..|s| - 1]);
      assert s[|r|..] == s[..|s| - 1][|r|..] + [s[|s| - 1]];
      r
    else s
  }

  /** `str.strip()`. */
  function Strip(s: string): (r: string)
    ensures r == [] <==> AllSpace(s)
    ensures r == [] || (!IsSpace(r[0]) && !IsSpace(r[|r| - 1]))
  {
    var t := TrimStart(s);
    var r := TrimEnd(t);
    assert AllSpace(s) ==> t == [] by {
      if t != [] {
        assert t[0] == s[|s| - |t|];
      }
    }
    assert r == [] ==> AllSpace(s) by {
      if r == [] {
        assert t[|r|..] == t;
        assert t == [];
        assert s[..|s| - |t|] == s;
      }
    }
    r
  }

  /** Python's `str.strip()` removes exactly a whitespace prefix and a whitespace suffix. */
  lemma StripSlice(s: string) returns (i: nat, j: nat)
    ensures i <= j <= |s| && Strip(s) == s[i..j]
    ensures AllSpace(s[..i]) && AllSpace(s[j..])
  {
    var t := TrimStart(s);
    var r := TrimEnd(t);
    i, j := |s| - |t|, |s| - |t| + |r|;
    assert s[j..] == t[|r|..];
  }

  /** A string whose ends are not whitespace is its own strip. */
  lemma StripOfTrimmed(s: string)
    requires s == [] || (!IsSpace(s[0]) && !IsSpace(s[|s| - 1]))
    ensures Strip(s) == s
  {
  }

  lemma StripIdempotent(s: string)
    ensures Strip(Strip(s)) == Strip(s)
  {
    StripOfTrimmed(Strip(s));
  }

  /** Lower-casing keeps whitespace where it is, so it commutes with stripping. */
  lemma LowerOfStripped(s: string)
    requires s == [] || (!IsSpace(s[0]) && !IsSpace(s[|s| - 1]))
    ensures Strip(Lower(s)) == Lower(s)
  {
    StripOfTrimmed(Lower(s));
  }

  /** The token being built, if any, as a list of zero or one tokens. */
  function Flush(cur: string): seq<string>
  {
    if cur == [] then [] else [cur]
  }

  /** `str.split()` with no separator, scanning `s` with `cur` the token read so far. */
  function SplitFrom(s: string, cur: string): (r: seq<string>)
    requires NoSpace(cur)
    ensures forall t :: t in r ==> |t| > 0 && NoSpace(t)
    decreases |s|
  {
    if |s| == 0 then Flush(cur)
    else if IsSpace(s[0]) then Flush(cur) + SplitFrom(s[1..], [])
    else SplitFrom(s[1..], cur + [s[0]])
  }

  /** `str.split()`: the maximal runs of non-whitespace characters, in order. */
  function Split(s: string): (r: seq<string>)
    ensures forall t :: t in r ==> |t| > 0 && NoSpace(t)
  {
    SplitFrom(s, [])
  }

  /** The number of characters in all of `ms` together. */
  function TotalLength(ms: seq<string>): nat
  {
    if |ms| == 0 then 0 else |ms[0]| + TotalLength(ms[1..])
  }

  /** `' '.join(ms)`: the strings of `ms` in order, one space between neighbours. */
  function Join(ms: seq<string>): (r: string)
    ensures |ms| == 0 ==> r == []
    ensures |ms| > 0 ==> |r| == TotalLength(ms) + |ms| - 1
  {
    if |ms| == 0 then ""
    else if |ms| == 1 then ms[0]
    else ms[0] + " " + Join(ms[1..])
  }

  /** Any whitespace character separates tokens: splitting `a + [c] + b` splits `a` and
      `b` apart. */
  lemma {:induction false} SplitFromSeparator(a: string, c: char, b: string, cur: string)
    requires NoSpace(cur) && IsSpace(c)
    ensures SplitFrom(a + [c] + b, cur) == SplitFrom(a, cur) + Split(b)
    decreases |a|
  {
    var s := a + [c] + b;
    if |a| == 0 {
      assert s[0] == c && s[1..] == b;
    } else {
      assert s[0] == a[0] && s[1..] == a[1..] + [c] + b;
      if IsSpace(a[0]) {
        SplitFromSeparator(a[1..], c, b, []);
      } else {
        SplitFromSeparator(a[1..], c, b, cur + [a[0]]);
      }
    }
  }

  /** Splitting at a whitespace character splits both sides apart. */
  lemma SplitAtSpace(a: string, c: char, b: string)
    requires IsSpace(c)
    ensures Split(a + [c] + b) == Split(a) + Split(b)
  {
    SplitFromSeparator(a, c, b, []);
  }

  /** A run of non-whitespace characters is read onto the token being built. */
  lemma {:induction false} SplitFromWord(t: string, cur: string)
    requires NoSpace(cur) && NoSpace(t)
    ensures SplitFrom(t, cur) == Flush(cur + t)
    decreases |t|
  {
    if |t| == 0 {
      assert cur + t == cur;
    } else {
      assert !IsSpace(t[0]);
      assert cur + t == (cur + [t[0]]) + t[1..];
      SplitFromWord(t[1..], cur + [t[0]]);
    }
  }

  /** Splitting undoes joining tokens that are non-empty and hold no whitespace. */
  lemma {:induction false} SplitJoin(ts: seq<string>)
    requires forall t :: t in ts ==> |t| > 0 && NoSpace(t)
    ensures Split(Join(ts)) == ts
  {
    if |ts| == 1 {
      SplitFromWord(ts[0], []);
      assert [] + ts[0] == ts[0];
    } else if |ts| > 1 {
      var rest := Join(ts[1..]);
      assert Join(ts) == ts[0] + [' '] + rest;
      SplitAtSpace(ts[0], ' ', rest);
      SplitFromWord(ts[0], []);
      assert [] + ts[0] == ts[0];
      SplitJoin(ts[1..]);
      assert ts == [ts[0]] + ts[1..];
    }
  }

  /** Splitting a string without upper-case letters yields tokens without them. */
  lemma {:induction false} SplitFromNoUpper(s: string, cur: string)
    requires NoSpace(cur) && NoUpper(cur) && NoUpper(s)
    ensures forall t :: t in SplitFrom(s, cur) ==> NoUpper(t)
    decreases |s|
  {
    if |s| > 0 {
      if IsSpace(s[0]) {
        SplitFromNoUpper(s[1..], []);
      } else {
        SplitFromNoUpper(s[1..], cur + [s[0]]);
      }
    }
  }

  /** A tab separates tokens as a space does. */
  lemma SplitTab(s: string)
    requires s == "a\tb"
    ensures Split(s) == ["a", "b"]
  {
    assert s == "a" + ['\t'] + "b";
    SplitAtSpace("a", '\t', "b");
    SplitFromWord("a", []);
    SplitFromWord("b", []);
    assert [] + "a" == "a" && [] + "b" == "b";
  }
}
