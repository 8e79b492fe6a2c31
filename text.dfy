/** The two string operations the transcript passes through: Python's
    `str.strip()` with no argument, and `sep.join(parts)`. */
module Text {

  /** Python's `str.isspace` for one character: the characters that `strip()`
      with no argument removes. */
  predicate IsSpace(c: char)
  {
    var n := c as int;
    (0x09 <= n <= 0x0D) || (0x1C <= n <= 0x20) || n == 0x85 || n == 0xA0 ||
    n == 0x1680 || (0x2000 <= n <= 0x200A) || n == 0x2028 || n == 0x2029 ||
    n == 0x202F || n == 0x205F || n == 0x3000
  }

  /** Among ASCII characters the whitespace is the space, the five control
      characters tab to carriage return, and the four separators 0x1C to 0x1F. */
  lemma AsciiWhitespace(c: char)
    requires c as int < 0x80
    ensures IsSpace(c) <==> c in " \t\n\U{0B}\U{0C}\r\U{1C}\U{1D}\U{1E}\U{1F}"
  {
  }

  predicate AllSpace(s: string)
  {
    forall k :: 0 <= k < |s| ==> IsSpace(s[k])
  }

  /** Neither end of `s` is whitespace. */
  predicate IsStripped(s: string)
  {
    s == [] || (!IsSpace(s[0]) && !IsSpace(s[|s| - 1]))
  }

  /** The first index at or after `i` that is not whitespace, or `|s|`: the
      left scan of `strip()`. */
  function SkipLeft(s: string, i: nat): (r: nat)
    requires i <= |s|
    ensures i <= r <= |s|
    ensures forall k :: i <= k < r ==> IsSpace(s[k])
    ensures r == |s| || !IsSpace(s[r])
    decreases |s| - i
  {
    if i < |s| && IsSpace(s[i]) then SkipLeft(s, i + 1) else i
  }

  /** The end of the last non-whitespace character in `s[lo..j]`, or `lo`: the
      right scan of `strip()`. */
  function SkipRight(s: string, lo: nat, j: nat): (r: nat)
    requires lo <= j <= |s|
    ensures lo <= r <= j
    ensures forall k :: r <= k < j ==> IsSpace(s[k])
    ensures r == lo || !IsSpace(s[r - 1])
    decreases j
  {
    if j > lo && IsSpace(s[j - 1]) then SkipRight(s, lo, j - 1) else j
  }

  /** `s.strip()`: `s` with whitespace removed from both ends. */
  function Strip(s: string): (r: string)
    ensures IsStripped(r) && |r| <= |s|
  {
    var i := SkipLeft(s, 0);
    s[i..SkipRight(s, i, |s|)]
  }

  /** What `strip()` removes is whitespace and nothing else: the result is a
      slice `s[i..i + |r|]` with only whitespace before and after it. */
  lemma StripIsSlice(s: string) returns (i: nat)
    ensures i + |Strip(s)| <= |s| && Strip(s) == s[i..i + |Strip(s)|]
    ensures AllSpace(s[..i]) && AllSpace(s[i + |Strip(s)|..])
  {
    i := SkipLeft(s, 0);
    var j := SkipRight(s, i, |s|);
    assert Strip(s) == s[i..j];
    assert forall k :: 0 <= k < i ==> s[..i][k] == s[k];
    assert forall k :: 0 <= k < |s| - j ==> s[j..][k] == s[j + k];
  }

  /** The whitespace characters around the kept slice are the only ones removed:
      `Strip(s)` is empty exactly when `s` is all whitespace. */
  lemma StripEmptyIffAllSpace(s: string)
    ensures Strip(s) == [] <==> AllSpace(s)
  {
    var r := Strip(s);
    var i := StripIsSlice(s);
    if r == [] {
      forall k | 0 <= k < |s| ensures IsSpace(s[k]) {
        if k < i { assert s[..i][k] == s[k]; } else { assert s[i..][k - i] == s[k]; }
      }
    }
  }

  /** Stripping a string with no whitespace at its ends changes nothing. */
  lemma StripStripped(s: string)
    requires IsStripped(s)
    ensures Strip(s) == s
  {
    if s != [] {
      assert SkipLeft(s, 0) == 0;
      assert SkipRight(s, 0, |s|) == |s|;
    }
  }

  /** `strip()` is idempotent. */
  lemma StripIdempotent(s: string)
    ensures Strip(Strip(s)) == Strip(s)
  {
    StripStripped(Strip(s));
  }

  /** Two words with no whitespace at their ends, put on either side of any
      separator, make a string that `strip()` leaves alone. */
  lemma StripOfSeparatedWords(a: string, sep: string, b: string)
    requires a != [] && IsStripped(a) && b != [] && IsStripped(b)
    ensures Strip(a + sep + b) == a + sep + b
  {
    var r := a + sep + b;
    assert r[0] == a[0] && r[|r| - 1] == b[|b| - 1];
    StripStripped(r);
  }

  /** `sep.join(parts)`: the parts in order with `sep` between neighbours. */
  function Join(sep: string, parts: seq<string>): (r: string)
    ensures parts == [] ==> r == []
    ensures parts != [] ==> parts[0] <= r
    ensures parts != [] ==> EndsWith(r, parts[|parts| - 1])
    decreases |parts|
  {
    if parts == [] then []
    else if |parts| == 1 then parts[0]
    else
      var rest := Join(sep, parts[1..]);
      var r := parts[0] + sep + rest;
      assert r[|r| - |rest|..] == rest;
      r
  }

  predicate EndsWith(s: string, suffix: string)
  {
    |suffix| <= |s| && s[|s| - |suffix|..] == suffix
  }

  /** Unfolding one part off the front of a join. */
  lemma JoinCons(sep: string, part: string, rest: seq<string>)
    requires rest != []
    ensures Join(sep, [part] + rest) == part + sep + Join(sep, rest)
  {
    assert ([part] + rest)[1..] == rest;
  }

  /** The summed length of the parts. */
  function SumLengths(parts: seq<string>): nat
  {
    if parts == [] then 0 else |parts[0]| + SumLengths(parts[1..])
  }

  /** A join of `n` parts holds their characters plus `n - 1` separators; an
      empty part still contributes its separator. */
  lemma {:induction false} JoinLength(sep: string, parts: seq<string>)
    requires parts != []
    ensures |Join(sep, parts)| == SumLengths(parts) + (|parts| - 1) * |sep|
  {
    if |parts| > 1 {
      var rest := parts[1..];
      JoinLength(sep, rest);
      assert |Join(sep, parts)| == |parts[0]| + |sep| + |Join(sep, rest)|;
      assert SumLengths(parts) == |parts[0]| + SumLengths(rest);
      assert (|parts| - 1) * |sep| == |sep| + (|rest| - 1) * |sep|;
    }
  }

  /** Joining non-empty stripped parts, whatever the separator,
      yields a stripped string, so a further strip would change nothing. */
  lemma JoinOfStrippedIsStripped(sep: string, parts: seq<string>)
    requires forall j :: 0 <= j < |parts| ==> parts[j] != [] && IsStripped(parts[j])
    ensures IsStripped(Join(sep, parts))
  {
    if parts != [] {
      var r := Join(sep, parts);
      var last := parts[|parts| - 1];
      assert r[0] == parts[0][0];
      assert r[|r| - 1] == r[|r| - |last|..][|last| - 1];
    }
  }
}
