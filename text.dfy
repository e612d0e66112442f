/** ASCII string helpers standing in for the JavaScript string methods the
    optimizer uses: toLowerCase, includes, join and trim. */
module Text {

  /** Lower-cases one ASCII letter; every other character is unchanged. */
  function LowerChar(c: char): char {
    if 'A' <= c <= 'Z' then (c as int + 32) as char else c
  }

  /** String.prototype.toLowerCase restricted to ASCII. */
  function ToLower(s: string): (r: string)
    ensures |r| == |s|
    ensures forall i :: 0 <= i < |s| ==> r[i] == LowerChar(s[i])
  {
    seq(|s|, i requires 0 <= i < |s| => LowerChar(s[i]))
  }

  /** `w` occurs in `text` starting at index `i`. */
  predicate OccursAt(text: string, w: string, i: int) {
    0 <= i && i + |w| <= |text| && text[i..i + |w|] == w
  }

  /** String.prototype.includes: `w` occurs somewhere in `text`. */
  predicate Contains(text: string, w: string) {
    exists i :: 0 <= i <= |text| - |w| && OccursAt(text, w, i)
  }

  /** Array.prototype.join(sep). */
  function Join(parts: seq<string>, sep: string): string {
    if |parts| == 0 then ""
    else if |parts| == 1 then parts[0]
    else parts[0] + sep + Join(parts[1..], sep)
  }

  /** ASCII whitespace, as matched by the `\s` class and removed by trim. */
  predicate IsSpace(c: char) {
    c == ' ' || c == '\t' || c == '\n' || c == '\r' || c == '\U{B}' || c == '\U{C}'
  }

  predicate IsDigit(c: char) {
    '0' <= c <= '9'
  }

  predicate AllDigits(d: string) {
    forall j :: 0 <= j < |d| ==> IsDigit(d[j])
  }

  /** 10 to the power `n`, and 1 for a negative `n`. */
  function Pow10(n: int): (p: nat)
    ensures p >= 1
    decreases n
  {
    if n <= 0 then 1 else 10 * Pow10(n - 1)
  }

  /** The value of a decimal digit string, most significant digit first. */
  function DigitsValue(d: string): (v: int)
    ensures AllDigits(d) ==> 0 <= v < Pow10(|d|)
    decreases |d|
  {
    if |d| == 0 then 0
    else DigitsValue(d[..|d| - 1]) * 10 + (d[|d| - 1] as int - '0' as int)
  }

  /** Every character is whitespace. */
  predicate AllSpace(s: string) {
    forall k :: 0 <= k < |s| ==> IsSpace(s[k])
  }

  /** The text without its leading whitespace. */
  function TrimStart(s: string): (r: string)
    ensures |r| <= |s|
    ensures |r| > 0 ==> !IsSpace(r[0])
    decreases |s|
  {
    if |s| > 0 && IsSpace(s[0]) then TrimStart(s[1..]) else s
  }

  /** TrimStart keeps a suffix of the text, and everything before that
      suffix is whitespace. */
  lemma {:induction false} TrimStartSpec(s: string)
    ensures var r := TrimStart(s); r == s[|s| - |r|..] && AllSpace(s[..|s| - |r|])
    decreases |s|
  {
    if |s| > 0 && IsSpace(s[0]) {
      var r := TrimStart(s[1..]);
      TrimStartSpec(s[1..]);
      assert s[..|s| - |r|] == [s[0]] + s[1..][..|s| - 1 - |r|];
      assert s[1..][|s| - 1 - |r|..] == s[|s| - |r|..];
    }
  }

  /** The text without its trailing whitespace. */
  function TrimEnd(s: string): (r: string)
    ensures |r| <= |s|
    ensures |r| > 0 ==> !IsSpace(r[|r| - 1])
    decreases |s|
  {
    if |s| > 0 && IsSpace(s[|s| - 1]) then TrimEnd(s[..|s| - 1]) else s
  }

  /** TrimEnd keeps a prefix of the text, and everything after that prefix
      is whitespace. */
  lemma {:induction false} TrimEndSpec(s: string)
    ensures var r := TrimEnd(s); r == s[..|r|] && AllSpace(s[|r|..])
    decreases |s|
  {
    if |s| > 0 && IsSpace(s[|s| - 1]) {
      var r := TrimEnd(s[..|s| - 1]);
      TrimEndSpec(s[..|s| - 1]);
      assert s[|r|..] == s[..|s| - 1][|r|..] + [s[|s| - 1]];
      assert s[..|s| - 1][..|r|] == s[..|r|];
    }
  }

  /** String.prototype.trim restricted to ASCII whitespace. */
  function Trim(s: string): (r: string)
    ensures |r| <= |s|
    ensures |r| > 0 ==> !IsSpace(r[0]) && !IsSpace(r[|r| - 1])
  {
    var a := TrimStart(s);
    TrimEndSpec(a);
    TrimEnd(a)
  }

  /** trim keeps exactly the middle part `s[i..j]` of the text, where
      `s[..i]` and `s[j..]` are all whitespace and the middle part neither
      starts nor ends with it; an all-whitespace text trims to "". */
  lemma TrimSpec(s: string)
    ensures exists i, j :: 0 <= i <= j <= |s| && Trim(s) == s[i..j] && AllSpace(s[..i]) && AllSpace(s[j..])
    ensures Trim(s) == "" <==> AllSpace(s)
  {
    var a := TrimStart(s);
    var r := TrimEnd(a);
    var i := |s| - |a|;
    TrimStartSpec(s);
    TrimEndSpec(a);
    assert r == s[i..i + |r|];
    assert s[i + |r|..] == a[|r|..];
    if r == "" {
      assert s[..i] == s;
    } else {
      assert !IsSpace(s[i]);
    }
  }
}
