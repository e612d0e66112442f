/** parseStat of js/optimizer.js:369-388: a stat line such as
    "+10% Fire Damage" becomes a key and a value. Two regular expressions are
    tried in turn, `([+-]?\d+(?:\.\d+)?)\s*%?\s+(.+)` and
    `(.+?):\s*([+-]?\d+(?:\.\d+)?%?)`; the first group goes through
    parseFloat and becomes the value, the second is trimmed and becomes the
    key; with no usable match the line itself is the key and the value is 1.

    The regular expressions are modelled by what their backtracking search
    returns, scanning start positions from the left. `.` is taken to match
    every character (stat lines are single lines) and `\s` is ASCII
    whitespace. */
module StatParse {
  import opened Basics
  import opened Text

  datatype Parsed = Parsed(key: string, value: real)

  predicate IsSign(c: char) {
    c == '+' || c == '-'
  }

  /** The number of consecutive digits from index `i`. */
  function DigitRun(s: string, i: nat): (n: nat)
    requires i <= |s|
    ensures i + n <= |s|
    ensures i + n == |s| || !IsDigit(s[i + n])
    decreases |s| - i
  {
    if i < |s| && IsDigit(s[i]) then 1 + DigitRun(s, i + 1) else 0
  }

  /** The number of consecutive whitespace characters from index `i`. */
  function SpaceRun(s: string, i: nat): (n: nat)
    requires i <= |s|
    ensures i + n <= |s|
    ensures i + n == |s| || !IsSpace(s[i + n])
    decreases |s| - i
  {
    if i < |s| && IsSpace(s[i]) then 1 + SpaceRun(s, i + 1) else 0
  }

  /** The value of the digit string `s[i..j]`, read in place. */
  function DigitsIn(s: string, i: nat, j: nat): int
    requires i <= j <= |s|
    decreases j - i
  {
    if j == i then 0 else DigitsIn(s, i, j - 1) * 10 + (s[j - 1] as int - '0' as int)
  }

  /** `x` divided by 10 `n` times, that is `x / 10^n`. */
  function Shift(x: real, n: int): real
    decreases n
  {
    if n <= 0 then x else Shift(x, n - 1) / 10.0
  }

  /** The value of the digits `s[i..j]` read as the fraction after a
      decimal point. */
  function FractionIn(s: string, i: nat, j: nat): real
    requires i <= j <= |s|
  {
    Shift(DigitsIn(s, i, j) as real, j - i)
  }

  /** The value of `n` digits at `q`, followed by a '.' and `f` more
      digits when `f` is positive. */
  function ReadValue(s: string, q: nat, n: nat, f: nat): real
    requires q + n + (if f > 0 then 1 + f else 0) <= |s|
  {
    DigitsIn(s, q, q + n) as real + (if f > 0 then FractionIn(s, q + n + 1, q + n + 1 + f) else 0.0)
  }

  lemma {:induction false} DigitsInSlice(s: string, i: nat, j: nat)
    requires i <= j <= |s|
    ensures DigitsIn(s, i, j) == DigitsValue(s[i..j])
    decreases j - i
  {
    if j > i {
      DigitsInSlice(s, i, j - 1);
      assert s[i..j][..j - i - 1] == s[i..j - 1];
    }
  }

  /** The index just past an optional sign at `i`. */
  function SignEnd(t: string, i: nat): (q: nat)
    requires i <= |t|
    ensures i <= q <= |t|
  {
    if i < |t| && IsSign(t[i]) then i + 1 else i
  }

  /** A number `[+-]?\d+(?:\.\d+)?` found in the text: the index just past
      it and its value. */
  datatype Number = Number(end: nat, value: real)

  /** The number that starts at `p`, if one does. Every quantifier in it is
      greedy and nothing that follows can match a digit or a '.', so
      backtracking never yields a shorter number. */
  function NumberAt(s: string, p: nat): (r: Option<Number>)
    requires p <= |s|
    ensures r.Some? ==> p < r.value.end <= |s|
  {
    var q := SignEnd(s, p);
    var n := DigitRun(s, q);
    if n == 0 then None
    else
      var e := q + n;
      var f := if e + 1 < |s| && s[e] == '.' && IsDigit(s[e + 1]) then DigitRun(s, e + 1) else 0;
      var magnitude := ReadValue(s, q, n, f);
      Some(Number(if f > 0 then e + 1 + f else e, if q > p && s[p] == '-' then -magnitude else magnitude))
  }

  /** What `\s*%?\s+(.+)` makes of the text after the number: the trimmed
      second group, or None when the tail cannot match. The greedy `\s*`
      first takes all leading whitespace; a '%' is then taken when at least
      one whitespace character and one more character follow it; otherwise
      `\s*` gives back one whitespace character to `\s+`, which needs the
      text to start with whitespace and go on for another character. */
  function TailKey(r: string): Option<string> {
    var a := SpaceRun(r, 0);
    var t := r[a..];
    if |t| >= 3 && t[0] == '%' && IsSpace(t[1]) then Some(Trim(t[1..]))
    else if |r| >= 2 && IsSpace(r[0]) then Some(Trim(r))
    else None
  }

  /** A match of the first pattern starting exactly at `p`. */
  function MatchAt(s: string, p: nat): Option<Parsed>
    requires p <= |s|
  {
    match NumberAt(s, p)
    case None => None
    case Some(num) =>
      match TailKey(s[num.end..])
      case None => None
      case Some(key) => Some(Parsed(key, num.value))
  }

  /** The outcome of the first pattern at every start position 0..|s|. */
  function Attempts(s: string): (r: seq<Option<Parsed>>)
    ensures |r| == |s| + 1
  {
    seq(|s| + 1, q requires 0 <= q <= |s| => MatchAt(s, q))
  }

  /** The first outcome at or after `p` that is a match. */
  function FirstSome<T>(ms: seq<Option<T>>, p: nat): Option<T>
    requires p <= |ms|
    decreases |ms| - p
  {
    if p == |ms| then None
    else if ms[p].Some? then ms[p]
    else FirstSome(ms, p + 1)
  }

  /** The first pattern's leftmost match. */
  function FirstMatch(s: string): Option<Parsed> {
    FirstSome(Attempts(s), 0)
  }

  /** FirstSome finds nothing exactly when every outcome from `p` on is
      None. */
  lemma {:induction false} FirstSomeNone<T>(ms: seq<Option<T>>, p: nat)
    requires p <= |ms|
    ensures FirstSome(ms, p).None? <==> forall q :: p <= q < |ms| ==> ms[q].None?
    decreases |ms| - p
  {
    if p < |ms| && ms[p].None? {
      FirstSomeNone(ms, p + 1);
    }
  }

  /** FirstSome returns the leftmost match. */
  lemma {:induction false} FirstSomeLeftmost<T>(ms: seq<Option<T>>, p: nat, q: nat)
    requires p <= q < |ms| && ms[q].Some?
    requires forall j :: p <= j < q ==> ms[j].None?
    ensures FirstSome(ms, p) == ms[q]
    decreases q - p
  {
    if p < q {
      FirstSomeLeftmost(ms, p + 1, q);
    }
  }

  /** The first pattern yields nothing exactly when it matches at no start
      position, and otherwise the match at the leftmost one. */
  lemma FirstMatchLeftmost(s: string, q: nat)
    requires q <= |s|
    ensures FirstMatch(s).None? <==> forall p :: 0 <= p <= |s| ==> MatchAt(s, p).None?
    ensures MatchAt(s, q).Some? && (forall j :: 0 <= j < q ==> MatchAt(s, j).None?) ==>
              FirstMatch(s) == MatchAt(s, q)
  {
    var ms := Attempts(s);
    FirstSomeNone(ms, 0);
    forall p | 0 <= p <= |s| ensures ms[p] == MatchAt(s, p) {
    }
    if MatchAt(s, q).Some? && (forall j :: 0 <= j < q ==> MatchAt(s, j).None?) {
      FirstSomeLeftmost(ms, 0, q);
    }
  }

  /** The second pattern's match: the colon that ends the lazy first group,
      the second group's text (the number with an optional '%') and the
      number's value. */
  datatype ColonNumber = ColonNumber(colon: nat, text: string, value: real)

  /** A colon at `c` followed by optional whitespace and a number. */
  function NumberAfterColon(s: string, c: nat): (r: Option<ColonNumber>)
    requires c < |s|
    ensures r.Some? ==> r.value.colon == c
  {
    if s[c] != ':' then None
    else
      var q := c + 1 + SpaceRun(s, c + 1);
      match NumberAt(s, q)
      case None => None
      case Some(num) =>
        var stop := if num.end < |s| && s[num.end] == '%' then num.end + 1 else num.end;
        Some(ColonNumber(c, s[q..stop], num.value))
  }

  /** The lazy `(.+?):` tries the shortest first group first: the first
      colon at index `c` or later that a number follows. A match starting
      later than index 0 would need such a colon too, so the search from
      index 0 is the whole search. */
  function ColonFrom(s: string, c: nat): (r: Option<ColonNumber>)
    requires 1 <= c <= |s|
    ensures r.Some? ==> c <= r.value.colon < |s|
    decreases |s| - c
  {
    if c == |s| then None
    else if NumberAfterColon(s, c).Some? then NumberAfterColon(s, c)
    else ColonFrom(s, c + 1)
  }

  function ColonMatch(s: string): (r: Option<ColonNumber>)
    ensures r.Some? ==> 1 <= r.value.colon < |s|
  {
    if |s| == 0 then None else ColonFrom(s, 1)
  }

  /** The scale `10^k` or `10^-k` of an exponent part at `e`, or 1 when
      there is none. */
  function ExponentScale(t: string, e: nat): real
    requires e <= |t|
  {
    if e < |t| && (t[e] == 'e' || t[e] == 'E') then
      var q := if e + 1 < |t| && IsSign(t[e + 1]) then e + 2 else e + 1;
      var n := DigitRun(t, q);
      if n == 0 then 1.0
      else
        var k := DigitsIn(t, q, q + n);
        if q == e + 2 && t[e + 1] == '-' then Shift(1.0, k) else Pow10(k) as real
    else 1.0
  }

  /** A decimal literal starts at `q`: a digit, or a '.' and a digit. */
  predicate StartsDecimal(t: string, q: nat) {
    (q < |t| && IsDigit(t[q])) || (q + 1 < |t| && t[q] == '.' && IsDigit(t[q + 1]))
  }

  /** The decimal literal parseFloat reads at `q`: digits, then
      optionally a '.' and more digits, with at least one digit in all;
      its end and its value. */
  function FloatLiteralAt(t: string, q: nat): (r: Option<Number>)
    requires q <= |t|
    ensures r.None? <==> !StartsDecimal(t, q)
    ensures r.Some? ==> q < r.value.end <= |t|
  {
    var n := DigitRun(t, q);
    var hasDot := q + n < |t| && t[q + n] == '.';
    var f := if hasDot then DigitRun(t, q + n + 1) else 0;
    if n == 0 && f == 0 then None
    else
      assert n > 0 ==> IsDigit(t[q]);
      assert f > 0 ==> IsDigit(t[q + n + 1]);
      Some(Number(if hasDot then q + n + 1 + f else q + n, ReadValue(t, q, n, f)))
  }

  /** parseFloat: leading whitespace, an optional sign, then the longest
      decimal literal (digits with an optional '.' and fraction, or '.'
      and digits, then an optional exponent); None stands for NaN, which
      parseFloat returns exactly when no digit, or '.' and digit, follows
      the whitespace and the sign. */
  function ParseFloat(t: string): (r: Option<real>)
    ensures r.None? <==> !StartsDecimal(t, SignEnd(t, SpaceRun(t, 0)))
  {
    var i := SpaceRun(t, 0);
    var q := SignEnd(t, i);
    match FloatLiteralAt(t, q)
    case None => None
    case Some(num) =>
      var m := num.value * ExponentScale(t, num.end);
      Some(if q > i && t[i] == '-' then -m else m)
  }

  /** parseStat as written. The second pattern's groups reach the code in
      the first pattern's order, so the text before the colon is handed to
      parseFloat and the number becomes the key. */
  function ParseStatAsWritten(s: string): Parsed {
    match FirstMatch(s)
    case Some(m) => m
    case None =>
      match ColonMatch(s)
      case None => Parsed(s, 1.0)
      case Some(cn) =>
        match ParseFloat(s[..cn.colon])
        case None => Parsed(s, 1.0)
        case Some(v) => Parsed(Trim(cn.text), v)
  }

  /** parseStat with the second pattern's groups read the way round they
      are written: the trimmed text before the colon is the key and the
      number after it the value. */
  function ParseStat(s: string): Parsed {
    match FirstMatch(s)
    case Some(m) => m
    case None =>
      match ColonMatch(s)
      case None => Parsed(s, 1.0)
      case Some(cn) => Parsed(Trim(s[..cn.colon]), cn.value)
  }

  /** parseStat under the given reading. */
  function ParseWith(rd: Reading, s: string): Parsed {
    match rd
    case AsWritten => ParseStatAsWritten(s)
    case Intended => ParseStat(s)
  }

  // ---------------------------------------------------------------------
  // Facts about the scanners

  lemma {:induction false} DigitRunExact(s: string, i: nat, n: nat)
    requires i + n <= |s|
    requires forall j :: i <= j < i + n ==> IsDigit(s[j])
    requires i + n == |s| || !IsDigit(s[i + n])
    ensures DigitRun(s, i) == n
    decreases n
  {
    if n > 0 {
      DigitRunExact(s, i + 1, n - 1);
    }
  }

  /** A sign followed by a digit string equals the digit string's value. */
  lemma DigitsAt(s: string, q: nat, d: string)
    requires AllDigits(d) && |d| > 0
    requires q + |d| <= |s| && s[q..q + |d|] == d
    requires q + |d| == |s| || !IsDigit(s[q + |d|])
    ensures DigitRun(s, q) == |d|
  {
    forall j | q <= j < q + |d| ensures IsDigit(s[j]) {
      assert s[j] == d[j - q];
    }
    DigitRunExact(s, q, |d|);
  }

  lemma TrimLeadingSpace(k: string)
    ensures Trim(" " + k) == Trim(k)
  {
    assert (" " + k)[1..] == k;
  }

  /** A line with no digit at all: neither pattern matches and the line
      itself is the key, with value 1, in both readings. */
  lemma NoDigitsFallback(s: string)
    requires forall j :: 0 <= j < |s| ==> !IsDigit(s[j])
    ensures ParseStat(s) == Parsed(s, 1.0)
    ensures ParseStatAsWritten(s) == Parsed(s, 1.0)
  {
    forall q | 0 <= q <= |s| ensures MatchAt(s, q).None? {
      assert NumberAt(s, q).None?;
    }
    FirstMatchLeftmost(s, 0);
    if |s| > 0 {
      ColonFromNone(s, 1);
    }
  }

  lemma {:induction false} ColonFromNone(s: string, c: nat)
    requires 1 <= c <= |s|
    requires forall j :: 0 <= j < |s| ==> !IsDigit(s[j])
    ensures ColonFrom(s, c).None?
    decreases |s| - c
  {
    if c < |s| {
      if s[c] == ':' {
        var q := c + 1 + SpaceRun(s, c + 1);
        assert NumberAt(s, q).None?;
      }
      ColonFromNone(s, c + 1);
    }
  }

  /** The value a sign prefix ("", "+" or "-") gives a magnitude. */
  function Signed(sign: string, m: real): real {
    if |sign| == 1 && sign[0] == '-' then -m else m
  }

  /** No sign, or a single '+' or '-'. */
  predicate SignPrefix(sign: string) {
    |sign| == 0 || (|sign| == 1 && IsSign(sign[0]))
  }

  /** The parts of a decimal literal `<sign><digits>[.<digits>]`: a sign
      prefix, a non-empty integer part and a fraction, empty when there is
      no decimal point. */
  predicate DecimalParts(sign: string, d: string, frac: string) {
    SignPrefix(sign) && AllDigits(d) && |d| > 0 && AllDigits(frac)
  }

  /** The text of such a literal. */
  function DecimalText(sign: string, d: string, frac: string): string {
    sign + d + (if |frac| > 0 then "." + frac else "")
  }

  /** The value of a literal without its sign. */
  function Magnitude(d: string, frac: string): real {
    DigitsValue(d) as real + (if |frac| > 0 then Shift(DigitsValue(frac) as real, |frac|) else 0.0)
  }

  /** The value of such a literal. */
  function DecimalValue(sign: string, d: string, frac: string): real {
    Signed(sign, Magnitude(d, frac))
  }

  /** `s` starts with the literal, and what follows it (if anything) is
      neither a digit nor a '.'. */
  predicate LeadsWith(s: string, sign: string, d: string, frac: string) {
    var lit := DecimalText(sign, d, frac);
    |lit| <= |s| && s[..|lit|] == lit && (|lit| == |s| || (!IsDigit(s[|lit|]) && s[|lit|] != '.'))
  }

  /** Where the parts of a literal sit in its text. */
  lemma DecimalTextParts(sign: string, d: string, frac: string)
    ensures var lit, e := DecimalText(sign, d, frac), |sign| + |d|;
            |lit| == e + (if |frac| > 0 then 1 + |frac| else 0) &&
            lit[..|sign|] == sign && lit[|sign|..e] == d &&
            (|frac| > 0 ==> lit[e] == '.' && lit[e + 1..] == frac)
  {
    var lit, e := DecimalText(sign, d, frac), |sign| + |d|;
    var rest := if |frac| > 0 then "." + frac else "";
    assert lit == (sign + d) + rest;
    assert (sign + d)[|sign|..] == d;
    if |frac| > 0 {
      assert lit[e..] == rest;
      assert rest[1..] == frac;
    }
  }

  /** A text starting with `lit` agrees with it on every slice of it. */
  lemma PrefixSlice(s: string, lit: string, i: nat, j: nat)
    requires |lit| <= |s| && s[..|lit|] == lit && i <= j <= |lit|
    ensures s[i..j] == lit[i..j]
  {
    forall k | i <= k < j
      ensures s[k] == lit[k]
    {
      assert s[k] == s[..|lit|][k];
    }
  }

  /** A digit string at `p` that no digit follows is the run of digits
      there, with its value. */
  lemma RunAt(s: string, p: nat, d: string)
    requires AllDigits(d) && |d| > 0 && p + |d| <= |s| && s[p..p + |d|] == d
    requires p + |d| == |s| || !IsDigit(s[p + |d|])
    ensures DigitRun(s, p) == |d| && DigitsIn(s, p, p + |d|) == DigitsValue(d)
  {
    DigitsAt(s, p, d);
    DigitsInSlice(s, p, p + |d|);
  }

  /** The integer part of a literal at the start of `s` is the run of
      digits the scanner finds after the sign. */
  lemma IntegerRun(s: string, sign: string, d: string, frac: string)
    requires DecimalParts(sign, d, frac) && LeadsWith(s, sign, d, frac)
    ensures var q, e := |sign|, |sign| + |d|;
            e <= |s| && DigitRun(s, q) == |d| && DigitsIn(s, q, e) == DigitsValue(d) &&
            (|frac| == 0 ==> e == |s| || s[e] != '.')
  {
    IntegerText(s, sign, d, frac);
    RunAt(s, |sign|, d);
  }

  /** Where the integer part of a literal at the start of `s` sits. */
  lemma IntegerText(s: string, sign: string, d: string, frac: string)
    requires LeadsWith(s, sign, d, frac)
    ensures var q, e := |sign|, |sign| + |d|;
            e <= |s| && s[q..e] == d && (e == |s| || !IsDigit(s[e])) &&
            (|frac| == 0 ==> e == |s| || s[e] != '.')
  {
    var lit := DecimalText(sign, d, frac);
    var q, e := |sign|, |sign| + |d|;
    DecimalTextParts(sign, d, frac);
    PrefixSlice(s, lit, q, e);
    if |frac| > 0 {
      assert s[e] == s[..|lit|][e];
    }
  }

  /** Where the fraction of a literal at the start of `s` sits. */
  lemma FractionText(s: string, sign: string, d: string, frac: string)
    requires LeadsWith(s, sign, d, frac) && |frac| > 0
    ensures var e := |sign| + |d|;
            e + 1 + |frac| <= |s| && s[e] == '.' && s[e + 1..e + 1 + |frac|] == frac &&
            (e + 1 + |frac| == |s| || !IsDigit(s[e + 1 + |frac|]))
  {
    var lit := DecimalText(sign, d, frac);
    var e := |sign| + |d|;
    DecimalTextParts(sign, d, frac);
    PrefixSlice(s, lit, e + 1, |lit|);
    assert s[e] == s[..|lit|][e];
  }

  /** The fraction of a literal at the start of `s` is the run of digits
      the scanner finds after the '.'. */
  lemma FractionRun(s: string, sign: string, d: string, frac: string)
    requires DecimalParts(sign, d, frac) && LeadsWith(s, sign, d, frac) && |frac| > 0
    ensures var e := |sign| + |d|;
            e + 1 < |s| && s[e] == '.' && IsDigit(s[e + 1]) &&
            DigitRun(s, e + 1) == |frac| && DigitsIn(s, e + 1, e + 1 + |frac|) == DigitsValue(frac)
  {
    var e := |sign| + |d|;
    FractionText(s, sign, d, frac);
    assert s[e + 1] == frac[0];
    RunAt(s, e + 1, frac);
  }

  /** The first character of a literal at the start of `s`. */
  lemma LeadingChar(s: string, sign: string, d: string, frac: string)
    requires DecimalParts(sign, d, frac) && LeadsWith(s, sign, d, frac)
    ensures s[0] == if |sign| == 1 then sign[0] else d[0]
  {
    var lit := DecimalText(sign, d, frac);
    DecimalTextParts(sign, d, frac);
    assert s[0] == lit[0];
    if |sign| == 1 {
      assert lit[0] == lit[..1][0];
    } else {
      assert lit[0] == lit[0..|d|][0];
    }
  }

  /** The runs of digits a literal at the start of `s` leaves for the
      scanners: the integer part after the sign and, when there is one, the
      fraction after the '.'. */
  predicate RunsAt(s: string, q: nat, n: nat, f: nat) {
    q + n <= |s| && 0 < n && DigitRun(s, q) == n &&
    if f > 0 then q + n + 1 < |s| && s[q + n] == '.' && IsDigit(s[q + n + 1]) && DigitRun(s, q + n + 1) == f
    else q + n == |s| || s[q + n] != '.'
  }

  /** A literal at the start of `s` leaves its runs of digits, and the
      digits read in place have the literal's value. */
  lemma LiteralRuns(s: string, sign: string, d: string, frac: string)
    requires DecimalParts(sign, d, frac) && LeadsWith(s, sign, d, frac)
    ensures RunsAt(s, |sign|, |d|, |frac|)
    ensures ReadValue(s, |sign|, |d|, |frac|) == Magnitude(d, frac)
  {
    IntegerRun(s, sign, d, frac);
    if |frac| > 0 {
      FractionRun(s, sign, d, frac);
    }
  }

  /** A decimal literal at the start of `s`, followed by neither a digit
      nor a '.', is the number at index 0, with its value. */
  lemma LeadingDecimal(s: string, sign: string, d: string, frac: string)
    requires DecimalParts(sign, d, frac) && LeadsWith(s, sign, d, frac)
    ensures NumberAt(s, 0) == Some(Number(|DecimalText(sign, d, frac)|, DecimalValue(sign, d, frac)))
  {
    LeadingChar(s, sign, d, frac);
    LiteralRuns(s, sign, d, frac);
    assert IsDigit(d[0]);
    NumberShape(s, |sign|, |d|, |frac|);
    SignAgrees(s, sign, d, frac, ReadValue(s, |sign|, |d|, |frac|));
    DecimalLength(sign, d, frac);
  }

  /** The sign of the number at index 0 is that of the literal. */
  function SignedAt(s: string, q: nat, m: real): real
    requires q <= |s|
  {
    if q > 0 && s[0] == '-' then -m else m
  }

  /** The length of a literal's text. */
  lemma DecimalLength(sign: string, d: string, frac: string)
    ensures |DecimalText(sign, d, frac)| == |sign| + |d| + if |frac| > 0 then 1 + |frac| else 0
  {
  }

  /** The sign read from the text is the literal's sign, so the value read
      is the literal's value. */
  lemma SignAgrees(s: string, sign: string, d: string, frac: string, m: real)
    requires SignPrefix(sign) && |d| > 0 && IsDigit(d[0]) && |s| > 0
    requires s[0] == if |sign| == 1 then sign[0] else d[0]
    requires m == Magnitude(d, frac)
    ensures DecimalValue(sign, d, frac) == SignedAt(s, |sign|, m)
  {
  }

  /** NumberAt at index 0 once the runs of digits after the sign are
      known. */
  lemma NumberShape(s: string, q: nat, n: nat, f: nat)
    requires q <= |s| && q == SignEnd(s, 0) && RunsAt(s, q, n, f)
    ensures NumberAt(s, 0) == Some(Number(q + n + (if f > 0 then 1 + f else 0), SignedAt(s, q, ReadValue(s, q, n, f))))
  {
  }

  /** parseFloat reads a decimal literal at the start of the text, when
      neither a digit, a '.' nor an exponent follows it, as its value. */
  lemma ParseFloatDecimal(t: string, sign: string, d: string, frac: string)
    requires DecimalParts(sign, d, frac) && LeadsWith(t, sign, d, frac)
    requires var n := |DecimalText(sign, d, frac)|; n == |t| || (t[n] != 'e' && t[n] != 'E')
    ensures ParseFloat(t) == Some(DecimalValue(sign, d, frac))
  {
    var n := |DecimalText(sign, d, frac)|;
    FloatLiteral(t, sign, d, frac);
    LeadingChar(t, sign, d, frac);
    assert SpaceRun(t, 0) == 0;
    assert SignEnd(t, 0) == |sign|;
    assert ExponentScale(t, n) == 1.0;
  }

  /** The literal parseFloat reads after the sign is the whole literal. */
  lemma FloatLiteral(t: string, sign: string, d: string, frac: string)
    requires DecimalParts(sign, d, frac) && LeadsWith(t, sign, d, frac)
    ensures FloatLiteralAt(t, |sign|) == Some(Number(|DecimalText(sign, d, frac)|, Magnitude(d, frac)))
  {
    LiteralRuns(t, sign, d, frac);
    FloatShape(t, |sign|, |d|, |frac|);
    DecimalLength(sign, d, frac);
  }

  /** FloatLiteralAt once the runs of digits are known. */
  lemma FloatShape(t: string, q: nat, n: nat, f: nat)
    requires RunsAt(t, q, n, f)
    ensures FloatLiteralAt(t, q) == Some(Number(q + n + (if f > 0 then 1 + f else 0), ReadValue(t, q, n, f)))
  {
    assert IsDigit(t[q]);
  }
  /** After "%" and a space the rest, trimmed, is the key. */
  lemma PercentTail(k: string)
    requires |k| > 0
    ensures TailKey("% " + k) == Some(Trim(k))
  {
    var r := "% " + k;
    assert SpaceRun(r, 0) == 0;
    assert r[0..] == r && r[1..] == " " + k;
    TrimLeadingSpace(k);
  }

  /** After a single space the rest, trimmed, is the key, unless it starts
      with whitespace or '%'. */
  lemma SpacedTail(k: string)
    requires |k| > 0 && !IsSpace(k[0]) && k[0] != '%'
    ensures TailKey(" " + k) == Some(Trim(k))
  {
    var r := " " + k;
    assert SpaceRun(r, 1) == 0;
    assert r[1..] == k;
    TrimLeadingSpace(k);
  }

  /** A match at index 0 is the result. */
  lemma StartParse(s: string, p: Parsed)
    requires MatchAt(s, 0) == Some(p)
    ensures ParseStat(s) == p
  {
    FirstMatchLeftmost(s, 0);
  }

  /** "<number>% <text>", the form of "+10% Fire Damage" or
      "+1.5% to Critical Strike Chance": the key is the trimmed text and the
      value the number. */
  lemma PercentForm(sign: string, d: string, frac: string, k: string)
    requires DecimalParts(sign, d, frac) && |k| > 0
    ensures ParseStat(DecimalText(sign, d, frac) + ("% " + k)) == Parsed(Trim(k), DecimalValue(sign, d, frac))
  {
    PercentTail(k);
    NumberLineMatch(DecimalText(sign, d, frac), "% " + k, sign, d, frac, Trim(k));
  }

  /** "<number> <text>", the form of "+25 to Maximum Life", where the text
      does not start with whitespace or '%': the key is the trimmed text and
      the value the number. */
  lemma SpacedForm(sign: string, d: string, frac: string, k: string)
    requires DecimalParts(sign, d, frac)
    requires |k| > 0 && !IsSpace(k[0]) && k[0] != '%'
    ensures ParseStat(DecimalText(sign, d, frac) + (" " + k)) == Parsed(Trim(k), DecimalValue(sign, d, frac))
  {
    SpacedTail(k);
    NumberLineMatch(DecimalText(sign, d, frac), " " + k, sign, d, frac, Trim(k));
  }

  /** A literal followed by a tail the first pattern accepts parses to the
      tail's key and the literal's value. */
  lemma NumberLineMatch(lit: string, tail: string, sign: string, d: string, frac: string, key: string)
    requires DecimalParts(sign, d, frac) && lit == DecimalText(sign, d, frac)
    requires |tail| > 0 && !IsDigit(tail[0]) && tail[0] != '.'
    requires TailKey(tail) == Some(key)
    ensures ParseStat(lit + tail) == Parsed(key, DecimalValue(sign, d, frac))
  {
    NumberLineStart(lit + tail, lit, tail, sign, d, frac, key);
    StartParse(lit + tail, Parsed(key, DecimalValue(sign, d, frac)));
  }

  lemma NumberLineStart(s: string, lit: string, tail: string, sign: string, d: string, frac: string, key: string)
    requires DecimalParts(sign, d, frac) && lit == DecimalText(sign, d, frac) && s == lit + tail
    requires |tail| > 0 && !IsDigit(tail[0]) && tail[0] != '.'
    requires TailKey(tail) == Some(key)
    ensures MatchAt(s, 0) == Some(Parsed(key, DecimalValue(sign, d, frac)))
  {
    assert s[..|lit|] == lit && s[|lit|] == tail[0];
    LeadingDecimal(s, sign, d, frac);
    assert s[|lit|..] == tail;
  }

  // ---------------------------------------------------------------------
  // "<text>: <digits>": the second pattern

  /** The shape of "Life: 5": text without digits or colons, a colon, one
      space, then digits to the end. */
  predicate ColonLine(s: string, n: nat) {
    0 < n && n + 2 < |s| && s[n] == ':' && s[n + 1] == ' ' &&
    (forall j :: 0 <= j < n ==> !IsDigit(s[j]) && s[j] != ':') &&
    (forall j :: n + 2 <= j < |s| ==> IsDigit(s[j]))
  }

  /** In such a line the first pattern matches nowhere: before the colon
      there is no digit, and the number at the end has no tail. */
  lemma ColonLineNoFirstMatch(s: string, n: nat)
    requires ColonLine(s, n)
    ensures FirstMatch(s).None?
  {
    forall q | 0 <= q <= |s| ensures MatchAt(s, q).None? {
      if q < n + 2 {
        assert NumberAt(s, q).None?;
      } else if q < |s| {
        DigitRunExact(s, q, |s| - q);
        assert NumberAt(s, q).value.end == |s|;
        assert s[|s|..] == [];
      }
    }
    FirstMatchLeftmost(s, 0);
  }

  lemma {:induction false} ColonFromSkip(s: string, c: nat, target: nat)
    requires 1 <= c <= target < |s|
    requires forall j :: c <= j < target ==> s[j] != ':'
    ensures ColonFrom(s, c) == ColonFrom(s, target)
    decreases target - c
  {
    if c < target {
      ColonFromSkip(s, c + 1, target);
    }
  }

  /** In such a line the second pattern matches at the colon, with the
      digits after it as the number. */
  lemma ColonLineMatch(s: string, n: nat)
    requires ColonLine(s, n)
    ensures AllDigits(s[n + 2..])
    ensures ColonMatch(s) == Some(ColonNumber(n, s[n + 2..], DigitsValue(s[n + 2..]) as real))
  {
    ColonFromSkip(s, 1, n);
    ColonAt(s, n);
    DigitsInSlice(s, n + 2, |s|);
    assert s[n + 2..|s|] == s[n + 2..];
  }

  /** The colon of such a line is followed by the number at its end. */
  lemma ColonAt(s: string, n: nat)
    requires ColonLine(s, n)
    ensures NumberAfterColon(s, n) == Some(ColonNumber(n, s[n + 2..], DigitsIn(s, n + 2, |s|) as real))
  {
    assert SpaceRun(s, n + 2) == 0;
    assert SpaceRun(s, n + 1) == 1;
    TrailingNumber(s, n + 2);
    assert s[n + 2..|s|] == s[n + 2..];
  }

  /** Digits that run to the end of the text are a number there. */
  lemma TrailingNumber(s: string, p: nat)
    requires p < |s| && forall j :: p <= j < |s| ==> IsDigit(s[j])
    ensures NumberAt(s, p) == Some(Number(|s|, DigitsIn(s, p, |s|) as real))
  {
    DigitRunExact(s, p, |s| - p);
    assert SignEnd(s, p) == p;
  }

  /** parseStat on such a line: the text before the colon, trimmed, and the
      digits' value. */
  lemma ColonLineParse(s: string, n: nat)
    requires ColonLine(s, n)
    ensures AllDigits(s[n + 2..])
    ensures ParseStat(s) == Parsed(Trim(s[..n]), DigitsValue(s[n + 2..]) as real)
  {
    ColonLineNoFirstMatch(s, n);
    ColonLineMatch(s, n);
  }

  /** parseStat as written on such a line: parseFloat finds no number in
      the text before the colon, so the whole line is the key. */
  lemma ColonLineAsWritten(s: string, n: nat)
    requires ColonLine(s, n)
    ensures ParseStatAsWritten(s) == Parsed(s, 1.0)
  {
    ColonLineNoFirstMatch(s, n);
    ColonLineMatch(s, n);
    assert forall j :: 0 <= j < n ==> s[..n][j] == s[j];
  }

  /** "<text>: <digits>" with a text free of digits and colons, the form of
      "Life: 5". Read as intended, the text is the key and the number the
      value; as written, parseFloat of the text gives NaN and the whole line
      falls back to being the key, with value 1. */
  lemma ColonForm(k: string, d: string)
    requires |k| > 0 && forall j :: 0 <= j < |k| ==> !IsDigit(k[j]) && k[j] != ':'
    requires AllDigits(d) && |d| > 0
    ensures ParseStat(k + ": " + d) == Parsed(Trim(k), DigitsValue(d) as real)
    ensures ParseStatAsWritten(k + ": " + d) == Parsed(k + ": " + d, 1.0)
  {
    var s := k + ": " + d;
    var n := |k|;
    assert s[..n] == k && s[n + 2..] == d;
    assert s[n] == ':' && s[n + 1] == ' ';
    assert ColonLine(s, n);
    ColonLineParse(s, n);
    ColonLineAsWritten(s, n);
  }

  lemma NoSpaceTrim(k: string)
    requires |k| > 0 && !IsSpace(k[0]) && !IsSpace(k[|k| - 1])
    ensures Trim(k) == k
  {
  }

  lemma DigitsOne(c: char)
    requires IsDigit(c)
    ensures AllDigits([c]) && DigitsValue([c]) == c as int - '0' as int
  {
    assert [c][..0] == [];
  }

  /** The line "Life: 5" has the shape ColonForm is about: "Life" is a
      text without digits, colons or outer whitespace, followed by a colon,
      a space and "5". So as written it parses to the key "Life: 5" with
      value 1, where the key "Life" with value 5 is meant. */
  lemma LifeShape(line: string, k: string)
    requires line == "Life: 5" && k == "Life"
    ensures |k| > 0 && forall j :: 0 <= j < |k| ==> !IsDigit(k[j]) && k[j] != ':'
    ensures Trim(k) == k
    ensures line == k + ": " + "5"
  {
    assert |k| == 4 && k[0] == 'L' && k[1] == 'i' && k[2] == 'f' && k[3] == 'e';
    forall j | 0 <= j < |k| ensures !IsDigit(k[j]) && k[j] != ':' {
      assert j == 0 || j == 1 || j == 2 || j == 3;
    }
    NoSpaceTrim(k);
  }
}
