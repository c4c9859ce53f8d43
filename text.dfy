/**
 * The string built-ins the scraper and the notifier rely on: `str.split()`,
 * `str.startswith`, the substring test `in`, `str(n)` for a natural number,
 * zero-padded `strftime` fields, `str.lstrip("0")` and `str.join`.
 */
module Text {

  /** `str.isspace()` for a single character (the Unicode whitespace Python recognises). */
  predicate IsSpace(c: char) {
    c == ' ' || ('\t' <= c <= '\r') || ('\U{1C}' <= c <= '\U{1F}') ||
    c == '\U{85}' || c == '\U{A0}' || c == '\U{1680}' || ('\U{2000}' <= c <= '\U{200A}') ||
    c == '\U{2028}' || c == '\U{2029}' || c == '\U{202F}' || c == '\U{205F}' || c == '\U{3000}'
  }

  /** A token of `str.split()`: non-empty and free of whitespace. */
  predicate IsToken(t: string) {
    t != [] && forall i :: 0 <= i < |t| ==> !IsSpace(t[i])
  }

  /** Length of the longest whitespace-free prefix of `s`. */
  function TokenLength(s: string): (n: nat)
    ensures n <= |s|
    ensures forall i :: 0 <= i < n ==> !IsSpace(s[i])
    ensures n < |s| ==> IsSpace(s[n])
  {
    if s == [] || IsSpace(s[0]) then 0 else 1 + TokenLength(s[1..])
  }

  /** `s.split()` with no separator: the maximal whitespace-free runs of `s`, in order. */
  function Split(s: string): (tokens: seq<string>)
    ensures forall t :: t in tokens ==> IsToken(t)
    decreases |s|
  {
    if s == [] then []
    else if IsSpace(s[0]) then Split(s[1..])
    else
      var n := TokenLength(s);
      [s[..n]] + Split(s[n..])
  }

  /** `sep.join(parts)`. */
  function JoinWith(parts: seq<string>, sep: string): string {
    if parts == [] then []
    else if |parts| == 1 then parts[0]
    else parts[0] + sep + JoinWith(parts[1..], sep)
  }

  lemma {:induction false} TokenLengthOfToken(t: string, rest: string)
    requires IsToken(t)
    requires rest == [] || IsSpace(rest[0])
    ensures TokenLength(t + rest) == |t|
    decreases |t|
  {
    if |t| > 1 {
      assert (t + rest)[1..] == t[1..] + rest;
      TokenLengthOfToken(t[1..], rest);
    }
  }

  /** Splitting tokens joined by single spaces gives the tokens back. */
  lemma {:induction false} SplitJoinWith(tokens: seq<string>)
    requires forall t :: t in tokens ==> IsToken(t)
    ensures Split(JoinWith(tokens, " ")) == tokens
    decreases |tokens|
  {
    if tokens != [] {
      var t := tokens[0];
      var rest := if |tokens| == 1 then [] else " " + JoinWith(tokens[1..], " ");
      var s := t + rest;
      assert JoinWith(tokens, " ") == s;
      TokenLengthOfToken(t, rest);
      assert s[..|t|] == t;
      assert s[|t|..] == rest;
      if |tokens| > 1 {
        assert rest[1..] == JoinWith(tokens[1..], " ");
        SplitJoinWith(tokens[1..]);
      }
    }
  }

  /** Whitespace between tokens, however long and of whatever kind, yields no token. */
  lemma SplitSkipsSpace(c: char, s: string)
    requires IsSpace(c)
    ensures Split([c] + s) == Split(s)
  {
    assert ([c] + s)[1..] == s;
  }

  /** A string of whitespace only, such as a blank class attribute, splits into no tokens. */
  lemma {:induction false} SplitAllSpace(s: string)
    requires forall i :: 0 <= i < |s| ==> IsSpace(s[i])
    ensures Split(s) == []
    decreases |s|
  {
    if s != [] {
      SplitAllSpace(s[1..]);
      SplitSkipsSpace(s[0], s[1..]);
      assert [s[0]] + s[1..] == s;
    }
  }

  /** A maximal whitespace-free run is the next token; the whitespace after it is split on. */
  lemma SplitTakesToken(t: string, c: char, s: string)
    requires IsToken(t) && IsSpace(c)
    ensures Split(t + [c] + s) == [t] + Split([c] + s)
  {
    var u := t + [c] + s;
    assert u == t + ([c] + s);
    TokenLengthOfToken(t, [c] + s);
    assert u[..|t|] == t;
    assert u[|t|..] == [c] + s;
  }

  /** A string that is one token splits into itself. */
  lemma SplitToken(t: string)
    requires IsToken(t)
    ensures Split(t) == [t]
  {
    TokenLengthOfToken(t, []);
    assert t + [] == t;
    assert t[..|t|] == t;
  }

  /** Three tokens separated by single spaces split back into the three tokens. */
  lemma SplitThreeTokens(a: string, b: string, c: string)
    requires IsToken(a) && IsToken(b) && IsToken(c)
    ensures Split(a + " " + b + " " + c) == [a, b, c]
  {
    var rest := b + " " + c;
    assert a + " " + b + " " + c == a + [' '] + rest;
    assert rest == b + [' '] + c;
    SplitTakesToken(a, ' ', rest);
    SplitSkipsSpace(' ', rest);
    SplitTakesToken(b, ' ', c);
    SplitSkipsSpace(' ', c);
    SplitToken(c);
  }

  /** `s.startswith(prefix)`. */
  predicate StartsWith(s: string, prefix: string) {
    |prefix| <= |s| && s[..|prefix|] == prefix
  }

  predicate OccursAt(sub: string, s: string, i: int) {
    0 <= i && i + |sub| <= |s| && s[i..i + |sub|] == sub
  }

  /** The substring test `sub in s`. */
  predicate IsInfix(sub: string, s: string)
    decreases |s|
  {
    StartsWith(s, sub) || (s != [] && IsInfix(sub, s[1..]))
  }

  /** `sub in s` holds exactly when `sub` occurs at some position of `s`. */
  lemma {:induction false} IsInfixIffOccurs(sub: string, s: string)
    ensures IsInfix(sub, s) <==> exists i :: OccursAt(sub, s, i)
    decreases |s|
  {
    if StartsWith(s, sub) {
      assert OccursAt(sub, s, 0);
    } else if s != [] {
      IsInfixIffOccurs(sub, s[1..]);
      if IsInfix(sub, s[1..]) {
        var i :| OccursAt(sub, s[1..], i);
        assert s[i + 1..i + 1 + |sub|] == s[1..][i..i + |sub|];
        assert OccursAt(sub, s, i + 1);
      }
      if exists i :: OccursAt(sub, s, i) {
        var i :| OccursAt(sub, s, i);
        assert i != 0;
        assert s[1..][i - 1..i - 1 + |sub|] == s[i..i + |sub|];
        assert OccursAt(sub, s[1..], i - 1);
      }
    }
  }

  predicate IsDigit(c: char) {
    '0' <= c <= '9'
  }

  function DigitChar(d: nat): (c: char)
    requires d < 10
    ensures IsDigit(c)
  {
    ('0' as int + d) as char
  }

  function DigitValue(c: char): nat
    requires IsDigit(c)
  {
    (c as int - '0' as int) as nat
  }

  /** `str(n)`: the decimal digits of `n`, most significant first, never zero-padded. */
  function Decimal(n: nat): (s: string)
    ensures 1 <= |s|
    ensures forall i :: 0 <= i < |s| ==> IsDigit(s[i])
    ensures s[0] == '0' ==> n == 0
  {
    if n < 10 then [DigitChar(n)] else Decimal(n / 10) + [DigitChar(n % 10)]
  }

  /** `int(s)` for a string of decimal digits. */
  function ParseDecimal(s: string): nat
    requires forall i :: 0 <= i < |s| ==> IsDigit(s[i])
  {
    if s == [] then 0 else ParseDecimal(s[..|s| - 1]) * 10 + DigitValue(s[|s| - 1])
  }

  /** Reading back the digits written by `str(n)` gives `n`. */
  lemma {:induction false} ParseDecimalOfDecimal(n: nat)
    ensures ParseDecimal(Decimal(n)) == n
  {
    if n >= 10 {
      var s := Decimal(n);
      assert s[..|s| - 1] == Decimal(n / 10);
      ParseDecimalOfDecimal(n / 10);
    }
  }

  function Zeros(k: nat): (s: string)
    ensures |s| == k && forall i :: 0 <= i < k ==> s[i] == '0'
  {
    if k == 0 then [] else Zeros(k - 1) + ['0']
  }

  /** A `strftime` numeric field: the decimal digits of `n`, left-padded with '0' to `width`. */
  function ZeroPad(n: nat, width: nat): (s: string)
    ensures |s| == if |Decimal(n)| < width then width else |Decimal(n)|
    ensures forall i :: 0 <= i < |s| ==> IsDigit(s[i])
  {
    var digits := Decimal(n);
    if |digits| < width then Zeros(width - |digits|) + digits else digits
  }

  /** `s.lstrip("0")`. */
  function LStripZeros(s: string): (r: string)
    ensures |r| <= |s| && s == Zeros(|s| - |r|) + r
    ensures r == [] || r[0] != '0'
  {
    if s != [] && s[0] == '0' then
      var r := LStripZeros(s[1..]);
      assert Zeros(|s| - |r|) == ['0'] + Zeros(|s| - 1 - |r|);
      r
    else s
  }

  lemma {:induction false} LStripZerosOfPadded(k: nat, digits: string)
    requires digits != [] && digits[0] != '0'
    ensures LStripZeros(Zeros(k) + digits) == digits
  {
    if k > 0 {
      assert (Zeros(k) + digits)[1..] == Zeros(k - 1) + digits;
      LStripZerosOfPadded(k - 1, digits);
    }
  }

  /** Stripping the leading zeros of a padded positive field gives `str(n)`. */
  lemma UnpadDecimal(n: nat, width: nat)
    requires 1 <= n
    ensures LStripZeros(ZeroPad(n, width)) == Decimal(n)
  {
    var digits := Decimal(n);
    if |digits| < width {
      LStripZerosOfPadded(width - |digits|, digits);
    } else {
      LStripZerosOfPadded(0, digits);
      assert Zeros(0) + digits == digits;
    }
  }

  function Pow10(k: nat): (p: nat)
    ensures p >= 1
  {
    if k == 0 then 1 else 10 * Pow10(k - 1)
  }

  /** A number below 10^k has at most k decimal digits. */
  lemma {:induction false} DecimalFits(n: nat, k: nat)
    requires 1 <= k && n < Pow10(k)
    ensures |Decimal(n)| <= k
  {
    if n >= 10 {
      assert n / 10 < Pow10(k - 1);
      DecimalFits(n / 10, k - 1);
    }
  }

  /** Leading zeros do not change the value read back. */
  lemma {:induction false} ParseDecimalSkipsZeros(k: nat, s: string)
    requires forall i :: 0 <= i < |s| ==> IsDigit(s[i])
    ensures ParseDecimal(Zeros(k) + s) == ParseDecimal(s)
    decreases |s|, k
  {
    if s == [] {
      assert Zeros(k) + s == Zeros(k);
      if k > 0 {
        ParseDecimalSkipsZeros(k - 1, []);
        assert Zeros(k)[..k - 1] == Zeros(k - 1) + [];
      }
    } else {
      var last := |s| - 1;
      assert (Zeros(k) + s)[..k + last] == Zeros(k) + s[..last];
      ParseDecimalSkipsZeros(k, s[..last]);
    }
  }

  /** Reading back a zero-padded field gives the number. */
  lemma ParseZeroPad(n: nat, width: nat)
    ensures ParseDecimal(ZeroPad(n, width)) == n
  {
    var digits := Decimal(n);
    ParseDecimalOfDecimal(n);
    if |digits| < width {
      ParseDecimalSkipsZeros(width - |digits|, digits);
    }
  }

}
