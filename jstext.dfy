/**
 * The JavaScript string behaviour the record classes depend on: `trim`,
 * `toLowerCase`/`toUpperCase` (ASCII letters), `padStart`, `String(n)` for
 * integers, and the decimal subsets of `parseInt(s, 10)` and `parseFloat(s)`.
 */
module JsText {
  import opened Results

  /** The WhiteSpace and LineTerminator code points that `trim` removes. */
  predicate IsSpace(c: char) {
    || c == ' ' || c == '\t' || c == '\n' || c == '\r' || c == '\U{000B}' || c == '\U{000C}'
    || c == '\U{00A0}' || c == '\U{1680}' || ('\U{2000}' <= c <= '\U{200A}')
    || c == '\U{2028}' || c == '\U{2029}' || c == '\U{202F}' || c == '\U{205F}'
    || c == '\U{3000}' || c == '\U{FEFF}'
  }

  /** No white space at either end. */
  predicate IsTrimmed(s: string) {
    s == [] || (!IsSpace(s[0]) && !IsSpace(s[|s| - 1]))
  }

  /** `s.trimStart()`: the suffix left after the leading white space. */
  function TrimStart(s: string): (r: string)
    ensures |r| <= |s| && r == s[|s| - |r|..]
    ensures r == [] || !IsSpace(r[0])
    ensures forall i :: 0 <= i < |s| - |r| ==> IsSpace(s[i])
    decreases |s|
  {
    if |s| > 0 && IsSpace(s[0]) then TrimStart(s[1..]) else s
  }

  /** `s.trimEnd()`: the prefix left before the trailing white space. */
  function TrimEnd(s: string): (r: string)
    ensures |r| <= |s| && r == s[..|r|]
    ensures r == [] || !IsSpace(r[|r| - 1])
    ensures forall i :: |r| <= i < |s| ==> IsSpace(s[i])
  {
    if |s| > 0 && IsSpace(s[|s| - 1]) then TrimEnd(s[..|s| - 1]) else s
  }

  /**
   * `s.trim()`: the slice of `s` between its leading and trailing white space;
   * it leaves an already trimmed string alone, so trimming is idempotent.
   */
  function Trim(s: string): (r: string)
    ensures IsTrimmed(r)
    ensures var k := |s| - |TrimStart(s)|;
      && k + |r| <= |s| && r == s[k..k + |r|]
      && (forall i :: 0 <= i < k ==> IsSpace(s[i]))
      && (forall i :: k + |r| <= i < |s| ==> IsSpace(s[i]))
    ensures IsTrimmed(s) ==> r == s
  {
    TrimEnd(TrimStart(s))
  }

  /** A character that trimming cannot remove survives it. */
  lemma TrimKeeps(s: string, c: char)
    requires !IsSpace(c)
    ensures c in Trim(s) <==> c in s
  {
    var r := Trim(s);
    var k := |s| - |TrimStart(s)|;
    if c in s {
      var i :| 0 <= i < |s| && s[i] == c;
      assert k <= i < k + |r|;
      assert r[i - k] == c;
    }
  }

  predicate IsUpperAscii(c: char) { 'A' <= c <= 'Z' }

  predicate IsLowerAscii(c: char) { 'a' <= c <= 'z' }

  /** `toLowerCase` of one character, for the ASCII letters. */
  function LowerChar(c: char): (r: char)
    ensures !IsUpperAscii(r)
    ensures IsUpperAscii(c) ==> IsLowerAscii(r)
    ensures !IsUpperAscii(c) ==> r == c
  {
    if IsUpperAscii(c) then (c as int + 32) as char else c
  }

  /** `toUpperCase` of one character, for the ASCII letters. */
  function UpperChar(c: char): (r: char)
    ensures !IsLowerAscii(r)
    ensures IsLowerAscii(c) ==> IsUpperAscii(r)
    ensures !IsLowerAscii(c) ==> r == c
  {
    if IsLowerAscii(c) then (c as int - 32) as char else c
  }

  /** No ASCII capital letter anywhere in `s`. */
  predicate IsLowerCased(s: string) {
    forall i :: 0 <= i < |s| ==> !IsUpperAscii(s[i])
  }

  /**
   * `s.toLowerCase()`: the same length, no capital left, every other
   * character where it was; a lower-cased string is its own lower case.
   */
  function Lower(s: string): (r: string)
    ensures |r| == |s| && IsLowerCased(r)
    ensures forall i :: 0 <= i < |s| && !IsUpperAscii(s[i]) ==> r[i] == s[i]
    ensures IsLowerCased(s) ==> r == s
  {
    seq(|s|, i requires 0 <= i < |s| => LowerChar(s[i]))
  }

  /** Lower-casing keeps the white space and the '@' signs where they are. */
  lemma LowerKeepsNonLetters(s: string)
    ensures IsTrimmed(s) ==> IsTrimmed(Lower(s))
    ensures '@' in Lower(s) <==> '@' in s
  {
    if '@' in Lower(s) {
      var i :| 0 <= i < |s| && Lower(s)[i] == '@';
      assert s[i] == '@';
    }
  }

  /** `s.padStart(n, fill)`: `s` preceded by as many `fill` as make up `n` characters. */
  function PadStart(s: string, n: nat, fill: char): (r: string)
    ensures |r| == if |s| >= n then |s| else n
    ensures r[|r| - |s|..] == s
    ensures forall i :: 0 <= i < |r| - |s| ==> r[i] == fill
  {
    if |s| >= n then s else seq(n - |s|, _ => fill) + s
  }

  predicate IsDigit(c: char) { '0' <= c <= '9' }

  predicate AllDigits(s: string) { forall i :: 0 <= i < |s| ==> IsDigit(s[i]) }

  function DigitValue(c: char): (d: nat)
    requires IsDigit(c)
    ensures d < 10
  {
    c as int - '0' as int
  }

  function DigitChar(d: nat): (c: char)
    requires d < 10
    ensures IsDigit(c) && DigitValue(c) == d
  {
    ('0' as int + d) as char
  }

  /** The number a string of decimal digits denotes. */
  function DigitsValue(s: string): nat
    requires AllDigits(s)
  {
    if s == [] then 0 else DigitsValue(s[..|s| - 1]) * 10 + DigitValue(s[|s| - 1])
  }

  /**
   * `String(n)` for a non-negative integer: decimal digits that denote `n`,
   * with no leading zero unless `n` is 0.
   */
  function NatToString(n: nat): (r: string)
    ensures |r| >= 1 && AllDigits(r) && DigitsValue(r) == n
    ensures r[0] == '0' ==> n == 0 && r == "0"
    decreases n
  {
    if n < 10 then [DigitChar(n)] else
      var r := NatToString(n / 10) + [DigitChar(n % 10)];
      assert r[..|r| - 1] == NatToString(n / 10);
      r
  }

  /** `String(n)` for an integer. */
  function IntToString(n: int): (r: string)
    ensures |r| >= 1 && (n < 0 <==> r[0] == '-')
    ensures n >= 0 ==> r == NatToString(n)
  {
    if n < 0 then "-" + NatToString(-n) else NatToString(n)
  }

  /** The number of decimal digits `s` starts with. */
  function DigitRun(s: string): (k: nat)
    ensures k <= |s| && AllDigits(s[..k])
    ensures k < |s| ==> !IsDigit(s[k])
  {
    if |s| > 0 && IsDigit(s[0]) then
      var k := 1 + DigitRun(s[1..]);
      assert s[..k] == [s[0]] + s[1..][..k - 1];
      k
    else 0
  }

  lemma DigitRunOfDigits(s: string)
    requires AllDigits(s)
    ensures DigitRun(s) == |s| && s[..DigitRun(s)] == s
  {
  }

  /** What `parseInt` and `parseFloat` read after the leading white space: is it negative, and the text after the sign. */
  function SignAndBody(s: string): (bool, string)
  {
    Signed(TrimStart(s))
  }

  /** Is `t` negative, and the text after its sign. */
  function Signed(t: string): (bool, string)
  {
    if |t| > 0 && (t[0] == '-' || t[0] == '+') then (t[0] == '-', t[1..]) else (false, t)
  }

  /**
   * `parseInt(s, 10)`: the value of the longest signed run of decimal digits
   * after the leading white space, or `None` (NaN) when there is no digit.
   */
  function ParseInt(s: string): (r: Option<int>)
    ensures r.None? <==> DigitRun(SignAndBody(s).1) == 0
  {
    var (negative, body) := SignAndBody(s);
    var k := DigitRun(body);
    if k == 0 then None
    else
      var m: int := DigitsValue(body[..k]);
      Some(if negative then -m else m)
  }

  function Pow10(n: nat): (p: nat)
    ensures p >= 1
  {
    if n == 0 then 1 else 10 * Pow10(n - 1)
  }

  /**
   * `parseFloat(s)` for plain decimals: the value of the longest prefix of the
   * form sign, digits, optionally '.' and digits, after the leading white
   * space; `None` (NaN) when neither part has a digit.
   */
  function ParseFloat(s: string): (r: Option<real>)
  {
    var (negative, body) := SignAndBody(s);
    var k := DigitRun(body);
    var rest := body[k..];
    var f := if |rest| > 0 && rest[0] == '.' then DigitRun(rest[1..]) else 0;
    if k == 0 && f == 0 then None
    else
      var whole := DigitsValue(body[..k]) as real;
      var fraction := if f == 0 then 0.0 else DigitsValue(rest[1..][..f]) as real / Pow10(f) as real;
      Some(if negative then -(whole + fraction) else whole + fraction)
  }

  /** `parseInt` reads back what `String` writes for every integer. */
  lemma ParseIntOfIntToString(n: int)
    ensures ParseInt(IntToString(n)) == Some(n)
  {
    var m := if n < 0 then -n else n;
    var digits := NatToString(m);
    DigitRunOfDigits(digits);
    var s := IntToString(n);
    assert TrimStart(s) == s by {
      assert !IsSpace(s[0]);
    }
    if n < 0 {
      assert s == "-" + digits;
      assert s[1..] == digits;
      assert SignAndBody(s) == (true, digits);
    } else {
      assert s == digits;
      assert SignAndBody(s) == (false, digits);
    }
  }

  /** Leading white space before a string that starts with none is all `trimStart` removes. */
  lemma {:induction false} TrimStartAfterSpaces(w: string, s: string)
    requires forall i :: 0 <= i < |w| ==> IsSpace(w[i])
    requires s == [] || !IsSpace(s[0])
    ensures TrimStart(w + s) == s
  {
    if w != [] {
      assert (w + s)[1..] == w[1..] + s;
      TrimStartAfterSpaces(w[1..], s);
    }
  }

  /** The digit run of digits followed by a non-digit ends where the digits do. */
  lemma {:induction false} DigitRunStopsAt(d: string, t: string)
    requires AllDigits(d)
    requires t == [] || !IsDigit(t[0])
    ensures DigitRun(d + t) == |d| && (d + t)[..|d|] == d
  {
    if d != [] {
      assert (d + t)[1..] == d[1..] + t;
      DigitRunStopsAt(d[1..], t);
    }
  }

  /**
   * `parseInt` reads an integer's decimal form out of longer text: leading
   * white space is skipped and reading stops at the first character that is
   * not a digit, so `parseInt(" 42px")` is 42.
   */
  lemma ParseIntReadsPrefix(w: string, n: int, t: string)
    requires forall i :: 0 <= i < |w| ==> IsSpace(w[i])
    requires t == [] || !IsDigit(t[0])
    ensures ParseInt(w + (IntToString(n) + t)) == Some(n)
  {
    var digits := NatToString(if n < 0 then -n else n);
    IntToStringSigned(n);
    ParseIntReadsDigits(w, n < 0, digits, t);
  }

  lemma IntToStringSigned(n: int)
    ensures IntToString(n) == MinusSign(n < 0) + NatToString(if n < 0 then -n else n)
  {
  }

  function MinusSign(negative: bool): string { if negative then "-" else "" }

  /** `parseInt` of white space, an optional minus sign, digits, then text that starts with no digit. */
  lemma ParseIntReadsDigits(w: string, negative: bool, d: string, t: string)
    requires forall i :: 0 <= i < |w| ==> IsSpace(w[i])
    requires AllDigits(d) && d != [] && (t == [] || !IsDigit(t[0]))
    ensures ParseInt(w + (MinusSign(negative) + d + t))
         == Some(if negative then -(DigitsValue(d) as int) else DigitsValue(d) as int)
  {
    var x := w + (MinusSign(negative) + d + t);
    TrimStartAfterSpaces(w, MinusSign(negative) + d + t);
    SignOf(negative, d, t);
    ParseIntOfSigned(x, negative, d, t);
  }

  /** The sign `parseInt` reads, and the text after it. */
  lemma SignOf(negative: bool, d: string, t: string)
    requires d != [] && IsDigit(d[0])
    ensures Signed(MinusSign(negative) + d + t) == (negative, d + t)
  {
    var u := MinusSign(negative) + d + t;
    if negative {
      assert u == ['-'] + (d + t);
      assert u[0] == '-' && u[1..] == d + t;
    } else {
      assert u == d + t;
      assert u[0] == d[0];
    }
  }

  /** The value `parseInt` reads when the text after the sign is digits and then no digit. */
  lemma ParseIntOfSigned(x: string, negative: bool, d: string, t: string)
    requires SignAndBody(x) == (negative, d + t)
    requires AllDigits(d) && d != [] && (t == [] || !IsDigit(t[0]))
    ensures ParseInt(x) == Some(if negative then -(DigitsValue(d) as int) else DigitsValue(d) as int)
  {
    DigitRunStopsAt(d, t);
  }

  /** `parseFloat` reads back what `String` writes for every natural number. */
  lemma ParseFloatOfNatToString(n: nat)
    ensures ParseFloat(NatToString(n)) == Some(n as real)
  {
    var s := NatToString(n);
    DigitRunOfDigits(s);
    assert TrimStart(s) == s;
    assert !(s[0] == '-' || s[0] == '+');
    assert s[|s|..] == [];
  }

  /** Drops the zeros `s` starts with. */
  function DropLeadingZeros(s: string): (r: string)
    ensures |r| <= |s| && r == s[|s| - |r|..]
    ensures r == [] || r[0] != '0'
    ensures forall i :: 0 <= i < |s| - |r| ==> s[i] == '0'
  {
    if |s| > 0 && s[0] == '0' then DropLeadingZeros(s[1..]) else s
  }
}
