/**
The string helpers under the snapshot file: printing with %u and %08x, parsing as kstrtouint,
kstrtoint and sscanf("%x") do, and splitting with strsep. Strings are C strings without their NUL.
*/
module Text {
  import opened Basics

  const DIGITS := "0123456789abcdef"

  // ---------------------------------------------------------------- digits

  /** The value of a digit, 16 for a character that is none. */
  function DigitValue(c: char): (d: nat)
    ensures d <= 16
  {
    if '0' <= c <= '9' then (c - '0') as nat
    else if 'a' <= c <= 'f' then (c - 'a') as nat + 10
    else if 'A' <= c <= 'F' then (c - 'A') as nat + 10
    else 16
  }

  predicate AllDigits(s: string, base: nat) { forall i :: 0 <= i < |s| ==> DigitValue(s[i]) < base }

  function Value(s: string, base: nat): nat {
    if s == "" then 0 else Value(s[..|s| - 1], base) * base + DigitValue(s[|s| - 1])
  }

  lemma DigitBack(d: nat)
    requires d < 16
    ensures DigitValue(DIGITS[d]) == d
    ensures d < 10 ==> '0' <= DIGITS[d] <= '9'
  {
    assert DIGITS[..10] == "0123456789" && DIGITS[10..] == "abcdef";
    if d < 10 {
      assert DIGITS[d] == DIGITS[..10][d];
    } else {
      assert DIGITS[d] == DIGITS[10..][d - 10];
    }
  }

  /** %u and %llu */
  function Dec(n: nat): string {
    if n < 10 then [DIGITS[n]] else Dec(n / 10) + [DIGITS[n % 10]]
  }

  lemma {:induction false} DecBack(n: nat)
    ensures Dec(n) != "" && AllDigits(Dec(n), 10) && Value(Dec(n), 10) == n
  {
    if n < 10 {
      DigitBack(n);
      assert Dec(n)[..0] == "";
    } else {
      DecBack(n / 10);
      DigitBack(n % 10);
      assert Dec(n)[..|Dec(n)| - 1] == Dec(n / 10);
    }
  }

  function Pow10(d: nat): nat { if d == 0 then 1 else 10 * Pow10(d - 1) }

  lemma {:induction false} DecLength(n: nat, d: nat)
    requires 0 < d && n < Pow10(d)
    ensures |Dec(n)| <= d
  {
    if n >= 10 {
      assert d > 1;
      DecLength(n / 10, d - 1);
    }
  }

  /** %0{w}x of the low `w` hexadecimal digits. */
  function Hex(n: nat, w: nat): (s: string)
    ensures |s| == w
  {
    if w == 0 then "" else Hex(n / 16, w - 1) + [DIGITS[n % 16]]
  }

  function Pow16(d: nat): nat { if d == 0 then 1 else 16 * Pow16(d - 1) }

  lemma {:induction false} HexBack(n: nat, w: nat)
    requires n < Pow16(w)
    ensures AllDigits(Hex(n, w), 16) && Value(Hex(n, w), 16) == n
  {
    if w > 0 {
      HexBack(n / 16, w - 1);
      DigitBack(n % 16);
      assert Hex(n, w)[..w - 1] == Hex(n / 16, w - 1);
    }
  }

  /** Numbers as they are printed: the most significant digit first, no leading zeros. */
  lemma SampleDec()
    ensures Dec(0) == "0" && Dec(8) == "8" && Dec(32) == "32" && Dec(305) == "305"
  {
    assert Dec(3) == "3" && Dec(30) == "30";
  }

  /** Leading zeros, lower-case digits, the most significant first. */
  lemma SampleHex()
    ensures Hex(0x2f, 3) == "02f"
  {
    HexDigit(0x2f, 2);
    HexDigit(0x2, 1);
    HexDigit(0, 0);
    assert DIGITS[2] == '2' && DIGITS[15] == 'f' && DIGITS[0] == '0';
  }

  lemma HexDigit(n: nat, w: nat)
    ensures Hex(n, w + 1) == Hex(n / 16, w) + [DIGITS[n % 16]]
  {}

  // ---------------------------------------------------------------- parsing numbers

  /** Digits, at least one, then at most one newline and nothing else; out of range is an error. */
  function ParseDigits(s: string, limit: nat): Option<nat> {
    var t := if s != "" && s[|s| - 1] == '\n' then s[..|s| - 1] else s;
    if t != "" && AllDigits(t, 10) && Value(t, 10) <= limit then Some(Value(t, 10)) else None
  }

  /** kstrtouint and kstrtoul in base 10: an optional plus sign. */
  function ParseUnsigned(s: string, limit: nat): Option<nat> {
    ParseDigits(if s != "" && s[0] == '+' then s[1..] else s, limit)
  }

  /** kstrtoint in base 10 */
  function ParseInt(s: string): Option<int> {
    if s != "" && s[0] == '-' then
      (match ParseDigits(s[1..], 0x8000_0000)
       case Some(n) => Some(-(n as int))
       case None => None)
    else
      match ParseUnsigned(s, 0x7fff_ffff)
      case Some(n) => Some(n)
      case None => None
  }

  /** A number with an optional plus sign before it and an optional newline behind it. */
  predicate Numeral(s: string, digits: string) {
    && digits != "" && AllDigits(digits, 10)
    && (s == digits || s == "+" + digits || s == digits + "\n" || s == "+" + digits + "\n")
  }

  /** `s` without the sign, and without the newline. */
  function Unsigned(s: string): string { if s != "" && s[0] == '+' then s[1..] else s }
  function Chomped(s: string): string { if s != "" && s[|s| - 1] == '\n' then s[..|s| - 1] else s }

  lemma ParsedIs(s: string, limit: nat, n: nat)
    ensures var u := Chomped(Unsigned(s));
      ParseUnsigned(s, limit) == Some(n) <==> u != "" && AllDigits(u, 10) && Value(u, 10) == n <= limit
  {}

  lemma StripsTo(s: string)
    ensures var u := Chomped(Unsigned(s)); s == u || s == "+" + u || s == u + "\n" || s == "+" + u + "\n"
  {
    var t := Unsigned(s);
    assert t == Chomped(t) || t == Chomped(t) + "\n";
    assert s == t || s == "+" + t;
  }

  lemma NumeralIs(s: string, digits: string)
    requires Numeral(s, digits)
    ensures Chomped(Unsigned(s)) == digits
  {
    assert DigitValue(digits[0]) < 10 && DigitValue(digits[|digits| - 1]) < 10;
    assert Unsigned(s) == digits || Unsigned(s) == digits + "\n";
  }

  /** Exactly such strings are read, as the number they write, up to the limit. */
  lemma ParsedExactly(s: string, limit: nat, n: nat)
    ensures ParseUnsigned(s, limit) == Some(n)
            <==> n <= limit && exists digits :: Numeral(s, digits) && Value(digits, 10) == n
  {
    ParsedIs(s, limit, n);
    StripsTo(s);
    if ParseUnsigned(s, limit) == Some(n) { assert Numeral(s, Chomped(Unsigned(s))); }
    if digits :| Numeral(s, digits) && Value(digits, 10) == n { NumeralIs(s, digits); }
  }

  lemma DigitsBack(s: string, limit: nat)
    requires s != "" && AllDigits(s, 10) && Value(s, 10) <= limit
    ensures ParseDigits(s, limit) == Some(Value(s, 10)) && s[0] !in "+-"
  {
    assert DigitValue(s[0]) < 10 && DigitValue(s[|s| - 1]) < 10;
  }

  lemma {:induction false} ParseBack(n: nat, limit: nat)
    requires n <= limit
    ensures ParseUnsigned(Dec(n), limit) == Some(n)
    ensures n <= 0x7fff_ffff ==> ParseInt(Dec(n)) == Some(n)
  {
    DecBack(n);
    DigitsBack(Dec(n), limit);
    if n <= 0x7fff_ffff { DigitsBack(Dec(n), 0x7fff_ffff); }
  }

  lemma ParseIntOver(n: nat)
    requires n > 0x7fff_ffff
    ensures ParseInt(Dec(n)) == None
  {
    DecBack(n);
    assert DigitValue(Dec(n)[0]) < 10;
    ParseOver(n, 0x7fff_ffff);
  }

  /** A printed number beyond the limit is refused. */
  lemma ParseOver(n: nat, limit: nat)
    requires n > limit
    ensures ParseUnsigned(Dec(n), limit) == None
  {
    DecBack(n);
    assert DigitValue(Dec(n)[0]) < 10 && DigitValue(Dec(n)[|Dec(n)| - 1]) < 10;
  }

  /** How many characters at the start of `s` are hexadecimal digits. */
  function HexRun(s: string): (n: nat)
    ensures n <= |s| && AllDigits(s[..n], 16) && (n < |s| ==> DigitValue(s[n]) == 16)
  {
    if s == "" || DigitValue(s[0]) == 16 then 0
    else
      var m := HexRun(s[1..]);
      assert s[..1 + m] == [s[0]] + s[1..][..m];
      1 + m
  }

  predicate Space(c: char) { c == ' ' || '\t' <= c <= '\r' }

  function SkipSpaces(s: string): string { if s != "" && Space(s[0]) then SkipSpaces(s[1..]) else s }

  /** sscanf("%x") into 32 bits: leading blanks, an optional 0x, the longest run of digits. */
  function ScanHex(s: string): Option<nat> {
    var t := SkipSpaces(s);
    if t == "" || DigitValue(t[0]) == 16 then None
    else
      var u := if |t| > 1 && t[0] == '0' && t[1] in "xX" then t[2..] else t;
      Some(Value(u[..HexRun(u)], 16) % 0x1_0000_0000)
  }

  lemma {:induction false} HexRunOf(s: string, rest: string)
    requires AllDigits(s, 16) && (rest == "" || DigitValue(rest[0]) == 16)
    ensures HexRun(s + rest) == |s|
    decreases s
  {
    if s == "" {
      assert s + rest == rest;
    } else {
      assert (s + rest)[1..] == s[1..] + rest;
      HexRunOf(s[1..], rest);
    }
  }

  lemma DigitPlain(c: char)
    requires DigitValue(c) < 16
    ensures !Space(c) && c !in "xX"
  {}

  /** A printed number has no 0x prefix and no leading blank, so scanning takes its whole run of digits. */
  lemma ScanDigits(s: string, rest: string)
    requires |s| > 1 && AllDigits(s, 16) && (rest == "" || DigitValue(rest[0]) == 16)
    ensures ScanHex(s + rest) == Some(Value(s, 16) % 0x1_0000_0000)
  {
    var t := s + rest;
    assert t[0] == s[0] && t[1] == s[1];
    HexRunOf(s, rest);
    assert t[..|s|] == s;
    DigitPlain(t[0]);
    DigitPlain(t[1]);
  }

  /** Scanning reads blanks, an 0x and digits only: cutting right behind them changes nothing. */
  lemma {:induction false} ScanStops(s: string) returns (k: nat)
    requires ScanHex(s).Some?
    ensures k <= |s| && ScanHex(s[..k]) == ScanHex(s)
    ensures forall i :: 0 <= i < k ==> Space(s[i]) || DigitValue(s[i]) < 16 || s[i] in "xX"
    decreases s
  {
    if s != "" && Space(s[0]) {
      var rest := ScanStops(s[1..]);
      k := 1 + rest;
      assert s[..k][1..] == s[1..][..rest];
      assert forall i :: 1 <= i < k ==> s[i] == s[1..][i - 1];
    } else {
      k := DigitsStop(s);
    }
  }

  lemma DigitsStop(s: string) returns (k: nat)
    requires s != "" && !Space(s[0]) && DigitValue(s[0]) < 16
    ensures k <= |s| && ScanHex(s[..k]) == ScanHex(s)
    ensures forall i :: 0 <= i < k ==> DigitValue(s[i]) < 16 || s[i] in "xX"
  {
    if |s| > 1 && s[0] == '0' && s[1] in "xX" {
      var u := s[2..];
      k := 2 + HexRun(u);
      assert s[..k][2..] == u[..HexRun(u)];
      RunAlone(u);
      assert forall i :: 2 <= i < k ==> s[i] == u[..HexRun(u)][i - 2];
    } else {
      k := HexRun(s);
      RunAlone(s);
      assert forall i :: 0 <= i < k ==> s[i] == s[..k][i];
    }
  }

  lemma RunAlone(s: string)
    ensures HexRun(s[..HexRun(s)]) == HexRun(s) && s[..HexRun(s)][..HexRun(s)] == s[..HexRun(s)]
  {
    HexRunOf(s[..HexRun(s)], "");
    assert s[..HexRun(s)] + "" == s[..HexRun(s)];
  }

  lemma Fits32(n: nat)
    requires n < 0x1_0000_0000
    ensures n % 0x1_0000_0000 == n
  {}

  /** What %0{w}x prints, sscanf reads back, when the line ends there. */
  lemma LineBack(n: nat, w: nat)
    requires w > 1 && n < Pow16(w) && n < 0x1_0000_0000
    ensures ScanHex(Hex(n, w) + "\n") == Some(n) && '\n' !in Hex(n, w)
  {
    HexBack(n, w);
    ScanDigits(Hex(n, w), "\n");
    Fits32(n);
  }

  // ---------------------------------------------------------------- splitting

  /** The position of the first `c`, or the length. */
  function IndexOf(s: string, c: char): (i: nat)
    ensures i <= |s| && c !in s[..i] && (i < |s| ==> s[i] == c)
  {
    if s == "" || s[0] == c then 0
    else
      var j := IndexOf(s[1..], c);
      assert s[..1 + j] == [s[0]] + s[1..][..j];
      1 + j
  }

  lemma IndexUnique(s: string, c: char, i: nat)
    requires i <= |s| && c !in s[..i] && (i < |s| ==> s[i] == c)
    ensures IndexOf(s, c) == i
  {
    var j := IndexOf(s, c);
    forall k | 0 <= k < i ensures s[k] != c { assert s[..i][k] == s[k]; }
    forall k | 0 <= k < j ensures s[k] != c { assert s[..j][k] == s[k]; }
  }

  /** One strsep call: the token, and where the cursor is left (None is the null pointer). */
  function Strsep(s: Option<string>, c: char): (r: (Option<string>, Option<string>))
    ensures r.1.Some? ==> s.Some? && |r.1.value| < |s.value|
  {
    match s
    case None => (None, None)
    case Some(w) =>
      var i := IndexOf(w, c);
      (Some(w[..i]), if i == |w| then None else Some(w[i + 1..]))
  }

  lemma StrsepAt(word: string, c: char, rest: string)
    requires c !in word
    ensures Strsep(Some(word + [c] + rest), c) == (Some(word), Some(rest))
    ensures Strsep(Some(word), c) == (Some(word), None)
  {
    var s := word + [c] + rest;
    assert s[..|word|] == word && s[|word| + 1..] == rest && word[..|word|] == word;
    IndexUnique(s, c, |word|);
    IndexUnique(word, c, |word|);
  }

  /** All the tokens strsep hands out. */
  function Tokens(s: Option<string>, c: char): seq<string>
    decreases if s.Some? then 1 + |s.value| else 0
  {
    var r := Strsep(s, c);
    if r.0.None? then [] else [r.0.value] + Tokens(r.1, c)
  }

  lemma TokensHead(s: Option<string>, c: char)
    requires s.Some?
    ensures |Tokens(s, c)| > 0 && Tokens(s, c)[0] == Strsep(s, c).0.value
    ensures Tokens(s, c)[1..] == Tokens(Strsep(s, c).1, c)
  {
  }

  /** What strsep hands out and leaves comes from the string, and a token has no separator in it. */
  lemma StrsepParts(s: string, c: char)
    ensures var r := Strsep(Some(s), c);
      && r.0.Some? && c !in r.0.value && (forall d :: d in r.0.value ==> d in s)
      && (r.1.Some? ==> forall d :: d in r.1.value ==> d in s)
  {
  }

  lemma {:induction false} TokensClean(s: Option<string>, c: char)
    ensures forall i :: 0 <= i < |Tokens(s, c)| ==> c !in Tokens(s, c)[i]
    decreases if s.Some? then 1 + |s.value| else 0
  {
    if s.Some? {
      StrsepParts(s.value, c);
      TokensHead(s, c);
      TokensClean(Strsep(s, c).1, c);
    }
  }

  /** A piece between two separators is a token, whatever is around it. */
  lemma {:induction false} TokenBetween(a: string, word: string, b: string, c: char)
    requires c !in word
    ensures word in Tokens(Some(a + [c] + (word + [c] + b)), c)
    decreases a
  {
    var i, behind := IndexOf(a, c), word + [c] + b;
    var s := a + [c] + behind;
    TokensHead(Some(s), c);
    if i == |a| {
      assert a[..i] == a;
      StrsepAt(a, c, behind);
      StrsepAt(word, c, b);
      TokensHead(Some(behind), c);
    } else {
      Regroup(a, i, c, behind);
      StrsepAt(a[..i], c, a[i + 1..] + [c] + behind);
      TokenBetween(a[i + 1..], word, b, c);
    }
    TokensTail(Some(s), c, word);
  }

  lemma Regroup(a: string, i: nat, c: char, behind: string)
    requires i < |a| && a[i] == c
    ensures a + [c] + behind == a[..i] + [c] + (a[i + 1..] + [c] + behind)
  {
    assert a == a[..i] + [c] + a[i + 1..];
  }

  lemma TokensTail(s: Option<string>, c: char, word: string)
    requires s.Some? && word in Tokens(Strsep(s, c).1, c)
    ensures word in Tokens(s, c)
  {}

  /** Lines, each with its newline. */
  function Unlines(lines: seq<string>): string {
    if lines == [] then "" else lines[0] + "\n" + Unlines(lines[1..])
  }

  lemma {:induction false} UnlinesConcat(a: seq<string>, b: seq<string>)
    ensures Unlines(a + b) == Unlines(a) + Unlines(b)
  {
    if a == [] {
      assert a + b == b;
    } else {
      assert (a + b)[1..] == a[1..] + b;
      UnlinesConcat(a[1..], b);
    }
  }

  /** Splitting undoes joining, for lines without newlines. */
  lemma {:induction false} TokensOfLines(lines: seq<string>)
    requires forall i :: 0 <= i < |lines| ==> '\n' !in lines[i]
    ensures Tokens(Some(Unlines(lines)), '\n') == lines + [""]
  {
    if lines == [] {
      StrsepAt("", '\n', "");
    } else {
      StrsepAt(lines[0], '\n', Unlines(lines[1..]));
      assert lines[0] + ['\n'] + Unlines(lines[1..]) == Unlines(lines);
      TokensOfLines(lines[1..]);
    }
  }
}
