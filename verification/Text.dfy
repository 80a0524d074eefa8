/**
 The text helpers the proof format rests on: hex and decimal numerals, the C library's
 unsigned parsers, and substring search with size_t positions.
 */
module Text {
  import opened Bytes
  import opened Options

  // std::string::npos
  const NPOS: nat := 0xFFFF_FFFF_FFFF_FFFF

  // ---------------------------------------------------------------------------
  // Digits
  // ---------------------------------------------------------------------------

  function HexDigit(n: nat): (c: char)
    requires n < 16
  {
    if n < 10 then (n + 48) as char else (n + 87) as char
  }

  /** The value of a digit in bases up to 16, or 16 when c is none. */
  function DigitValue(c: char): (v: nat)
    ensures v <= 16
  {
    if '0' <= c <= '9' then c as int - 48
    else if 'a' <= c <= 'f' then c as int - 87
    else if 'A' <= c <= 'F' then c as int - 55
    else 16
  }

  lemma DigitRoundTrip(n: nat)
    requires n < 16
    ensures DigitValue(HexDigit(n)) == n
    ensures n < 10 ==> '0' <= HexDigit(n) <= '9'
    ensures n >= 10 ==> 'a' <= HexDigit(n) <= 'f'
  {
  }

  predicate IsSpace(c: char) {
    c == ' ' || 9 <= c as int <= 13
  }

  // ---------------------------------------------------------------------------
  // strtoul and strtoull
  // ---------------------------------------------------------------------------

  function SkipSpaces(s: string): (t: string)
    ensures |t| <= |s|
  {
    if s != [] && IsSpace(s[0]) then SkipSpaces(s[1..]) else s
  }

  /** The longest prefix of digits of the base. */
  function DigitRun(s: string, base: nat): (n: nat)
    ensures n <= |s|
  {
    if s != [] && DigitValue(s[0]) < base then 1 + DigitRun(s[1..], base) else 0
  }

  function Numeral(s: string, base: nat): nat {
    if s == [] then 0 else base * Numeral(s[..|s| - 1], base) + DigitValue(s[|s| - 1])
  }

  /** The digits after sign and base prefix; "0x" counts only before a hex digit. */
  function StripBase(s: string, base: nat): string {
    if base == 16 && |s| >= 3 && s[0] == '0' && (s[1] == 'x' || s[1] == 'X') && DigitValue(s[2]) < 16
    then s[2..] else s
  }

  /**
   std::stoul and std::stoull on 64-bit longs: leading spaces, a sign, digits up to the first
   other character. None is the exception for no digits or for a value out of range; a minus
   sign negates modulo 2^64.
   */
  function ParseUnsigned(s: string, base: nat): Option<u64> {
    var t := SkipSpaces(s);
    var negative := t != [] && t[0] == '-';
    var u := if t != [] && (t[0] == '-' || t[0] == '+') then t[1..] else t;
    var digits := StripBase(u, base);
    var n := DigitRun(digits, base);
    var v := Numeral(digits[..n], base);
    if n == 0 || v >= TWO_64 then None
    else if negative then Some((TWO_64 - v) % TWO_64)
    else Some(v)
  }

  predicate AllDigits(s: string, base: nat) {
    forall i :: 0 <= i < |s| ==> DigitValue(s[i]) < base
  }

  lemma {:induction false} RunOfDigits(s: string, base: nat)
    requires AllDigits(s, base)
    ensures DigitRun(s, base) == |s|
  {
    if s != [] {
      RunOfDigits(s[1..], base);
    }
  }

  /** A text of digits alone is read as its numeral. */
  lemma ParseDigits(s: string, base: nat)
    requires base == 10 || base == 16
    requires s != [] && AllDigits(s, base) && Numeral(s, base) < TWO_64
    ensures ParseUnsigned(s, base) == Some(Numeral(s, base))
  {
    assert DigitValue(s[0]) < 16;
    assert SkipSpaces(s) == s;
    if |s| > 1 {
      assert DigitValue(s[1]) < 16;
    }
    assert StripBase(s, base) == s;
    RunOfDigits(s, base);
    assert s[..|s|] == s;
  }

  predicate AllSpaces(w: string) {
    forall i :: 0 <= i < |w| ==> w[i] as int in {9, 10, 11, 12, 13, 32}
  }

  lemma {:induction false} SpacesSkipped(w: string, t: string)
    requires AllSpaces(w) && (t != "" ==> t[0] as int !in {9, 10, 11, 12, 13, 32})
    ensures SkipSpaces(w + t) == t
  {
    if w == "" {
      assert w + t == t;
    } else {
      assert (w + t)[0] == w[0] && (w + t)[1..] == w[1..] + t;
      SpacesSkipped(w[1..], t);
    }
  }

  lemma {:induction false} RunEnds(d: string, rest: string, base: nat)
    requires AllDigits(d, base) && (rest != "" ==> DigitValue(rest[0]) >= base)
    ensures DigitRun(d + rest, base) == |d|
  {
    if d == "" {
      assert d + rest == rest;
    } else {
      assert (d + rest)[0] == d[0] && (d + rest)[1..] == d[1..] + rest;
      RunEnds(d[1..], rest, base);
    }
  }

  /** What the digits come to behind a sign: a minus sign negates modulo 2^64. */
  function Signed(sign: string, v: nat): Option<u64> {
    if v >= TWO_64 then None else if sign == "-" then Some((TWO_64 - v) % TWO_64) else Some(v)
  }

  /**
   The texts that are read: white space, a sign or none, in base 16 a prefix or none, digits, and
   then anything else. Without a digit there is an exception, and so from 2^64 on.
   */
  lemma ParseForm(w: string, sign: string, prefix: string, d: string, rest: string, base: nat)
    requires base == 10 || base == 16
    requires AllSpaces(w) && sign in {"", "+", "-"} && AllDigits(d, base)
    requires prefix == "" || (base == 16 && prefix in {"0x", "0X"} && d != "")
    requires rest != "" ==> DigitValue(rest[0]) >= base
    requires d == "" && sign == "" && rest != "" ==> rest[0] as int !in {9, 10, 11, 12, 13, 32} && rest[0] !in "+-"
    requires prefix == "" && d == "0" && |rest| > 1 ==> !(rest[0] in "xX" && DigitValue(rest[1]) < 16)
    ensures ParseUnsigned(w + (sign + (prefix + (d + rest))), base)
         == if d == "" then None else Signed(sign, Numeral(d, base))
  {
    hide *;
    var u := prefix + (d + rest);
    var t := sign + u;
    SignedHead(sign, prefix, d, rest, base);
    SpacesSkipped(w, t);
    PrefixStripped(prefix, d, rest, base);
    RunEnds(d, rest, base);
    SignTaken(sign, u);
    ParseUnfolded(w + t, t, u, d, rest, base);
    SignedIs(sign, t, d, base);
  }

  lemma SignTaken(sign: string, u: string)
    requires sign in {"", "+", "-"} && (sign == "" && u != "" ==> u[0] != '+' && u[0] != '-')
    ensures var t := sign + u;
            && u == (if t != "" && (t[0] == '-' || t[0] == '+') then t[1..] else t)
            && (t != "" && t[0] == '-' <==> sign == "-")
  {
    var t := sign + u;
    assert sign != "" ==> t[0] == sign[0] && t[1..] == u;
    assert sign == "" ==> t == u;
  }

  lemma SignedIs(sign: string, t: string, d: string, base: nat)
    requires t != "" && t[0] == '-' <==> sign == "-"
    ensures Signed(sign, Numeral(d, base))
         == if Numeral(d, base) >= TWO_64 then None
            else if t != "" && t[0] == '-' then Some((TWO_64 - Numeral(d, base)) % TWO_64)
            else Some(Numeral(d, base))
  {
    hide Numeral;
  }

  lemma ParseUnfolded(s: string, t: string, u: string, d: string, rest: string, base: nat)
    requires SkipSpaces(s) == t
    requires u == (if t != "" && (t[0] == '-' || t[0] == '+') then t[1..] else t)
    requires StripBase(u, base) == d + rest && DigitRun(d + rest, base) == |d|
    ensures ParseUnsigned(s, base)
         == if d == "" || Numeral(d, base) >= TWO_64 then None
            else if t != "" && t[0] == '-' then Some((TWO_64 - Numeral(d, base)) % TWO_64)
            else Some(Numeral(d, base))
  {
    hide SkipSpaces, StripBase, DigitRun, Numeral;
    assert (d + rest)[..|d|] == d;
  }

  lemma SignedHead(sign: string, prefix: string, d: string, rest: string, base: nat)
    requires base == 10 || base == 16
    requires sign in {"", "+", "-"} && AllDigits(d, base)
    requires prefix == "" || (prefix in {"0x", "0X"} && d != "")
    requires d == "" && sign == "" && rest != "" ==> rest[0] as int !in {9, 10, 11, 12, 13, 32} && rest[0] !in "+-"
    ensures var t := sign + (prefix + (d + rest));
            && (t != "" ==> t[0] as int !in {9, 10, 11, 12, 13, 32})
            && (sign == "" && t != "" ==> t[0] != '+' && t[0] != '-')
  {
    var t := sign + (prefix + (d + rest));
    if sign != "" {
      assert t[0] == sign[0];
    } else if prefix != "" {
      assert t[0] == prefix[0];
    } else if d != "" {
      assert t[0] == d[0] && DigitValue(d[0]) < 16;
    } else if rest != "" {
      assert t[0] == rest[0];
    }
  }

  lemma PrefixStripped(prefix: string, d: string, rest: string, base: nat)
    requires base == 10 || base == 16
    requires AllDigits(d, base) && (rest != "" ==> DigitValue(rest[0]) >= base)
    requires prefix == "" || (base == 16 && prefix in {"0x", "0X"} && d != "")
    requires prefix == "" && d == "0" && |rest| > 1 ==> !(rest[0] in "xX" && DigitValue(rest[1]) < 16)
    ensures StripBase(prefix + (d + rest), base) == d + rest
  {
    var u := prefix + (d + rest);
    NotADigit('x');
    NotADigit('X');
    if prefix != "" {
      assert u[0] == prefix[0] && u[1] == prefix[1] && u[2] == d[0] && u[2..] == d + rest;
    } else {
      assert u == d + rest;
      assert |d| > 1 ==> u[1] == d[1];
      assert |d| == 1 && |rest| > 1 ==> d == [u[0]] && u[1] == rest[0] && u[2] == rest[1];
      assert d == "" && rest != "" ==> u[0] == rest[0];
      assert DigitValue('0') == 0;
    }
  }

  lemma NotADigit(c: char)
    requires c == 'x' || c == 'X'
    ensures DigitValue(c) == 16
  {
  }

  // ---------------------------------------------------------------------------
  // Hex
  // ---------------------------------------------------------------------------

  function HexPair(b: byte): string {
    [HexDigit(b / 16), HexDigit(b % 16)]
  }

  function ToHex(data: seq<byte>): (s: string)
    ensures |s| == 2 * |data|
  {
    if data == [] then [] else ToHex(data[..|data| - 1]) + HexPair(data[|data| - 1])
  }

  method RunToHex(data: seq<byte>) returns (s: string)
    ensures s == ToHex(data)
  {
    s := [];
    var i := 0;
    while i < |data|
      invariant i <= |data| && s == ToHex(data[..i])
    {
      assert data[..i + 1][..i] == data[..i];
      s := s + HexPair(data[i]);
      i := i + 1;
    }
    assert data[..i] == data;
  }

  /** The bytes of an even number of characters; a pair may parse as any long, cut to a byte. */
  function HexPairs(s: string): Option<seq<byte>>
    requires |s| % 2 == 0
  {
    if s == [] then Some([])
    else
      match (HexPairs(s[..|s| - 2]), ParseUnsigned(s[|s| - 2..], 16))
      case (Some(rest), Some(v)) => Some(rest + [v % 256])
      case _ => None
  }

  function StripHexPrefix(s: string): string {
    if |s| >= 2 && s[0] == '0' && (s[1] == 'x' || s[1] == 'X') then s[2..] else s
  }

  function FromHex(hex: string): Option<seq<byte>> {
    var clean := StripHexPrefix(hex);
    if |clean| % 2 != 0 then None else HexPairs(clean)
  }

  method RunFromHex(hex: string) returns (r: Option<seq<byte>>)
    ensures r == FromHex(hex)
  {
    hide HexPairs;
    var clean := hex;
    if |hex| >= 2 && hex[0] == '0' && (hex[1] == 'x' || hex[1] == 'X') {
      clean := hex[2..];
    }
    if |clean| % 2 != 0 {
      return None;
    }
    r := RunHexPairs(clean);
  }

  method RunHexPairs(clean: string) returns (r: Option<seq<byte>>)
    requires |clean| % 2 == 0
    ensures r == HexPairs(clean)
  {
    hide *;
    var result: seq<byte> := [];
    var k := 0;
    PairsStart(clean);
    while 2 * k < |clean|
      invariant 2 * k <= |clean| && HexPairs(clean[..2 * k]) == Some(result)
    {
      var byteVal := ParseUnsigned(clean[2 * k..2 * k + 2], 16);
      PairsStep(clean, 2 * k);
      if byteVal == None {
        PairsFail(clean, 2 * k + 2);
        return None;
      }
      result := result + [byteVal.value % 256];
      k := k + 1;
    }
    assert clean[..2 * k] == clean;
    r := Some(result);
  }

  lemma PairsStart(s: string)
    ensures HexPairs(s[..0]) == Some([])
  {
  }

  lemma PairsStep(s: string, i: nat)
    requires i % 2 == 0 && i + 2 <= |s|
    ensures HexPairs(s[..i + 2]) ==
      match (HexPairs(s[..i]), ParseUnsigned(s[i..i + 2], 16))
      case (Some(rest), Some(v)) => Some(rest + [v % 256])
      case _ => None
  {
    hide ParseUnsigned;
    var t := s[..i + 2];
    assert t[..|t| - 2] == s[..i] && t[|t| - 2..] == s[i..i + 2];
  }

  /** A pair that does not parse spoils the whole. */
  lemma {:induction false} PairsFail(s: string, i: nat)
    requires i % 2 == 0 && |s| % 2 == 0 && i <= |s| && HexPairs(s[..i]) == None
    ensures HexPairs(s) == None
    decreases |s|
  {
    hide ParseUnsigned;
    if i == |s| {
      assert s[..i] == s;
    } else {
      assert s[..|s| - 2][..i] == s[..i];
      PairsFail(s[..|s| - 2], i);
    }
  }

  lemma PairRead(b: byte)
    ensures ParseUnsigned(HexPair(b), 16) == Some(b)
  {
    var s := HexPair(b);
    DigitRoundTrip(b / 16);
    DigitRoundTrip(b % 16);
    assert s[..1] == [s[0]];
    assert Numeral([s[0]], 16) == b / 16 by { assert [s[0]][..0] == []; }
    assert Numeral(s, 16) == 16 * Numeral(s[..1], 16) + b % 16;
    ParseDigits(s, 16);
  }

  lemma {:induction false} HexPairsOfHex(data: seq<byte>)
    ensures HexPairs(ToHex(data)) == Some(data)
  {
    hide ParseUnsigned, HexPair;
    if data != [] {
      var init, b := data[..|data| - 1], data[|data| - 1];
      HexPairsOfHex(init);
      PairRead(b);
      PairLength(b);
      assert ToHex(data)[..|ToHex(data)| - 2] == ToHex(init);
      assert ToHex(data)[|ToHex(data)| - 2..] == HexPair(b);
      assert data == init + [b];
    }
  }

  lemma PairLength(b: byte)
    ensures |HexPair(b)| == 2
  {
  }

  predicate IsHexChar(c: char) {
    '0' <= c <= '9' || 'a' <= c <= 'f'
  }

  lemma PairHex(b: byte)
    ensures |HexPair(b)| == 2 && IsHexChar(HexPair(b)[0]) && IsHexChar(HexPair(b)[1])
  {
    DigitRoundTrip(b / 16);
    DigitRoundTrip(b % 16);
  }

  lemma {:induction false} HexChars(data: seq<byte>)
    ensures forall i :: 0 <= i < |ToHex(data)| ==> IsHexChar(ToHex(data)[i])
  {
    hide HexPair, IsHexChar;
    if data != [] {
      HexChars(data[..|data| - 1]);
      PairHex(data[|data| - 1]);
    }
  }

  lemma {:induction false} HexConcat(a: seq<byte>, b: seq<byte>)
    ensures ToHex(a + b) == ToHex(a) + ToHex(b)
  {
    hide HexPair;
    if b == [] {
      assert a + b == a;
    } else {
      var init := b[..|b| - 1];
      assert (a + b)[..|a + b| - 1] == a + init;
      HexConcat(a, init);
    }
  }

  /** Hex survives the way back; no byte string's hex begins with "0x". */
  lemma HexRoundTrip(data: seq<byte>)
    ensures FromHex(ToHex(data)) == Some(data)
  {
    hide HexPairs, ToHex;
    HexChars(data);
    HexPairsOfHex(data);
    if |ToHex(data)| >= 2 {
      assert IsHexChar(ToHex(data)[1]);
    }
  }

  // ---------------------------------------------------------------------------
  // Decimal
  // ---------------------------------------------------------------------------

  /** What operator<< prints for an unsigned number. */
  function Decimal(n: nat): (s: string)
    ensures s != []
  {
    if n < 10 then [HexDigit(n)] else Decimal(n / 10) + [HexDigit(n % 10)]
  }

  lemma {:induction false} DecimalDigits(n: nat)
    ensures AllDigits(Decimal(n), 10) && Numeral(Decimal(n), 10) == n
    ensures forall i :: 0 <= i < |Decimal(n)| ==> '0' <= Decimal(n)[i] <= '9'
  {
    if n < 10 {
      DigitRoundTrip(n);
      assert [HexDigit(n)][..0] == [];
    } else {
      DecimalDigits(n / 10);
      DigitRoundTrip(n % 10);
      assert Decimal(n)[..|Decimal(n)| - 1] == Decimal(n / 10);
    }
  }

  lemma DecimalRoundTrip(n: u64)
    ensures ParseUnsigned(Decimal(n), 10) == Some(n)
  {
    DecimalDigits(n);
    ParseDigits(Decimal(n), 10);
  }

  // ---------------------------------------------------------------------------
  // Searching
  // ---------------------------------------------------------------------------

  /** std::string::find of a non-empty pattern. */
  function Find(s: string, pat: string, from: nat): (k: nat)
    ensures k == NPOS || (from <= k && k + |pat| <= |s| < MAX_SIZE)
    decreases |s| - from
  {
    if from + |pat| > |s| || |s| >= MAX_SIZE then NPOS
    else if s[from..from + |pat|] == pat then from
    else Find(s, pat, from + 1)
  }

  /** size_t sums and differences. */
  function Plus(a: nat, b: nat): nat {
    (a + b) % TWO_64
  }

  function Minus(a: nat, b: nat): nat {
    (a - b) % TWO_64
  }

  /** std::string::substr; None is std::out_of_range. */
  function Substr(s: string, pos: nat, n: nat): Option<string> {
    if pos > |s| then None else Some(s[pos..Min(pos + n, |s|)])
  }

  predicate NoChar(t: string, c: char) {
    forall i :: 0 <= i < |t| ==> t[i] != c
  }

  lemma NoCharConcat(u: string, v: string, c: char)
    requires NoChar(u, c) && NoChar(v, c)
    ensures NoChar(u + v, c)
  {
  }

  /** The first c at or behind pre is the one that follows t. */
  lemma {:induction false} FindChar(pre: string, t: string, c: char, post: string)
    requires |pre + t + [c] + post| < MAX_SIZE && NoChar(t, c)
    ensures Find(pre + (t + ([c] + post)), [c], |pre|) == |pre| + |t|
    decreases |t|
  {
    var s := pre + (t + ([c] + post));
    assert s[|pre|..|pre| + 1] == [s[|pre|]];
    if t == [] {
      assert s[|pre|] == c;
    } else {
      assert s[|pre|] == t[0];
      assert s == (pre + [t[0]]) + (t[1..] + ([c] + post));
      FindChar(pre + [t[0]], t[1..], c, post);
    }
  }

  /** With no c left there is nothing to find. */
  lemma {:induction false} FindNone(pre: string, t: string, c: char)
    requires |pre + t| < MAX_SIZE && NoChar(t, c)
    ensures Find(pre + t, [c], |pre|) == NPOS
    decreases |t|
  {
    if t != [] {
      var s := pre + t;
      assert s[|pre|..|pre| + 1] == [s[|pre|]];
      assert s == (pre + [t[0]]) + t[1..];
      FindNone(pre + [t[0]], t[1..], c);
    }
  }

  /** How often c occurs in t. */
  function Count(t: string, c: char): nat {
    if t == [] then 0 else (if t[0] == c then 1 else 0) + Count(t[1..], c)
  }

  /** A search passes no c and stops at the next one, if any is left. */
  lemma {:induction false} CountFind(s: string, c: char, pos: nat)
    requires pos <= |s| < MAX_SIZE
    ensures var k := Find(s, [c], pos);
            if k == NPOS then Count(s[pos..], c) == 0
            else k < |s| && s[k] == c && Count(s[pos..], c) == 1 + Count(s[k + 1..], c)
    decreases |s| - pos
  {
    if pos < |s| {
      assert s[pos..pos + 1] == [s[pos]];
      assert s[pos..][1..] == s[pos + 1..];
      if s[pos] != c {
        CountFind(s, c, pos + 1);
      }
    }
  }

  /** No quote in t is followed by b, inside t or by what comes next. */
  predicate Quiet(t: string, b: char) {
    && (t != [] ==> t[|t| - 1] != '"')
    && forall i :: 0 <= i < |t| - 1 ==> !(t[i] == '"' && t[i + 1] == b)
  }

  lemma QuietConcat(u: string, v: string, b: char)
    requires Quiet(u, b) && Quiet(v, b)
    ensures Quiet(u + v, b)
  {
    var t := u + v;
    forall i | 0 <= i < |t| - 1
      ensures !(t[i] == '"' && t[i + 1] == b)
    {
      if i + 1 < |u| {
        assert t[i] == u[i] && t[i + 1] == u[i + 1];
      } else if i + 1 == |u| {
        assert t[i] == u[i];
      } else {
        assert t[i] == v[i - |u|] && t[i + 1] == v[i - |u| + 1];
      }
    }
  }

  /** A pattern that begins with a quote and b does not begin within a text quiet for b. */
  lemma {:induction false} QuietSkip(pre: string, t: string, rest: string, pat: string)
    requires |pat| >= 2 && pat[0] == '"' && Quiet(t, pat[1])
    requires |pre + t + rest| < MAX_SIZE
    ensures Find(pre + (t + rest), pat, |pre|) == Find(pre + (t + rest), pat, |pre| + |t|)
    decreases |t|
  {
    hide Find, Quiet;
    var s := pre + (t + rest);
    if |t| > 0 {
      QuietHere(pre, t, rest, pat);
      FindNext(s, pat, |pre|);
      OneFurther(pre, t, rest);
      QuietTail(t, pat[1]);
      QuietSkip(pre + [t[0]], t[1..], rest, pat);
    }
  }

  lemma OneFurther(pre: string, t: string, rest: string)
    requires |t| > 0
    ensures pre + (t + rest) == (pre + [t[0]]) + (t[1..] + rest)
  {
  }

  /** A pattern that opens with a quote does not start in a quiet text. */
  lemma QuietHere(pre: string, t: string, rest: string, pat: string)
    requires |t| > 0 && |pat| >= 2 && pat[0] == '"' && Quiet(t, pat[1])
    ensures var s := pre + (t + rest);
            |pre| + |pat| <= |s| ==> s[|pre|..|pre| + |pat|] != pat
  {
    var s := pre + (t + rest);
    if |pre| + |pat| <= |s| {
      var u := s[|pre|..|pre| + |pat|];
      assert u[0] == t[0];
      if |t| > 1 {
        assert u[1] == s[|pre| + 1] == t[1];
        assert !(t[0] == '"' && t[0 + 1] == pat[1]);
      }
    }
  }

  /** So it is first found right behind such a text. */
  lemma FindQuoted(t: string, pat: string, post: string)
    requires |pat| >= 2 && pat[0] == '"' && Quiet(t, pat[1])
    requires |t + pat + post| < MAX_SIZE
    ensures Find(t + (pat + post), pat, 0) == |t|
  {
    hide Find, Quiet;
    QuietSkip("", t, pat + post, pat);
    Concat("", t, pat + post);
    SliceAt(t, pat, post);
    FindHere(t + (pat + post), pat, |t|);
  }

  lemma FindHere(s: string, pat: string, k: nat)
    requires k + |pat| <= |s| < MAX_SIZE && s[k..k + |pat|] == pat
    ensures Find(s, pat, k) == k
  {
  }

  /** The same past one quote that is followed by something else than the pattern. */
  lemma FindPastQuote(t: string, u: string, pat: string, post: string, d: nat)
    requires |pat| >= 2 && pat[0] == '"' && Quiet(t, pat[1]) && Quiet(u, pat[1])
    requires d < |u| && d + 1 < |pat| && u[d] != pat[d + 1]
    requires |t + ['"'] + u + pat + post| < MAX_SIZE
    ensures Find((t + (['"'] + u)) + (pat + post), pat, 0) == |t| + 1 + |u|
  {
    hide Quiet, Find;
    Concat(t, ['"'] + u, pat + post);
    Concat(['"'], u, pat + post);
    var v := u + (pat + post);
    QuietSkip("", t, ['"'] + v, pat);
    Concat("", t, ['"'] + v);
    NotHere(t, u, pat, post, d);
    FindNext(t + (['"'] + v), pat, |t|);
    FindBehind(t + ['"'], u, pat, post);
    Concat(t, ['"'], v);
  }

  lemma Concat(a: string, b: string, c: string)
    ensures a + (b + c) == (a + b) + c
    ensures a == "" ==> a + (b + c) == b + c
  {
  }

  lemma FindNext(s: string, pat: string, k: nat)
    requires |s| < MAX_SIZE && (k + |pat| <= |s| ==> s[k..k + |pat|] != pat)
    ensures Find(s, pat, k) == Find(s, pat, k + 1)
  {
  }

  lemma NotHere(t: string, u: string, pat: string, post: string, d: nat)
    requires d < |u| && d + 1 < |pat| && u[d] != pat[d + 1]
    ensures var s := t + (['"'] + (u + (pat + post)));
            |t| + |pat| <= |s| && s[|t|..|t| + |pat|] != pat
  {
    var s := t + (['"'] + (u + (pat + post)));
    assert s[|t|..|t| + |pat|][d + 1] == s[|t| + 1 + d] == u[d];
  }

  lemma FindBehind(pre: string, t: string, pat: string, post: string)
    requires |pat| >= 2 && pat[0] == '"' && Quiet(t, pat[1])
    requires |pre + t + pat + post| < MAX_SIZE
    ensures Find(pre + (t + (pat + post)), pat, |pre|) == |pre| + |t|
  {
    hide Quiet;
    var s := pre + (t + (pat + post));
    QuietSkip(pre, t, pat + post, pat);
    assert s[|pre| + |t|..|pre| + |t| + |pat|] == pat;
  }

  lemma QuietTail(t: string, b: char)
    requires t != [] && Quiet(t, b)
    ensures Quiet(t[1..], b)
  {
    var u := t[1..];
    forall i | 0 <= i < |u| - 1
      ensures !(u[i] == '"' && u[i + 1] == b)
    {
      assert u[i] == t[i + 1] && u[i + 1] == t[i + 1 + 1];
    }
  }

  lemma SubstrAt(pre: string, t: string, post: string)
    ensures Substr(pre + (t + post), |pre|, |t|) == Some(t)
  {
    SliceAt(pre, t, post);
  }

  lemma SliceAt(pre: string, t: string, post: string)
    ensures (pre + (t + post))[|pre|..|pre| + |t|] == t
  {
  }
}
