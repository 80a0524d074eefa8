/**
 Bech32m strings: the checksum over a human-readable part and symbols, the encoder, the
 decoder and how far each undoes the other. A std::string is a sequence of characters whose
 codes are bytes.
 */
module Bech32m {
  import opened Ascii
  import opened Bytes
  import opened Polymod
  import opened Words

  const CHARSET: string := "qpzry9x8gf2tvdw0s3jn54khce6mua7l"

  function CharOf(u: word): char {
    CHARSET[u]
  }

  /** The lower-case half of the reverse table; -1 for a character outside the set. */
  function LowerRev(c: char): (r: int)
    ensures -1 <= r < 32
  {
    if c == 'q' then 0 else if c == 'p' then 1 else if c == 'z' then 2 else if c == 'r' then 3
    else if c == 'y' then 4 else if c == '9' then 5 else if c == 'x' then 6 else if c == '8' then 7
    else if c == 'g' then 8 else if c == 'f' then 9 else if c == '2' then 10 else if c == 't' then 11
    else if c == 'v' then 12 else if c == 'd' then 13 else if c == 'w' then 14 else if c == '0' then 15
    else if c == 's' then 16 else if c == '3' then 17 else if c == 'j' then 18 else if c == 'n' then 19
    else if c == '5' then 20 else if c == '4' then 21 else if c == 'k' then 22 else if c == 'h' then 23
    else if c == 'c' then 24 else if c == 'e' then 25 else if c == '6' then 26 else if c == 'm' then 27
    else if c == 'u' then 28 else if c == 'a' then 29 else if c == '7' then 30 else if c == 'l' then 31
    else -1
  }

  /** CHARSET_REV: upper-case letters stand for what their lower-case forms do. */
  function Rev(c: char): (r: int)
    ensures -1 <= r < 32
  {
    LowerRev(Lower(c))
  }

  lemma RevOfChar(u: word)
    ensures Rev(CharOf(u)) == u
    ensures CharOf(u) != '1' && !IsUpper(CharOf(u))
  {
    hide *;
    if u < 16 {
      RevOfFirstChars(u);
    } else {
      RevOfLastChars(u);
    }
  }

  lemma RevOfFirstChars(u: word)
    requires u < 16
    ensures Rev(CharOf(u)) == u
    ensures CharOf(u) != '1' && !IsUpper(CharOf(u))
  {
  }

  lemma RevOfLastChars(u: word)
    requires u >= 16
    ensures Rev(CharOf(u)) == u
    ensures CharOf(u) != '1' && !IsUpper(CharOf(u))
  {
  }

  lemma CharOfRev(c: char)
    requires Rev(c) >= 0
    ensures CharOf(Rev(c)) == Lower(c)
  {
  }

  /** The 32 symbols in the order of BIP-173. */
  lemma CharsetTable(c: char)
    ensures |CHARSET| == 32 && CHARSET == "qpzry9x8gf2tvdw0s3jn54khce6mua7l"
    ensures Rev(c) == -1 <==> Lower(c) !in "qpzry9x8gf2tvdw0s3jn54khce6mua7l"
  {
    hide LowerRev;
    if Rev(c) >= 0 {
      CharOfRev(c);
      assert CHARSET[Rev(c)] == Lower(c);
    }
    if Lower(c) in CHARSET {
      var i :| 0 <= i < |CHARSET| && CHARSET[i] == Lower(c);
      RevOfChar(i);
      assert Lower(Lower(c)) == Lower(c);
    }
  }

  // ---------------------------------------------------------------------------
  // Checksums
  // ---------------------------------------------------------------------------

  function Code(c: char): byte {
    c as int % 256
  }

  function HighBits(hrp: string): (b: seq<byte>)
    ensures |b| == |hrp|
  {
    if hrp == [] then [] else HighBits(hrp[..|hrp| - 1]) + [Code(hrp[|hrp| - 1]) / 32]
  }

  function LowBits(hrp: string): (b: seq<byte>)
    ensures |b| == |hrp|
  {
    if hrp == [] then [] else LowBits(hrp[..|hrp| - 1]) + [Code(hrp[|hrp| - 1]) % 32]
  }

  function ExpandHrp(hrp: string): seq<byte> {
    HighBits(hrp) + [0] + LowBits(hrp)
  }

  method RunExpandHrp(hrp: string) returns (ret: seq<byte>)
    ensures ret == ExpandHrp(hrp)
  {
    ret := [];
    var i := 0;
    while i < |hrp|
      invariant i <= |hrp| && ret == HighBits(hrp[..i])
    {
      assert hrp[..i + 1][..i] == hrp[..i];
      ret := ret + [Code(hrp[i]) / 32];
      i := i + 1;
    }
    assert hrp[..i] == hrp;
    ret := ret + [0];
    i := 0;
    while i < |hrp|
      invariant i <= |hrp| && ret == HighBits(hrp) + [0] + LowBits(hrp[..i])
    {
      assert hrp[..i + 1][..i] == hrp[..i];
      ret := ret + [Code(hrp[i]) % 32];
      i := i + 1;
    }
    assert hrp[..i] == hrp;
  }

  /** The two halves of a character's code stand on both sides of the zero. */
  lemma ExpandExactly(hrp: string, i: nat)
    requires i < |hrp| && hrp[i] as int < 256
    ensures var e, n := ExpandHrp(hrp), |hrp|;
            && |e| == 2 * n + 1 && e[n] == 0
            && hrp[i] as int == 32 * (e[i] as int) + e[n + 1 + i] as int && e[n + 1 + i] < 32
  {
    BitsAt(hrp, i);
  }

  lemma {:induction false} BitsAt(hrp: string, i: nat)
    requires i < |hrp|
    ensures HighBits(hrp)[i] == Code(hrp[i]) / 32 && LowBits(hrp)[i] == Code(hrp[i]) % 32
  {
    if i < |hrp| - 1 {
      BitsAt(hrp[..|hrp| - 1], i);
    }
  }

  /** The register once the expanded HRP and the values have been read. */
  function Register(hrp: string, values: seq<word>): (c: bv32)
    ensures c < LIMIT
  {
    FoldBounded(1, ExpandHrp(hrp) + values);
    Fold(1, ExpandHrp(hrp) + values)
  }

  predicate VerifyChecksum(hrp: string, values: seq<word>) {
    Register(hrp, values) == BECH32M_CONST
  }

  function CreateChecksum(hrp: string, values: seq<word>): (cs: seq<word>)
    ensures |cs| == 6
  {
    Symbols(Completion(Register(hrp, values)), 6)
  }

  method RunCreateChecksum(hrp: string, values: seq<word>) returns (ret: seq<word>)
    ensures ret == CreateChecksum(hrp, values)
  {
    hide Fold, Xor, Symbol;
    var enc: seq<byte> := RunExpandHrp(hrp);
    enc := enc + values;
    ghost var before := enc;
    enc := enc + Zeros(6);
    var c := Run(enc);
    FoldAppend(1, before, Zeros(6));
    var mod := Xor(c, BECH32M_CONST);
    ret := [];
    var i := 0;
    while i < 6
      invariant i <= 6 && ret == Symbols(mod, i)
    {
      ret := ret + [Symbol(mod, i)];
      i := i + 1;
    }
  }

  method RunVerifyChecksum(hrp: string, values: seq<word>) returns (ok: bool)
    ensures ok <==> VerifyChecksum(hrp, values)
  {
    var enc: seq<byte> := RunExpandHrp(hrp);
    enc := enc + values;
    var c := Run(enc);
    ok := c == BECH32M_CONST;
  }

  lemma RegisterAppend(hrp: string, values: seq<word>, more: seq<word>)
    ensures Register(hrp, values + more) == Fold(Register(hrp, values), more)
  {
    hide Fold;
    assert ExpandHrp(hrp) + (values + more) == (ExpandHrp(hrp) + values) + more;
    FoldAppend(1, ExpandHrp(hrp) + values, more);
  }

  /** A created checksum always verifies. */
  lemma ChecksumVerifies(hrp: string, values: seq<word>)
    ensures VerifyChecksum(hrp, values + CreateChecksum(hrp, values))
  {
    hide Fold, Symbols, Completion, Register;
    RegisterAppend(hrp, values, CreateChecksum(hrp, values));
    ChecksumCompletes(Register(hrp, values));
  }

  /** And it is the only one that does. */
  lemma ChecksumDetermined(hrp: string, values: seq<word>, cs: seq<word>)
    requires |cs| == 6 && VerifyChecksum(hrp, values + cs)
    ensures cs == CreateChecksum(hrp, values)
  {
    hide Fold, Symbols, Completion, Register;
    RegisterAppend(hrp, values, cs);
    ChecksumUnique(Register(hrp, values), cs);
  }

  /**
   Error detection: under one HRP, two different symbol strings of equal length that differ
   only within six consecutive symbols cannot both verify.
   */
  lemma BurstsDetected(hrp: string, x: seq<word>, y: seq<word>, k: nat)
    requires DifferOnlyIn(x, y, k) && x != y
    ensures !(VerifyChecksum(hrp, x) && VerifyChecksum(hrp, y))
  {
    hide Fold;
    FoldAppend(1, ExpandHrp(hrp), x);
    FoldAppend(1, ExpandHrp(hrp), y);
    BurstDetected(Fold(1, ExpandHrp(hrp)), x, y, k);
  }

  /** So one substituted symbol, or two exchanged neighbours, is always noticed. */
  lemma SingleErrorsDetected(hrp: string, x: seq<word>, i: nat, u: word)
    requires VerifyChecksum(hrp, x) && i < |x|
    ensures u != x[i] ==> !VerifyChecksum(hrp, x[i := u])
    ensures i + 1 < |x| && x[i] != x[i + 1] ==> !VerifyChecksum(hrp, x[i := x[i + 1]][i + 1 := x[i]])
  {
    hide VerifyChecksum;
    if u != x[i] {
      assert x[i := u][i] != x[i];
      BurstsDetected(hrp, x, x[i := u], i);
    }
    if i + 1 < |x| && x[i] != x[i + 1] {
      var y := x[i := x[i + 1]][i + 1 := x[i]];
      assert y[i] != x[i];
      BurstsDetected(hrp, x, y, i);
    }
  }

  // ---------------------------------------------------------------------------
  // Encoding
  // ---------------------------------------------------------------------------

  function Chars(values: seq<word>): (s: string)
    ensures |s| == |values|
  {
    if values == [] then [] else Chars(values[..|values| - 1]) + [CharOf(values[|values| - 1])]
  }

  function Encode(hrp: string, data: seq<byte>): string {
    var values := ToWords(data);
    hrp + "1" + Chars(values + CreateChecksum(hrp, values))
  }

  method RunEncode(hrp: string, data: seq<byte>) returns (ret: string)
    ensures ret == Encode(hrp, data)
  {
    hide CreateChecksum, ToWords, CharOf;
    var values := RunToWords(data);
    var checksum := RunCreateChecksum(hrp, values);
    var all := values + checksum;
    ret := hrp;
    ret := ret + "1";
    var i := 0;
    while i < |all|
      invariant i <= |all| && ret == hrp + "1" + Chars(all[..i])
    {
      assert all[..i + 1][..i] == all[..i];
      ret := ret + [CharOf(all[i])];
      i := i + 1;
    }
    assert all[..i] == all;
  }

  // ---------------------------------------------------------------------------
  // Decoding
  // ---------------------------------------------------------------------------

  datatype DecodeError = BadSeparator | MixedCase | BadCharacter | BadChecksum
  datatype DecodeResult = Decoded(hrp: string, data: seq<byte>) | Rejected(error: DecodeError)

  /** The position of the last '1', or -1. */
  function LastOne(s: string): (p: int)
    ensures -1 <= p < |s|
    ensures p >= 0 ==> s[p] == '1'
    ensures forall i :: p < i < |s| ==> s[i] != '1'
  {
    if s == [] then -1
    else if s[|s| - 1] == '1' then |s| - 1
    else LastOne(s[..|s| - 1])
  }

  predicate HasLower(s: string) {
    exists i :: 0 <= i < |s| && IsLower(s[i])
  }

  predicate HasUpper(s: string) {
    exists i :: 0 <= i < |s| && IsUpper(s[i])
  }

  /** Whether the decoder has a symbol for c: codes from 128 on have none. */
  predicate IsSymbol(c: char) {
    c as int < 128 && Rev(c) >= 0
  }

  predicate AllSymbols(s: string) {
    forall i :: 0 <= i < |s| ==> IsSymbol(s[i])
  }

  function Values(s: string): (v: seq<word>)
    requires AllSymbols(s)
    ensures |v| == |s|
    ensures forall i :: 0 <= i < |s| ==> v[i] == Rev(s[i])
  {
    if s == [] then [] else Values(s[..|s| - 1]) + [Rev(s[|s| - 1])]
  }

  function Decode(s: string): DecodeResult {
    var pos := LastOne(s);
    if pos <= 0 || pos + 6 >= |s| then Rejected(BadSeparator)
    else if HasLower(s) && HasUpper(s) then Rejected(MixedCase)
    else if !AllSymbols(s[pos + 1..]) then Rejected(BadCharacter)
    else
      var hrp := LowerAll(s[..pos]);
      var values := Values(s[pos + 1..]);
      if !VerifyChecksum(hrp, values) then Rejected(BadChecksum)
      else Decoded(hrp, FromWords(values[..|values| - 6]))
  }

  /** The loops of decode: the case scan, the HRP and the symbols, then the checksum. */
  method RunDecode(s: string) returns (r: DecodeResult)
    ensures r == Decode(s)
  {
    hide LowerRev, VerifyChecksum, FromWords;
    var pos := LastOne(s);
    if pos <= 0 || pos + 6 >= |s| {
      return Rejected(BadSeparator);
    }
    var hasLower, hasUpper := CaseScan(s);
    if hasLower && hasUpper {
      return Rejected(MixedCase);
    }
    var hrp := "";
    var i := 0;
    while i < pos
      invariant i <= pos && hrp == LowerAll(s[..i])
    {
      assert s[..i + 1][..i] == s[..i];
      hrp := hrp + [Lower(s[i])];
      i := i + 1;
    }
    var ok, values := ReadSymbols(s[pos + 1..]);
    if !ok {
      return Rejected(BadCharacter);
    }
    var verified := RunVerifyChecksum(hrp, values);
    if !verified {
      return Rejected(BadChecksum);
    }
    var data := RunFromWords(values[..|values| - 6]);
    r := Decoded(hrp, data.value);
  }

  method CaseScan(s: string) returns (hasLower: bool, hasUpper: bool)
    ensures hasLower == HasLower(s) && hasUpper == HasUpper(s)
  {
    hasLower, hasUpper := false, false;
    var i := 0;
    while i < |s|
      invariant i <= |s|
      invariant hasLower <==> exists j :: 0 <= j < i && IsLower(s[j])
      invariant hasUpper <==> exists j :: 0 <= j < i && IsUpper(s[j])
    {
      if IsLower(s[i]) {
        hasLower := true;
      }
      if IsUpper(s[i]) {
        hasUpper := true;
      }
      i := i + 1;
    }
  }

  method ReadSymbols(s: string) returns (ok: bool, values: seq<word>)
    ensures ok == AllSymbols(s)
    ensures ok ==> values == Values(s)
  {
    hide LowerRev;
    values := [];
    var i := 0;
    while i < |s|
      invariant i <= |s| && |values| == i
      invariant forall j :: 0 <= j < i ==> IsSymbol(s[j]) && values[j] == Rev(s[j])
    {
      if s[i] as int >= 128 {
        return false, values;
      }
      var rev := Rev(s[i]);
      if rev == -1 {
        return false, values;
      }
      values := values + [rev];
      i := i + 1;
    }
    ok := true;
  }

  // ---------------------------------------------------------------------------
  // Round trips
  // ---------------------------------------------------------------------------

  lemma {:induction false} CharsAt(values: seq<word>, i: nat)
    requires i < |values|
    ensures Chars(values)[i] == CharOf(values[i])
  {
    if i < |values| - 1 {
      CharsAt(values[..|values| - 1], i);
    }
  }

  lemma CharIsSymbol(u: word)
    ensures IsSymbol(CharOf(u)) && Rev(CharOf(u)) == u
    ensures CharOf(u) != '1' && !IsUpper(CharOf(u))
  {
    RevOfChar(u);
    assert CharOf(u) as int < 128;
  }

  /** Symbol characters are read back, and hold neither a separator nor an upper-case letter. */
  lemma CharsRead(values: seq<word>)
    ensures AllSymbols(Chars(values)) && Values(Chars(values)) == values
    ensures forall i :: 0 <= i < |values| ==> Chars(values)[i] != '1' && !IsUpper(Chars(values)[i])
  {
    hide CharOf, IsSymbol, Rev, IsUpper;
    forall i | 0 <= i < |values|
      ensures IsSymbol(Chars(values)[i]) && Rev(Chars(values)[i]) == values[i]
      ensures Chars(values)[i] != '1' && !IsUpper(Chars(values)[i])
    {
      CharsAt(values, i);
      CharIsSymbol(values[i]);
    }
  }

  lemma {:induction false} SeparatorFound(hrp: string, tail: string)
    requires forall i :: 0 <= i < |tail| ==> tail[i] != '1'
    ensures LastOne(hrp + "1" + tail) == |hrp|
  {
    var s := hrp + "1" + tail;
    if tail == [] {
      assert s[|s| - 1] == '1';
    } else {
      assert s[|s| - 1] == tail[|tail| - 1];
      assert s[..|s| - 1] == hrp + "1" + tail[..|tail| - 1];
      SeparatorFound(hrp, tail[..|tail| - 1]);
    }
  }

  lemma LowerFixed(s: string)
    ensures LowerAll(s) == s <==> !HasUpper(s)
  {
    if !HasUpper(s) {
      assert forall i :: 0 <= i < |s| ==> Lower(s[i]) == s[i];
    } else {
      var i :| 0 <= i < |s| && IsUpper(s[i]);
      assert Lower(s[i]) != s[i];
    }
  }

  /** The data symbols of an accepted string. */
  function Payload(s: string): seq<word>
    requires Decode(s).Decoded?
  {
    var v := Values(s[LastOne(s) + 1..]);
    v[..|v| - 6]
  }

  /** Any symbols, framed by a good HRP and with their checksum, are accepted. */
  lemma FrameDecodes(hrp: string, ws: seq<word>)
    requires hrp != "" && !HasUpper(hrp)
    ensures var s := hrp + "1" + Chars(ws + CreateChecksum(hrp, ws));
            Decode(s) == Decoded(hrp, FromWords(ws)) && Payload(s) == ws && LowerAll(s) == s
  {
    hide ToWords, FromWords, CreateChecksum, VerifyChecksum, IsSymbol, IsUpper, IsLower, Lower, Rev;
    var all := ws + CreateChecksum(hrp, ws);
    var s := hrp + "1" + Chars(all);
    CharsRead(all);
    SeparatorFound(hrp, Chars(all));
    assert s[..|hrp|] == hrp && s[|hrp| + 1..] == Chars(all);
    LowerFixed(hrp);
    NoUpper(hrp, Chars(all));
    LowerFixed(s);
    ChecksumVerifies(hrp, ws);
    assert all[..|all| - 6] == ws;
  }

  /**
   Round trip: decoding what encode wrote gives back the HRP and the data exactly when the HRP
   is not empty and has no upper-case letter. The data may be any bytes.
   */
  lemma EncodeDecode(hrp: string, data: seq<byte>)
    ensures Decode(Encode(hrp, data)) == Decoded(hrp, data) <==> hrp != "" && !HasUpper(hrp)
  {
    hide ToWords, FromWords, CreateChecksum, VerifyChecksum, IsSymbol, IsUpper, IsLower, Lower, Rev;
    var values := ToWords(data);
    if hrp != "" && !HasUpper(hrp) {
      FrameDecodes(hrp, values);
      WordsRoundTrip(data);
    } else {
      var tail := Chars(values + CreateChecksum(hrp, values));
      CharsRead(values + CreateChecksum(hrp, values));
      SeparatorFound(hrp, tail);
      assert (hrp + "1" + tail)[..|hrp|] == hrp;
      LowerFixed(hrp);
    }
  }

  lemma NoUpper(hrp: string, tail: string)
    requires !HasUpper(hrp) && forall i :: 0 <= i < |tail| ==> !IsUpper(tail[i])
    ensures !HasUpper(hrp + "1" + tail)
  {
    var s := hrp + "1" + tail;
    assert !IsUpper('1');
    forall i | 0 <= i < |s|
      ensures !IsUpper(s[i])
    {
      if i < |hrp| {
        assert s[i] == hrp[i];
      } else if i > |hrp| {
        assert s[i] == tail[i - |hrp| - 1];
      }
    }
  }

  lemma {:induction false} CharsOfValues(t: string)
    requires AllSymbols(t)
    ensures Chars(Values(t)) == LowerAll(t)
  {
    hide LowerRev, CharOf, Lower;
    if t != [] {
      CharsOfValues(t[..|t| - 1]);
      CharOfRev(t[|t| - 1]);
      assert Values(t)[..|t| - 1] == Values(t[..|t| - 1]);
    }
  }

  lemma {:induction false} LowerConcat(a: string, b: string)
    ensures LowerAll(a + b) == LowerAll(a) + LowerAll(b)
  {
    hide Lower;
    if b == [] {
      assert a + b == a;
    } else {
      assert (a + b)[..|a + b| - 1] == a + b[..|b| - 1];
      LowerConcat(a, b[..|b| - 1]);
    }
  }

  /** An accepted string, lower-cased, is its HRP, the separator and its symbols' characters. */
  lemma AcceptedForm(s: string)
    requires Decode(s).Decoded?
    ensures var hrp := Decode(s).hrp;
            LowerAll(s) == hrp + "1" + Chars(Payload(s) + CreateChecksum(hrp, Payload(s)))
  {
    hide LowerRev, CharOf, Lower, IsSymbol, CreateChecksum, VerifyChecksum, HasLower, HasUpper;
    var pos := LastOne(s);
    var tail := s[pos + 1..];
    var v := Values(tail);
    assert s == (s[..pos] + "1") + tail;
    LowerConcat(s[..pos] + "1", tail);
    LowerConcat(s[..pos], "1");
    assert LowerAll("1") == "1" by { LowerOne(); }
    CharsOfValues(tail);
    assert v == v[..|v| - 6] + v[|v| - 6..];
    ChecksumDetermined(Decode(s).hrp, v[..|v| - 6], v[|v| - 6..]);
  }

  lemma LowerOne()
    ensures LowerAll("1") == "1"
  {
  }

  // ---------------------------------------------------------------------------
  // Exactly what is accepted
  // ---------------------------------------------------------------------------

  /** Letters of both cases. */
  predicate Mixed(s: string) {
    exists i, j :: 0 <= i < |s| && 0 <= j < |s| && 'a' <= s[i] <= 'z' && 'A' <= s[j] <= 'Z'
  }

  /** s, but for letter case, is an HRP, the separator, symbols and their checksum. */
  predicate Framed(s: string, hrp: string, ws: seq<word>) {
    && hrp != "" && (forall i :: 0 <= i < |hrp| ==> !('A' <= hrp[i] <= 'Z'))
    && LowerAll(s) == hrp + "1" + Chars(ws + CreateChecksum(hrp, ws))
  }

  predicate SeparatorAt(s: string, p: nat) {
    && 0 < p && p + 6 < |s| && s[p] == '1'
    && forall i :: p < i < |s| ==> s[i] != '1'
  }

  lemma MixedCases(s: string)
    ensures HasLower(s) && HasUpper(s) <==> Mixed(s)
  {
    if HasLower(s) && HasUpper(s) {
      var i :| 0 <= i < |s| && IsLower(s[i]);
      var j :| 0 <= j < |s| && IsUpper(s[j]);
      assert 'a' <= s[i] <= 'z' && 'A' <= s[j] <= 'Z';
    }
    if i, j :| 0 <= i < |s| && 0 <= j < |s| && 'a' <= s[i] <= 'z' && 'A' <= s[j] <= 'Z' {
      assert IsLower(s[i]) && IsUpper(s[j]);
    }
  }

  lemma LowerChar(c: char)
    ensures Lower(c) == '1' <==> c == '1'
    ensures !IsUpper(Lower(c)) && Lower(Lower(c)) == Lower(c)
    ensures IsSymbol(Lower(c)) <==> IsSymbol(c)
    ensures Rev(Lower(c)) == Rev(c)
  {
    hide LowerRev;
  }

  lemma {:induction false} LowerKeepsSeparator(s: string)
    ensures LastOne(LowerAll(s)) == LastOne(s)
  {
    hide Lower;
    if s != "" {
      var n := |s| - 1;
      LowerChar(s[n]);
      assert LowerAll(s)[..n] == LowerAll(s[..n]);
      LowerKeepsSeparator(s[..n]);
    }
  }

  lemma LowerSlices(s: string, p: nat)
    requires p <= |s|
    ensures LowerAll(s)[..p] == LowerAll(s[..p]) && LowerAll(s)[p..] == LowerAll(s[p..])
  {
    hide Lower, LowerAll;
  }

  lemma LowerTwice(s: string)
    ensures LowerAll(LowerAll(s)) == LowerAll(s) && !HasUpper(LowerAll(s))
  {
    hide Lower, IsUpper, IsSymbol, Rev;
    forall i | 0 <= i < |s|
      ensures LowerAll(LowerAll(s))[i] == LowerAll(s)[i] && !IsUpper(LowerAll(s)[i])
    {
      LowerChar(s[i]);
    }
  }

  lemma LowerSymbols(t: string)
    ensures AllSymbols(LowerAll(t)) <==> AllSymbols(t)
    ensures AllSymbols(t) ==> Values(LowerAll(t)) == Values(t)
  {
    hide Lower, IsUpper, IsSymbol, Rev, Values;
    forall i | 0 <= i < |t|
      ensures IsSymbol(LowerAll(t)[i]) <==> IsSymbol(t[i])
      ensures Rev(LowerAll(t)[i]) == Rev(t[i])
    {
      LowerChar(t[i]);
    }
  }

  /** Case does not matter as long as it is not mixed. */
  lemma DecodesLower(s: string)
    requires !(HasLower(s) && HasUpper(s))
    ensures Decode(LowerAll(s)) == Decode(s)
  {
    hide *;
    var low, pos := LowerAll(s), LastOne(s);
    LowerKeepsSeparator(s);
    LowerTwice(s);
    if 0 <= pos {
      LowerSlices(s, pos);
      LowerSlices(s, pos + 1);
      LowerTwice(s[..pos]);
      LowerSymbols(s[pos + 1..]);
    }
    DecodesAlike(s, low);
  }

  lemma DecodesAlike(s: string, t: string)
    requires !(HasLower(s) && HasUpper(s)) && !(HasLower(t) && HasUpper(t))
    requires |s| == |t| && LastOne(s) == LastOne(t)
    requires var p := LastOne(s);
             p >= 0 ==> LowerAll(s[..p]) == LowerAll(t[..p])
                        && (AllSymbols(s[p + 1..]) <==> AllSymbols(t[p + 1..]))
                        && (AllSymbols(s[p + 1..]) ==> Values(s[p + 1..]) == Values(t[p + 1..]))
    ensures Decode(s) == Decode(t)
  {
    hide LowerAll, AllSymbols, Values, VerifyChecksum, FromWords, HasLower, HasUpper;
  }

  /** A framed string of one case is accepted, with its HRP and the bytes of its symbols. */
  lemma FramedDecodes(s: string, hrp: string, ws: seq<word>)
    requires !Mixed(s) && Framed(s, hrp, ws)
    ensures Decode(s) == Decoded(hrp, FromWords(ws))
  {
    MixedCases(s);
    NoUpperHere(hrp);
    hide *;
    FrameOf(s, hrp, ws);
    FrameDecodes(hrp, ws);
    DecodesLower(s);
  }

  lemma NoUpperHere(hrp: string)
    ensures !HasUpper(hrp) <==> forall i :: 0 <= i < |hrp| ==> !('A' <= hrp[i] <= 'Z')
  {
  }

  lemma FrameOf(s: string, hrp: string, ws: seq<word>)
    requires Framed(s, hrp, ws)
    ensures hrp != "" && LowerAll(s) == hrp + "1" + Chars(ws + CreateChecksum(hrp, ws))
    ensures !HasUpper(hrp)
  {
    NoUpperHere(hrp);
    hide LowerAll, Chars, CreateChecksum, HasUpper;
  }

  /** An accepted string is framed by the HRP it decodes to and its symbols, and not of mixed case. */
  lemma AcceptedFramed(s: string)
    requires Decode(s).Decoded?
    ensures !Mixed(s) && Framed(s, Decode(s).hrp, Payload(s))
  {
    AcceptedForm(s);
    MixedCases(s);
    NoUpperHere(Decode(s).hrp);
    LowerTwice(s[..LastOne(s)]);
    hide LowerAll, Chars, CreateChecksum, HasUpper, HasLower, AllSymbols, VerifyChecksum, FromWords, Values, Mixed;
  }

  /** The decoder accepts exactly the framed strings that do not mix letter cases. */
  lemma AcceptedExactly(s: string)
    ensures Decode(s).Decoded? <==> !Mixed(s) && exists hrp, ws :: Framed(s, hrp, ws)
  {
    hide *;
    if Decode(s).Decoded? {
      AcceptedFramed(s);
    }
    if hrp, ws :| !Mixed(s) && Framed(s, hrp, ws) {
      FramedDecodes(s, hrp, ws);
    }
  }

  lemma SymbolsExactly(c: char)
    ensures IsSymbol(c) <==> Lower(c) in CHARSET
  {
    hide LowerRev;
    if IsSymbol(c) {
      CharOfRev(c);
      assert CHARSET[Rev(c)] == Lower(c);
    }
    if Lower(c) in CHARSET {
      var i :| 0 <= i < |CHARSET| && CHARSET[i] == Lower(c);
      CharIsSymbol(i);
      LowerChar(c);
    }
  }

  /** Which error a refused string gets: the first that applies of separator, case, character, checksum. */
  lemma RefusedExactly(s: string)
    ensures Decode(s) == Rejected(BadSeparator) <==> !exists p: nat :: SeparatorAt(s, p)
    ensures Decode(s) == Rejected(MixedCase) <==> Mixed(s) && exists p: nat :: SeparatorAt(s, p)
    ensures Decode(s) == Rejected(BadCharacter) <==>
      !Mixed(s) && exists p: nat, i :: SeparatorAt(s, p) && p < i < |s| && Lower(s[i]) !in CHARSET
  {
    MixedCases(s);
    SeparatorExactly(s);
    hide IsSymbol, VerifyChecksum, FromWords, LowerAll, Lower, HasLower, HasUpper, Mixed, Values, SeparatorAt;
    var pos := LastOne(s);
    if 0 < pos && pos + 6 < |s| {
      var tail := s[pos + 1..];
      forall i | 0 <= i < |tail|
        ensures IsSymbol(tail[i]) <==> Lower(s[pos + 1 + i]) in CHARSET
      {
        SymbolsExactly(tail[i]);
      }
      if !AllSymbols(tail) {
        var i :| 0 <= i < |tail| && !IsSymbol(tail[i]);
        assert SeparatorAt(s, pos) && pos < pos + 1 + i < |s| && Lower(s[pos + 1 + i]) !in CHARSET;
      }
      if p: nat, i :| SeparatorAt(s, p) && p < i < |s| && Lower(s[i]) !in CHARSET {
        assert tail[i - pos - 1] == s[i];
      }
    }
  }

  lemma SeparatorExactly(s: string)
    ensures forall p: nat :: SeparatorAt(s, p) <==> p == LastOne(s) && 0 < p && p + 6 < |s|
  {
  }

  /**
   The other way round: encoding what decode accepted gives back the string, lower-cased,
   exactly when the bits left over after the last whole byte are fewer than five and zero.
   The decoder itself does not look at them.
   */
  lemma DecodeEncode(s: string)
    requires Decode(s).Decoded?
    ensures Encode(Decode(s).hrp, Decode(s).data) == LowerAll(s) <==> CanonicalPadding(Payload(s))
  {
    DecodedData(s);
    AcceptedForm(s);
    hide *;
    var hrp, ws := Decode(s).hrp, Payload(s);
    EncodeForm(hrp, FromWords(ws));
    WordsCanonical(ws);
    FramesEqual(hrp, ToWords(FromWords(ws)), ws);
  }

  /** Symbols with bad padding are accepted all the same, and then encode to another string. */
  lemma BadPaddingAccepted(hrp: string, ws: seq<word>)
    requires hrp != "" && !HasUpper(hrp) && !CanonicalPadding(ws)
    ensures var s := hrp + "1" + Chars(ws + CreateChecksum(hrp, ws));
            Decode(s).Decoded? && Encode(Decode(s).hrp, Decode(s).data) != s
  {
    FrameDecodes(hrp, ws);
    DecodeEncode(hrp + "1" + Chars(ws + CreateChecksum(hrp, ws)));
    hide *;
  }

  /** One such string: five bits that are no byte. */
  lemma PaddingSample()
    ensures Decode("a1pez7ztp") == Decoded("a", []) && Encode("a", []) != "a1pez7ztp"
  {
    hide *;
    SampleChecksum();
    SampleChars();
    SampleWord();
    SampleHrp();
    FrameDecodes("a", [1]);
    BadPaddingAccepted("a", [1]);
  }

  lemma SampleHrp()
    ensures !HasUpper("a") && "a" + "1" + "pez7ztp" == "a1pez7ztp"
  {
  }

  lemma SampleChecksum()
    ensures CreateChecksum("a", [1]) == [25, 2, 30, 2, 11, 1]
  {
    hide *;
    var cs: seq<word> := [25, 2, 30, 2, 11, 1];
    SampleRegister();
    SampleExpanded();
    var all: seq<byte> := ExpandHrp("a") + ([1] + cs);
    assert all == [3, 0, 1, 1, 25, 2, 30, 2, 11, 1];
    RegisterOf("a", [1] + cs);
    ChecksumDetermined("a", [1], cs);
  }

  lemma SampleExpanded()
    ensures ExpandHrp("a") == [3, 0, 1]
  {
    assert "a"[..0] == "";
    assert HighBits("a") == [3] && LowBits("a") == [1];
  }

  lemma RegisterOf(hrp: string, values: seq<word>)
    ensures VerifyChecksum(hrp, values) <==> Fold(1, ExpandHrp(hrp) + values) == 0x2bc8_30a3
  {
    hide Fold, ExpandHrp;
  }

  lemma SampleChars()
    ensures Chars([1] + [25, 2, 30, 2, 11, 1]) == "pez7ztp"
  {
    var v: seq<word> := [1] + [25, 2, 30, 2, 11, 1];
    assert v == [1, 25, 2, 30, 2, 11, 1];
    CharsAt(v, 0);
    CharsAt(v, 1);
    CharsAt(v, 2);
    CharsAt(v, 3);
    CharsAt(v, 4);
    CharsAt(v, 5);
    CharsAt(v, 6);
  }

  lemma SampleWord()
    ensures !CanonicalPadding([1]) && FromWords([1]) == []
  {
  }

  lemma DecodedData(s: string)
    requires Decode(s).Decoded?
    ensures Decode(s).data == FromWords(Payload(s))
  {
    hide FromWords, VerifyChecksum, LowerAll, Values, AllSymbols, HasLower, HasUpper;
  }

  lemma EncodeForm(hrp: string, data: seq<byte>)
    ensures Encode(hrp, data) == hrp + "1" + Chars(ToWords(data) + CreateChecksum(hrp, ToWords(data)))
  {
  }

  /** Framed by one HRP, symbols and their checksum determine the symbols. */
  lemma FramesEqual(hrp: string, us: seq<word>, ws: seq<word>)
    ensures hrp + "1" + Chars(us + CreateChecksum(hrp, us)) == hrp + "1" + Chars(ws + CreateChecksum(hrp, ws))
            <==> us == ws
  {
    hide CreateChecksum, Chars;
    var x, y := us + CreateChecksum(hrp, us), ws + CreateChecksum(hrp, ws);
    var a, b := Chars(x), Chars(y);
    if hrp + "1" + a == hrp + "1" + b {
      assert (hrp + "1" + a)[|hrp| + 1..] == a;
      assert (hrp + "1" + b)[|hrp| + 1..] == b;
      CharsInjective(x, y);
      assert us == x[..|us|] && ws == y[..|ws|];
    }
  }

  lemma CharsInjective(x: seq<word>, y: seq<word>)
    requires Chars(x) == Chars(y)
    ensures x == y
  {
    CharsRead(x);
    CharsRead(y);
  }
}
