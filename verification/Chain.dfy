/**
 The hash-linked chain and its index. Every reachable chain is linked, numbered and ordered
 in time; the tip commits to every block below it, and the index inverts the chain, unless
 two preimages of the chain collide.
 */
module Chain {
  import opened Bytes
  import opened Hashing
  import opened Options
  import opened Text

  datatype Block = Block(
    version: u64,
    height: u64,
    prevHash: string,
    merkleRoot: string,
    timestamp: u64,
    nonce: u64,
    difficulty: u32,
    transactions: seq<string>)

  // ---------------------------------------------------------------------------
  // The preimage
  // ---------------------------------------------------------------------------

  predicate Blank(c: char) {
    c == ' ' || c == '\n' || c == '\r' || c == '\t'
  }

  /** A character of a std::string as its byte. */
  function Code(c: char): byte {
    c as int % 256
  }

  function Codes(s: string): (b: seq<byte>)
    ensures |b| == |s|
    ensures forall i :: 0 <= i < |s| ==> b[i] == Code(s[i])
  {
    if s == "" then [] else Codes(s[..|s| - 1]) + [Code(s[|s| - 1])]
  }

  /** The bytes of the characters that are not blank. */
  function Visible(s: string): seq<byte> {
    if s == "" then []
    else
      var init, c := s[..|s| - 1], s[|s| - 1];
      if Blank(c) then Visible(init) else Visible(init) + [Code(c)]
  }

  function AllVisible(txs: seq<string>): seq<byte> {
    if txs == [] then [] else AllVisible(txs[..|txs| - 1]) + Visible(txs[|txs| - 1])
  }

  function Tail(b: Block): seq<byte> {
    Visible(b.merkleRoot)
    + (ToLE(b.timestamp, 8) + (ToLE(b.nonce, 8) + (ToLE(b.difficulty, 4) + AllVisible(b.transactions))))
  }

  /** The fields in order; version, height and whatever follows them start at fixed offsets. */
  function Fields(b: Block): seq<byte> {
    (ToLE(b.version, 8) + ToLE(b.height, 8)) + (Visible(b.prevHash) + Tail(b))
  }

  /** What is hashed is the hex text of the fields. */
  function Preimage(b: Block): seq<byte> {
    Codes(ToHex(Fields(b)))
  }

  function BlockHash(h: Hasher, b: Block): (s: string)
    ensures |s| == 64
  {
    ToHex(h(Preimage(b)))
  }

  method AppendVisible(text: string, s: string) returns (r: string)
    ensures r == text + ToHex(Visible(s))
  {
    hide HexPair, Blank, Code;
    r := text;
    var i := 0;
    VisibleNone(s);
    while i < |s|
      invariant i <= |s| && r == text + ToHex(Visible(s[..i]))
    {
      VisibleStep(s, i);
      if !Blank(s[i]) {
        r := r + HexPair(Code(s[i]));
      }
      i := i + 1;
    }
    assert s[..i] == s;
  }

  lemma VisibleNone(s: string)
    ensures ToHex(Visible(s[..0])) == ""
  {
  }

  lemma VisibleStep(s: string, i: nat)
    requires i < |s|
    ensures ToHex(Visible(s[..i + 1]))
      == if Blank(s[i]) then ToHex(Visible(s[..i])) else ToHex(Visible(s[..i])) + HexPair(Code(s[i]))
  {
    hide HexPair, Blank, Code;
    assert s[..i + 1][..i] == s[..i];
    HexAppend(Visible(s[..i]), Code(s[i]));
  }

  lemma HexAppend(data: seq<byte>, b: byte)
    ensures ToHex(data + [b]) == ToHex(data) + HexPair(b)
  {
    hide HexPair;
    assert (data + [b])[..|data|] == data;
  }

  /** Little-endian bytes, two hex digits each. */
  method AppendLE(text: string, value: nat, width: nat) returns (r: string)
    ensures r == text + ToHex(ToLE(value, width))
  {
    hide HexPair, ToLE;
    r := text;
    var i := 0;
    NoBytes(value);
    while i < width
      invariant i <= width && r == text + ToHex(ToLE(value, i))
    {
      ToLEStep(value, i);
      HexAppend(ToLE(value, i), (value / Pow256(i)) % 256);
      r := r + HexPair((value / Pow256(i)) % 256);
      i := i + 1;
    }
  }

  lemma NoBytes(value: nat)
    ensures ToHex(ToLE(value, 0)) == ""
  {
  }

  /** The text stream field by field, then its hash in hex. */
  method CalculateHash(h: Hasher, b: Block) returns (hash: string)
    ensures hash == BlockHash(h, b)
  {
    hide *;
    var ss := AppendLE("", b.version, 8);
    ss := AppendLE(ss, b.height, 8);
    ss := AppendVisible(ss, b.prevHash);
    ss := AppendVisible(ss, b.merkleRoot);
    ss := AppendLE(ss, b.timestamp, 8);
    ss := AppendLE(ss, b.nonce, 8);
    ss := AppendLE(ss, b.difficulty, 4);
    var i := 0;
    ghost var header := ss;
    assert ss == header + ToHex(AllVisible(b.transactions[..0])) by { NoTransactions(b.transactions); }
    while i < |b.transactions|
      invariant i <= |b.transactions| && ss == header + ToHex(AllVisible(b.transactions[..i]))
    {
      TransactionStep(b.transactions, i);
      ss := AppendVisible(ss, b.transactions[i]);
      i := i + 1;
    }
    assert b.transactions[..i] == b.transactions;
    TextOfFields(b);
    hash := RunToHex(h(Codes(ss)));
    HashOfText(h, b, ss);
  }

  lemma NoTransactions(txs: seq<string>)
    ensures ToHex(AllVisible(txs[..0])) == ""
  {
  }

  lemma TransactionStep(txs: seq<string>, i: nat)
    requires i < |txs|
    ensures ToHex(AllVisible(txs[..i + 1])) == ToHex(AllVisible(txs[..i])) + ToHex(Visible(txs[i]))
  {
    hide Visible, ToHex;
    assert txs[..i + 1][..i] == txs[..i];
    HexConcat(AllVisible(txs[..i]), Visible(txs[i]));
  }

  lemma TextOfFields(b: Block)
    ensures ToHex(Fields(b)) ==
      "" + ToHex(ToLE(b.version, 8)) + ToHex(ToLE(b.height, 8)) + ToHex(Visible(b.prevHash))
      + ToHex(Visible(b.merkleRoot)) + ToHex(ToLE(b.timestamp, 8)) + ToHex(ToLE(b.nonce, 8))
      + ToHex(ToLE(b.difficulty, 4)) + ToHex(AllVisible(b.transactions))
  {
    hide Visible, AllVisible, ToHex, ToLE;
    var v, t := ToLE(b.version, 8), ToLE(b.timestamp, 8);
    var n, d, x := ToLE(b.nonce, 8), ToLE(b.difficulty, 4), AllVisible(b.transactions);
    HexConcat(v, ToLE(b.height, 8));
    HexConcat(v + ToLE(b.height, 8), Visible(b.prevHash) + Tail(b));
    HexConcat(Visible(b.prevHash), Tail(b));
    HexConcat(Visible(b.merkleRoot), t + (n + (d + x)));
    HexConcat(t, n + (d + x));
    HexConcat(n, d + x);
    HexConcat(d, x);
  }

  lemma HashOfText(h: Hasher, b: Block, text: string)
    requires text == ToHex(Fields(b))
    ensures ToHex(h(Codes(text))) == BlockHash(h, b)
  {
  }

  // ---------------------------------------------------------------------------
  // What a hash determines
  // ---------------------------------------------------------------------------

  lemma HexInjective(a: seq<byte>, b: seq<byte>)
    requires ToHex(a) == ToHex(b)
    ensures a == b
  {
    hide ToHex, FromHex;
    HexRoundTrip(a);
    HexRoundTrip(b);
  }

  lemma CodesOfHexInjective(a: seq<byte>, b: seq<byte>)
    requires Codes(ToHex(a)) == Codes(ToHex(b))
    ensures a == b
  {
    hide ToHex, Code, IsHexChar;
    HexChars(a);
    HexChars(b);
    var s, t := ToHex(a), ToHex(b);
    assert |s| == |Codes(s)| == |Codes(t)| == |t|;
    forall i | 0 <= i < |s|
      ensures s[i] == t[i]
    {
      assert Codes(s)[i] == Code(s[i]) && Codes(t)[i] == Code(t[i]);
      HexCodes(s[i], t[i]);
    }
    HexInjective(a, b);
  }

  lemma HexCodes(c: char, d: char)
    requires IsHexChar(c) && IsHexChar(d) && Code(c) == Code(d)
    ensures c == d
  {
  }

  /** Blocks of one hash have the same fields, or their preimages collide. */
  lemma HashDetermines(h: Hasher, a: Block, b: Block)
    requires BlockHash(h, a) == BlockHash(h, b)
    ensures Fields(a) == Fields(b) || Collides(h, Preimage(a), Preimage(b))
  {
    hide Fields;
    HexInjective(h(Preimage(a)), h(Preimage(b)));
    if Preimage(a) == Preimage(b) {
      CodesOfHexInjective(Fields(a), Fields(b));
    }
  }

  /** The height is at a fixed offset. */
  lemma FieldsGiveHeight(a: Block, b: Block)
    requires Fields(a) == Fields(b)
    ensures a.height == b.height
    ensures Visible(a.prevHash) + Tail(a) == Visible(b.prevHash) + Tail(b)
  {
    Pow256Values();
    FromToLE(a.height, 8);
    FromToLE(b.height, 8);
    hide ToLE, Visible, Tail;
    TakeDrop(ToLE(a.version, 8) + ToLE(a.height, 8), Visible(a.prevHash) + Tail(a));
    TakeDrop(ToLE(b.version, 8) + ToLE(b.height, 8), Visible(b.prevHash) + Tail(b));
    TakeDrop(ToLE(a.version, 8), ToLE(a.height, 8));
    TakeDrop(ToLE(b.version, 8), ToLE(b.height, 8));
  }

  lemma TakeDrop(a: seq<byte>, b: seq<byte>)
    ensures (a + b)[..|a|] == a && (a + b)[|a|..] == b
  {
  }

  lemma {:induction false} HexIsVisible(s: string)
    requires forall i :: 0 <= i < |s| ==> IsHexChar(s[i])
    ensures Visible(s) == Codes(s)
  {
    if s != "" {
      HexIsVisible(s[..|s| - 1]);
      assert IsHexChar(s[|s| - 1]);
    }
  }

  /** So is a previous hash, when it is one. */
  lemma FieldsGivePrevHash(a: Block, b: Block, x: Digest, y: Digest)
    requires Fields(a) == Fields(b) && a.prevHash == ToHex(x) && b.prevHash == ToHex(y)
    ensures x == y
  {
    FieldsGiveHeight(a, b);
    HexChars(x);
    HexChars(y);
    HexIsVisible(a.prevHash);
    HexIsVisible(b.prevHash);
    hide Fields, Visible, Tail, ToHex;
    TakeDrop(Visible(a.prevHash), Tail(a));
    TakeDrop(Visible(b.prevHash), Tail(b));
    CodesOfHexInjective(x, y);
  }

  /** Where each field stands in the preimage; the two texts in the middle have the lengths given. */
  lemma FieldsRead(b: Block)
    ensures var f := Fields(b); var i := 16 + |Visible(b.prevHash)|; var j := i + |Visible(b.merkleRoot)|;
            && |f| >= j + 20
            && FromLE(f[..8]) == b.version && FromLE(f[8..16]) == b.height
            && f[16..i] == Visible(b.prevHash) && f[i..j] == Visible(b.merkleRoot)
            && FromLE(f[j..j + 8]) == b.timestamp && FromLE(f[j + 8..j + 16]) == b.nonce
            && FromLE(f[j + 16..j + 20]) == b.difficulty
            && f[j + 20..] == AllVisible(b.transactions)
  {
    hide *;
    NumbersRead(b);
    FieldsForm(b);
    Eight(ToLE(b.version, 8), ToLE(b.height, 8), Visible(b.prevHash), Visible(b.merkleRoot),
          ToLE(b.timestamp, 8), ToLE(b.nonce, 8), ToLE(b.difficulty, 4), AllVisible(b.transactions));
  }

  lemma NumbersRead(b: Block)
    ensures FromLE(ToLE(b.version, 8)) == b.version && FromLE(ToLE(b.height, 8)) == b.height
    ensures FromLE(ToLE(b.timestamp, 8)) == b.timestamp && FromLE(ToLE(b.nonce, 8)) == b.nonce
    ensures FromLE(ToLE(b.difficulty, 4)) == b.difficulty
  {
    Pow256Values();
    FromToLE(b.version, 8);
    FromToLE(b.height, 8);
    FromToLE(b.timestamp, 8);
    FromToLE(b.nonce, 8);
    FromToLE(b.difficulty, 4);
  }

  lemma FieldsForm(b: Block)
    ensures Fields(b) == (ToLE(b.version, 8) + ToLE(b.height, 8)) + (Visible(b.prevHash) + (Visible(b.merkleRoot)
      + (ToLE(b.timestamp, 8) + (ToLE(b.nonce, 8) + (ToLE(b.difficulty, 4) + AllVisible(b.transactions))))))
  {
    hide ToLE, Visible, AllVisible;
  }

  lemma Eight(
    v: seq<byte>, h: seq<byte>, p: seq<byte>, r: seq<byte>, t: seq<byte>, n: seq<byte>, d: seq<byte>, x: seq<byte>)
    requires |v| == |h| == |t| == |n| == 8 && |d| == 4
    ensures var f := (v + h) + (p + (r + (t + (n + (d + x))))); var i := 16 + |p|; var j := i + |r|;
            && |f| >= j + 20 && f[..8] == v && f[8..16] == h && f[16..i] == p && f[i..j] == r
            && f[j..j + 8] == t && f[j + 8..j + 16] == n && f[j + 16..j + 20] == d && f[j + 20..] == x
  {
  }

  /** What is visible of a text: its characters without blanks, tabs and line ends, in their order. */
  lemma {:induction false} VisibleExactly(s: string)
    ensures (forall i :: 0 <= i < |s| ==> s[i] in " \n\r\t") ==> Visible(s) == []
    ensures (forall i :: 0 <= i < |s| ==> s[i] !in " \n\r\t") ==>
      |Visible(s)| == |s| && forall i :: 0 <= i < |s| ==> Visible(s)[i] == s[i] as int % 256
  {
    if s != "" {
      VisibleExactly(s[..|s| - 1]);
    }
  }

  lemma {:induction false} VisibleConcat(s: string, t: string)
    ensures Visible(s + t) == Visible(s) + Visible(t)
    decreases |t|
  {
    hide Blank, Code;
    if t == "" {
      assert s + t == s;
    } else {
      assert (s + t)[..|s + t| - 1] == s + t[..|t| - 1];
      VisibleConcat(s, t[..|t| - 1]);
    }
  }

  /** The whole preimage is not injective: transactions run together. */
  lemma FieldsAmbiguous(b: Block)
    ensures Fields(b.(transactions := ["ab"])) == Fields(b.(transactions := ["a", "b"]))
  {
    var x, y := ["ab"], ["a", "b"];
    assert x[..0] == [] && y[..1] == ["a"] && ["a"][..0] == [];
    assert "ab"[..1] == "a" && "a"[..0] == "" && "b"[..0] == "";
    assert Visible("a") == [97] && Visible("b") == [98];
    assert Visible("ab") == [97, 98];
    assert AllVisible(x) == [97, 98] && AllVisible(["a"]) == [97];
    assert AllVisible(y) == [97] + [98];
  }

  /** What the preimage says of the transactions is the text they make together, blanks left out. */
  lemma FieldsSeeText(a: Block, txs: seq<string>)
    ensures Fields(a) == Fields(a.(transactions := txs)) <==> AllVisible(a.transactions) == AllVisible(txs)
  {
    hide Visible, AllVisible, ToLE;
    var b := a.(transactions := txs);
    var head := (ToLE(a.version, 8) + ToLE(a.height, 8)) + (Visible(a.prevHash) + (Visible(a.merkleRoot)
      + (ToLE(a.timestamp, 8) + (ToLE(a.nonce, 8) + ToLE(a.difficulty, 4)))));
    assert Fields(a) == head + AllVisible(a.transactions);
    assert Fields(b) == head + AllVisible(txs);
    TakeDrop(head, AllVisible(a.transactions));
    TakeDrop(head, AllVisible(txs));
  }

  // ---------------------------------------------------------------------------
  // Blocks of regular shape
  // ---------------------------------------------------------------------------

  /** A text of bytes without blanks, as hex is. */
  predicate Plain(s: string) {
    forall i :: 0 <= i < |s| ==> !Blank(s[i]) && s[i] as int < 256
  }

  predicate PlainOf(s: string, size: nat) {
    |s| == size && Plain(s)
  }

  predicate AllPlain(txs: seq<string>, size: nat) {
    forall i :: 0 <= i < |txs| ==> PlainOf(txs[i], size)
  }

  /** Transaction hashes of one length. */
  predicate Uniform(txs: seq<string>, size: nat) {
    size > 0 && AllPlain(txs, size)
  }

  lemma {:induction false} PlainIsVisible(s: string)
    requires Plain(s)
    ensures Visible(s) == Codes(s)
  {
    hide Blank, Code;
    if s != "" {
      PlainIsVisible(s[..|s| - 1]);
      assert !Blank(s[|s| - 1]);
    }
  }

  lemma PlainDetermined(s: string, t: string)
    requires Plain(s) && Plain(t) && Visible(s) == Visible(t)
    ensures s == t
  {
    PlainIsVisible(s);
    PlainIsVisible(t);
    assert |s| == |Codes(s)| == |Codes(t)| == |t|;
    hide Visible, Blank;
    forall i | 0 <= i < |s|
      ensures s[i] == t[i]
    {
      assert Code(s[i]) == Codes(s)[i] == Codes(t)[i] == Code(t[i]);
    }
  }

  lemma {:induction false} UniformSize(txs: seq<string>, size: nat)
    requires Uniform(txs, size)
    ensures |AllVisible(txs)| == size * |txs|
  {
    hide Visible, Plain;
    if txs != [] {
      var init, tx := txs[..|txs| - 1], txs[|txs| - 1];
      UniformSize(init, size);
      PlainIsVisible(tx);
      assert size * |txs| == size * |init| + size;
    }
  }

  /** Hashes of one length do not run together. */
  lemma {:induction false} TransactionsDetermined(a: seq<string>, b: seq<string>, size: nat)
    requires Uniform(a, size) && Uniform(b, size) && AllVisible(a) == AllVisible(b)
    ensures a == b
    decreases |a|
  {
    UniformSize(a, size);
    UniformSize(b, size);
    SameCount(size, |a|, |b|);
    if a != [] {
      var n := |a| - 1;
      LastVisible(a, size);
      LastVisible(b, size);
      hide AllVisible, Visible, Plain;
      TransactionsDetermined(a[..n], b[..n], size);
      PlainDetermined(a[n], b[n]);
      assert a == a[..n] + [a[n]] && b == b[..n] + [b[n]];
    }
  }

  /** Lists of plain entries of one length are told apart exactly when that length is not zero. */
  lemma UniformExactly(size: nat)
    ensures (forall a, b :: AllPlain(a, size) && AllPlain(b, size) && AllVisible(a) == AllVisible(b) ==> a == b)
            <==> size > 0
  {
    hide Visible, Plain;
    if size > 0 {
      forall a, b | AllPlain(a, size) && AllPlain(b, size) && AllVisible(a) == AllVisible(b)
        ensures a == b
      {
        TransactionsDetermined(a, b, size);
      }
    } else {
      EmptyEntries();
      assert [] != [""];
    }
  }

  lemma EmptyEntries()
    ensures AllPlain([], 0) && AllPlain([""], 0) && AllVisible([]) == AllVisible([""])
  {
    assert [""][..0] == [];
  }

  lemma SameCount(size: nat, m: nat, n: nat)
    requires size > 0 && size * m == size * n
    ensures m == n
  {
    SameQuotient(size, m, 0, n, 0);
  }

  lemma LastVisible(txs: seq<string>, size: nat)
    requires Uniform(txs, size) && txs != []
    ensures var n := |txs| - 1;
            && Uniform(txs[..n], size) && |AllVisible(txs)| >= size
            && AllVisible(txs[..n]) == AllVisible(txs)[..|AllVisible(txs)| - size]
            && Visible(txs[n]) == AllVisible(txs)[|AllVisible(txs)| - size..]
  {
    hide Visible, Plain;
    var n := |txs| - 1;
    PlainIsVisible(txs[n]);
    TakeDrop(AllVisible(txs[..n]), Visible(txs[n]));
  }

  /** prevHash, merkleRoot and the transactions have known lengths and no blanks. */
  predicate Regular(b: Block, prev: nat, root: nat, tx: nat) {
    PlainOf(b.prevHash, prev) && PlainOf(b.merkleRoot, root) && Uniform(b.transactions, tx)
  }

  lemma SameStart(a: seq<byte>, x: seq<byte>, b: seq<byte>, y: seq<byte>)
    requires |a| == |b| && a + x == b + y
    ensures a == b && x == y
  {
    TakeDrop(a, x);
    TakeDrop(b, y);
  }

  lemma NumberDetermined(x: nat, y: nat, k: nat)
    requires x < Pow256(k) && y < Pow256(k) && ToLE(x, k) == ToLE(y, k)
    ensures x == y
  {
    FromToLE(x, k);
    FromToLE(y, k);
  }

  lemma TailDetermined(a: Block, b: Block, prev: nat, root: nat, tx: nat)
    requires Regular(a, prev, root, tx) && Regular(b, prev, root, tx) && Tail(a) == Tail(b)
    ensures a.merkleRoot == b.merkleRoot && a.timestamp == b.timestamp && a.nonce == b.nonce
    ensures a.difficulty == b.difficulty && a.transactions == b.transactions
  {
    PlainIsVisible(a.merkleRoot);
    PlainIsVisible(b.merkleRoot);
    Pow256Values();
    var x, y := AllVisible(a.transactions), AllVisible(b.transactions);
    hide Visible, AllVisible, ToLE, Pow256, Plain;
    SameStart(Visible(a.merkleRoot), ToLE(a.timestamp, 8) + (ToLE(a.nonce, 8) + (ToLE(a.difficulty, 4) + x)),
              Visible(b.merkleRoot), ToLE(b.timestamp, 8) + (ToLE(b.nonce, 8) + (ToLE(b.difficulty, 4) + y)));
    SameStart(ToLE(a.timestamp, 8), ToLE(a.nonce, 8) + (ToLE(a.difficulty, 4) + x),
              ToLE(b.timestamp, 8), ToLE(b.nonce, 8) + (ToLE(b.difficulty, 4) + y));
    SameStart(ToLE(a.nonce, 8), ToLE(a.difficulty, 4) + x, ToLE(b.nonce, 8), ToLE(b.difficulty, 4) + y);
    SameStart(ToLE(a.difficulty, 4), x, ToLE(b.difficulty, 4), y);
    PlainDetermined(a.merkleRoot, b.merkleRoot);
    NumberDetermined(a.timestamp, b.timestamp, 8);
    NumberDetermined(a.nonce, b.nonce, 8);
    NumberDetermined(a.difficulty, b.difficulty, 4);
    TransactionsDetermined(a.transactions, b.transactions, tx);
  }

  /** Blocks of one regular shape are determined by their preimage, transactions included. */
  lemma BlockDetermined(a: Block, b: Block, prev: nat, root: nat, tx: nat)
    requires Regular(a, prev, root, tx) && Regular(b, prev, root, tx) && Fields(a) == Fields(b)
    ensures a == b
  {
    FieldsGiveHeight(a, b);
    PlainIsVisible(a.prevHash);
    PlainIsVisible(b.prevHash);
    Pow256Values();
    hide Visible, Tail, ToLE, Pow256, Plain, Uniform;
    SameStart(ToLE(a.version, 8) + ToLE(a.height, 8), Visible(a.prevHash) + Tail(a),
              ToLE(b.version, 8) + ToLE(b.height, 8), Visible(b.prevHash) + Tail(b));
    SameStart(ToLE(a.version, 8), ToLE(a.height, 8), ToLE(b.version, 8), ToLE(b.height, 8));
    NumberDetermined(a.version, b.version, 8);
    SameStart(Visible(a.prevHash), Tail(a), Visible(b.prevHash), Tail(b));
    PlainDetermined(a.prevHash, b.prevHash);
    TailDetermined(a, b, prev, root, tx);
  }

  // ---------------------------------------------------------------------------
  // Chains
  // ---------------------------------------------------------------------------

  /** Block i has height i, carries the hash of block i-1, and is later. */
  predicate Linked(h: Hasher, chain: seq<Block>) {
    && (forall i :: 0 <= i < |chain| ==> chain[i].height == i % TWO_64)
    && (forall i :: 0 < i < |chain| ==> chain[i].prevHash == BlockHash(h, chain[i - 1]))
    && (forall i :: 0 < i < |chain| ==> chain[i - 1].timestamp < chain[i].timestamp)
  }

  /** Each hash is mapped to the last block that has it, and nothing else is mapped. */
  predicate Indexed(h: Hasher, chain: seq<Block>, index: map<string, nat>) {
    && (forall s :: s in index ==> index[s] < |chain| && BlockHash(h, chain[index[s]]) == s)
    && (forall i :: 0 <= i < |chain| ==> BlockHash(h, chain[i]) in index && i <= index[BlockHash(h, chain[i])])
  }

  lemma {:induction false} TimesIncrease(h: Hasher, chain: seq<Block>, i: nat, j: nat)
    requires Linked(h, chain) && i < j < |chain|
    ensures chain[i].timestamp < chain[j].timestamp
    decreases j
  {
    hide BlockHash;
    if i < j - 1 {
      TimesIncrease(h, chain, i, j - 1);
    }
  }

  /** Two preimages, one of each chain, that collide. */
  predicate ChainsCollide(h: Hasher, a: seq<Block>, b: seq<Block>) {
    exists i, j :: 0 <= i < |a| && 0 <= j < |b| && Collides(h, Preimage(a[i]), Preimage(b[j]))
  }

  /** The index is the exact inverse of the chain, or the chain's own preimages collide. */
  lemma IndexInverts(h: Hasher, chain: seq<Block>, index: map<string, nat>, i: nat)
    requires Linked(h, chain) && Indexed(h, chain, index) && |chain| <= TWO_64 && i < |chain|
    ensures index[BlockHash(h, chain[i])] == i || ChainsCollide(h, chain, chain)
  {
    hide BlockHash, Fields, Preimage;
    var j := index[BlockHash(h, chain[i])];
    if j != i {
      HashDetermines(h, chain[i], chain[j]);
      if Fields(chain[i]) == Fields(chain[j]) {
        FieldsGiveHeight(chain[i], chain[j]);
        assert false;
      }
    }
  }

  /**
   The tip commits to the chain: chains of one tip hash have the same length and the same
   fields, and so the same hash, at every height, or two of their preimages collide.
   */
  lemma {:induction false} TipCommits(h: Hasher, a: seq<Block>, b: seq<Block>)
    requires Linked(h, a) && Linked(h, b) && 0 < |a| <= TWO_64 && 0 < |b| <= TWO_64
    requires BlockHash(h, a[|a| - 1]) == BlockHash(h, b[|b| - 1])
    ensures (|a| == |b| && forall i :: 0 <= i < |a| ==> Fields(a[i]) == Fields(b[i])) || ChainsCollide(h, a, b)
    decreases |a|
  {
    hide *;
    var m, n := |a| - 1, |b| - 1;
    HashDetermines(h, a[m], b[n]);
    if Fields(a[m]) == Fields(b[n]) {
      FieldsGiveHeight(a[m], b[n]);
      SameLength(h, a, b);
      if m > 0 {
        Previous(h, a);
        Previous(h, b);
        FieldsGivePrevHash(a[m], b[n], h(Preimage(a[m - 1])), h(Preimage(b[n - 1])));
        SameDigestSameHash(h, a[m - 1], b[n - 1]);
        TipCommits(h, a[..m], b[..n]);
        if ChainsCollide(h, a[..m], b[..n]) {
          CollisionBelow(h, a, b, m, n);
        }
      }
    } else {
      CollisionAt(h, a, b, m, n);
    }
  }

  /** The blocks have one shape; what comes before the first block is not a block's hash. */
  predicate RegularChain(chain: seq<Block>, first: nat, root: nat, tx: nat) {
    && (chain != [] ==> Regular(chain[0], first, root, tx))
    && (forall i :: 0 < i < |chain| ==> PlainOf(chain[i].merkleRoot, root) && Uniform(chain[i].transactions, tx))
  }

  lemma LinkedIsRegular(h: Hasher, chain: seq<Block>, first: nat, root: nat, tx: nat, i: nat)
    requires Linked(h, chain) && RegularChain(chain, first, root, tx) && i < |chain|
    ensures Regular(chain[i], if i == 0 then first else 64, root, tx)
  {
    hide Preimage, Uniform;
    if i > 0 {
      HexIsPlain(h(Preimage(chain[i - 1])));
    }
  }

  lemma HexIsPlain(x: Digest)
    ensures PlainOf(ToHex(x), 64)
  {
    HexChars(x);
    hide ToHex;
    forall i | 0 <= i < 64
      ensures !Blank(ToHex(x)[i]) && ToHex(x)[i] as int < 256
    {
      assert IsHexChar(ToHex(x)[i]);
    }
  }

  /** For chains of one regular shape the tip commits to the blocks themselves. */
  lemma TipCommitsBlocks(h: Hasher, a: seq<Block>, b: seq<Block>, first: nat, root: nat, tx: nat)
    requires Linked(h, a) && Linked(h, b) && 0 < |a| <= TWO_64 && 0 < |b| <= TWO_64
    requires RegularChain(a, first, root, tx) && RegularChain(b, first, root, tx)
    requires BlockHash(h, a[|a| - 1]) == BlockHash(h, b[|b| - 1])
    ensures a == b || ChainsCollide(h, a, b)
  {
    hide *;
    TipCommits(h, a, b);
    if !ChainsCollide(h, a, b) {
      forall i | 0 <= i < |a|
        ensures a[i] == b[i]
      {
        LinkedIsRegular(h, a, first, root, tx, i);
        LinkedIsRegular(h, b, first, root, tx, i);
        BlockDetermined(a[i], b[i], if i == 0 then first else 64, root, tx);
      }
    }
  }

  lemma SameLength(h: Hasher, a: seq<Block>, b: seq<Block>)
    requires Linked(h, a) && Linked(h, b) && 0 < |a| <= TWO_64 && 0 < |b| <= TWO_64
    requires a[|a| - 1].height == b[|b| - 1].height
    ensures |a| == |b|
  {
    hide BlockHash;
  }

  lemma Previous(h: Hasher, a: seq<Block>)
    requires Linked(h, a) && |a| > 1
    ensures Linked(h, a[..|a| - 1])
    ensures a[|a| - 1].prevHash == ToHex(h(Preimage(a[|a| - 2])))
  {
    hide Preimage;
  }

  lemma SameDigestSameHash(h: Hasher, a: Block, b: Block)
    requires h(Preimage(a)) == h(Preimage(b))
    ensures BlockHash(h, a) == BlockHash(h, b)
  {
  }

  lemma CollisionAt(h: Hasher, a: seq<Block>, b: seq<Block>, i: nat, j: nat)
    requires i < |a| && j < |b| && Collides(h, Preimage(a[i]), Preimage(b[j]))
    ensures ChainsCollide(h, a, b)
  {
    hide Preimage, Collides;
  }

  lemma CollisionBelow(h: Hasher, a: seq<Block>, b: seq<Block>, m: nat, n: nat)
    requires m <= |a| && n <= |b| && ChainsCollide(h, a[..m], b[..n])
    ensures ChainsCollide(h, a, b)
  {
    hide Preimage, Collides;
    var i, j :| 0 <= i < m && 0 <= j < n && Collides(h, Preimage(a[..m][i]), Preimage(b[..n][j]));
    CollisionAt(h, a, b, i, j);
  }

  // ---------------------------------------------------------------------------
  // The manager
  // ---------------------------------------------------------------------------

  function Genesis(now: u64): Block {
    Block(1, 0, "0", "", now, 0, 0, [])
  }

  /** What validate_block accepts behind prev at a time. */
  predicate Follows(h: Hasher, prev: Block, b: Block, now: u64) {
    && b.height == (prev.height + 1) % TWO_64
    && b.prevHash == BlockHash(h, prev)
    && b.timestamp <= (now + 60) % TWO_64
    && b.timestamp > prev.timestamp
  }

  predicate Accepted(h: Hasher, chain: seq<Block>, b: Block, now: u64) {
    if chain == [] then b.height == 0 else Follows(h, chain[|chain| - 1], b, now)
  }

  lemma AcceptedNext(h: Hasher, chain: seq<Block>, b: Block, now: u64)
    requires Linked(h, chain) && Accepted(h, chain, b, now)
    ensures b.height == |chain| % TWO_64
    ensures chain != [] ==>
      var prev := chain[|chain| - 1];
      b.prevHash == BlockHash(h, prev) && prev.timestamp < b.timestamp <= (now + 60) % TWO_64
  {
    hide BlockHash;
    NextHeight(|chain|);
  }

  lemma AppendLinked(h: Hasher, chain: seq<Block>, b: Block, now: u64)
    requires Linked(h, chain) && Accepted(h, chain, b, now)
    ensures Linked(h, chain + [b])
  {
    hide BlockHash;
    var n, c := |chain|, chain + [b];
    NextHeight(n);
    assert forall i :: 0 <= i < n ==> c[i] == chain[i];
    assert c[n] == b;
  }

  lemma NextHeight(n: nat)
    ensures n > 0 ==> ((n - 1) % TWO_64 + 1) % TWO_64 == n % TWO_64
  {
  }

  lemma AppendIndexed(h: Hasher, chain: seq<Block>, index: map<string, nat>, b: Block)
    requires Indexed(h, chain, index)
    ensures Indexed(h, chain + [b], index[BlockHash(h, b) := |chain|])
  {
    hide BlockHash;
  }

  class ChainManager {
    const hash: Hasher
    var blockchain: seq<Block>
    var chainHeight: nat
    var hashToIndex: map<string, nat>

    ghost predicate Valid()
      reads this
    {
      Linked(hash, blockchain) && Indexed(hash, blockchain, hashToIndex) && chainHeight == |blockchain|
    }

    constructor (h: Hasher)
      ensures Valid() && hash == h && blockchain == []
    {
      hash := h;
      blockchain, chainHeight, hashToIndex := [], 0, map[];
    }

    method Initialize(now: u64)
      requires Valid()
      modifies this
      ensures Valid()
      ensures blockchain == if old(blockchain) == [] then [Genesis(now)] else old(blockchain)
      ensures old(blockchain) == [] ==> blockchain == [Block(1, 0, "0", "", now, 0, 0, [])]
    {
      hide BlockHash, Linked, Indexed;
      if blockchain != [] {
        return;
      }
      var genesis := Genesis(now);
      AppendLinked(hash, blockchain, genesis, now);
      AppendIndexed(hash, blockchain, hashToIndex, genesis);
      var key := CalculateHash(hash, genesis);
      hashToIndex := hashToIndex[key := 0];
      blockchain := blockchain + [genesis];
      chainHeight := 1;
    }

    /** A null block is none. */
    method AddBlock(block: Option<Block>, now: u64) returns (ok: bool)
      requires Valid()
      modifies this
      ensures Valid()
      ensures ok <==> block.Some? && Accepted(hash, old(blockchain), block.value, now)
      ensures ok ==> block.value.height == |old(blockchain)| % TWO_64
      ensures ok && old(blockchain) != [] ==>
        var prev, b := old(blockchain)[|old(blockchain)| - 1], block.value;
        b.prevHash == BlockHash(hash, prev) && prev.timestamp < b.timestamp <= (now + 60) % TWO_64
      ensures blockchain == if ok then old(blockchain) + [block.value] else old(blockchain)
    {
      hide BlockHash, Linked, Indexed, Accepted;
      if block == None {
        return false;
      }
      ok := ValidateBlock(block.value, now);
      if !ok {
        return false;
      }
      AppendLinked(hash, blockchain, block.value, now);
      AppendIndexed(hash, blockchain, hashToIndex, block.value);
      AcceptedNext(hash, blockchain, block.value, now);
      blockchain := blockchain + [block.value];
      chainHeight := |blockchain|;
      var key := CalculateHash(hash, block.value);
      hashToIndex := hashToIndex[key := |blockchain| - 1];
    }

    method ValidateBlock(block: Block, now: u64) returns (ok: bool)
      ensures ok <==> Accepted(hash, blockchain, block, now)
      ensures blockchain == [] ==> (ok <==> block.height == 0)
      ensures blockchain != [] ==>
        var prev := blockchain[|blockchain| - 1];
        (ok <==> block.height == (prev.height + 1) % TWO_64 && block.prevHash == BlockHash(hash, prev)
                 && prev.timestamp < block.timestamp <= (now + 60) % TWO_64)
    {
      hide BlockHash;
      if blockchain == [] {
        return block.height == 0;
      }
      var prev := blockchain[|blockchain| - 1];
      if block.height != (prev.height + 1) % TWO_64 {
        return false;
      }
      var prevHash := CalculateHash(hash, prev);
      if block.prevHash != prevHash {
        return false;
      }
      if block.timestamp > (now + 60) % TWO_64 {
        return false;
      }
      if block.timestamp <= prev.timestamp {
        return false;
      }
      ok := true;
    }

    method GetBlock(height: u64) returns (r: Option<Block>)
      requires Valid()
      ensures r.Some? <==> height < |blockchain|
      ensures r.Some? ==> r.value == blockchain[height] && r.value.height == height
    {
      hide BlockHash;
      if height >= |blockchain| {
        return None;
      }
      r := Some(blockchain[height]);
    }

    method GetBlockByHash(s: string) returns (r: Option<Block>)
      requires Valid()
      ensures r == None <==> forall i :: 0 <= i < |blockchain| ==> BlockHash(hash, blockchain[i]) != s
      ensures r.Some? ==> r.value in blockchain && BlockHash(hash, r.value) == s
    {
      hide BlockHash;
      if s !in hashToIndex {
        return None;
      }
      r := Some(blockchain[hashToIndex[s]]);
    }

    method GetLatestBlock() returns (r: Option<Block>)
      ensures r == if blockchain == [] then None else Some(blockchain[|blockchain| - 1])
    {
      r := if blockchain == [] then None else Some(blockchain[|blockchain| - 1]);
    }
  }
}
