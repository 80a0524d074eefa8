/**
 The textual form of a Merkle proof: the hand-written printer and the parser that looks for
 its keys by substring search. A printed proof is read back exactly when its parts are
 digests.
 */
module MerkleJson {
  import opened Bytes
  import opened Hashing
  import opened Options
  import opened Text
  import opened Merkle

  const LEAF_KEY: string := "\"leaf\":\""
  const INDEX_KEY: string := "\"leaf_index\":"
  const SIBLINGS_KEY: string := "\"siblings\":["
  const POSITIONS_KEY: string := "\"sibling_positions\":["

  // ---------------------------------------------------------------------------
  // Printing
  // ---------------------------------------------------------------------------

  function Quoted(data: seq<byte>): string {
    ['"'] + ToHex(data) + ['"']
  }

  function SiblingsText(siblings: seq<seq<byte>>): string {
    if siblings == [] then ""
    else if |siblings| == 1 then Quoted(siblings[0])
    else Quoted(siblings[0]) + [','] + SiblingsText(siblings[1..])
  }

  function NumbersText(ns: seq<u64>): string {
    if ns == [] then ""
    else if |ns| == 1 then Decimal(ns[0])
    else Decimal(ns[0]) + [','] + NumbersText(ns[1..])
  }

  /** Everything before the index key, before the siblings key and before the positions key. */
  function Head1(p: MerkleProof): string {
    "{" + (LEAF_KEY + (ToHex(p.leaf) + ['"', ',']))
  }

  function Head2(p: MerkleProof): string {
    Head1(p) + (INDEX_KEY + (Decimal(p.leafIndex) + [',']))
  }

  function Head3(p: MerkleProof): string {
    Head2(p) + (SIBLINGS_KEY + (SiblingsText(p.siblings) + [']', ',']))
  }

  function ToJson(p: MerkleProof): string {
    Head3(p) + (POSITIONS_KEY + (NumbersText(p.positions) + ([']'] + "}")))
  }

  lemma {:induction false} SiblingsTextAppend(siblings: seq<seq<byte>>, x: seq<byte>)
    requires siblings != []
    ensures SiblingsText(siblings + [x]) == SiblingsText(siblings) + [','] + Quoted(x)
  {
    hide Quoted;
    var all := siblings + [x];
    if |siblings| == 1 {
      assert all[1..] == [x];
    } else {
      assert all[1..] == siblings[1..] + [x];
      SiblingsTextAppend(siblings[1..], x);
    }
  }

  lemma {:induction false} NumbersTextAppend(ns: seq<u64>, x: u64)
    requires ns != []
    ensures NumbersText(ns + [x]) == NumbersText(ns) + [','] + Decimal(x)
  {
    hide Decimal;
    var all := ns + [x];
    if |ns| == 1 {
      assert all[1..] == [x];
    } else {
      assert all[1..] == ns[1..] + [x];
      NumbersTextAppend(ns[1..], x);
    }
  }

  method PrintSiblings(siblings: seq<seq<byte>>) returns (s: string)
    ensures s == SiblingsText(siblings)
  {
    hide Quoted;
    s := "";
    var i := 0;
    while i < |siblings|
      invariant i <= |siblings| && s == SiblingsText(siblings[..i])
    {
      var hex := QuotedHex(siblings[i]);
      assert siblings[..i + 1] == siblings[..i] + [siblings[i]];
      if i > 0 {
        SiblingsTextAppend(siblings[..i], siblings[i]);
        s := s + [','];
      }
      s := s + hex;
      i := i + 1;
    }
    assert siblings[..i] == siblings;
  }

  method QuotedHex(data: seq<byte>) returns (s: string)
    ensures s == Quoted(data)
  {
    var hex := RunToHex(data);
    s := ['"'] + hex + ['"'];
  }

  method PrintNumbers(ns: seq<u64>) returns (s: string)
    ensures s == NumbersText(ns)
  {
    hide Decimal;
    s := "";
    var i := 0;
    while i < |ns|
      invariant i <= |ns| && s == NumbersText(ns[..i])
    {
      assert ns[..i + 1] == ns[..i] + [ns[i]];
      if i > 0 {
        NumbersTextAppend(ns[..i], ns[i]);
        s := s + [','];
      }
      s := s + Decimal(ns[i]);
      i := i + 1;
    }
    assert ns[..i] == ns;
  }

  method PrintJson(p: MerkleProof) returns (s: string)
    ensures s == ToJson(p)
  {
    var leaf := RunToHex(p.leaf);
    s := "{" + (LEAF_KEY + (leaf + ['"', ',']));
    s := s + (INDEX_KEY + (Decimal(p.leafIndex) + [',']));
    var siblings := PrintSiblings(p.siblings);
    s := s + (SIBLINGS_KEY + (siblings + [']', ',']));
    var positions := PrintNumbers(p.positions);
    s := s + (POSITIONS_KEY + (positions + ([']'] + "}")));
  }

  /** A printed proof, written out. */
  lemma JsonSample()
    ensures ToJson(MerkleProof([0xAB], [[0xCD], [0xEF]], [0, 10], 7))
         == (("{\"leaf\":\"ab\"," + "\"leaf_index\":7,") + "\"siblings\":[\"cd\",\"ef\"],")
            + "\"sibling_positions\":[0,10]}"
  {
    SampleHex();
    SamplePieces();
    SampleLists();
    hide ToHex, Decimal, SiblingsText, NumbersText, LEAF_KEY, INDEX_KEY, SIBLINGS_KEY, POSITIONS_KEY;
  }

  lemma SamplePieces()
    ensures "{" + (LEAF_KEY + ("ab" + ['"', ','])) == "{\"leaf\":\"ab\","
    ensures INDEX_KEY + ("7" + [',']) == "\"leaf_index\":7,"
    ensures SIBLINGS_KEY + ("\"cd\",\"ef\"" + [']', ',']) == "\"siblings\":[\"cd\",\"ef\"],"
    ensures POSITIONS_KEY + ("0,10" + ([']'] + "}")) == "\"sibling_positions\":[0,10]}"
  {
  }

  lemma SampleLists()
    ensures SiblingsText([[0xCD], [0xEF]]) == "\"cd\",\"ef\"" && NumbersText([0, 10]) == "0,10"
  {
    SampleHex();
    hide ToHex, Decimal;
    var siblings: seq<seq<byte>> := [[0xCD], [0xEF]];
    assert siblings[1..] == [[0xEF]];
    var ns: seq<u64> := [0, 10];
    assert ns[1..] == [10];
  }

  lemma SampleHex()
    ensures ToHex([0xAB]) == "ab" && ToHex([0xCD]) == "cd" && ToHex([0xEF]) == "ef"
    ensures Decimal(0) == "0" && Decimal(7) == "7" && Decimal(10) == "10"
  {
    forall b: byte
      ensures ToHex([b]) == HexPair(b)
    {
      assert [b][..0] == [];
    }
    hide ToHex;
  }

  // ---------------------------------------------------------------------------
  // Parsing
  // ---------------------------------------------------------------------------

  /**
   Stuck is the parser not leaving its sibling loop: at an opening quote without a closing one
   the loop starts over. The module MerkleLoop has the loop turn by turn and shows when this
   happens, that it then goes on for ever, and what it collects meanwhile.
   */
  datatype ParseResult = Parsed(proof: MerkleProof) | Rejected | Stuck

  /**
   The text between a key and the first closing character looked for skip positions behind the
   key's start. A key or closing character not found leaves npos in the sums, which wrap.
   */
  function Section(s: string, key: string, close: char, skip: nat): Option<string> {
    var start := Find(s, key, 0);
    var end := Find(s, [close], Plus(start, skip));
    Substr(s, Plus(start, |key|), Minus(Minus(end, start), |key|))
  }

  /** Values found so far in front of what the rest of a loop finds. */
  function Behind<T>(found: seq<T>, rest: Option<seq<T>>): Option<seq<T>> {
    match rest
    case None => None
    case Some(more) => Some(found + more)
  }

  lemma BehindLaws<T>(found: seq<T>, x: T, rest: Option<seq<T>>)
    ensures Behind([], rest) == rest && Behind(found, Some([])) == Some(found)
    ensures Behind(found + [x], rest) == Behind(found, Behind([x], rest))
  {
    assert found + [] == found;
    if rest.Some? {
      assert [] + rest.value == rest.value;
      assert found + [x] + rest.value == found + ([x] + rest.value);
    }
  }

  lemma BehindFails<T>(found: seq<T>)
    ensures Behind(found, None) == None
  {
  }

  lemma BehindNone<T>(found: seq<T>, rest: Option<seq<T>>)
    ensures Behind([], rest) == rest && Behind(found, Some([])) == Some(found)
  {
    assert found + [] == found;
    if rest.Some? {
      assert [] + rest.value == rest.value;
    }
  }

  /** The sibling loop from pos on; None at a missing closing quote. Only 32-byte siblings are kept. */
  function ReadSiblings(s: string, pos: nat): (r: Option<seq<seq<byte>>>)
    ensures r.Some? ==> forall i :: 0 <= i < |r.value| ==> |r.value[i]| == HASH_SIZE
    decreases |s| - pos
  {
    if pos >= |s| then Some([])
    else
      var q1 := Find(s, ['"'], pos);
      if q1 == NPOS then Some([])
      else
        var q2 := Find(s, ['"'], q1 + 1);
        if q2 == NPOS then None
        else
          var sib := FromHex(s[q1 + 1..q2]);
          var next := if q2 + 1 < |s| && s[q2 + 1] == ',' then q2 + 2 else q2 + 1;
          var rest := ReadSiblings(s, next);
          if sib.Some? && |sib.value| == HASH_SIZE then Behind([sib.value], rest) else rest
  }

  function SkipSeparators(s: string, p: nat): (q: nat)
    ensures q >= p
    decreases |s| - p
  {
    if p < |s| && (s[p] == ',' || s[p] == ' ') then SkipSeparators(s, p + 1) else p
  }

  /** The position loop from p on; None when a number does not parse. */
  function ReadPositions(s: string, p: nat): Option<seq<u64>>
    decreases |s| - p
  {
    var q := SkipSeparators(s, p);
    if q >= |s| then Some([])
    else
      var comma := Find(s, [','], q);
      var end := if comma == NPOS then |s| else comma;
      match ParseUnsigned(s[q..end], 10)
      case None => None
      case Some(v) => Behind([v], ReadPositions(s, end + 1))
  }

  /** Commas and spaces before a number are skipped, however many. */
  lemma SeparatorsSkipped(s: string, p: nat)
    requires p < |s| && s[p] in ", "
    ensures ReadPositions(s, p) == ReadPositions(s, p + 1)
  {
    hide Find, ParseUnsigned, Behind;
  }

  function FromJson(s: string): ParseResult {
    match Section(s, LEAF_KEY, '"', 8)
    case None => Rejected
    case Some(leafHex) =>
      match FromHex(leafHex)
      case None => Rejected
      case Some(leaf) =>
        if |leaf| != HASH_SIZE then Rejected
        else
          match Section(s, INDEX_KEY, ',', 0)
          case None => Rejected
          case Some(number) =>
            match ParseUnsigned(number, 10)
            case None => Rejected
            case Some(index) => ParseLists(s, leaf, index)
  }

  /** The second half of from_json: siblings, then positions. */
  function ParseLists(s: string, leaf: seq<byte>, index: u64): ParseResult {
    match Section(s, SIBLINGS_KEY, ']', 0)
    case None => Rejected
    case Some(siblingsText) =>
      match ReadSiblings(siblingsText, 0)
      case None => Stuck
      case Some(siblings) =>
        match Section(s, POSITIONS_KEY, ']', 0)
        case None => Rejected
        case Some(positionsText) =>
          match ReadPositions(positionsText, 0)
          case None => Rejected
          case Some(positions) => Parsed(MerkleProof(leaf, siblings, positions, index))
  }

  method ParseJson(s: string) returns (r: ParseResult)
    ensures r == FromJson(s)
  {
    hide Section, ParseUnsigned;
    var leafHex := Section(s, LEAF_KEY, '"', 8);
    if leafHex == None {
      return Rejected;
    }
    var leaf := RunFromHex(leafHex.value);
    if leaf == None || |leaf.value| != HASH_SIZE {
      return Rejected;
    }
    var number := Section(s, INDEX_KEY, ',', 0);
    if number == None {
      return Rejected;
    }
    var index := ParseUnsigned(number.value, 10);
    if index == None {
      return Rejected;
    }
    var siblingsText := Section(s, SIBLINGS_KEY, ']', 0);
    if siblingsText == None {
      return Rejected;
    }
    var siblings := SiblingLoop(siblingsText.value);
    if siblings == None {
      return Stuck;
    }
    var positionsText := Section(s, POSITIONS_KEY, ']', 0);
    if positionsText == None {
      return Rejected;
    }
    var positions := PositionLoop(positionsText.value);
    if positions == None {
      return Rejected;
    }
    r := Parsed(MerkleProof(leaf.value, siblings.value, positions.value, index.value));
  }

  method SiblingLoop(s: string) returns (r: Option<seq<seq<byte>>>)
    ensures r == ReadSiblings(s, 0)
  {
    hide Find, FromHex, Behind;
    var found: seq<seq<byte>> := [];
    var pos := 0;
    BehindNone(found, ReadSiblings(s, 0));
    while pos < |s|
      invariant Behind(found, ReadSiblings(s, pos)) == ReadSiblings(s, 0)
      decreases |s| - pos
    {
      BehindNone(found, ReadSiblings(s, pos));
      var q1 := Find(s, ['"'], pos);
      if q1 == NPOS {
        return Some(found);
      }
      var q2 := Find(s, ['"'], q1 + 1);
      if q2 == NPOS {
        BehindFails(found);
        return None;
      }
      var sib := RunFromHex(s[q1 + 1..q2]);
      pos := q2 + 1;
      if pos < |s| && s[pos] == ',' {
        pos := pos + 1;
      }
      if sib.Some? && |sib.value| == HASH_SIZE {
        BehindLaws(found, sib.value, ReadSiblings(s, pos));
        found := found + [sib.value];
      }
    }
    BehindNone(found, ReadSiblings(s, pos));
    r := Some(found);
  }

  method PositionLoop(s: string) returns (r: Option<seq<u64>>)
    ensures r == ReadPositions(s, 0)
  {
    hide Find, ParseUnsigned, Behind;
    var found: seq<u64> := [];
    var p := 0;
    BehindNone(found, ReadPositions(s, 0));
    while p < |s|
      invariant Behind(found, ReadPositions(s, p)) == ReadPositions(s, 0)
      decreases |s| - p
    {
      ghost var before := p;
      while p < |s| && (s[p] == ',' || s[p] == ' ')
        invariant p >= before && SkipSeparators(s, p) == SkipSeparators(s, before)
      {
        p := p + 1;
      }
      assert p == SkipSeparators(s, before);
      BehindNone(found, ReadPositions(s, before));
      if p >= |s| {
        return Some(found);
      }
      var comma := Find(s, [','], p);
      var end := if comma == NPOS then |s| else comma;
      var v := ParseUnsigned(s[p..end], 10);
      if v == None {
        BehindFails(found);
        return None;
      }
      BehindLaws(found, v.value, ReadPositions(s, end + 1));
      found := found + [v.value];
      p := end + 1;
    }
    BehindNone(found, ReadPositions(s, p));
    r := Some(found);
  }

  // ---------------------------------------------------------------------------
  // The loops on printed lists
  // ---------------------------------------------------------------------------

  lemma NoQuoteInHex(data: seq<byte>)
    ensures NoChar(ToHex(data), '"') && NoChar(ToHex(data), ']')
  {
    HexChars(data);
    hide ToHex;
    forall i | 0 <= i < |ToHex(data)|
      ensures ToHex(data)[i] != '"' && ToHex(data)[i] != ']'
    {
      assert IsHexChar(ToHex(data)[i]);
    }
  }

  /** One quoted sibling at pos: the loop reads it and moves behind it and its comma. */
  lemma SiblingStep(pre: string, x: seq<byte>, post: string)
    requires |x| == HASH_SIZE && |pre + (Quoted(x) + post)| < MAX_SIZE
    ensures var s := pre + (Quoted(x) + post);
            var after := |pre| + 2 + |ToHex(x)|;
            var next := if post != "" && post[0] == ',' then after + 1 else after;
            ReadSiblings(s, |pre|) == Behind([x], ReadSiblings(s, next))
  {
    var hex := ToHex(x);
    var s := pre + (Quoted(x) + post);
    NoQuoteInHex(x);
    HexRoundTrip(x);
    hide ToHex, Find, FromHex, Behind, NoChar;
    var rest := ['"'] + post;
    assert s == pre + ("" + (['"'] + (hex + rest)));
    assert NoChar("", '"') by { NoCharEmpty('"'); }
    FindChar(pre, "", '"', hex + rest);
    assert s == (pre + ['"']) + (hex + (['"'] + post));
    FindChar(pre + ['"'], hex, '"', post);
    var q1, q2 := |pre|, |pre| + 1 + |hex|;
    SliceAt(pre + ['"'], hex, ['"'] + post);
    assert q2 + 1 < |s| ==> s[q2 + 1] == post[0];
  }

  lemma NoCharEmpty(c: char)
    ensures NoChar("", c)
  {
  }

  lemma {:induction false} SiblingsRead(pre: string, siblings: seq<seq<byte>>)
    requires forall i :: 0 <= i < |siblings| ==> |siblings[i]| == HASH_SIZE
    requires |pre + SiblingsText(siblings)| < MAX_SIZE
    ensures ReadSiblings(pre + SiblingsText(siblings), |pre|) == Some(siblings)
    decreases |siblings|
  {
    hide Quoted, ToHex, Find, FromHex, Behind, ReadSiblings;
    var s := pre + SiblingsText(siblings);
    if siblings == [] {
      ReadNone(s, |pre|);
    } else {
      var x, rest := siblings[0], siblings[1..];
      var q := Quoted(x);
      QuotedSize(x);
      BehindMore(x, rest);
      assert siblings == [x] + rest;
      if |siblings| == 1 {
        assert s == pre + (q + "");
        SiblingStep(pre, x, "");
        ReadNone(s, |s|);
      } else {
        var post := [','] + SiblingsText(rest);
        assert s == pre + (q + post);
        SiblingStep(pre, x, post);
        assert s == (pre + (q + [','])) + SiblingsText(rest);
        SiblingsRead(pre + (q + [',']), rest);
      }
    }
  }

  lemma QuotedSize(x: seq<byte>)
    ensures |Quoted(x)| == 2 + |ToHex(x)|
  {
  }

  lemma BehindMore<T>(x: T, rest: seq<T>)
    ensures Behind([x], Some(rest)) == Some([x] + rest)
  {
  }

  lemma ReadNone(s: string, pos: nat)
    requires pos >= |s|
    ensures ReadSiblings(s, pos) == Some([]) && ReadPositions(s, pos) == Some([])
  {
  }

  lemma DecimalPlain(n: u64)
    ensures NoChar(Decimal(n), ',') && NoChar(Decimal(n), ' ') && NoChar(Decimal(n), ']')
    ensures NoChar(Decimal(n), '"')
  {
    DecimalDigits(n);
    hide Decimal;
    forall i | 0 <= i < |Decimal(n)|
      ensures Decimal(n)[i] != ',' && Decimal(n)[i] != ' ' && Decimal(n)[i] != ']'
      ensures Decimal(n)[i] != '"'
    {
      assert '0' <= Decimal(n)[i] <= '9';
    }
  }

  /** One number at p, followed by a comma or by the end. */
  lemma PositionStep(pre: string, n: u64, post: string)
    requires |pre + (Decimal(n) + post)| < MAX_SIZE
    requires post == "" || post[0] == ','
    ensures var s := pre + (Decimal(n) + post);
            ReadPositions(s, |pre|) == Behind([n], ReadPositions(s, |pre| + |Decimal(n)| + 1))
  {
    hide *;
    var d := Decimal(n);
    var s := pre + (d + post);
    DecimalPlain(n);
    DecimalRoundTrip(n);
    NoSeparator(pre, d, post);
    SliceAt(pre, d, post);
    if post == "" {
      assert d + post == d;
      FindNone(pre, d, ',');
    } else {
      assert post == [','] + post[1..];
      FindChar(pre, d, ',', post[1..]);
    }
    PositionIs(s, |pre|, |pre| + |d|, n);
  }

  lemma NoSeparator(pre: string, d: string, post: string)
    requires d != "" && NoChar(d, ',') && NoChar(d, ' ')
    ensures SkipSeparators(pre + (d + post), |pre|) == |pre|
  {
    assert (pre + (d + post))[|pre|] == d[0];
  }

  lemma PositionIs(s: string, p: nat, end: nat, n: u64)
    requires p < end <= |s| && SkipSeparators(s, p) == p
    requires Find(s, [','], p) == end || (Find(s, [','], p) == NPOS && end == |s|)
    requires ParseUnsigned(s[p..end], 10) == Some(n) && |s| < MAX_SIZE
    ensures ReadPositions(s, p) == Behind([n], ReadPositions(s, end + 1))
  {
    hide Find, ParseUnsigned, Behind, SkipSeparators;
  }

  lemma {:induction false} PositionsRead(pre: string, ns: seq<u64>)
    requires |pre + NumbersText(ns)| < MAX_SIZE
    ensures ReadPositions(pre + NumbersText(ns), |pre|) == Some(ns)
    decreases |ns|
  {
    hide Decimal, Find, ParseUnsigned, Behind, ReadPositions;
    var s := pre + NumbersText(ns);
    if ns == [] {
      ReadNone(s, |pre|);
    } else {
      var n, rest := ns[0], ns[1..];
      var d := Decimal(n);
      BehindMore(n, rest);
      assert ns == [n] + rest;
      if |ns| == 1 {
        assert s == pre + (d + "");
        PositionStep(pre, n, "");
        ReadNone(s, |s| + 1);
      } else {
        var post := [','] + NumbersText(rest);
        assert s == pre + (d + post);
        PositionStep(pre, n, post);
        assert s == (pre + (d + [','])) + NumbersText(rest);
        PositionsRead(pre + (d + [',']), rest);
      }
    }
  }

  // ---------------------------------------------------------------------------
  // Finding the sections
  // ---------------------------------------------------------------------------

  /** A section whose key is where it should be: its text ends at the first closing character. */
  lemma SectionFound(pre: string, key: string, t: string, c: char, post: string, skip: nat)
    requires skip == 0 || skip == |key|
    requires NoChar(t, c) && (skip == 0 ==> NoChar(key, c))
    requires var s := pre + (key + (t + ([c] + post)));
             |s| < MAX_SIZE && Find(s, key, 0) == |pre|
    ensures Section(pre + (key + (t + ([c] + post))), key, c, skip) == Some(t)
  {
    hide *;
    var s := pre + (key + (t + ([c] + post)));
    Concat(pre, key, t + ([c] + post));
    if skip == 0 {
      NoCharConcat(key, t, c);
      Concat(key, t, [c] + post);
      FindChar(pre, key + t, c, post);
    } else {
      FindChar(pre + key, t, c, post);
    }
    SubstrAt(pre + key, t, [c] + post);
    SectionIs(s, key, c, skip, |pre|, t);
  }

  /** No sum wraps when key and closing character are found. */
  lemma SectionIs(s: string, key: string, c: char, skip: nat, start: nat, t: string)
    requires |s| < MAX_SIZE && skip <= |key| && start + |key| + |t| <= |s|
    requires Find(s, key, 0) == start && Find(s, [c], start + skip) == start + |key| + |t|
    requires Substr(s, start + |key|, |t|) == Some(t)
    ensures Section(s, key, c, skip) == Some(t)
  {
    hide Find, Substr, Plus, Minus;
    NoWraps(start, skip, |key|, |t|);
  }

  lemma NoWraps(start: nat, skip: nat, k: nat, n: nat)
    requires skip <= k && start + k + n < MAX_SIZE
    ensures Plus(start, skip) == start + skip && Plus(start, k) == start + k
    ensures Minus(Minus(start + k + n, start), k) == n
  {
  }

  lemma Rebracket(a: string, k: string, t: string, c: string, r: string)
    ensures (a + (k + (t + c))) + r == a + (k + (t + (c + r)))
  {
  }

  lemma PairSplit(c: char, d: char, r: string)
    ensures [c, d] + r == [c] + ([d] + r)
  {
  }

  /** Hex between quotes, and one more character, is quiet for a non-hex character. */
  lemma QuotedQuiet(x: seq<byte>, c: char, b: char)
    requires !IsHexChar(b) && b != '"' && c != b && c != '"'
    ensures Quiet(Quoted(x) + [c], b)
  {
    HexChars(x);
    hide ToHex;
    var hex := ToHex(x);
    var t := Quoted(x) + [c];
    forall i | 0 <= i < |t| - 1
      ensures !(t[i] == '"' && t[i + 1] == b)
    {
      if i + 1 <= |hex| {
        assert t[i + 1] == hex[i];
      }
    }
  }

  lemma NoQuoteQuiet(t: string, b: char)
    requires NoChar(t, '"')
    ensures Quiet(t, b)
  {
  }

  lemma KeysQuiet()
    ensures Quiet("{", 'l') && Quiet("{", 's') && Quiet("leaf\":", 'l') && Quiet("\"leaf\":", 's')
    ensures Quiet(INDEX_KEY, 's') && Quiet("siblings\":[", 's') && Quiet(",", 's')
  {
  }

  lemma {:induction false} SiblingsQuiet(siblings: seq<seq<byte>>)
    ensures Quiet(SiblingsText(siblings) + [']', ','], 's')
  {
    hide Quoted, Quiet;
    var t := SiblingsText(siblings);
    CommaQuiet();
    if siblings != [] {
      var x, rest := siblings[0], siblings[1..];
      if |siblings| == 1 {
        QuotedQuiet(x, ']', 's');
        QuietConcat(Quoted(x) + [']'], [','], 's');
        assert t + [']', ','] == (Quoted(x) + [']']) + [','];
      } else {
        QuotedQuiet(x, ',', 's');
        SiblingsQuiet(rest);
        QuietConcat(Quoted(x) + [','], SiblingsText(rest) + [']', ','], 's');
        assert t + [']', ','] == (Quoted(x) + [',']) + (SiblingsText(rest) + [']', ',']);
      }
    } else {
      assert t + [']', ','] == [']', ','];
    }
  }

  lemma CommaQuiet()
    ensures Quiet([','], 's') && Quiet([']', ','], 's')
  {
  }

  /** What follows the first quote of the leaf key, up to the index key. */
  function LeafText(p: MerkleProof): string {
    "leaf\":" + (Quoted(p.leaf) + [','])
  }

  lemma Head1Form(p: MerkleProof)
    ensures Head1(p) == "{" + (['"'] + LeafText(p))
    ensures Head1(p) == "{" + ("\"leaf\":" + (Quoted(p.leaf) + [',']))
  {
    hide ToHex;
    var hex := ToHex(p.leaf);
    assert LEAF_KEY == ['"'] + ("leaf\":" + ['"']);
    assert "\"leaf\":" == ['"'] + "leaf\":";
    assert Quoted(p.leaf) + [','] == ['"'] + (hex + ['"', ',']);
  }

  lemma LeafTextQuiet(p: MerkleProof)
    ensures Quiet(LeafText(p), 'l')
  {
    hide Quoted, Quiet;
    KeysQuiet();
    QuotedQuiet(p.leaf, ',', 'l');
    QuietConcat("leaf\":", Quoted(p.leaf) + [','], 'l');
  }

  lemma Head2Quiet(p: MerkleProof)
    ensures Quiet(Head2(p), 's')
  {
    hide Quoted, Quiet, Decimal;
    KeysQuiet();
    CommaQuiet();
    Head1Form(p);
    QuotedQuiet(p.leaf, ',', 's');
    QuietConcat("\"leaf\":", Quoted(p.leaf) + [','], 's');
    QuietConcat("{", "\"leaf\":" + (Quoted(p.leaf) + [',']), 's');
    DecimalPlain(p.leafIndex);
    NoQuoteQuiet(Decimal(p.leafIndex), 's');
    QuietConcat(Decimal(p.leafIndex), [','], 's');
    QuietConcat(INDEX_KEY, Decimal(p.leafIndex) + [','], 's');
    QuietConcat(Head1(p), INDEX_KEY + (Decimal(p.leafIndex) + [',']), 's');
  }

  /** The leaf section of any text that begins as a printed proof does. */
  lemma LeafSection(p: MerkleProof, rest: string)
    requires |Head1(p) + rest| < MAX_SIZE
    ensures Section(Head1(p) + rest, LEAF_KEY, '"', 8) == Some(ToHex(p.leaf))
  {
    var hex := ToHex(p.leaf);
    NoQuoteInHex(p.leaf);
    KeysQuiet();
    LeafKeySize();
    hide Section, Find, ToHex, Quiet, NoChar;
    Rebracket("{", LEAF_KEY, hex, ['"', ','], rest);
    PairSplit('"', ',', rest);
    FindQuoted("{", LEAF_KEY, hex + (['"'] + ([','] + rest)));
    SectionFound("{", LEAF_KEY, hex, '"', [','] + rest, 8);
  }

  lemma LeafKeySize()
    ensures |LEAF_KEY| == 8 && LEAF_KEY[0] == '"' && LEAF_KEY[1] == 'l'
  {
  }

  /** The printed text as each head and what follows it. */
  lemma LayersOf(p: MerkleProof)
    ensures var rest3 := POSITIONS_KEY + (NumbersText(p.positions) + ([']'] + "}"));
            var rest2 := SIBLINGS_KEY + (SiblingsText(p.siblings) + ([']', ','] + rest3));
            var rest1 := INDEX_KEY + (Decimal(p.leafIndex) + ([','] + rest2));
            && ToJson(p) == Head3(p) + rest3
            && ToJson(p) == Head2(p) + rest2
            && ToJson(p) == Head1(p) + rest1
  {
    hide ToHex, Decimal, SiblingsText, NumbersText;
    var rest3 := POSITIONS_KEY + (NumbersText(p.positions) + ([']'] + "}"));
    var rest2 := SIBLINGS_KEY + (SiblingsText(p.siblings) + ([']', ','] + rest3));
    Rebracket(Head2(p), SIBLINGS_KEY, SiblingsText(p.siblings), [']', ','], rest3);
    Head2Layer(p, rest2);
  }

  lemma Head2Layer(p: MerkleProof, rest: string)
    ensures Head2(p) + rest == Head1(p) + (INDEX_KEY + (Decimal(p.leafIndex) + ([','] + rest)))
  {
    hide Head1, Decimal;
    Rebracket(Head1(p), INDEX_KEY, Decimal(p.leafIndex), [','], rest);
  }

  lemma KeyStarts()
    ensures |INDEX_KEY| == 13 && INDEX_KEY[0] == '"' && INDEX_KEY[1] == 'l' && INDEX_KEY[5] == '_'
    ensures |SIBLINGS_KEY| == 12 && SIBLINGS_KEY[0] == '"' && SIBLINGS_KEY[1] == 's'
    ensures |POSITIONS_KEY| == 21 && POSITIONS_KEY[0] == '"' && POSITIONS_KEY[1] == 's'
    ensures POSITIONS_KEY[8] == '_' && SIBLINGS_KEY == ['"'] + "siblings\":["
    ensures NoChar(INDEX_KEY, ',') && NoChar(SIBLINGS_KEY, ']') && NoChar(POSITIONS_KEY, ']')
  {
  }

  lemma LeafTextAt4(p: MerkleProof)
    ensures |LeafText(p)| > 4 && LeafText(p)[4] == '"'
  {
    hide Quoted;
  }

  lemma IndexSection(p: MerkleProof, rest: string)
    requires |Head2(p) + rest| < MAX_SIZE
    ensures Section(Head2(p) + rest, INDEX_KEY, ',', 0) == Some(Decimal(p.leafIndex))
  {
    Head2Layer(p, rest);
    Head1Form(p);
    LeafTextQuiet(p);
    LeafTextAt4(p);
    KeysQuiet();
    KeyStarts();
    DecimalPlain(p.leafIndex);
    hide *;
    var n := Decimal(p.leafIndex);
    FindPastQuote("{", LeafText(p), INDEX_KEY, n + ([','] + rest), 4);
    SectionFound(Head1(p), INDEX_KEY, n, ',', rest, 0);
  }

  /** A text that is printed up to the siblings key and holds t there, up to the first bracket. */
  function WithSiblings(p: MerkleProof, t: string, rest: string): string {
    Head2(p) + (SIBLINGS_KEY + (t + ([']'] + rest)))
  }

  lemma SiblingsSection(p: MerkleProof, t: string, rest: string)
    requires |WithSiblings(p, t, rest)| < MAX_SIZE && NoChar(t, ']')
    ensures Section(WithSiblings(p, t, rest), SIBLINGS_KEY, ']', 0) == Some(t)
  {
    Head2Quiet(p);
    KeyStarts();
    hide Head2, Section, Find, Quiet, NoChar;
    FindQuoted(Head2(p), SIBLINGS_KEY, t + ([']'] + rest));
    SectionFound(Head2(p), SIBLINGS_KEY, t, ']', rest, 0);
  }

  lemma JsonWithSiblings(p: MerkleProof)
    ensures var rest3 := POSITIONS_KEY + (NumbersText(p.positions) + ([']'] + "}"));
            ToJson(p) == WithSiblings(p, SiblingsText(p.siblings), [','] + rest3)
  {
    LayersOf(p);
    hide Head1, Head2, Head3, ToJson, SiblingsText, NumbersText;
    var rest3 := POSITIONS_KEY + (NumbersText(p.positions) + ([']'] + "}"));
    PairSplit(']', ',', rest3);
  }

  lemma {:induction false} SiblingsPlain(siblings: seq<seq<byte>>)
    ensures NoChar(SiblingsText(siblings), ']')
  {
    hide ToHex, NoChar;
    if siblings == [] {
      NoCharEmpty(']');
    } else {
      NoQuoteInHex(siblings[0]);
      QuotedPlain(siblings[0]);
      if |siblings| > 1 {
        SiblingsPlain(siblings[1..]);
        CommaPlain();
        NoCharConcat(Quoted(siblings[0]), [','], ']');
        NoCharConcat(Quoted(siblings[0]) + [','], SiblingsText(siblings[1..]), ']');
      }
    }
  }

  lemma QuotedPlain(x: seq<byte>)
    ensures NoChar(Quoted(x), ']')
  {
    NoQuoteInHex(x);
    hide ToHex;
  }

  lemma CommaPlain()
    ensures NoChar([','], ']')
  {
  }

  lemma {:induction false} NumbersPlain(ns: seq<u64>)
    ensures NoChar(NumbersText(ns), ']')
  {
    hide Decimal, NoChar;
    if ns == [] {
      NoCharEmpty(']');
    } else {
      DecimalPlain(ns[0]);
      if |ns| > 1 {
        NumbersPlain(ns[1..]);
        CommaPlain();
        NoCharConcat(Decimal(ns[0]), [','], ']');
        NoCharConcat(Decimal(ns[0]) + [','], NumbersText(ns[1..]), ']');
      }
    }
  }

  /** What follows the first quote of the siblings key, up to the positions key. */
  function ListText(p: MerkleProof): string {
    "siblings\":[" + (SiblingsText(p.siblings) + [']', ','])
  }

  lemma Head3Form(p: MerkleProof)
    ensures Head3(p) == Head2(p) + (['"'] + ListText(p))
  {
    KeyStarts();
    hide Head2, SiblingsText;
  }

  lemma ListTextQuiet(p: MerkleProof)
    ensures Quiet(ListText(p), 's') && |ListText(p)| > 7 && ListText(p)[7] == 's'
  {
    hide Quiet, SiblingsText;
    KeysQuiet();
    SiblingsQuiet(p.siblings);
    QuietConcat("siblings\":[", SiblingsText(p.siblings) + [']', ','], 's');
  }

  lemma PositionsSection(p: MerkleProof)
    requires |ToJson(p)| < MAX_SIZE
    ensures Section(ToJson(p), POSITIONS_KEY, ']', 0) == Some(NumbersText(p.positions))
  {
    LayersOf(p);
    Head3Form(p);
    Head2Quiet(p);
    ListTextQuiet(p);
    KeyStarts();
    NumbersPlain(p.positions);
    hide *;
    var t := NumbersText(p.positions);
    FindPastQuote(Head2(p), ListText(p), POSITIONS_KEY, t + ([']'] + "}"), 7);
    SectionFound(Head3(p), POSITIONS_KEY, t, ']', "}", 0);
  }

  // ---------------------------------------------------------------------------
  // The round trip
  // ---------------------------------------------------------------------------

  /** The parts are digests: what the parser insists on, or silently drops. */
  predicate DigestParts(p: MerkleProof) {
    |p.leaf| == HASH_SIZE && forall i :: 0 <= i < |p.siblings| ==> |p.siblings[i]| == HASH_SIZE
  }

  lemma ParsedAreDigests(s: string)
    ensures FromJson(s).Parsed? ==> DigestParts(FromJson(s).proof)
  {
    hide Section, FromHex, ReadPositions, ParseUnsigned;
  }

  /** A text printed up to the siblings key comes down to its lists, when the leaf is a digest. */
  lemma HeadParsed(p: MerkleProof, rest: string)
    requires |Head2(p) + rest| < MAX_SIZE
    ensures FromJson(Head2(p) + rest) ==
      if |p.leaf| == HASH_SIZE then ParseLists(Head2(p) + rest, p.leaf, p.leafIndex) else Rejected
  {
    Head2Layer(p, rest);
    LeafSection(p, INDEX_KEY + (Decimal(p.leafIndex) + ([','] + rest)));
    IndexSection(p, rest);
    HexRoundTrip(p.leaf);
    DecimalRoundTrip(p.leafIndex);
    hide Section, FromHex, Head2, ParseUnsigned, ParseLists;
  }

  /**
   Round trip: a printed proof, with any number of siblings and any positions, is read back
   exactly when its leaf and all its siblings have 32 bytes.
   */
  lemma JsonRoundTrip(p: MerkleProof)
    requires |ToJson(p)| < MAX_SIZE
    ensures FromJson(ToJson(p)) == Parsed(p) <==> DigestParts(p)
  {
    ParsedAreDigests(ToJson(p));
    if DigestParts(p) {
      LayersOf(p);
      ListsRoundTrip(p);
      hide FromJson, ToJson, Head1, Head2, Head3, ParseLists, SiblingsText, NumbersText, Decimal;
      var rest3 := POSITIONS_KEY + (NumbersText(p.positions) + ([']'] + "}"));
      HeadParsed(p, SIBLINGS_KEY + (SiblingsText(p.siblings) + ([']', ','] + rest3)));
    }
  }

  lemma ListsRoundTrip(p: MerkleProof)
    requires |ToJson(p)| < MAX_SIZE && DigestParts(p)
    ensures ParseLists(ToJson(p), p.leaf, p.leafIndex) == Parsed(p)
  {
    var rest3 := POSITIONS_KEY + (NumbersText(p.positions) + ([']'] + "}"));
    JsonWithSiblings(p);
    SiblingsPlain(p.siblings);
    hide *;
    SiblingsSection(p, SiblingsText(p.siblings), [','] + rest3);
    PositionsSection(p);
    assert "" + SiblingsText(p.siblings) == SiblingsText(p.siblings);
    assert "" + NumbersText(p.positions) == NumbersText(p.positions);
    DigestPartsOf(p);
    SiblingsRead("", p.siblings);
    PositionsRead("", p.positions);
    ListsParsed(ToJson(p), p);
  }

  lemma DigestPartsOf(p: MerkleProof)
    requires |ToJson(p)| < MAX_SIZE && DigestParts(p)
    ensures forall i :: 0 <= i < |p.siblings| ==> |p.siblings[i]| == HASH_SIZE
    ensures |SiblingsText(p.siblings)| < MAX_SIZE && |NumbersText(p.positions)| < MAX_SIZE
  {
    hide SiblingsText, NumbersText, Head2;
  }

  lemma ListsParsed(s: string, p: MerkleProof)
    requires Section(s, SIBLINGS_KEY, ']', 0) == Some(SiblingsText(p.siblings))
    requires Section(s, POSITIONS_KEY, ']', 0) == Some(NumbersText(p.positions))
    requires ReadSiblings(SiblingsText(p.siblings), 0) == Some(p.siblings)
    requires ReadPositions(NumbersText(p.positions), 0) == Some(p.positions)
    ensures ParseLists(s, p.leaf, p.leafIndex) == Parsed(p)
  {
    hide Section, ReadSiblings, ReadPositions, SiblingsText, NumbersText;
  }
}
