/**
 The sibling loop of the proof parser, turn by turn, on positions that wrap. It ends exactly
 on texts with an even number of quotes; on the others it goes round for ever.
 */
module MerkleLoop {
  import opened Bytes
  import opened Hashing
  import opened Options
  import opened Text
  import opened Merkle
  import opened MerkleJson

  datatype LoopState = LoopState(pos: nat, found: seq<seq<byte>>)

  const START: LoopState := LoopState(0, [])

  /** The sibling a quoted text contributes: its bytes, when they are a digest. */
  function Kept(hex: string): seq<seq<byte>> {
    match FromHex(hex)
    case None => []
    case Some(sib) => if |sib| == HASH_SIZE then [sib] else []
  }

  function SkipComma(s: string, pos: nat): nat {
    if pos < |s| && s[pos] == ',' then pos + 1 else pos
  }

  /** The loop's test and its body once, a missing closing quote included; None is leaving. */
  function Turn(s: string, st: LoopState): Option<LoopState>
    requires |s| < MAX_SIZE
  {
    if st.pos >= |s| then None
    else
      var q1 := Find(s, ['"'], st.pos);
      if q1 == NPOS then None
      else
        var q2 := Find(s, ['"'], Plus(q1, 1));
        var hex := Substr(s, Plus(q1, 1), Minus(Minus(q2, q1), 1)).value;
        Some(LoopState(SkipComma(s, Plus(q2, 1)), st.found + Kept(hex)))
  }

  /** The state after n turns; None when the loop was left before. */
  function Run(s: string, st: LoopState, n: nat): Option<LoopState>
    requires |s| < MAX_SIZE
    decreases n
  {
    if n == 0 then Some(st)
    else
      match Turn(s, st)
      case None => None
      case Some(next) => Run(s, next, n - 1)
  }

  lemma {:induction false} RunMore(s: string, st: LoopState, n: nat, m: nat)
    requires |s| < MAX_SIZE && Run(s, st, n).Some?
    ensures Run(s, st, n + m) == Run(s, Run(s, st, n).value, m)
    decreases n
  {
    hide Turn;
    if n > 0 {
      RunMore(s, Turn(s, st).value, n - 1, m);
    }
  }

  // ---------------------------------------------------------------------------
  // One turn
  // ---------------------------------------------------------------------------

  /** The quotes not yet passed. */
  function Quotes(s: string, pos: nat): nat {
    if pos > |s| then 0 else Count(s[pos..], '"')
  }

  lemma QuotesSkip(s: string, pos: nat)
    ensures Quotes(s, SkipComma(s, pos)) == Quotes(s, pos)
  {
    if pos < |s| {
      assert s[pos..][1..] == s[pos + 1..];
    }
  }

  /** The position behind a sibling whose closing quote is at q2. */
  function After(s: string, q2: nat): nat {
    SkipComma(s, q2 + 1)
  }

  predicate Paired(s: string, pos: nat, q1: nat, q2: nat) {
    && pos <= q1 < q2 < |s|
    && Find(s, ['"'], pos) == q1 && Find(s, ['"'], q1 + 1) == q2
  }

  predicate Unpaired(s: string, pos: nat, q1: nat) {
    && pos <= q1 < |s|
    && Find(s, ['"'], pos) == q1 && Find(s, ['"'], q1 + 1) == NPOS
  }

  /** With two quotes ahead a turn passes both, with one it is torn, with none it is the last. */
  lemma QuoteCases(s: string, pos: nat) returns (q1: nat, q2: nat)
    requires |s| < MAX_SIZE
    ensures Quotes(s, pos) >= 2 ==> Paired(s, pos, q1, q2) && Quotes(s, After(s, q2)) == Quotes(s, pos) - 2
    ensures Quotes(s, pos) == 1 ==> Unpaired(s, pos, q1)
    ensures Quotes(s, pos) == 0 && pos < |s| ==> Find(s, ['"'], pos) == NPOS
  {
    hide Find, Count;
    q1, q2 := 0, 0;
    if pos <= |s| {
      q1 := Find(s, ['"'], pos);
      CountFind(s, '"', pos);
      CountEmpty(s, pos);
      if q1 != NPOS {
        q2 := Find(s, ['"'], q1 + 1);
        CountFind(s, '"', q1 + 1);
        if q2 != NPOS {
          QuotesSkip(s, q2 + 1);
        }
      }
    }
  }

  lemma CountEmpty(s: string, pos: nat)
    requires pos <= |s|
    ensures pos == |s| ==> Count(s[pos..], '"') == 0
  {
  }

  /** What the loop cuts out between two quotes, and behind a quote without a partner. */
  lemma CutOut(s: string, q1: nat, q2: nat)
    requires q1 < |s| < MAX_SIZE
    ensures Plus(q1, 1) == q1 + 1
    ensures q1 < q2 < |s| ==>
      Plus(q2, 1) == q2 + 1 && Substr(s, q1 + 1, Minus(Minus(q2, q1), 1)) == Some(s[q1 + 1..q2])
    ensures Plus(NPOS, 1) == 0 && Substr(s, q1 + 1, Minus(Minus(NPOS, q1), 1)) == Some(s[q1 + 1..])
  {
    assert s[q1 + 1..|s|] == s[q1 + 1..];
  }

  lemma TurnPaired(s: string, st: LoopState, q1: nat, q2: nat)
    requires |s| < MAX_SIZE && Paired(s, st.pos, q1, q2)
    ensures Turn(s, st) == Some(LoopState(After(s, q2), st.found + Kept(s[q1 + 1..q2])))
  {
    hide Find, Kept, Plus, Minus, Substr;
    CutOut(s, q1, q2);
  }

  /** Where a turn without a closing quote goes: npos + 1 is 0. */
  function Restart(s: string): nat {
    SkipComma(s, 0)
  }

  lemma TurnWraps(s: string, st: LoopState, q1: nat)
    requires |s| < MAX_SIZE && Unpaired(s, st.pos, q1)
    ensures Turn(s, st) == Some(LoopState(Restart(s), st.found + Kept(s[q1 + 1..])))
  {
    hide Find, Kept, Plus, Minus, Substr;
    CutOut(s, q1, q1);
  }

  lemma TurnLeaves(s: string, st: LoopState)
    requires |s| < MAX_SIZE && Quotes(s, st.pos) == 0
    ensures Turn(s, st) == None
  {
    hide Find;
    var _, _ := QuoteCases(s, st.pos);
  }

  // ---------------------------------------------------------------------------
  // An even number of quotes: the loop ends
  // ---------------------------------------------------------------------------

  lemma ReadPaired(s: string, pos: nat, q1: nat, q2: nat)
    requires |s| < MAX_SIZE && Paired(s, pos, q1, q2)
    ensures ReadSiblings(s, pos) == Behind(Kept(s[q1 + 1..q2]), ReadSiblings(s, After(s, q2)))
  {
    hide Find, FromHex;
    BehindNone([], ReadSiblings(s, After(s, q2)));
  }

  lemma ReadRest(s: string, pos: nat)
    requires |s| < MAX_SIZE
    ensures Quotes(s, pos) == 0 ==> ReadSiblings(s, pos) == Some([])
    ensures Quotes(s, pos) == 1 ==> ReadSiblings(s, pos) == None
  {
    hide Find, Quotes;
    var _, _ := QuoteCases(s, pos);
  }

  /** The loop from pos on is stuck exactly when an odd number of quotes is ahead. */
  lemma {:induction false} StuckByParity(s: string, pos: nat)
    requires |s| < MAX_SIZE
    ensures ReadSiblings(s, pos) == None <==> Quotes(s, pos) % 2 == 1
    decreases |s| - pos
  {
    hide ReadSiblings, Quotes, Find, Kept;
    ReadRest(s, pos);
    if Quotes(s, pos) >= 2 {
      var q1, q2 := QuoteCases(s, pos);
      ReadPaired(s, pos, q1, q2);
      StuckByParity(s, After(s, q2));
    }
  }

  /** Ahead of an even number of quotes the loop ends, with the siblings it is specified by. */
  lemma {:induction false} EndsWhenEven(s: string, st: LoopState) returns (n: nat, last: LoopState)
    requires |s| < MAX_SIZE && Quotes(s, st.pos) % 2 == 0
    ensures Run(s, st, n) == Some(last) && Turn(s, last) == None
    ensures Behind(st.found, ReadSiblings(s, st.pos)) == Some(last.found)
    decreases |s| - st.pos
  {
    hide ReadSiblings, Quotes, Find, Kept, Turn, Behind;
    if Quotes(s, st.pos) == 0 {
      n, last := 0, st;
      TurnLeaves(s, st);
      ReadRest(s, st.pos);
      BehindNone(st.found, None);
    } else {
      var q1, q2 := QuoteCases(s, st.pos);
      TurnPaired(s, st, q1, q2);
      ReadPaired(s, st.pos, q1, q2);
      var k := Kept(s[q1 + 1..q2]);
      n, last := EndsWhenEven(s, LoopState(After(s, q2), st.found + k));
      BehindTwice(st.found, k, ReadSiblings(s, After(s, q2)));
      n := n + 1;
    }
  }

  lemma BehindTwice<T>(a: seq<T>, b: seq<T>, rest: Option<seq<T>>)
    ensures Behind(a + b, rest) == Behind(a, Behind(b, rest))
  {
    if rest.Some? {
      assert a + b + rest.value == a + (b + rest.value);
    }
  }

  // ---------------------------------------------------------------------------
  // An odd number of quotes: it never ends
  // ---------------------------------------------------------------------------

  predicate Odd(s: string, pos: nat) {
    Quotes(s, 0) % 2 == 1 && Quotes(s, pos) % 2 == 1
  }

  /** Each turn ahead of an odd number of quotes leads to another such turn. */
  lemma OddTurn(s: string, st: LoopState)
    requires |s| < MAX_SIZE && Odd(s, st.pos)
    ensures Turn(s, st).Some? && Odd(s, Turn(s, st).value.pos)
    ensures st.pos < |s|
  {
    hide Turn, Find, Count, Kept;
    var q1, q2 := QuoteCases(s, st.pos);
    if Quotes(s, st.pos) == 1 {
      TurnWraps(s, st, q1);
      QuotesSkip(s, 0);
    } else {
      TurnPaired(s, st, q1, q2);
    }
  }

  lemma {:induction false} NeverEnds(s: string, st: LoopState, n: nat)
    requires |s| < MAX_SIZE && Odd(s, st.pos)
    ensures Run(s, st, n).Some? && Odd(s, Run(s, st, n).value.pos)
    ensures Run(s, st, n).value.pos < |s|
    decreases n
  {
    hide Turn, Odd;
    OddTurn(s, st);
    if n > 0 {
      NeverEnds(s, Turn(s, st).value, n - 1);
    }
  }

  predicate EndsAfter(s: string, n: nat)
    requires |s| < MAX_SIZE
  {
    Run(s, START, n).Some? && Turn(s, Run(s, START, n).value) == None
  }

  /**
   The loop ends exactly on an even number of quotes. Otherwise its position stays within the
   text after every number of turns, although one of them sets it to npos + 1.
   */
  lemma LoopEndsExactly(s: string)
    requires |s| < MAX_SIZE
    ensures (exists n: nat :: EndsAfter(s, n)) <==> Count(s, '"') % 2 == 0
    ensures Count(s, '"') % 2 == 1 ==>
      forall n: nat :: Run(s, START, n).Some? && Run(s, START, n).value.pos < |s|
  {
    hide Turn, Run, Find, Count;
    assert s[0..] == s;
    if Count(s, '"') % 2 == 0 {
      var n, _ := EndsWhenEven(s, START);
      assert EndsAfter(s, n);
    } else {
      forall n: nat
        ensures Run(s, START, n).Some? && Run(s, START, n).value.pos < |s| && !EndsAfter(s, n)
      {
        NeverEnds(s, START, n);
        OddTurn(s, Run(s, START, n).value);
      }
    }
  }

  // ---------------------------------------------------------------------------
  // What a loop that never ends collects
  // ---------------------------------------------------------------------------

  /** The siblings kept from pos to the end of the text, what follows a last open quote too. */
  function Pass(s: string, pos: nat): seq<seq<byte>>
    decreases |s| - pos
  {
    if pos >= |s| then []
    else
      var q1 := Find(s, ['"'], pos);
      if q1 == NPOS then []
      else
        var q2 := Find(s, ['"'], q1 + 1);
        if q2 == NPOS then Kept(s[q1 + 1..])
        else Kept(s[q1 + 1..q2]) + Pass(s, After(s, q2))
  }

  lemma PassRestart(s: string)
    requires |s| < MAX_SIZE
    ensures Pass(s, Restart(s)) == Pass(s, 0)
  {
    hide Find, Pass;
    if s != [] && s[0] == ',' {
      assert s[0..1] == [','];
      FindNext(s, ['"'], 0);
      SameQuote(s, 0, 1);
    }
  }

  lemma SameQuote(s: string, pos: nat, next: nat)
    requires pos <= next <= |s| < MAX_SIZE && Find(s, ['"'], pos) == Find(s, ['"'], next)
    ensures Pass(s, pos) == Pass(s, next)
  {
    hide Find, Kept;
  }

  lemma PassPaired(s: string, pos: nat, q1: nat, q2: nat)
    requires |s| < MAX_SIZE && Paired(s, pos, q1, q2)
    ensures Pass(s, pos) == Kept(s[q1 + 1..q2]) + Pass(s, After(s, q2))
  {
    hide Find, Kept;
  }

  lemma PassTorn(s: string, pos: nat, q1: nat)
    requires |s| < MAX_SIZE && Unpaired(s, pos, q1)
    ensures Pass(s, pos) == Kept(s[q1 + 1..])
  {
    hide Find, Kept;
  }

  /** From any position on, the turns reach the start again with one pass's siblings more. */
  lemma {:induction false} OncePast(s: string, st: LoopState) returns (n: nat)
    requires |s| < MAX_SIZE && Odd(s, st.pos)
    ensures Run(s, st, n) == Some(LoopState(Restart(s), st.found + Pass(s, st.pos)))
    decreases |s| - st.pos
  {
    hide Turn, Find, Kept, Pass, Count;
    var q1, q2 := QuoteCases(s, st.pos);
    if Quotes(s, st.pos) == 1 {
      TurnWraps(s, st, q1);
      PassTorn(s, st.pos, q1);
      n := 1;
      assert Run(s, Turn(s, st).value, 0) == Turn(s, st);
    } else {
      TurnPaired(s, st, q1, q2);
      PassPaired(s, st.pos, q1, q2);
      var k := Kept(s[q1 + 1..q2]);
      n := OncePast(s, LoopState(After(s, q2), st.found + k));
      assert st.found + k + Pass(s, After(s, q2)) == st.found + (k + Pass(s, After(s, q2)));
      n := n + 1;
    }
  }

  /** After m passes the loop has collected a pass's siblings m times. */
  lemma {:induction false} PassesAdd(s: string, m: nat) returns (n: nat, st: LoopState)
    requires |s| < MAX_SIZE && Count(s, '"') % 2 == 1
    ensures Run(s, START, n) == Some(st) && (st.pos == 0 || st.pos == Restart(s))
    ensures |st.found| == m * |Pass(s, 0)|
  {
    hide Run, Pass, Count;
    assert s[0..] == s;
    n, st := 0, START;
    if m == 0 {
      RunNone(s, START);
    } else {
      var n', st' := PassesAdd(s, m - 1);
      QuotesSkip(s, 0);
      PassRestart(s);
      var k := OncePast(s, st');
      RunMore(s, START, n', k);
      n, st := n' + k, LoopState(Restart(s), st'.found + Pass(s, st'.pos));
    }
  }

  lemma RunNone(s: string, st: LoopState)
    requires |s| < MAX_SIZE
    ensures Run(s, st, 0) == Some(st)
  {
  }

  /** A text with no sibling in it leaves the list empty, whatever the turns. */
  lemma {:induction false} CollectsNothing(s: string, st: LoopState, n: nat)
    requires |s| < MAX_SIZE && Odd(s, st.pos)
    requires Pass(s, 0) == [] && Pass(s, st.pos) == [] && st.found == []
    ensures Run(s, st, n).Some? && Run(s, st, n).value.found == []
    decreases n
  {
    hide Turn, Find, Kept, Pass, Count;
    if n > 0 {
      var q1, q2 := QuoteCases(s, st.pos);
      OddTurn(s, st);
      if Quotes(s, st.pos) == 1 {
        TurnWraps(s, st, q1);
        PassTorn(s, st.pos, q1);
        PassRestart(s);
      } else {
        TurnPaired(s, st, q1, q2);
        PassPaired(s, st.pos, q1, q2);
      }
      CollectsNothing(s, Turn(s, st).value, n - 1);
    }
  }

  predicate Collected(s: string, n: nat, m: nat)
    requires |s| < MAX_SIZE
  {
    Run(s, START, n).Some? && |Run(s, START, n).value.found| >= m
  }

  /** Some number of turns collects m siblings. */
  ghost predicate Reaches(s: string, m: nat)
    requires |s| < MAX_SIZE
  {
    exists n: nat :: Collected(s, n, m)
  }

  /**
   A loop that never ends outgrows every bound exactly when the text holds a sibling: then the
   vector cannot grow at some point, and the parser returns nothing. Otherwise it just spins.
   */
  lemma OutgrowsExactly(s: string)
    requires |s| < MAX_SIZE && Count(s, '"') % 2 == 1
    ensures (forall m: nat :: Reaches(s, m)) <==> Pass(s, 0) != []
  {
    hide Run, Pass, Count;
    assert s[0..] == s;
    if Pass(s, 0) == [] {
      forall n: nat
        ensures !Collected(s, n, 1)
      {
        CollectsNothing(s, START, n);
      }
      assert !Reaches(s, 1);
    } else {
      forall m: nat
        ensures Reaches(s, m)
      {
        var n, st := PassesAdd(s, m);
        TimesOne(m, |Pass(s, 0)|);
        assert Collected(s, n, m);
      }
    }
  }

  lemma TimesOne(m: nat, k: nat)
    requires k > 0
    ensures m * k >= m
  {
  }

  // ---------------------------------------------------------------------------
  // The whole parser
  // ---------------------------------------------------------------------------

  /** Leaf and index are read and the siblings' text is found. */
  predicate ReachesSiblings(s: string) {
    var leaf := Section(s, LEAF_KEY, '"', 8);
    var index := Section(s, INDEX_KEY, ',', 0);
    && leaf.Some? && FromHex(leaf.value).Some? && |FromHex(leaf.value).value| == HASH_SIZE
    && index.Some? && ParseUnsigned(index.value, 10).Some?
    && Section(s, SIBLINGS_KEY, ']', 0).Some?
  }

  /** The parser is stuck on exactly the texts whose siblings section has an odd number of quotes. */
  lemma StuckExactly(s: string)
    requires |s| < MAX_SIZE
    ensures FromJson(s) == Stuck <==>
      ReachesSiblings(s) && Count(Section(s, SIBLINGS_KEY, ']', 0).value, '"') % 2 == 1
  {
    hide Section, FromHex, ParseUnsigned, ReadSiblings, ReadPositions, Count;
    var section := Section(s, SIBLINGS_KEY, ']', 0);
    if section.Some? {
      var t := section.value;
      SectionSize(s, SIBLINGS_KEY, ']', 0);
      StuckByParity(t, 0);
      assert t[0..] == t;
    }
  }

  lemma SectionSize(s: string, key: string, close: char, skip: nat)
    ensures var t := Section(s, key, close, skip); t.Some? ==> |t.value| <= |s|
  {
    hide Find, Plus, Minus;
  }

  /** So any printed proof gets the parser stuck once its siblings are replaced by such a text. */
  lemma StuckText(p: MerkleProof, t: string, rest: string)
    requires |WithSiblings(p, t, rest)| < MAX_SIZE && NoChar(t, ']')
    ensures FromJson(WithSiblings(p, t, rest)) == Stuck <==>
      |p.leaf| == HASH_SIZE && Count(t, '"') % 2 == 1
  {
    HeadParsed(p, SIBLINGS_KEY + (t + ([']'] + rest)));
    SiblingsSection(p, t, rest);
    hide Section, FromJson, Head2, ReadSiblings, ReadPositions, Count, NoChar;
    StuckByParity(t, 0);
    assert t[0..] == t;
  }

  /** A sibling that is not closed: the text is odd, and each pass keeps the sibling once more. */
  lemma TornSibling(x: seq<byte>)
    requires |x| == HASH_SIZE
    ensures var t := ['"'] + ToHex(x);
            NoChar(t, ']') && Count(t, '"') == 1 && Pass(t, 0) == [x]
  {
    var hex := ToHex(x);
    var t := ['"'] + hex;
    NoQuoteInHex(x);
    HexRoundTrip(x);
    assert t[1..] == hex && t[0..1] == ['"'];
    hide ToHex, FromHex, Find;
    FindHere(t, ['"'], 0);
    FindNone(['"'], hex, '"');
    CountFind(t, '"', 1);
    PassTorn(t, 0, 0);
  }

  const SAMPLE: MerkleProof := MerkleProof(Zeros(HASH_SIZE), [], [], 0)

  lemma SampleSize(t: string)
    ensures |WithSiblings(SAMPLE, t, "}")| == 104 + |t|
  {
    hide ToHex;
    assert Decimal(0) == ['0'];
  }

  /**
   The shortest stuck text has a single quote as its siblings, and spins. With 64 zeros behind
   that quote the list grows for ever instead.
   */
  lemma StuckSamples()
    ensures FromJson(WithSiblings(SAMPLE, ['"'], "}")) == Stuck && Pass(['"'], 0) == []
    ensures var t := ['"'] + ToHex(SAMPLE.leaf);
            FromJson(WithSiblings(SAMPLE, t, "}")) == Stuck && Pass(t, 0) == [SAMPLE.leaf]
  {
    var t := ['"'] + ToHex(SAMPLE.leaf);
    TornSibling(SAMPLE.leaf);
    LoneQuote();
    hide FromJson, WithSiblings, Count, Pass, NoChar, ToHex;
    SampleSize(['"']);
    SampleSize(t);
    StuckText(SAMPLE, ['"'], "}");
    StuckText(SAMPLE, t, "}");
  }

  lemma LoneQuote()
    ensures NoChar(['"'], ']') && Count(['"'], '"') == 1 && Pass(['"'], 0) == []
  {
    hide Find;
    FindHere(['"'], ['"'], 0);
    CountFind(['"'], '"', 1);
    assert ['"'][1..] == "";
    PassTorn(['"'], 0, 0);
  }
}
