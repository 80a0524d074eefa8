/**
 Waiting for finality against a node whose block tree grows, forks and reorganises between
 the three remote calls of a poll, while its finalized block only moves to descendants.
 */
module Finality {
  import opened Ascii
  import opened Bytes
  import opened Options
  import opened Text

  // ---------------------------------------------------------------------------
  // The node
  // ---------------------------------------------------------------------------

  datatype Block = Block(number: nat, parent: string)

  /** Every block the node ever imported, by normalised hash, the head of its best chain and its finalized block. */
  datatype Node = Node(blocks: map<string, Block>, best: string, finalized: string)

  predicate IsTree(blocks: map<string, Block>) {
    forall b :: b in blocks && blocks[b].number > 0 ==>
      blocks[b].parent in blocks && blocks[blocks[b].parent].number + 1 == blocks[b].number
  }

  /** The block of the given number on the way from b to the root. */
  function Ancestor(blocks: map<string, Block>, b: string, number: nat): (a: string)
    requires IsTree(blocks) && b in blocks && number <= blocks[b].number
    ensures a in blocks && blocks[a].number == number
    decreases blocks[b].number
  {
    if blocks[b].number == number then b else Ancestor(blocks, blocks[b].parent, number)
  }

  /** The finalized block is on the best chain. */
  predicate Valid(s: Node) {
    && IsTree(s.blocks) && s.best in s.blocks && s.finalized in s.blocks
    && s.blocks[s.finalized].number <= s.blocks[s.best].number
    && Ancestor(s.blocks, s.best, s.blocks[s.finalized].number) == s.finalized
  }

  predicate Extends(small: map<string, Block>, large: map<string, Block>) {
    forall b :: b in small ==> b in large && large[b] == small[b]
  }

  /** Any number of imports, reorganisations and finalizations. */
  predicate Evolves(s: Node, t: Node) {
    && Valid(s) && Valid(t) && Extends(s.blocks, t.blocks)
    && s.blocks[s.finalized].number <= t.blocks[t.finalized].number
    && Ancestor(t.blocks, t.finalized, s.blocks[s.finalized].number) == s.finalized
  }

  /** What chain_getBlockHash answers: the block of that height on the best chain. */
  function Canonical(s: Node, height: nat): Option<string>
    requires Valid(s)
  {
    if height <= s.blocks[s.best].number then Some(Ancestor(s.blocks, s.best, height)) else None
  }

  /** The finalized block of that height. */
  function FinalAt(s: Node, height: nat): Option<string>
    requires Valid(s)
  {
    if height <= s.blocks[s.finalized].number then Some(Ancestor(s.blocks, s.finalized, height)) else None
  }

  lemma {:induction false} AncestorExtends(small: map<string, Block>, large: map<string, Block>, b: string, number: nat)
    requires IsTree(small) && IsTree(large) && Extends(small, large)
    requires b in small && number <= small[b].number
    ensures Ancestor(small, b, number) == Ancestor(large, b, number)
    decreases small[b].number
  {
    if small[b].number != number {
      AncestorExtends(small, large, small[b].parent, number);
    }
  }

  lemma {:induction false} AncestorOfAncestor(blocks: map<string, Block>, b: string, upper: nat, lower: nat)
    requires IsTree(blocks) && b in blocks && lower <= upper <= blocks[b].number
    ensures Ancestor(blocks, Ancestor(blocks, b, upper), lower) == Ancestor(blocks, b, lower)
    decreases blocks[b].number
  {
    if blocks[b].number != upper {
      AncestorOfAncestor(blocks, blocks[b].parent, upper, lower);
    }
  }

  lemma EvolvesRefl(s: Node)
    requires Valid(s)
    ensures Evolves(s, s)
  {
  }

  lemma EvolvesTrans(s: Node, t: Node, u: Node)
    requires Evolves(s, t) && Evolves(t, u)
    ensures Evolves(s, u)
  {
    var i, j := s.blocks[s.finalized].number, t.blocks[t.finalized].number;
    AncestorOfAncestor(u.blocks, u.finalized, j, i);
    AncestorExtends(t.blocks, u.blocks, t.finalized, i);
  }

  /** A finalized height stays what it is. */
  lemma FinalStays(s: Node, t: Node, height: nat)
    requires Evolves(s, t) && FinalAt(s, height).Some?
    ensures FinalAt(t, height) == FinalAt(s, height)
  {
    AncestorOfAncestor(t.blocks, t.finalized, s.blocks[s.finalized].number, height);
    AncestorExtends(s.blocks, t.blocks, s.finalized, height);
  }

  /** Up to the finalized height the best chain is the finalized one. */
  lemma FinalIsCanonical(s: Node, height: nat)
    requires Valid(s) && FinalAt(s, height).Some?
    ensures Canonical(s, height) == FinalAt(s, height)
  {
    AncestorOfAncestor(s.blocks, s.best, s.blocks[s.finalized].number, height);
  }

  /** Above it the best chain can change, so that comparing hashes there would prove nothing. */
  lemma UnfinalizedCanMove(s: Node, height: nat, imported: string)
    requires Valid(s) && height == s.blocks[s.finalized].number + 1 && imported !in s.blocks
    ensures exists t :: Evolves(s, t) && Canonical(t, height) == Some(imported)
  {
    var t := Node(s.blocks[imported := Block(height, s.finalized)], imported, s.finalized);
    assert Ancestor(t.blocks, imported, height - 1) == s.finalized;
    assert Evolves(s, t) && Canonical(t, height) == Some(imported);
  }

  // ---------------------------------------------------------------------------
  // Answers
  // ---------------------------------------------------------------------------

  /** Hashes are compared without prefix and letter case. */
  function NormalizeHash(hash: string): string {
    LowerAll(StripHexPrefix(hash))
  }

  const HEX_DIGITS: string := "0123456789abcdefABCDEF"

  lemma HexDigitExactly(c: char)
    ensures DigitValue(c) < 16 <==> c in HEX_DIGITS
  {
    if DigitValue(c) < 16 {
      var v := DigitValue(c);
      assert HEX_DIGITS[v] == c || (v >= 10 && HEX_DIGITS[v + 6] == c);
    }
  }

  /** Two characters that are one letter in different case, or the same. */
  predicate SameLetter(c: char, d: char) {
    || c == d
    || ('A' <= c <= 'Z' && d as int == c as int + 32)
    || ('A' <= d <= 'Z' && c as int == d as int + 32)
  }

  /** Hashes that are the same to the comparison: equal behind their prefixes, letter case aside. */
  lemma HashesAgree(a: string, b: string)
    ensures NormalizeHash(a) == NormalizeHash(b) <==>
      var x, y := StripHexPrefix(a), StripHexPrefix(b);
      |x| == |y| && forall i :: 0 <= i < |x| ==> SameLetter(x[i], y[i])
    ensures !("0x" <= b) && !("0X" <= b) ==>
      NormalizeHash("0x" + b) == NormalizeHash(b) == NormalizeHash("0X" + b)
  {
    var x, y := StripHexPrefix(a), StripHexPrefix(b);
    assert StripHexPrefix("0x" + b) == b && StripHexPrefix("0X" + b) == b;
    hide LowerAll, Lower, SameLetter;
    if |x| == |y| {
      forall i | 0 <= i < |x|
        ensures LowerAll(x)[i] == LowerAll(y)[i] <==> SameLetter(x[i], y[i])
      {
        LettersAgree(x[i], y[i]);
      }
    }
  }

  lemma LettersAgree(c: char, d: char)
    ensures Lower(c) == Lower(d) <==> SameLetter(c, d)
  {
  }

  /**
   One turn of the polling loop: a failed call, or the finalized hash, the number in its
   header (none when there is no header) and the answer for the height, asked or not.
   */
  datatype Poll = Failed | Answered(head: string, header: Option<u64>, hash: Option<string>)

  /** The states of the node at the three calls. */
  datatype Moment = Moment(atHead: Node, atHeader: Node, atHash: Node)

  predicate Ordered(m: Moment) {
    Evolves(m.atHead, m.atHeader) && Evolves(m.atHeader, m.atHash)
  }

  /** The answers are true ones, each at its own time. */
  predicate Genuine(p: Poll, m: Moment, height: nat) {
    && Ordered(m)
    && (p.Answered? ==>
          && NormalizeHash(p.head) == m.atHead.finalized
          && (p.header.Some? ==> p.header.value == m.atHeader.blocks[m.atHead.finalized].number)
          && (p.hash.Some? ==> Canonical(m.atHash, height) == Some(NormalizeHash(p.hash.value))))
  }

  predicate GenuineRun(polls: seq<Poll>, moments: seq<Moment>, height: nat) {
    && |moments| == |polls|
    && (forall i :: 0 <= i < |polls| ==> Genuine(polls[i], moments[i], height))
    && (forall i :: 0 <= i < |polls| - 1 ==> Evolves(moments[i].atHash, moments[i + 1].atHead))
  }

  /** From one call to any later one the node has evolved. */
  lemma {:induction false} RunEvolves(polls: seq<Poll>, moments: seq<Moment>, height: nat, i: nat, j: nat)
    requires GenuineRun(polls, moments, height) && i <= j < |polls|
    ensures Evolves(moments[i].atHash, moments[j].atHash)
    decreases j - i
  {
    hide Evolves;
    assert Genuine(polls[i], moments[i], height) && Genuine(polls[j], moments[j], height);
    if i == j {
      ValidEnd(moments[i]);
      EvolvesRefl(moments[i].atHash);
    } else {
      RunEvolves(polls, moments, height, i, j - 1);
      EvolvesTrans(moments[i].atHash, moments[j - 1].atHash, moments[j].atHead);
      EvolvesTrans(moments[i].atHash, moments[j].atHead, moments[j].atHeader);
      EvolvesTrans(moments[i].atHash, moments[j].atHeader, moments[j].atHash);
    }
  }

  lemma ValidEnd(m: Moment)
    requires Ordered(m)
    ensures Valid(m.atHash)
  {
  }

  function HeaderHeight(p: Poll): u64
    requires p.Answered?
  {
    if p.header.Some? then p.header.value else 0
  }

  /** The finalized height has reached the block, so the poll asks for its hash. */
  predicate Reached(p: Poll, height: u64) {
    p.Answered? && HeaderHeight(p) >= height && height > 0
  }

  predicate Concludes(p: Poll, height: u64) {
    Reached(p, height) && p.hash.Some?
  }

  /** From s on, hash is the finalized block of the height. */
  ghost predicate FinalForever(s: Node, height: nat, hash: string) {
    forall later :: Evolves(s, later) ==> FinalAt(later, height) == Some(hash)
  }

  /** From s on, another block is the finalized one of the height. */
  ghost predicate NeverFinal(s: Node, height: nat, hash: string) {
    forall later :: Evolves(s, later) ==> FinalAt(later, height).Some? && FinalAt(later, height) != Some(hash)
  }

  /** A concluding answer names the finalized block of its height, for good. */
  lemma ConclusionIsFinal(p: Poll, m: Moment, height: u64)
    requires Genuine(p, m, height) && Concludes(p, height)
    ensures FinalForever(m.atHash, height, NormalizeHash(p.hash.value))
  {
    hide NormalizeHash;
    var f := m.atHead.finalized;
    assert m.atHeader.blocks[f] == m.atHead.blocks[f];
    assert FinalAt(m.atHead, height).Some?;
    FinalStays(m.atHead, m.atHeader, height);
    FinalStays(m.atHeader, m.atHash, height);
    FinalIsCanonical(m.atHash, height);
    forall later | Evolves(m.atHash, later)
      ensures FinalAt(later, height) == FinalAt(m.atHash, height)
    {
      FinalStays(m.atHash, later, height);
    }
  }

  lemma OtherIsNeverFinal(s: Node, height: nat, hash: string, other: string)
    requires FinalForever(s, height, hash) && other != hash
    ensures NeverFinal(s, height, other)
  {
  }

  // ---------------------------------------------------------------------------
  // Waiting
  // ---------------------------------------------------------------------------

  datatype Error = NoError | InvalidHash | IndexerError | ConfirmationTimeout
                 | NodeRpcError | NotCanonical | FinalityTimeout

  datatype Confirmation = Confirmation(
    success: bool, found: bool, hash: string, id: u64, blockHeight: u64, blockHash: string, error: Error)

  datatype TxBlock = TxBlock(height: Option<u64>, hash: Option<string>)

  /** One turn of the inclusion loop; fields the answer lacks, or that do not parse, are none. */
  datatype Query = QueryFailed | NotFound | Found(id: Option<u64>, hash: Option<string>, block: Option<TxBlock>)

  function Or<T>(value: Option<T>, other: T): T {
    if value.Some? then value.value else other
  }

  function FromTransaction(hash: string, q: Query): Confirmation
    requires !q.QueryFailed?
  {
    if q.NotFound? then Confirmation(false, false, hash, 0, 0, "", NoError)
    else
      var block := Or(q.block, TxBlock(None, None));
      Confirmation(true, true, Or(q.hash, hash), Or(q.id, 0), Or(block.height, 0), Or(block.hash, ""), NoError)
  }

  /** r is a success with the fields of the answer; what it lacks is zero, empty, or the hash asked for. */
  predicate Confirms(r: Confirmation, hash: string, q: Query) {
    && q.Found? && r.success && r.found && r.error == NoError
    && (q.hash.Some? ==> r.hash == q.hash.value) && (q.hash == None ==> r.hash == hash)
    && (q.id.Some? ==> r.id == q.id.value) && (q.id == None ==> r.id == 0)
    && (q.block == None ==> r.blockHeight == 0 && r.blockHash == "")
    && (q.block.Some? ==>
          && (q.block.value.height.Some? ==> r.blockHeight == q.block.value.height.value)
          && (q.block.value.height == None ==> r.blockHeight == 0)
          && (q.block.value.hash.Some? ==> r.blockHash == q.block.value.hash.value)
          && (q.block.value.hash == None ==> r.blockHash == ""))
  }

  /** 32 bytes of hex, with or without prefix. */
  predicate IsTxHash(s: string) {
    var hex := StripHexPrefix(s);
    |hex| == 64 && AllDigits(hex, 16)
  }

  predicate HexFrom(s: string, n: nat) {
    forall i :: n <= i < |s| ==> s[i] in HEX_DIGITS
  }

  /** Such a text is 64 hex digits of either case, behind "0x", "0X" or nothing. */
  lemma IsTxHashExactly(s: string)
    ensures IsTxHash(s) <==>
      (|s| == 64 && HexFrom(s, 0)) || (|s| == 66 && (s[..2] == "0x" || s[..2] == "0X") && HexFrom(s, 2))
  {
    var hex := StripHexPrefix(s);
    DigitsAreHex(hex);
    HexDigitExactly('x');
    HexDigitExactly('X');
    assert 'x' !in HEX_DIGITS && 'X' !in HEX_DIGITS;
    hide HEX_DIGITS, AllDigits, DigitValue;
    if hex == s {
      assert |s| >= 2 ==> s[..2] == [s[0], s[1]];
    } else {
      assert hex == s[2..] && (s[1] == 'x' || s[1] == 'X');
      assert s[..2] == ['0', s[1]];
      assert s[1] !in HEX_DIGITS;
      HexShift(s);
    }
  }

  lemma HexShift(s: string)
    requires |s| >= 2
    ensures HexFrom(s[2..], 0) <==> HexFrom(s, 2)
  {
    if HexFrom(s[2..], 0) {
      forall i | 2 <= i < |s|
        ensures s[i] in HEX_DIGITS
      {
        assert s[2..][i - 2] == s[i];
      }
    }
  }

  lemma DigitsAreHex(s: string)
    ensures AllDigits(s, 16) <==> HexFrom(s, 0)
  {
    forall i | 0 <= i < |s|
      ensures DigitValue(s[i]) < 16 <==> s[i] in HEX_DIGITS
    {
      HexDigitExactly(s[i]);
    }
  }

  /** queries are the answers before the deadline. */
  method WaitForInclusion(hash: string, queries: seq<Query>) returns (result: Confirmation)
    ensures result.success <==> IsTxHash(hash) && exists i :: 0 <= i < |queries| && queries[i].Found?
    ensures result.success ==>
      exists i :: 0 <= i < |queries| && Confirms(result, hash, queries[i])
                  && forall j :: 0 <= j < i ==> !queries[j].Found?
    ensures !result.success ==> !result.found && result.hash == hash
    ensures !result.success && !IsTxHash(hash) ==> result.error == InvalidHash
    ensures !result.success && IsTxHash(hash) ==>
      result.error == if queries != [] && queries[|queries| - 1].QueryFailed? then IndexerError
                      else ConfirmationTimeout
  {
    result := Confirmation(false, false, hash, 0, 0, "", NoError);
    if !IsTxHash(hash) {
      return result.(error := InvalidHash);
    }
    var i := 0;
    while i < |queries|
      invariant i <= |queries|
      invariant forall j :: 0 <= j < i ==> !queries[j].Found?
      invariant !result.success && !result.found && result.hash == hash
      invariant result.error == if i > 0 && queries[i - 1].QueryFailed? then IndexerError else NoError
    {
      if queries[i].QueryFailed? {
        result := result.(error := IndexerError);
      } else {
        result := FromTransaction(hash, queries[i]);
        if result.success {
          return;
        }
      }
      i := i + 1;
    }
    if result.error == NoError {
      result := result.(error := ConfirmationTimeout);
    }
  }

  /** No poll before the i-th concluded. */
  predicate Inconclusive(polls: seq<Poll>, height: u64, i: nat)
    requires i <= |polls|
  {
    i == 0 || (Inconclusive(polls, height, i - 1) && !Concludes(polls[i - 1], height))
  }

  /** A poll fails when a call does, or when the answer for the height is null. */
  predicate PollFails(p: Poll, height: u64) {
    p.Failed? || (Reached(p, height) && p.hash == None)
  }

  /** A failed poll leaves its error behind, also for a later success. */
  function ErrorAfter(polls: seq<Poll>, height: u64, i: nat): Error
    requires i <= |polls|
  {
    if i == 0 then NoError
    else if PollFails(polls[i - 1], height) then NodeRpcError
    else ErrorAfter(polls, height, i - 1)
  }

  /** A call of the poll failed, or the node knew no block of a height it had finalized. */
  predicate Unanswered(p: Poll, height: u64) {
    p.Failed? || (p.Answered? && p.header.Some? && p.header.value >= height > 0 && p.hash == None)
  }

  /** An error stays behind exactly when some poll went unanswered, answered ones after it included. */
  lemma {:induction false} ErrorAfterExactly(polls: seq<Poll>, height: u64, i: nat)
    requires i <= |polls|
    ensures ErrorAfter(polls, height, i) ==
      if exists j :: 0 <= j < i && Unanswered(polls[j], height) then NodeRpcError else NoError
  {
    hide Unanswered;
    if i > 0 {
      ErrorAfterExactly(polls, height, i - 1);
      FailsExactly(polls[i - 1], height);
      hide PollFails;
    }
  }

  lemma FailsExactly(p: Poll, height: u64)
    ensures PollFails(p, height) <==> Unanswered(p, height)
  {
  }

  /** Poll i is the first to conclude, and the transaction's block is final from then on. */
  ghost predicate SucceedsAt(included: Confirmation, polls: seq<Poll>, moments: seq<Moment>, i: nat, error: Error) {
    && i < |polls| == |moments|
    && Inconclusive(polls, included.blockHeight, i) && Concludes(polls[i], included.blockHeight)
    && error == ErrorAfter(polls, included.blockHeight, i)
    && Ordered(moments[i])
    && FinalForever(moments[i].atHash, included.blockHeight, NormalizeHash(included.blockHash))
  }

  /** Poll i is the first to conclude, and the transaction's block will never be final. */
  ghost predicate DeniedAt(included: Confirmation, polls: seq<Poll>, moments: seq<Moment>, i: nat) {
    && i < |polls| == |moments|
    && Inconclusive(polls, included.blockHeight, i) && Concludes(polls[i], included.blockHeight)
    && Ordered(moments[i])
    && NeverFinal(moments[i].atHash, included.blockHeight, NormalizeHash(included.blockHash))
  }

  /** All calls were answered with what they were asked for. */
  predicate Complete(p: Poll) {
    p.Answered? && p.header.Some? && p.hash.Some?
  }

  /** When the finalized head was read, the height was not finalized yet. */
  ghost predicate Unfinal(m: Moment, height: nat) {
    Ordered(m) && FinalAt(m.atHead, height) == None
  }

  /**
   The wait for finality after inclusion: polls are the answers before the deadline, moments
   the states of the node they were given in. A success means the block of the transaction is
   the finalized one of its height from then on; a negative answer that it never will be.
   */
  method WaitForFinality(included: Confirmation, polls: seq<Poll>, ghost moments: seq<Moment>)
    returns (result: Confirmation)
    requires included.success ==> included.error == NoError
    requires GenuineRun(polls, moments, included.blockHeight)
    ensures !included.success ==> result == included
    ensures result.(success := included.success, error := included.error) == included
    ensures included.success && result.success ==> exists i :: SucceedsAt(included, polls, moments, i, result.error)
    ensures included.success && !result.success ==>
      || (result.error == NotCanonical && exists i :: DeniedAt(included, polls, moments, i))
      || (result.error == FinalityTimeout && Inconclusive(polls, included.blockHeight, |polls|))
    ensures included.success && included.blockHeight == 0 ==> !result.success && result.error == FinalityTimeout
    ensures included.success && !result.success && result.error == FinalityTimeout && included.blockHeight > 0 ==>
      |moments| == |polls|
      && forall i :: 0 <= i < |polls| && Complete(polls[i]) ==> Unfinal(moments[i], included.blockHeight)
  {
    hide *;
    result := included;
    if !included.success {
      return;
    }
    var height := included.blockHeight;
    var i := 0;
    LoopStart(polls, moments, height);
    while i < |polls|
      invariant i <= |polls| && Inconclusive(polls, height, i)
      invariant result == included.(error := ErrorAfter(polls, height, i))
    {
      var p := polls[i];
      LoopStep(polls, height, i);
      if p.Failed? {
        result := result.(error := NodeRpcError);
      } else {
        var finalizedHeight := HeaderHeight(p);
        if finalizedHeight >= height && height > 0 {
          if p.hash == None {
            result := result.(error := NodeRpcError);
          } else {
            Decision(included, polls, moments, i, result.error);
            if NormalizeHash(p.hash.value) == NormalizeHash(included.blockHash) {
              return;
            }
            result := result.(success := false, error := NotCanonical);
            return;
          }
        }
      }
      i := i + 1;
    }
    if height > 0 {
      forall j | 0 <= j < |polls| && Complete(polls[j])
        ensures Unfinal(moments[j], height)
      {
        TimeoutMeansUnfinal(polls, moments, height, j);
      }
    }
    result := result.(success := false, error := FinalityTimeout);
  }

  lemma LoopStart(polls: seq<Poll>, moments: seq<Moment>, height: u64)
    requires GenuineRun(polls, moments, height)
    ensures Inconclusive(polls, height, 0) && ErrorAfter(polls, height, 0) == NoError
    ensures |moments| == |polls|
  {
  }

  lemma LoopStep(polls: seq<Poll>, height: u64, i: nat)
    requires i < |polls| && Inconclusive(polls, height, i)
    ensures var p := polls[i];
            var asked := p.Answered? && HeaderHeight(p) >= height && height > 0;
            && (!(asked && p.hash.Some?) ==> Inconclusive(polls, height, i + 1))
            && (asked && p.hash.Some? ==> Concludes(p, height))
            && ErrorAfter(polls, height, i + 1)
               == if p.Failed? || (asked && p.hash == None) then NodeRpcError else ErrorAfter(polls, height, i)
  {
  }

  lemma Decision(included: Confirmation, polls: seq<Poll>, moments: seq<Moment>, i: nat, error: Error)
    requires GenuineRun(polls, moments, included.blockHeight) && i < |polls|
    requires Inconclusive(polls, included.blockHeight, i) && Concludes(polls[i], included.blockHeight)
    requires error == ErrorAfter(polls, included.blockHeight, i) && polls[i].Answered? && polls[i].hash.Some?
    ensures NormalizeHash(polls[i].hash.value) == NormalizeHash(included.blockHash)
            ==> SucceedsAt(included, polls, moments, i, error)
    ensures NormalizeHash(polls[i].hash.value) != NormalizeHash(included.blockHash)
            ==> DeniedAt(included, polls, moments, i)
  {
    hide FinalForever, NeverFinal, NormalizeHash, Inconclusive, ErrorAfter, Concludes, Ordered;
    assert Genuine(polls[i], moments[i], included.blockHeight);
    ConclusionIsFinal(polls[i], moments[i], included.blockHeight);
    if NormalizeHash(polls[i].hash.value) != NormalizeHash(included.blockHash) {
      OtherIsNeverFinal(moments[i].atHash, included.blockHeight, NormalizeHash(polls[i].hash.value),
                        NormalizeHash(included.blockHash));
    }
  }

  /** Two conclusions at different times of one run never contradict each other. */
  lemma ConclusionsAgree(polls: seq<Poll>, moments: seq<Moment>, height: u64, i: nat, j: nat)
    requires GenuineRun(polls, moments, height) && i <= j < |polls|
    requires Concludes(polls[i], height) && Concludes(polls[j], height)
    ensures NormalizeHash(polls[i].hash.value) == NormalizeHash(polls[j].hash.value)
  {
    RunEvolves(polls, moments, height, i, j);
    assert Genuine(polls[i], moments[i], height) && Genuine(polls[j], moments[j], height);
    hide Evolves, FinalAt, NormalizeHash, Genuine;
    ConclusionIsFinal(polls[i], moments[i], height);
    ConclusionIsFinal(polls[j], moments[j], height);
    ValidEnd(moments[j]);
    EvolvesRefl(moments[j].atHash);
  }

  lemma {:induction false} InconclusiveAt(polls: seq<Poll>, height: u64, i: nat, j: nat)
    requires j < i <= |polls| && Inconclusive(polls, height, i)
    ensures !Concludes(polls[j], height)
  {
    if j < i - 1 {
      InconclusiveAt(polls, height, i - 1, j);
    }
  }

  /** A timeout means that no complete poll saw the block's height finalized. */
  lemma TimeoutMeansUnfinal(polls: seq<Poll>, moments: seq<Moment>, height: u64, j: nat)
    requires GenuineRun(polls, moments, height) && height > 0 && Inconclusive(polls, height, |polls|)
    requires j < |polls| && Complete(polls[j])
    ensures Unfinal(moments[j], height)
  {
    InconclusiveAt(polls, height, |polls|, j);
    assert Genuine(polls[j], moments[j], height);
    var f := moments[j].atHead.finalized;
    assert moments[j].atHeader.blocks[f] == moments[j].atHead.blocks[f];
  }
}
