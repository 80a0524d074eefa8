/**
 Selection of outputs to spend: a fixed order, a fee estimate in wrapping machine arithmetic,
 and the shortest prefix that is long enough and worth enough.
 */
module Selection {
  import opened Bytes
  import opened Modular
  import opened Options

  datatype Utxo = Utxo(
    tx: string, index: u32, address: string, commitment: string, height: u32, depth: u32, rest: string)

  datatype Context = Context(
    minFeeA: u64,
    minFeeB: u64,
    utxoCostPerByte: u64,
    useProtocolMinFee: bool,
    baseTxSize: u32,
    bytesPerInput: u32,
    bytesPerOutput: u32,
    bytesPerProof: u32,
    baseDustPerOutput: u64,
    commitmentBytesPerOutput: u64,
    estimatedDustPerUtxo: u64,
    defaultProofSize: u64)

  // ---------------------------------------------------------------------------
  // The order
  // ---------------------------------------------------------------------------

  /** std::string's operator<. */
  predicate StringLess(a: string, b: string) {
    if b == "" then false
    else if a == "" then true
    else if a[0] != b[0] then a[0] < b[0]
    else StringLess(a[1..], b[1..])
  }

  /** Deeper first, then older, then by the remaining fields. */
  predicate Less(a: Utxo, b: Utxo) {
    if a.depth != b.depth then a.depth > b.depth
    else if a.height != b.height then a.height < b.height
    else if a.tx != b.tx then StringLess(a.tx, b.tx)
    else if a.index != b.index then a.index < b.index
    else if a.address != b.address then StringLess(a.address, b.address)
    else StringLess(a.commitment, b.commitment)
  }

  /** The first position at which the texts differ decides, and before it a shorter text comes first. */
  predicate Precedes(a: string, b: string, n: nat) {
    && n <= |a| && n < |b| && a[..n] == b[..n]
    && (n == |a| || a[n] < b[n])
  }

  lemma {:induction false} StringLessExactly(a: string, b: string)
    ensures StringLess(a, b) <==> exists n :: Precedes(a, b, n)
    decreases |a|
  {
    if b != "" && a != "" {
      if a[0] == b[0] {
        StringLessExactly(a[1..], b[1..]);
        if n: nat :| Precedes(a[1..], b[1..], n) {
          assert a[..n + 1] == [a[0]] + a[1..][..n] && b[..n + 1] == [b[0]] + b[1..][..n];
          assert Precedes(a, b, n + 1);
        }
        if n: nat :| Precedes(a, b, n) {
          assert n > 0;
          assert a[1..][..n - 1] == a[..n][1..] && b[1..][..n - 1] == b[..n][1..];
          assert Precedes(a[1..], b[1..], n - 1);
        }
      } else {
        if a[0] < b[0] {
          assert Precedes(a, b, 0);
        }
        forall n: nat | n > 0
          ensures !Precedes(a, b, n)
        {
          SameFirst(a, b, n);
        }
      }
    } else if b != "" {
      assert Precedes(a, b, 0);
    }
  }

  lemma SameFirst(a: string, b: string, n: nat)
    requires a != "" && b != "" && n > 0
    ensures Precedes(a, b, n) ==> a[0] == b[0]
  {
    if Precedes(a, b, n) {
      assert a[0] == a[..n][0] == b[..n][0] == b[0];
    }
  }

  lemma {:induction false} StringTrichotomy(a: string, b: string)
    ensures a == b || StringLess(a, b) || StringLess(b, a)
    ensures !(StringLess(a, b) && StringLess(b, a))
  {
    if a != "" && b != "" {
      StringTrichotomy(a[1..], b[1..]);
      assert a == [a[0]] + a[1..] && b == [b[0]] + b[1..];
    }
  }

  lemma {:induction false} StringLessTrans(a: string, b: string, c: string)
    requires StringLess(a, b) && StringLess(b, c)
    ensures StringLess(a, c)
    decreases |b|
  {
    if a != "" && a[0] == b[0] && b[0] == c[0] {
      StringLessTrans(a[1..], b[1..], c[1..]);
    }
  }

  lemma LessTrans(a: Utxo, b: Utxo, c: Utxo)
    requires Less(a, b) && Less(b, c)
    ensures Less(a, c)
  {
    if a.tx != b.tx && b.tx != c.tx && StringLess(a.tx, b.tx) && StringLess(b.tx, c.tx) {
      StringLessTrans(a.tx, b.tx, c.tx);
      StringTrichotomy(a.tx, b.tx);
      StringTrichotomy(b.tx, c.tx);
    }
    if a.address != b.address && b.address != c.address
      && StringLess(a.address, b.address) && StringLess(b.address, c.address) {
      StringLessTrans(a.address, b.address, c.address);
      StringTrichotomy(a.address, b.address);
      StringTrichotomy(b.address, c.address);
    }
    if StringLess(a.commitment, b.commitment) && StringLess(b.commitment, c.commitment) {
      StringLessTrans(a.commitment, b.commitment, c.commitment);
    }
  }

  /** Entries of different outpoints are ordered one way, and one way only. */
  lemma LessTotal(a: Utxo, b: Utxo)
    ensures a.tx != b.tx || a.index != b.index ==> Less(a, b) || Less(b, a)
    ensures !(Less(a, b) && Less(b, a))
  {
    StringTrichotomy(a.tx, b.tx);
    StringTrichotomy(a.address, b.address);
    StringTrichotomy(a.commitment, b.commitment);
  }

  predicate Sorted(s: seq<Utxo>) {
    forall i, j :: 0 <= i < j < |s| ==> !Less(s[j], s[i])
  }

  /** What std::sort promises. */
  predicate IsSortOf(available: seq<Utxo>, ordered: seq<Utxo>) {
    multiset(available) == multiset(ordered) && Sorted(ordered)
  }

  /** An outpoint determines its entry. */
  predicate OutpointsDistinct(s: seq<Utxo>) {
    forall a, b :: a in s && b in s && a.tx == b.tx && a.index == b.index ==> a == b
  }

  /** There is only one way to sort entries of distinct outpoints. */
  lemma {:induction false} SortUnique(s: seq<Utxo>, t: seq<Utxo>)
    requires Sorted(s) && Sorted(t) && multiset(s) == multiset(t) && OutpointsDistinct(s)
    ensures s == t
    decreases |s|
  {
    hide Less;
    assert |s| == |multiset(s)| == |t|;
    if s != [] {
      FirstIsSame(s, t);
      assert s == [s[0]] + s[1..] && t == [t[0]] + t[1..];
      SortedTail(s);
      SortedTail(t);
      assert multiset(s[1..]) == multiset(s) - multiset{s[0]};
      assert multiset(t[1..]) == multiset(t) - multiset{t[0]};
      assert forall a :: a in s[1..] ==> a in s;
      SortUnique(s[1..], t[1..]);
    }
  }

  lemma FirstIsSame(s: seq<Utxo>, t: seq<Utxo>)
    requires Sorted(s) && Sorted(t) && multiset(s) == multiset(t) && OutpointsDistinct(s) && s != [] && t != []
    ensures s[0] == t[0]
  {
    hide Less;
    var a, b := s[0], t[0];
    assert b in multiset(s) && a in multiset(t);
    var i :| 0 <= i < |s| && s[i] == b;
    var j :| 0 <= j < |t| && t[j] == a;
    if a != b {
      assert !Less(s[i], s[0]) && !Less(t[j], t[0]);
      LessTotal(a, b);
    }
  }

  lemma SortedTail(s: seq<Utxo>)
    requires s != [] && Sorted(s)
    ensures Sorted(s[1..])
  {
    hide Less;
    var t := s[1..];
    forall i, j | 0 <= i < j < |t|
      ensures !Less(t[j], t[i])
    {
      assert t[i] == s[i + 1] && t[j] == s[j + 1];
    }
  }

  /** Insertion sort stands for std::sort; callers see only what std::sort promises. */
  method Sort(available: seq<Utxo>) returns (ordered: seq<Utxo>)
    ensures IsSortOf(available, ordered)
  {
    hide Less, Sorted;
    ordered := [];
    var i := 0;
    SortedNone();
    while i < |available|
      invariant i <= |available|
      invariant multiset(ordered) == multiset(available[..i]) && Sorted(ordered)
    {
      assert available[..i + 1] == available[..i] + [available[i]];
      ordered := Insert(ordered, available[i]);
      i := i + 1;
    }
    assert available[..i] == available;
  }

  lemma SortedNone()
    ensures Sorted([])
  {
  }

  method Insert(s: seq<Utxo>, x: Utxo) returns (t: seq<Utxo>)
    requires Sorted(s)
    ensures Sorted(t) && multiset(t) == multiset(s) + multiset{x}
  {
    hide Less;
    var i := |s|;
    while i > 0 && Less(x, s[i - 1])
      invariant 0 <= i <= |s| && forall j :: i <= j < |s| ==> Less(x, s[j])
    {
      i := i - 1;
    }
    t := s[..i] + [x] + s[i..];
    assert s == s[..i] + s[i..];
    InsertedSorted(s, x, i);
  }

  lemma InsertedSorted(s: seq<Utxo>, x: Utxo, i: nat)
    requires Sorted(s) && i <= |s|
    requires i > 0 ==> !Less(x, s[i - 1])
    requires forall j :: i <= j < |s| ==> Less(x, s[j])
    ensures Sorted(s[..i] + [x] + s[i..])
  {
    hide Less;
    var t := s[..i] + [x] + s[i..];
    forall j, k | 0 <= j < k < |t|
      ensures !Less(t[k], t[j])
    {
      if k == i {
        NotBelow(x, s, i, j);
      } else if j == i {
        LessTotal(x, s[k - 1]);
      }
    }
  }

  /** What is not below the last of a sorted run is below none of it. */
  lemma NotBelow(x: Utxo, s: seq<Utxo>, i: nat, j: nat)
    requires Sorted(s) && j < i <= |s| && !Less(x, s[i - 1])
    ensures !Less(x, s[j])
  {
    if j < i - 1 && Less(x, s[j]) {
      assert !Less(s[i - 1], s[j]);
      NotLessTrans(x, s[j], s[i - 1]);
    }
  }

  /** The order is weak: below a, and b not below a, means below b. */
  lemma NotLessTrans(x: Utxo, a: Utxo, b: Utxo)
    requires Less(x, a) && !Less(b, a)
    ensures Less(x, b)
  {
    if Less(a, b) {
      LessTrans(x, a, b);
    } else {
      SameRank(a, b);
    }
  }

  lemma SameRank(a: Utxo, b: Utxo)
    requires !Less(a, b) && !Less(b, a)
    ensures a.depth == b.depth && a.height == b.height && a.tx == b.tx && a.index == b.index
    ensures a.address == b.address && a.commitment == b.commitment
  {
    StringTrichotomy(a.tx, b.tx);
    StringTrichotomy(a.address, b.address);
    StringTrichotomy(a.commitment, b.commitment);
  }

  // ---------------------------------------------------------------------------
  // The fee estimate
  // ---------------------------------------------------------------------------

  function Wrap(x: int): (r: u64) {
    x % TWO_64
  }

  function EstimatedSize(inputs: u32, outputs: u32, proofSize: u64, c: Context): u32 {
    Min(Wrap(c.baseTxSize + inputs * c.bytesPerInput + outputs * c.bytesPerOutput + proofSize), 0xFFFF_FFFF)
  }

  function CommitmentOverhead(outputs: u32, c: Context): u64 {
    Wrap(Wrap(outputs * c.commitmentBytesPerOutput) * Max(1, c.utxoCostPerByte / 1024))
  }

  function ProtocolFee(size: u32, c: Context): u64 {
    if c.useProtocolMinFee then Wrap(size * c.minFeeA + c.minFeeB) else Wrap(size * c.minFeeA)
  }

  function ProofOverhead(proofSize: u64, c: Context): u64
    requires c.bytesPerProof > 0
  {
    Wrap(Wrap(proofSize + c.bytesPerProof - 1) / c.bytesPerProof * Wrap(c.minFeeA * 4))
  }

  /** estimate_fee; every operation wraps at 64 bits. */
  function EstimateFee(inputs: u32, outputs: u32, proofSize: u64, c: Context): u64
    requires c.bytesPerProof > 0
  {
    Wrap(ProtocolFee(EstimatedSize(inputs, outputs, proofSize, c), c) + ProofOverhead(proofSize, c)
         + Wrap(outputs * c.baseDustPerOutput) + CommitmentOverhead(outputs, c))
  }

  function DustPerUtxo(c: Context): (d: u64)
    ensures d >= 1
  {
    if c.estimatedDustPerUtxo > 0 then c.estimatedDustPerUtxo else Max(1000, c.minFeeB / 2)
  }

  function DustAvailable(count: nat, c: Context): u64 {
    Wrap(count * DustPerUtxo(c))
  }

  function MinInputs(outputs: u32, needsWitnesses: bool): u32 {
    if needsWitnesses then Max(2, outputs) else Max(1, outputs)
  }

  function RequiredDust(outputs: u32, needsWitnesses: bool, c: Context): u64
    requires c.bytesPerProof > 0
  {
    EstimateFee(MinInputs(outputs, needsWitnesses), outputs, if needsWitnesses then c.defaultProofSize else 0, c)
  }

  /** The least number of inputs that is one at least, two for witnesses, and not below the outputs. */
  lemma MinInputsLeast(outputs: u32, needsWitnesses: bool, m: nat)
    ensures m >= MinInputs(outputs, needsWitnesses) <==> m >= 1 && m >= outputs && (needsWitnesses ==> m >= 2)
  {
  }

  /** What an output is taken to be worth: the configured figure, or half the constant fee, but 1000 at least. */
  lemma DustPerUtxoExactly(c: Context)
    ensures c.estimatedDustPerUtxo > 0 ==> DustPerUtxo(c) == c.estimatedDustPerUtxo
    ensures c.estimatedDustPerUtxo == 0 && c.minFeeB < 2000 ==> DustPerUtxo(c) == 1000
    ensures c.estimatedDustPerUtxo == 0 && c.minFeeB >= 2000 ==>
      2 * DustPerUtxo(c) <= c.minFeeB < 2 * DustPerUtxo(c) + 2
  {
  }

  // ---------------------------------------------------------------------------
  // Selecting
  // ---------------------------------------------------------------------------

  predicate Enough(count: nat, minInputs: nat, required: nat, c: Context) {
    count >= minInputs && DustAvailable(count, c) >= required
  }

  /** The result of a selection from sorted entries: the shortest prefix that is enough, or all if worth enough. */
  predicate IsSelection(ordered: seq<Utxo>, minInputs: nat, required: nat, c: Context, r: Option<seq<Utxo>>) {
    match r
    case Some(selected) =>
      && selected <= ordered && selected != []
      && (forall k :: 0 < k < |selected| ==> !Enough(k, minInputs, required, c))
      && (Enough(|selected|, minInputs, required, c)
          || (selected == ordered && DustAvailable(|ordered|, c) >= required))
    case None =>
      && (forall k :: 0 < k <= |ordered| ==> !Enough(k, minInputs, required, c))
      && DustAvailable(|ordered|, c) < required
  }

  /** The result of a selection from a list in any order. */
  ghost predicate Selected(available: seq<Utxo>, outputs: u32, needsWitnesses: bool, c: Context, r: Option<seq<Utxo>>)
    requires c.bytesPerProof > 0
  {
    if available == [] || outputs == 0 then r == None
    else
      exists ordered :: IsSortOf(available, ordered)
        && IsSelection(ordered, MinInputs(outputs, needsWitnesses), RequiredDust(outputs, needsWitnesses, c), c, r)
  }

  method SelectUtxos(available: seq<Utxo>, outputs: u32, needsWitnesses: bool, c: Context)
    returns (r: Option<seq<Utxo>>)
    requires c.bytesPerProof > 0
    ensures Selected(available, outputs, needsWitnesses, c, r)
  {
    hide IsSortOf, EstimateFee, DustPerUtxo, DustAvailable;
    if available == [] || outputs == 0 {
      return None;
    }
    var ordered := Sort(available);
    SortKeepsSize(available, ordered);
    var minInputs := if needsWitnesses then Max(2, outputs) else Max(1, outputs);
    var proofSizeHint := if needsWitnesses then c.defaultProofSize else 0;
    var required := EstimateFee(minInputs, outputs, proofSizeHint, c);
    var selected: seq<Utxo> := [];
    var i := 0;
    while i < |ordered|
      invariant i <= |ordered| && selected == ordered[..i]
      invariant forall k :: 0 < k <= i ==> !Enough(k, minInputs, required, c)
    {
      assert ordered[..i] + [ordered[i]] == ordered[..i + 1];
      selected := selected + [ordered[i]];
      i := i + 1;
      if |selected| >= minInputs && DustAvailable(|selected|, c) >= required {
        assert IsSelection(ordered, minInputs, required, c, Some(selected));
        return Some(selected);
      }
    }
    assert selected == ordered;
    if DustAvailable(|selected|, c) < required {
      assert IsSelection(ordered, minInputs, required, c, None);
      return None;
    }
    assert IsSelection(ordered, minInputs, required, c, Some(selected));
    r := Some(selected);
  }

  lemma SortKeepsSize(available: seq<Utxo>, ordered: seq<Utxo>)
    requires IsSortOf(available, ordered)
    ensures |ordered| == |available|
  {
    assert |multiset(available)| == |multiset(ordered)|;
  }

  // ---------------------------------------------------------------------------
  // What is selected
  // ---------------------------------------------------------------------------

  function CeilDiv(a: nat, b: nat): nat
    requires b > 0
  {
    (a + b - 1) / b
  }

  lemma CeilBounds(a: nat, b: nat, k: nat)
    requires b > 0
    ensures k * b >= a <==> k >= CeilDiv(a, b)
  {
    var q, r := (a + b - 1) / b, (a + b - 1) % b;
    assert a + b - 1 == b * q + r;
    if k >= q {
      MulMono(b, q, k);
      assert b * k >= b * q >= a;
    } else {
      MulMono(b, k, q - 1);
      assert b * k <= b * (q - 1) == b * q - b < a;
    }
  }

  /**
   While the whole set's estimate fits 64 bits: nothing is selected exactly when that is below
   the fee, and otherwise the prefix whose length is the larger of the two demands, or everything.
   */
  lemma SelectionExact(ordered: seq<Utxo>, minInputs: nat, required: nat, c: Context, r: Option<seq<Utxo>>)
    requires ordered != [] && minInputs > 0 && |ordered| * DustPerUtxo(c) < TWO_64
    requires IsSelection(ordered, minInputs, required, c, r)
    ensures r == None <==> |ordered| * DustPerUtxo(c) < required
    ensures r.Some? ==> r.value == ordered[..Min(|ordered|, Max(minInputs, CeilDiv(required, DustPerUtxo(c))))]
  {
    var n, per := |ordered|, DustPerUtxo(c);
    var need: nat := Max(minInputs, CeilDiv(required, per));
    hide DustPerUtxo, CeilDiv;
    forall k | 0 < k <= n
      ensures Enough(k, minInputs, required, c) <==> k >= need
      ensures DustAvailable(k, c) >= required <==> k * per >= required
    {
      ExactAvailable(k, n, c);
      CeilBounds(required, per, k);
    }
    CeilBounds(required, per, n);
    hide DustAvailable, Enough;
    if r.Some? {
      var m := |r.value|;
      assert 0 < need < m ==> !Enough(need, minInputs, required, c);
      assert m == Min(n, need);
    }
  }

  lemma ExactAvailable(k: nat, n: nat, c: Context)
    requires k <= n && n * DustPerUtxo(c) < TWO_64
    ensures DustAvailable(k, c) == k * DustPerUtxo(c)
  {
    var per := DustPerUtxo(c);
    MulMono(per, k, n);
  }

  /** A result other than none is a prefix of a sorted permutation of a list that is not empty. */
  lemma SelectedPrefix(
    available: seq<Utxo>, outputs: u32, needsWitnesses: bool, c: Context, r: Option<seq<Utxo>>)
    returns (ordered: seq<Utxo>)
    requires c.bytesPerProof > 0 && Selected(available, outputs, needsWitnesses, c, r)
    requires available != [] && outputs > 0
    ensures IsSortOf(available, ordered) && |ordered| == |available|
    ensures IsSelection(ordered, MinInputs(outputs, needsWitnesses), RequiredDust(outputs, needsWitnesses, c), c, r)
  {
    hide IsSortOf, IsSelection, RequiredDust;
    ordered :| IsSortOf(available, ordered)
      && IsSelection(ordered, MinInputs(outputs, needsWitnesses), RequiredDust(outputs, needsWitnesses, c), c, r);
    SortKeepsSize(available, ordered);
  }

  /**
   Nothing smaller will do: whatever is taken from the list, if it has fewer entries than were
   selected, it lacks inputs or dust, be the dust estimate wrapped or not.
   */
  lemma SelectionMinimal(
    available: seq<Utxo>, outputs: u32, needsWitnesses: bool, c: Context, r: Option<seq<Utxo>>, taken: seq<Utxo>)
    requires c.bytesPerProof > 0 && Selected(available, outputs, needsWitnesses, c, r) && r.Some?
    requires multiset(taken) <= multiset(available) && |taken| < |r.value|
    ensures |taken| < MinInputs(outputs, needsWitnesses)
            || DustAvailable(|taken|, c) < RequiredDust(outputs, needsWitnesses, c)
  {
    var ordered := SelectedPrefix(available, outputs, needsWitnesses, c, r);
    hide RequiredDust, DustAvailable, IsSortOf;
    if |taken| > 0 {
      assert !Enough(|taken|, MinInputs(outputs, needsWitnesses), RequiredDust(outputs, needsWitnesses, c), c);
    }
  }

  /**
   The selection as a whole, while the list's dust estimate fits 64 bits. There is none exactly
   when inputs or outputs are absent or the list is worth less than the fee. Otherwise it is the
   first entries of the sorted list, as many as the larger of the two demands, or all there are;
   and no smaller part of the list meets both demands.
   */
  lemma SelectionTheorem(
    available: seq<Utxo>, outputs: u32, needsWitnesses: bool, c: Context, r: Option<seq<Utxo>>)
    requires c.bytesPerProof > 0 && Selected(available, outputs, needsWitnesses, c, r)
    requires |available| * DustPerUtxo(c) < TWO_64
    ensures r == None <==>
            available == [] || outputs == 0
            || |available| * DustPerUtxo(c) < RequiredDust(outputs, needsWitnesses, c)
    ensures r.Some? ==>
      |r.value| == Min(|available|, Max(MinInputs(outputs, needsWitnesses),
                                        CeilDiv(RequiredDust(outputs, needsWitnesses, c), DustPerUtxo(c))))
      && exists ordered :: IsSortOf(available, ordered) && r.value <= ordered
    ensures r.Some? ==>
      forall taken: seq<Utxo> :: multiset(taken) <= multiset(available) && |taken| < |r.value| ==>
        |taken| < MinInputs(outputs, needsWitnesses)
        || |taken| * DustPerUtxo(c) < RequiredDust(outputs, needsWitnesses, c)
  {
    hide RequiredDust, DustPerUtxo, IsSortOf, CeilDiv;
    if available != [] && outputs > 0 {
      var ordered := SelectedPrefix(available, outputs, needsWitnesses, c, r);
      SelectionExact(ordered, MinInputs(outputs, needsWitnesses), RequiredDust(outputs, needsWitnesses, c), c, r);
      hide IsSelection, Selected;
      if r.Some? {
        forall taken: seq<Utxo> | multiset(taken) <= multiset(available) && |taken| < |r.value|
          ensures |taken| < MinInputs(outputs, needsWitnesses)
                  || |taken| * DustPerUtxo(c) < RequiredDust(outputs, needsWitnesses, c)
        {
          SelectionMinimal(available, outputs, needsWitnesses, c, r, taken);
          ExactAvailable(|taken|, |available|, c);
        }
      }
    }
  }

  /** u is as deep and as old as v or better: the deeper comes first, and of equally deep ones the older. */
  predicate Preferable(u: Utxo, v: Utxo) {
    && u.depth >= v.depth
    && (u.depth == v.depth ==> u.height <= v.height)
    && (u.depth == v.depth && u.height == v.height ==> !StringLess(v.tx, u.tx))
    && (u.depth == v.depth && u.height == v.height && u.tx == v.tx ==> u.index <= v.index)
  }

  lemma NotLessPrefers(u: Utxo, v: Utxo)
    requires !Less(v, u)
    ensures Preferable(u, v)
  {
    StringTrichotomy(u.tx, v.tx);
    hide StringLess;
  }

  /** Nothing that is left is deeper than what is selected, nor older at the same depth. */
  lemma SelectionPrefers(
    available: seq<Utxo>, outputs: u32, needsWitnesses: bool, c: Context, r: Option<seq<Utxo>>, u: Utxo, v: Utxo)
    requires c.bytesPerProof > 0 && Selected(available, outputs, needsWitnesses, c, r) && r.Some?
    requires u in r.value && v in multiset(available) - multiset(r.value)
    ensures Preferable(u, v)
  {
    hide RequiredDust, Enough, DustAvailable, Less, Preferable;
    var ordered := SelectedPrefix(available, outputs, needsWitnesses, c, r);
    var n := |r.value|;
    assert ordered == r.value + ordered[n..];
    assert v in multiset(ordered[n..]);
    var i :| 0 <= i < n && r.value[i] == u;
    var j :| 0 <= j < |ordered[n..]| && ordered[n..][j] == v;
    assert ordered[i] == u && ordered[n + j] == v;
    NotLessPrefers(u, v);
  }

  /** The order in which entries are given does not matter. */
  lemma SelectionIgnoresOrder(
    a: seq<Utxo>, b: seq<Utxo>, outputs: u32, needsWitnesses: bool, c: Context,
    ra: Option<seq<Utxo>>, rb: Option<seq<Utxo>>)
    requires c.bytesPerProof > 0 && multiset(a) == multiset(b) && OutpointsDistinct(a)
    requires Selected(a, outputs, needsWitnesses, c, ra) && Selected(b, outputs, needsWitnesses, c, rb)
    ensures ra == rb
  {
    assert |a| == |multiset(a)| == |b|;
    if a != [] && outputs > 0 {
      var sa := SelectedPrefix(a, outputs, needsWitnesses, c, ra);
      var sb := SelectedPrefix(b, outputs, needsWitnesses, c, rb);
      hide Less, IsSelection, RequiredDust;
      DistinctSorted(a, sa);
      SortUnique(sa, sb);
      SelectionUnique(sa, MinInputs(outputs, needsWitnesses), RequiredDust(outputs, needsWitnesses, c), c, ra, rb);
    }
  }

  lemma DistinctSorted(a: seq<Utxo>, sa: seq<Utxo>)
    requires multiset(a) == multiset(sa) && OutpointsDistinct(a)
    ensures OutpointsDistinct(sa)
  {
    forall x | x in sa
      ensures x in a
    {
      assert x in multiset(sa);
    }
  }

  lemma SelectionUnique(
    ordered: seq<Utxo>, minInputs: nat, required: nat, c: Context, r: Option<seq<Utxo>>, s: Option<seq<Utxo>>)
    requires IsSelection(ordered, minInputs, required, c, r) && IsSelection(ordered, minInputs, required, c, s)
    ensures r == s
  {
    hide Enough, DustAvailable;
    if r.Some? && s.Some? {
      var m, n := |r.value|, |s.value|;
      assert m == n;
      assert r.value == ordered[..m] && s.value == ordered[..n];
    }
  }

  // ---------------------------------------------------------------------------
  // The fee without wrapping
  // ---------------------------------------------------------------------------

  /** The size sum over unbounded numbers. */
  function UnboundedSize(inputs: nat, outputs: nat, proofSize: nat, c: Context): nat {
    c.baseTxSize + inputs * c.bytesPerInput + outputs * c.bytesPerOutput + proofSize
  }

  function ExactProtocolFee(size: nat, c: Context): nat {
    size * c.minFeeA + if c.useProtocolMinFee then c.minFeeB else 0
  }

  function ExactProofOverhead(proofSize: nat, c: Context): nat
    requires c.bytesPerProof > 0
  {
    CeilDiv(proofSize, c.bytesPerProof) * (c.minFeeA * 4)
  }

  function ExactCommitmentOverhead(outputs: nat, c: Context): nat {
    outputs * c.commitmentBytesPerOutput * Max(1, c.utxoCostPerByte / 1024)
  }

  /** The estimate over unbounded numbers, for the size cut to 32 bits. */
  function ExactFee(inputs: nat, outputs: nat, proofSize: nat, c: Context): nat
    requires c.bytesPerProof > 0
  {
    ExactProtocolFee(Min(UnboundedSize(inputs, outputs, proofSize, c), 0xFFFF_FFFF), c)
    + ExactProofOverhead(proofSize, c)
    + outputs * c.baseDustPerOutput + ExactCommitmentOverhead(outputs, c)
  }

  /** Neither the size sum nor the sum in the number of proof chunks wraps. */
  predicate SumsFit(inputs: nat, outputs: nat, proofSize: nat, c: Context) {
    UnboundedSize(inputs, outputs, proofSize, c) < TWO_64 && proofSize + c.bytesPerProof - 1 < TWO_64
  }

  /**
   While the two sums that are clamped or divided fit, the estimate is the unbounded one modulo
   2^64; so it is the unbounded one exactly when that fits 64 bits.
   */
  lemma FeeExact(inputs: u32, outputs: u32, proofSize: u64, c: Context)
    requires c.bytesPerProof > 0 && SumsFit(inputs, outputs, proofSize, c)
    ensures EstimateFee(inputs, outputs, proofSize, c) == ExactFee(inputs, outputs, proofSize, c) % TWO_64
    ensures EstimateFee(inputs, outputs, proofSize, c) == ExactFee(inputs, outputs, proofSize, c)
            <==> ExactFee(inputs, outputs, proofSize, c) < TWO_64
  {
    SizeExact(inputs, outputs, proofSize, c);
    hide EstimatedSize, ExactProtocolFee, ExactProofOverhead, ExactCommitmentOverhead, UnboundedSize;
    hide ProtocolFee, ProofOverhead, CommitmentOverhead, Cong;
    var size := EstimatedSize(inputs, outputs, proofSize, c);
    ProtocolExact(size, c);
    ProofExact(proofSize, c);
    WrapCong(outputs * c.baseDustPerOutput);
    CommitmentExact(outputs, c);
    SumOfFour(ProtocolFee(size, c), ProofOverhead(proofSize, c), Wrap(outputs * c.baseDustPerOutput),
              CommitmentOverhead(outputs, c), ExactProtocolFee(size, c), ExactProofOverhead(proofSize, c),
              outputs * c.baseDustPerOutput, ExactCommitmentOverhead(outputs, c));
    hide Wrap;
    WrapSmall(ExactFee(inputs, outputs, proofSize, c));
  }

  /** The fee a selection must reach is the estimate for the least inputs, with a proof when there are witnesses. */
  lemma RequiredExactly(outputs: u32, needsWitnesses: bool, c: Context)
    requires var m := MinInputs(outputs, needsWitnesses); var proof := if needsWitnesses then c.defaultProofSize else 0;
             c.bytesPerProof > 0 && SumsFit(m, outputs, proof, c)
    ensures var m := MinInputs(outputs, needsWitnesses); var proof := if needsWitnesses then c.defaultProofSize else 0;
            RequiredDust(outputs, needsWitnesses, c) == ExactFee(m, outputs, proof, c) % TWO_64
  {
    hide SumsFit, ExactFee, EstimateFee, MinInputs;
    FeeExact(MinInputs(outputs, needsWitnesses), outputs, if needsWitnesses then c.defaultProofSize else 0, c);
  }

  lemma SizeExact(inputs: u32, outputs: u32, proofSize: u64, c: Context)
    requires UnboundedSize(inputs, outputs, proofSize, c) < TWO_64
    ensures EstimatedSize(inputs, outputs, proofSize, c)
            == Min(UnboundedSize(inputs, outputs, proofSize, c), 0xFFFF_FFFF)
  {
    WrapSmall(UnboundedSize(inputs, outputs, proofSize, c));
    hide Wrap;
  }

  /** A size sum that wraps costs next to nothing: here 2^64 bytes are priced as none. */
  lemma SizeCanWrap()
    ensures var c := Context(1, 0, 0, true, 0, 0xFFFF_FFFF, 14329, 1, 0, 0, 0, 0);
            && UnboundedSize(0xFFFF_FFFF, 599479, 0, c) == TWO_64
            && EstimateFee(0xFFFF_FFFF, 599479, 0, c) == 0
            && ExactFee(0xFFFF_FFFF, 599479, 0, c) == 0xFFFF_FFFF
  {
  }

  lemma SumOfFour(a: nat, b: nat, c: nat, d: nat, p: nat, q: nat, r: nat, s: nat)
    requires Cong(a, p, TWO_64) && Cong(b, q, TWO_64) && Cong(c, r, TWO_64) && Cong(d, s, TWO_64)
    ensures Wrap(a + b + c + d) == (p + q + r + s) % TWO_64
  {
    hide Cong;
    CongAdd(a, p, b, q, TWO_64);
    CongAdd(a + b, p + q, c, r, TWO_64);
    CongAdd(a + b + c, p + q + r, d, s, TWO_64);
    CongIff(a + b + c + d, p + q + r + s, TWO_64);
  }

  lemma WrapCong(x: nat)
    ensures Cong(Wrap(x), x, TWO_64)
  {
    CongMod(x, TWO_64);
    hide Cong;
  }

  lemma ProtocolExact(size: u32, c: Context)
    ensures Cong(ProtocolFee(size, c), ExactProtocolFee(size, c), TWO_64)
  {
    WrapCong(ExactProtocolFee(size, c));
    hide Cong, Wrap;
  }

  lemma ProofExact(proofSize: u64, c: Context)
    requires c.bytesPerProof > 0 && proofSize + c.bytesPerProof - 1 < TWO_64
    ensures Cong(ProofOverhead(proofSize, c), ExactProofOverhead(proofSize, c), TWO_64)
  {
    WrapFactor(CeilDiv(proofSize, c.bytesPerProof), c.minFeeA * 4);
    CeilIsWrapped(proofSize, c.bytesPerProof);
    hide CeilDiv, Wrap, Cong;
  }

  lemma CommitmentExact(outputs: u32, c: Context)
    ensures Cong(CommitmentOverhead(outputs, c), ExactCommitmentOverhead(outputs, c), TWO_64)
  {
    var scale := Max(1, c.utxoCostPerByte / 1024);
    WrapFactor(scale, outputs * c.commitmentBytesPerOutput);
    hide Wrap, Cong;
    assert scale * Wrap(outputs * c.commitmentBytesPerOutput) == Wrap(outputs * c.commitmentBytesPerOutput) * scale;
    assert scale * (outputs * c.commitmentBytesPerOutput) == outputs * c.commitmentBytesPerOutput * scale;
  }

  lemma CeilIsWrapped(a: nat, b: nat)
    requires b > 0 && a + b - 1 < TWO_64
    ensures Wrap(a + b - 1) / b == CeilDiv(a, b)
  {
    WrapSmall(a + b - 1);
    hide Wrap;
  }

  lemma WrapSmall(x: nat)
    ensures Wrap(x) == x <==> x < TWO_64
    ensures x % TWO_64 == Wrap(x)
  {
  }

  lemma WrapFactor(k: nat, x: nat)
    ensures Cong(Wrap(k * Wrap(x)), k * x, TWO_64)
  {
    WrapCong(x);
    WrapCong(k * Wrap(x));
    hide Cong, Wrap;
    CongMul(Wrap(x), x, k, TWO_64);
    CongTrans(Wrap(k * Wrap(x)), k * Wrap(x), k * x, TWO_64);
  }
}
