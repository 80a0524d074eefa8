/**
 The from-scratch scan: unspent outputs of an address are collected transaction by
 transaction and added up. Its result and the stream's counters are compared exactly.
 */
module WalletScan {
  import opened Ascii
  import opened Bytes
  import opened Options
  import opened Text
  import opened WalletAccounting
  import opened WalletStream

  datatype Utxo = Utxo(tx: string, index: u32, value: u64, address: string, tokenType: string, registered: bool)

  predicate OwnedBy(o: Output, address: string) {
    LowerAll(o.owner) == LowerAll(address)
  }

  /** What the indexer streams to a wallet: the outputs of its address. */
  function Owned(outs: seq<Output>, address: string): seq<Output> {
    if outs == [] then []
    else
      var init, o := outs[..|outs| - 1], outs[|outs| - 1];
      if OwnedBy(o, address) then Owned(init, address) + [o] else Owned(init, address)
  }

  function WalletEvents(chain: seq<Event>, address: string): (h: seq<Event>) {
    if chain == [] then []
    else
      var e := chain[|chain| - 1];
      WalletEvents(chain[..|chain| - 1], address) + [Event(Owned(e.created, address), Owned(e.spent, address))]
  }

  /** The outputs the scan keeps: of the address, and without a spending transaction. */
  function Kept(outs: seq<Output>, spent: seq<Output>, address: string): seq<Output> {
    Unspent(Owned(outs, address), spent)
  }

  predicate Exact(outs: seq<Output>) {
    forall i :: 0 <= i < |outs| ==> ScanAmount(outs[i].value).Some?
  }

  function UtxoOf(o: Output): Utxo
    requires ScanAmount(o.value).Some?
  {
    Utxo(o.tx, o.index, ScanAmount(o.value).value, o.owner, ScanToken(o), o.registered)
  }

  function UtxosOf(outs: seq<Output>): (us: seq<Utxo>)
    requires Exact(outs)
    ensures |us| == |outs|
  {
    if outs == [] then [] else UtxosOf(outs[..|outs| - 1]) + [UtxoOf(outs[|outs| - 1])]
  }

  function UtxoWeight(m: Measure, u: Utxo): u64 {
    match m
    case Night => if ScanNight(u.tokenType) then u.value else 0
    case Dust => if ScanDust(u.tokenType) then u.value else 0
    case Count => 1
    case Registered => if u.registered then 1 else 0
  }

  function UtxoTotal(us: seq<Utxo>, m: Measure): nat {
    if us == [] then 0 else UtxoTotal(us[..|us| - 1], m) + UtxoWeight(m, us[|us| - 1])
  }

  /** The NIGHT the stream counts and the scan does not. */
  function BareTotal(outs: seq<Output>): nat {
    if outs == [] then 0
    else
      var o := outs[|outs| - 1];
      BareTotal(outs[..|outs| - 1]) + if Bare(o) then StreamAmount(o.value) else 0
  }

  // ---------------------------------------------------------------------------
  // Scanning
  // ---------------------------------------------------------------------------

  /** How many outputs come before the first one whose amount makes the scan throw. */
  function Good(outs: seq<Output>): (n: nat)
    ensures n <= |outs| && Exact(outs[..n])
    ensures n < |outs| ==> !ScanAmount(outs[n].value).Some?
  {
    if outs == [] then 0
    else
      var init := outs[..|outs| - 1];
      var n := Good(init);
      assert outs[..n] == init[..n];
      assert outs[..|outs| - 1] == init;
      if n == |init| && ScanAmount(outs[|outs| - 1].value).Some? then |outs| else n
  }

  /** The outputs before that one. */
  function Leading(outs: seq<Output>): (r: seq<Output>)
    ensures Exact(r)
    ensures Exact(outs) ==> r == outs
  {
    assert outs[..|outs|] == outs;
    outs[..Good(outs)]
  }

  /** Appends the outputs kept of one transaction, up to an amount that makes the call throw. */
  method AppendUtxos(utxos: seq<Utxo>, address: string, tx: Event, spent: seq<Output>)
    returns (ok: bool, r: seq<Utxo>)
    ensures ok <==> Exact(Kept(tx.created, spent, address))
    ensures r == utxos + UtxosOf(Leading(Kept(tx.created, spent, address)))
    ensures forall i :: |utxos| <= i < |r| ==> LowerAll(r[i].address) == LowerAll(address)
  {
    forall i | 0 <= i < |Leading(Kept(tx.created, spent, address))|
      ensures LowerAll(UtxosOf(Leading(Kept(tx.created, spent, address)))[i].address) == LowerAll(address)
    {
      FoundAreOwn(tx.created, spent, address, i);
    }
    hide OwnedBy, LowerAll, ScanAmount, Unspent, Owned, Exact, UtxosOf, Leading, Kept;
    var added: seq<Utxo> := [];
    var i := 0;
    KeptNone(tx.created, spent, address);
    while i < |tx.created|
      invariant i <= |tx.created|
      invariant Exact(Kept(tx.created[..i], spent, address))
      invariant added == UtxosOf(Kept(tx.created[..i], spent, address))
    {
      var o := tx.created[i];
      ghost var before := Kept(tx.created[..i], spent, address);
      KeptStep(tx.created, i, spent, address);
      if OwnedBy(o, address) && o !in spent {
        ExactStep(before, o);
        var amount := ScanAmount(o.value);
        if amount == None {
          KeptPrefix(tx.created, i + 1, spent, address);
          LeadingIs(Kept(tx.created, spent, address), before, o);
          return false, utxos + added;
        }
        added := added + [Utxo(o.tx, o.index, amount.value, o.owner, ScanToken(o), o.registered)];
      }
      i := i + 1;
    }
    assert tx.created[..i] == tx.created;
    LeadingAll(Kept(tx.created, spent, address));
    ok, r := true, utxos + added;
  }

  lemma LeadingAll(outs: seq<Output>)
    requires Exact(outs)
    ensures Leading(outs) == outs
  {
    hide Exact, Good;
  }

  /** Only one prefix is exact and followed by an inexact output. */
  lemma LeadingIs(outs: seq<Output>, before: seq<Output>, o: Output)
    requires Exact(before) && before + [o] <= outs && ScanAmount(o.value) == None
    ensures Leading(outs) == before && !Exact(outs)
  {
    hide ScanAmount;
    var k, n := |before|, Good(outs);
    assert outs[k] == o;
    assert forall i :: 0 <= i < k ==> outs[i] == before[i];
    assert n < |outs| ==> n >= k;
    assert n <= k by {
      assert forall i :: 0 <= i < n ==> outs[..n][i] == outs[i];
    }
  }

  lemma KeptPrefix(outs: seq<Output>, i: nat, spent: seq<Output>, address: string)
    requires i <= |outs|
    ensures Kept(outs[..i], spent, address) <= Kept(outs, spent, address)
  {
    hide Kept;
    assert outs == outs[..i] + outs[i..];
    KeptConcat(outs[..i], outs[i..], spent, address);
  }

  lemma KeptNone(outs: seq<Output>, spent: seq<Output>, address: string)
    ensures Kept(outs[..0], spent, address) == [] && Exact([]) && UtxosOf([]) == []
  {
  }

  lemma KeptStep(outs: seq<Output>, i: nat, spent: seq<Output>, address: string)
    requires i < |outs|
    ensures Kept(outs[..i + 1], spent, address)
      == if OwnedBy(outs[i], address) && outs[i] !in spent then Kept(outs[..i], spent, address) + [outs[i]]
         else Kept(outs[..i], spent, address)
  {
    hide OwnedBy, Unspent;
    assert outs[..i + 1][..i] == outs[..i];
    UnspentAppend(Owned(outs[..i], address), spent, outs[i]);
  }

  lemma ExactStep(kept: seq<Output>, o: Output)
    requires Exact(kept)
    ensures Exact(kept + [o]) <==> ScanAmount(o.value).Some?
    ensures Exact(kept + [o]) ==> UtxosOf(kept + [o]) == UtxosOf(kept) + [UtxoOf(o)]
  {
    hide ScanAmount;
    assert (kept + [o])[..|kept|] == kept;
    assert (kept + [o])[|kept|] == o;
    forall i | 0 <= i < |kept|
      ensures ScanAmount((kept + [o])[i].value).Some?
    {
      assert (kept + [o])[i] == kept[i];
    }
  }

  /** Adds up a list of outputs; sums and counts wrap as their integers do. */
  method WalletStateFromUtxos(address: string, utxos: seq<Utxo>) returns (state: WalletState)
    ensures state.address == address && state.synced
    ensures state.unshielded == Decimal(UtxoTotal(utxos, Night) % TWO_64)
    ensures state.dust == Decimal(UtxoTotal(utxos, Dust) % TWO_64)
    ensures state.available == |utxos| % 0x1_0000_0000
    ensures state.registered == UtxoTotal(utxos, Registered) % TWO_64
  {
    hide UtxoTotal, Decimal, ScanNight, ScanDust;
    var night, dust, registered := 0, 0, 0;
    var i := 0;
    TotalNone(utxos);
    while i < |utxos|
      invariant i <= |utxos|
      invariant night == UtxoTotal(utxos[..i], Night) % TWO_64
      invariant dust == UtxoTotal(utxos[..i], Dust) % TWO_64
      invariant registered == UtxoTotal(utxos[..i], Registered) % TWO_64
    {
      var u := utxos[i];
      TotalStep(utxos, i, Night);
      TotalStep(utxos, i, Dust);
      TotalStep(utxos, i, Registered);
      ScanClasses(u.tokenType);
      if ScanNight(u.tokenType) {
        night := (night + u.value) % TWO_64;
      } else if ScanDust(u.tokenType) {
        dust := (dust + u.value) % TWO_64;
      }
      if u.registered {
        registered := (registered + 1) % TWO_64;
      }
      i := i + 1;
    }
    assert utxos[..i] == utxos;
    state := WalletState(address, Decimal(night), Decimal(dust), |utxos| % 0x1_0000_0000, registered, true);
  }

  lemma TotalNone(us: seq<Utxo>)
    ensures UtxoTotal(us[..0], Night) == UtxoTotal(us[..0], Dust) == UtxoTotal(us[..0], Registered) == 0
  {
  }

  lemma TotalStep(us: seq<Utxo>, i: nat, m: Measure)
    requires i < |us|
    ensures UtxoTotal(us[..i + 1], m) == UtxoTotal(us[..i], m) + UtxoWeight(m, us[i])
    ensures UtxoTotal(us[..i + 1], m) % TWO_64 == (UtxoTotal(us[..i], m) % TWO_64 + UtxoWeight(m, us[i])) % TWO_64
  {
    hide UtxoWeight;
    assert us[..i + 1][..i] == us[..i];
  }

  lemma ScanClasses(t: string)
    ensures ScanDust(t) ==> !ScanNight(t)
  {
  }

  /**
   The whole scan of a list of transactions; spent are the outputs with a spending transaction.
   What was found before an exception is returned.
   */
  method Scan(chain: seq<Event>, spent: seq<Output>, address: string) returns (utxos: seq<Utxo>)
    ensures utxos == UtxosOf(Leading(Kept(CreatedBy(chain), spent, address)))
    ensures forall i :: 0 <= i < |utxos| ==> LowerAll(utxos[i].address) == LowerAll(address)
  {
    ScanExactly(chain, spent, address);
    hide Exact, UtxosOf, Kept, CreatedBy, Leading, LowerAll, Due, IsAmount, Mirrors;
    utxos := [];
    var i := 0;
    ScanNone(chain, spent, address);
    while i < |chain|
      invariant i <= |chain|
      invariant Exact(Kept(CreatedBy(chain[..i]), spent, address))
      invariant utxos == UtxosOf(Kept(CreatedBy(chain[..i]), spent, address))
    {
      ScanStep(chain, i, spent, address);
      var ok;
      ok, utxos := AppendUtxos(utxos, address, chain[i], spent);
      if !ok {
        ScanFails(chain, i, spent, address);
        return;
      }
      LeadingAll(Kept(chain[i].created, spent, address));
      i := i + 1;
    }
    assert chain[..i] == chain;
    LeadingAll(Kept(CreatedBy(chain), spent, address));
  }

  lemma ScanNone(chain: seq<Event>, spent: seq<Output>, address: string)
    ensures Kept(CreatedBy(chain[..0]), spent, address) == [] && Exact([]) && UtxosOf([]) == []
  {
  }

  lemma {:induction false} KeptConcat(a: seq<Output>, b: seq<Output>, spent: seq<Output>, address: string)
    ensures Kept(a + b, spent, address) == Kept(a, spent, address) + Kept(b, spent, address)
    decreases |b|
  {
    hide Kept;
    if b == [] {
      assert a + b == a;
      assert Kept(b, spent, address) == [] by { KeptNone(b, spent, address); assert b[..0] == b; }
    } else {
      var n := |b| - 1;
      KeptConcat(a, b[..n], spent, address);
      var ab := a + b;
      assert ab[..|a| + n] == a + b[..n] && ab[|a| + n] == b[n] && ab[..|a| + n + 1] == ab;
      assert b[..n + 1] == b;
      KeptStep(ab, |a| + n, spent, address);
      KeptStep(b, n, spent, address);
    }
  }

  lemma ScanStep(chain: seq<Event>, i: nat, spent: seq<Output>, address: string)
    requires i < |chain|
    requires Exact(Kept(CreatedBy(chain[..i]), spent, address))
    ensures var before := Kept(CreatedBy(chain[..i]), spent, address);
            var added := Kept(chain[i].created, spent, address);
            var after := Kept(CreatedBy(chain[..i + 1]), spent, address);
            && (Exact(after) <==> Exact(added))
            && (Exact(after) ==> UtxosOf(after) == UtxosOf(before) + UtxosOf(added))
  {
    hide Kept, Exact, UtxosOf;
    assert chain[..i + 1][..i] == chain[..i];
    KeptConcat(CreatedBy(chain[..i]), chain[i].created, spent, address);
    UtxosConcat(Kept(CreatedBy(chain[..i]), spent, address), Kept(chain[i].created, spent, address));
  }

  lemma {:induction false} UtxosConcat(a: seq<Output>, b: seq<Output>)
    requires Exact(a)
    ensures Exact(a + b) <==> Exact(b)
    ensures Exact(b) ==> UtxosOf(a + b) == UtxosOf(a) + UtxosOf(b)
    decreases |b|
  {
    ExactConcat(a, b);
    hide Exact, UtxosOf;
    if b == [] {
      assert a + b == a;
      assert UtxosOf([]) == [] by { KeptNone([], [], ""); }
    } else if Exact(b) {
      var init, o := b[..|b| - 1], b[|b| - 1];
      assert b == init + [o] && a + b == (a + init) + [o];
      ExactInit(init, o);
      UtxosConcat(a, init);
      ExactStep(a + init, o);
      ExactStep(init, o);
    }
  }

  lemma ExactInit(init: seq<Output>, o: Output)
    requires Exact(init + [o])
    ensures Exact(init)
  {
    hide ScanAmount;
    forall i | 0 <= i < |init|
      ensures ScanAmount(init[i].value).Some?
    {
      assert (init + [o])[i] == init[i];
    }
  }

  lemma ExactConcat(a: seq<Output>, b: seq<Output>)
    requires Exact(a)
    ensures Exact(a + b) <==> Exact(b)
  {
    hide ScanAmount;
    if Exact(a + b) {
      forall i | 0 <= i < |b|
        ensures ScanAmount(b[i].value).Some?
      {
        assert (a + b)[|a| + i] == b[i];
      }
    }
  }

  /** The first transaction with an inexact amount ends the list. */
  lemma ScanFails(chain: seq<Event>, i: nat, spent: seq<Output>, address: string)
    requires i < |chain|
    requires Exact(Kept(CreatedBy(chain[..i]), spent, address))
    requires !Exact(Kept(chain[i].created, spent, address))
    ensures var before := Kept(CreatedBy(chain[..i]), spent, address);
            var added := Leading(Kept(chain[i].created, spent, address));
            UtxosOf(Leading(Kept(CreatedBy(chain), spent, address))) == UtxosOf(before) + UtxosOf(added)
  {
    hide *;
    KeptUpTo(chain, i, spent, address);
    LeadingConcat(Kept(CreatedBy(chain[..i]), spent, address), Kept(chain[i].created, spent, address),
                  Kept(CreatedBy(chain), spent, address));
  }

  lemma KeptUpTo(chain: seq<Event>, i: nat, spent: seq<Output>, address: string)
    requires i < |chain|
    ensures Kept(CreatedBy(chain[..i]), spent, address) + Kept(chain[i].created, spent, address)
            <= Kept(CreatedBy(chain), spent, address)
  {
    hide *;
    CreatedPrefix(chain, i + 1);
    CreatedStep(chain, i);
    KeptConcat(CreatedBy(chain[..i]), chain[i].created, spent, address);
    KeptPrefix(CreatedBy(chain), |CreatedBy(chain[..i + 1])|, spent, address);
  }

  lemma LeadingConcat(before: seq<Output>, kept: seq<Output>, all: seq<Output>)
    requires Exact(before) && !Exact(kept) && before + kept <= all
    ensures Exact(before + Leading(kept)) && Leading(all) == before + Leading(kept)
    ensures UtxosOf(Leading(all)) == UtxosOf(before) + UtxosOf(Leading(kept))
  {
    var k := BadOutput(kept);
    hide Exact, UtxosOf, Leading;
    UtxosConcat(before, kept[..k]);
    ShortPrefix(before, kept, k, all);
    LeadingIs(all, before + kept[..k], kept[k]);
  }

  lemma ShortPrefix(before: seq<Output>, kept: seq<Output>, k: nat, all: seq<Output>)
    requires k < |kept| && before + kept <= all
    ensures (before + kept[..k]) + [kept[k]] <= all
  {
    assert before + kept == ((before + kept[..k]) + [kept[k]]) + kept[k + 1..];
  }

  lemma BadOutput(kept: seq<Output>) returns (k: nat)
    requires !Exact(kept)
    ensures k < |kept| && Leading(kept) == kept[..k] && Exact(kept[..k]) && ScanAmount(kept[k].value) == None
  {
    hide Exact, ScanAmount;
    k := Good(kept);
    assert kept[..|kept|] == kept;
  }

  lemma {:induction false} CreatedPrefix(chain: seq<Event>, i: nat)
    requires i <= |chain|
    ensures CreatedBy(chain[..i]) <= CreatedBy(chain)
    ensures CreatedBy(chain)[..|CreatedBy(chain[..i])|] == CreatedBy(chain[..i])
    decreases |chain| - i
  {
    hide CreatedBy;
    if i == |chain| {
      assert chain[..i] == chain;
    } else {
      CreatedStep(chain, i);
      CreatedPrefix(chain, i + 1);
    }
  }

  lemma CreatedStep(chain: seq<Event>, i: nat)
    requires i < |chain|
    ensures CreatedBy(chain[..i + 1]) == CreatedBy(chain[..i]) + chain[i].created
  {
    assert chain[..i + 1][..i] == chain[..i];
  }

  // ---------------------------------------------------------------------------
  // What a scan finds
  // ---------------------------------------------------------------------------

  /** text is the decimal numeral of n; no text at all is zero. */
  predicate IsAmount(text: string, n: nat) {
    && (forall i :: 0 <= i < |text| ==> '0' <= text[i] <= '9')
    && Numeral(text, 10) == n < TWO_64
  }

  lemma ScanAmountExactly(text: string, n: nat)
    ensures ScanAmount(text) == Some(n) <==> IsAmount(text, n)
  {
    DigitsExactly(text);
    hide AllDigits;
    if text == "" {
      assert Numeral(text, 10) == 0;
    } else {
      hide Numeral;
    }
  }

  lemma DigitsExactly(text: string)
    ensures AllDigits(text, 10) <==> forall i :: 0 <= i < |text| ==> '0' <= text[i] <= '9'
  {
    forall i | 0 <= i < |text|
      ensures DigitValue(text[i]) < 10 <==> '0' <= text[i] <= '9'
    {
    }
  }

  /** u is o as the scan reports it. */
  predicate Mirrors(u: Utxo, o: Output) {
    && u.tx == o.tx && u.index == o.index && u.address == o.owner && u.registered == o.registered
    && u.tokenType == (match o.tokenType case Some(t) => t case None => "")
    && IsAmount(o.value, u.value)
  }

  lemma {:induction false} UtxosMirror(outs: seq<Output>, i: nat)
    requires Exact(outs) && i < |outs|
    ensures Mirrors(UtxosOf(outs)[i], outs[i])
  {
    if i < |outs| - 1 {
      UtxosMirror(outs[..|outs| - 1], i);
    } else {
      hide ScanAmount, IsAmount, UtxosOf;
      var o := outs[i];
      assert UtxosOf(outs)[i] == UtxoOf(o) by { UtxosLast(outs); }
      ScanAmountExactly(o.value, ScanAmount(o.value).value);
    }
  }

  lemma UtxosLast(outs: seq<Output>)
    requires Exact(outs) && outs != []
    ensures UtxosOf(outs)[|outs| - 1] == UtxoOf(outs[|outs| - 1])
  {
    hide ScanAmount;
  }

  /** How often o is to be found: as often as it was created, if it is the address's and unspent. */
  function Due(created: seq<Output>, spent: seq<Output>, address: string, o: Output): nat {
    if LowerAll(o.owner) == LowerAll(address) && o !in spent then multiset(created)[o] else 0
  }

  lemma {:induction false} OwnedExactly(outs: seq<Output>, address: string, o: Output)
    ensures multiset(Owned(outs, address))[o]
         == if LowerAll(o.owner) == LowerAll(address) then multiset(outs)[o] else 0
  {
    hide LowerAll;
    if outs != [] {
      OwnedExactly(outs[..|outs| - 1], address, o);
      assert outs == outs[..|outs| - 1] + [outs[|outs| - 1]];
    }
  }

  lemma {:induction false} UnspentExactly(outs: seq<Output>, spent: seq<Output>, o: Output)
    ensures multiset(Unspent(outs, spent))[o] == if o !in spent then multiset(outs)[o] else 0
  {
    if outs != [] {
      UnspentExactly(outs[..|outs| - 1], spent, o);
      assert outs == outs[..|outs| - 1] + [outs[|outs| - 1]];
    }
  }

  lemma KeptExactly(outs: seq<Output>, spent: seq<Output>, address: string, o: Output)
    ensures multiset(Kept(outs, spent, address))[o] == Due(outs, spent, address, o)
  {
    OwnedExactly(outs, address, o);
    UnspentExactly(Owned(outs, address), spent, o);
    hide Owned, Unspent, LowerAll;
  }

  /** The created outputs are those of the transactions, as often as they stand there. */
  lemma {:induction false} CreatedExactly(chain: seq<Event>, o: Output)
    ensures o in CreatedBy(chain) <==> exists e :: e in chain && o in e.created
  {
    if chain != [] {
      var init, e := chain[..|chain| - 1], chain[|chain| - 1];
      assert chain == init + [e];
      CreatedExactly(init, o);
    }
  }

  /** Every output reported is one of the outputs kept, in their order, and is the address's own. */
  lemma FoundAreOwn(outs: seq<Output>, spent: seq<Output>, address: string, i: nat)
    requires i < |Leading(Kept(outs, spent, address))|
    ensures var o := Kept(outs, spent, address)[i]; var u := UtxosOf(Leading(Kept(outs, spent, address)))[i];
            && i < |Kept(outs, spent, address)| && Mirrors(u, o) && o in outs && o !in spent
            && LowerAll(u.address) == LowerAll(address)
  {
    hide *;
    var kept := Kept(outs, spent, address);
    LeadingPrefix(kept);
    UtxosMirror(Leading(kept), i);
    var o, u := kept[i], UtxosOf(Leading(kept))[i];
    assert multiset(kept)[o] > 0;
    KeptExactly(outs, spent, address, o);
    DueSome(outs, spent, address, o);
    MirrorsOwner(u, o);
  }

  lemma LeadingPrefix(outs: seq<Output>)
    ensures Leading(outs) <= outs
    ensures |Leading(outs)| < |outs| ==> ScanAmount(outs[|Leading(outs)|].value) == None
  {
    hide ScanAmount, Exact;
  }

  lemma DueSome(outs: seq<Output>, spent: seq<Output>, address: string, o: Output)
    requires Due(outs, spent, address, o) > 0
    ensures o in outs && o !in spent && LowerAll(o.owner) == LowerAll(address)
  {
    hide LowerAll;
  }

  lemma MirrorsOwner(u: Utxo, o: Output)
    requires Mirrors(u, o)
    ensures u.address == o.owner
  {
    hide IsAmount;
  }

  /**
   What a scan reports. It keeps every created output of the address that is not spent, as often as
   it was created, and none else. The list mirrors these in order, all of them, or those before the
   first one whose amount is no number.
   */
  lemma ScanExactly(chain: seq<Event>, spent: seq<Output>, address: string)
    ensures var kept := Kept(CreatedBy(chain), spent, address); var utxos := UtxosOf(Leading(kept));
            && |utxos| <= |kept|
            && (forall o :: multiset(kept)[o] == Due(CreatedBy(chain), spent, address, o))
            && (forall i :: 0 <= i < |utxos| ==>
                  Mirrors(utxos[i], kept[i]) && LowerAll(utxos[i].address) == LowerAll(address))
            && (|utxos| < |kept| ==> forall n: nat :: !IsAmount(kept[|utxos|].value, n))
  {
    hide *;
    var kept := Kept(CreatedBy(chain), spent, address);
    LeadingPrefix(kept);
    forall o
      ensures multiset(kept)[o] == Due(CreatedBy(chain), spent, address, o)
    {
      KeptExactly(CreatedBy(chain), spent, address, o);
    }
    var utxos := UtxosOf(Leading(kept));
    forall i | 0 <= i < |utxos|
      ensures Mirrors(utxos[i], kept[i]) && LowerAll(utxos[i].address) == LowerAll(address)
    {
      FoundAreOwn(CreatedBy(chain), spent, address, i);
    }
    if |utxos| < |kept| {
      forall n: nat
        ensures !IsAmount(kept[|utxos|].value, n)
      {
        ScanAmountExactly(kept[|utxos|].value, n);
      }
    }
  }

  // ---------------------------------------------------------------------------
  // Stream and scan agree
  // ---------------------------------------------------------------------------

  lemma WeightsAgree(o: Output, m: Measure)
    requires ScanAmount(o.value).Some?
    ensures Weight(m, o) == UtxoWeight(m, UtxoOf(o)) + if m == Night && Bare(o) then StreamAmount(o.value) else 0
  {
    TokensAgree(o);
    AmountsAgree(o.value);
    hide StreamNight, StreamDust, ScanNight, ScanDust, ScanAmount, StreamAmount, ScanToken, Bare;
  }

  lemma {:induction false} TotalsAgree(outs: seq<Output>, m: Measure)
    requires Exact(outs)
    ensures Total(outs, m) == UtxoTotal(UtxosOf(outs), m) + if m == Night then BareTotal(outs) else 0
  {
    if outs != [] {
      hide Weight, UtxoWeight, ScanAmount, StreamAmount, Bare;
      var init, o := outs[..|outs| - 1], outs[|outs| - 1];
      TotalsAgree(init, m);
      WeightsAgree(o, m);
      assert UtxosOf(outs)[..|outs| - 1] == UtxosOf(init);
    }
  }

  lemma {:induction false} OwnedMembers(outs: seq<Output>, address: string, o: Output)
    ensures o in Owned(outs, address) <==> o in outs && OwnedBy(o, address)
  {
    hide OwnedBy;
    if outs != [] {
      OwnedMembers(outs[..|outs| - 1], address, o);
      assert outs == outs[..|outs| - 1] + [outs[|outs| - 1]];
    }
  }

  lemma {:induction false} OwnedConcat(a: seq<Output>, b: seq<Output>, address: string)
    ensures Owned(a + b, address) == Owned(a, address) + Owned(b, address)
    decreases |b|
  {
    hide OwnedBy;
    if b == [] {
      assert a + b == a;
    } else {
      assert (a + b)[..|a + b| - 1] == a + b[..|b| - 1];
      OwnedConcat(a, b[..|b| - 1], address);
    }
  }

  /** Filtering each event for an address filters the created and the spent outputs. */
  lemma {:induction false} WalletLists(chain: seq<Event>, address: string)
    ensures CreatedBy(WalletEvents(chain, address)) == Owned(CreatedBy(chain), address)
    ensures SpentBy(WalletEvents(chain, address)) == Owned(SpentBy(chain), address)
  {
    hide Owned;
    if chain == [] {
      OwnedNone(address);
    } else {
      var init, e := chain[..|chain| - 1], chain[|chain| - 1];
      WalletLists(init, address);
      OwnedConcat(CreatedBy(init), e.created, address);
      OwnedConcat(SpentBy(init), e.spent, address);
      var h := WalletEvents(chain, address);
      assert h[..|h| - 1] == WalletEvents(init, address);
    }
  }

  lemma OwnedNone(address: string)
    ensures Owned([], address) == []
  {
  }

  /** Seen from outputs of one address, only its own spends matter. */
  lemma {:induction false} OwnSpends(outs: seq<Output>, spent: seq<Output>, address: string)
    ensures Unspent(Owned(outs, address), Owned(spent, address)) == Unspent(Owned(outs, address), spent)
  {
    if outs != [] {
      var init, o := outs[..|outs| - 1], outs[|outs| - 1];
      OwnSpends(init, spent, address);
      if OwnedBy(o, address) {
        OwnedMembers(spent, address, o);
        hide OwnedBy, Owned;
        UnspentAppend(Owned(init, address), spent, o);
        UnspentAppend(Owned(init, address), Owned(spent, address), o);
      }
    }
  }

  /**
   Every counter of the stream is what the scan finds, over every well-formed history; only the
   NIGHT total is higher, by the outputs typed with a bare hex prefix.
   */
  lemma FoldIsScan(chain: seq<Event>, address: string, m: Measure)
    requires WellFormed(WalletEvents(chain, address))
    requires Exact(Kept(CreatedBy(chain), SpentBy(chain), address))
    ensures var kept := Kept(CreatedBy(chain), SpentBy(chain), address);
            Counter(WalletEvents(chain, address), m)
            == UtxoTotal(UtxosOf(kept), m) + if m == Night then BareTotal(kept) else 0
  {
    hide Exact, Owned, Unspent, Total, UtxoTotal, UtxosOf, Counter, WellFormed, BareTotal;
    CounterIsUnspent(WalletEvents(chain, address), m);
    WalletLists(chain, address);
    OwnSpends(CreatedBy(chain), SpentBy(chain), address);
    TotalsAgree(Kept(CreatedBy(chain), SpentBy(chain), address), m);
  }

  lemma {:induction false} CountIsLength(us: seq<Utxo>)
    ensures UtxoTotal(us, Count) == |us|
  {
    if us != [] {
      CountIsLength(us[..|us| - 1]);
    }
  }

  /** The states the two clients report for one history. */
  lemma StatesAgree(client: RealtimeIndexerClient, chain: seq<Event>, address: string, scanned: WalletState)
    requires client.Valid() && client.history == WalletEvents(chain, address)
    requires WellFormed(client.history)
    requires Exact(Kept(CreatedBy(chain), SpentBy(chain), address))
    requires var us := UtxosOf(Kept(CreatedBy(chain), SpentBy(chain), address));
             && scanned.unshielded == Decimal(UtxoTotal(us, Night) % TWO_64)
             && scanned.dust == Decimal(UtxoTotal(us, Dust) % TWO_64)
             && scanned.available == |us| % 0x1_0000_0000
             && scanned.registered == UtxoTotal(us, Registered) % TWO_64
    ensures client.lastState.dust == scanned.dust
    ensures client.lastState.unshielded == scanned.unshielded
            <==> BareTotal(Kept(CreatedBy(chain), SpentBy(chain), address)) == 0
    ensures var us := UtxosOf(Kept(CreatedBy(chain), SpentBy(chain), address));
            && (client.lastState.available == scanned.available <==> |us| < 0x1_0000_0000)
            && (client.lastState.registered == scanned.registered <==> UtxoTotal(us, Registered) == 0)
    ensures client.state.available == scanned.available && client.state.registered == scanned.registered
    ensures client.state.unshielded == scanned.unshielded <==>
            SpentSince(client.history, Night) + BareTotal(Kept(CreatedBy(chain), SpentBy(chain), address)) == 0
    ensures client.state.dust == scanned.dust <==> SpentSince(client.history, Dust) == 0
  {
    var kept := Kept(CreatedBy(chain), SpentBy(chain), address);
    var us := UtxosOf(kept);
    FoldIsScan(chain, address, Night);
    FoldIsScan(chain, address, Dust);
    FoldIsScan(chain, address, Count);
    FoldIsScan(chain, address, Registered);
    CountIsLength(us);
    ShownLags(client.history, Night);
    ShownLags(client.history, Dust);
    hide *;
    ClientFields(client);
    TextsAgree(UtxoTotal(us, Night), BareTotal(kept), Counter(client.history, Night));
    TextsAgree(UtxoTotal(us, Dust), 0, Counter(client.history, Dust));
    TextsAgree(UtxoTotal(us, Night), SpentSince(client.history, Night) + BareTotal(kept),
               LastShown(client.history, Night));
    TextsAgree(UtxoTotal(us, Dust), SpentSince(client.history, Dust), LastShown(client.history, Dust));
    Small(UtxoTotal(us, Registered), Counter(client.history, Registered));
    CutCount(|us|);
  }

  lemma CutCount(n: nat)
    ensures n % 0x1_0000_0000 == n <==> n < 0x1_0000_0000
  {
  }

  /** A printed total equals the scan's exactly when nothing comes on top. */
  lemma TextsAgree(total: nat, more: nat, shown: u64)
    requires shown == total + more
    ensures Decimal(shown) == Decimal(total % TWO_64) <==> more == 0
  {
    hide Decimal;
    Small(total, shown);
    DecimalSame(total, shown);
  }

  lemma ClientFields(client: RealtimeIndexerClient)
    requires client.Valid()
    ensures client.lastState.unshielded == Decimal(Counter(client.history, Night))
    ensures client.lastState.dust == Decimal(Counter(client.history, Dust))
    ensures client.lastState.available == Counter(client.history, Count) && client.lastState.registered == 0
    ensures client.state.unshielded == Decimal(LastShown(client.history, Night))
    ensures client.state.dust == Decimal(LastShown(client.history, Dust))
    ensures client.state.available == Counter(client.history, Count) % 0x1_0000_0000
    ensures client.state.registered == Counter(client.history, Registered)
  {
  }

  lemma Small(x: nat, bound: u64)
    requires x <= bound
    ensures x % TWO_64 == x
  {
  }

  lemma DecimalSame(a: u64, b: u64)
    ensures Decimal(a) == Decimal(b) <==> a == b
  {
    hide Decimal, ParseUnsigned;
    DecimalRoundTrip(a);
    DecimalRoundTrip(b);
  }
}
