/**
 The subscription client with the realtime client's callbacks attached: per event it updates
 its counters in place and refreshes two wallet states. One of them follows every event; the
 balances of the other follow creations only, and lag by exactly what was spent since.
 */
module WalletStream {
  import opened Bytes
  import opened Text
  import opened WalletAccounting

  /** Whether creating o fires the balance callback of a token. */
  predicate Shows(m: Measure, o: Output) {
    match m
    case Night => StreamNight(o)
    case Dust => StreamDust(o)
    case _ => false
  }

  predicate AnyShows(m: Measure, outs: seq<Output>) {
    outs != [] && (AnyShows(m, outs[..|outs| - 1]) || Shows(m, outs[|outs| - 1]))
  }

  /** The balance at the last firing of the callback: after the creations of an event, before its spends. */
  function LastShown(h: seq<Event>, m: Measure): u64 {
    if h == [] then 0
    else
      var init, e := h[..|h| - 1], h[|h| - 1];
      if AnyShows(m, e.created) then BumpAll(Counter(init, m), e.created, m) else LastShown(init, m)
  }

  /** What was spent in that event and since. */
  function SpentSince(h: seq<Event>, m: Measure): nat {
    if h == [] then 0
    else
      var init, e := h[..|h| - 1], h[|h| - 1];
      Total(e.spent, m) + if AnyShows(m, e.created) then 0 else SpentSince(init, m)
  }

  /** The callbacks fire for the tokens the stream takes for NIGHT and DUST, and for nothing else. */
  lemma ShowsExactly(o: Output)
    ensures var t := if o.tokenType.Some? then o.tokenType.value else "";
            && (Shows(Night, o) <==>
                  t == "" || t == "NIGHT" || t == "0x" || t == "0X" || ZerosOnly(StripHexPrefix(t)))
            && (Shows(Dust, o) <==> t == "DUST")
    ensures !Shows(Count, o) && !Shows(Registered, o)
  {
    TokensExactly(o);
    hide StreamNight, StreamDust;
  }

  lemma {:induction false} AnyShowsExactly(m: Measure, outs: seq<Output>)
    ensures AnyShows(m, outs) <==> exists o :: o in outs && Shows(m, o)
  {
    hide Shows;
    if outs != [] {
      AnyShowsExactly(m, outs[..|outs| - 1]);
      assert outs == outs[..|outs| - 1] + [outs[|outs| - 1]];
    }
  }

  /** An event that creates nothing of a token leaves the balance shown for it, whatever it spends. */
  lemma UnshownEvent(h: seq<Event>, e: Event, m: Measure)
    requires forall o :: o in e.created ==> !Shows(m, o)
    ensures LastShown(h + [e], m) == LastShown(h, m)
  {
    hide Shows, BumpAll, Counter;
    AnyShowsExactly(m, e.created);
    hide AnyShows;
    assert (h + [e])[..|h|] == h;
  }

  lemma {:induction false} SilentCreations(v: u64, outs: seq<Output>, m: Measure)
    requires (m == Night || m == Dust) && !AnyShows(m, outs)
    ensures BumpAll(v, outs, m) == v
  {
    hide AnyShows, Weight;
    if outs != [] {
      var n := |outs| - 1;
      assert outs[..n + 1] == outs;
      ShowsStep(m, outs, n);
      SilentCreations(v, outs[..n], m);
      SilentWeight(m, outs[n]);
    }
  }

  lemma SilentWeight(m: Measure, o: Output)
    requires (m == Night || m == Dust) && !Shows(m, o)
    ensures Weight(m, o) == 0
  {
    hide StreamNight, StreamDust, StreamAmount;
  }

  /** The balance shown is the true balance plus what was spent since; it is right only if that is nothing. */
  lemma {:induction false} ShownLags(h: seq<Event>, m: Measure)
    requires WellFormed(h) && (m == Night || m == Dust)
    ensures LastShown(h, m) == Counter(h, m) + SpentSince(h, m)
  {
    if h != [] {
      var init, e := h[..|h| - 1], h[|h| - 1];
      SpendsOf(init, e, m);
      ShownLags(init, m);
      hide Total, BumpAll, DropAll, AnyShows, WellFormed;
      if !AnyShows(m, e.created) {
        SilentCreations(Counter(init, m), e.created, m);
      }
    }
  }

  lemma SpendsOf(init: seq<Event>, e: Event, m: Measure)
    requires WellFormed(init + [e])
    ensures WellFormed(init)
    ensures BumpAll(Counter(init, m), e.created, m) == Counter(init + [e], m) + Total(e.spent, m)
  {
    var h := init + [e];
    assert h[..|h| - 1] == init;
    hide Weight, Total, Unspent, Distinct, BumpAll, DropAll, TotalsFit;
    var c, s := CreatedBy(init), SpentBy(init);
    CounterIsUnspent(init, m);
    Fits(c + e.created, s, m);
    Bumping(c, s, e.created, m, Counter(init, m));
    Dropping(c + e.created, s, e.spent, m, BumpAll(Counter(init, m), e.created, m));
  }

  lemma BumpStep(v: u64, outs: seq<Output>, i: nat, m: Measure)
    requires i < |outs|
    ensures BumpAll(v, outs[..i + 1], m) == Bump(BumpAll(v, outs[..i], m), Weight(m, outs[i]))
  {
    assert outs[..i + 1][..i] == outs[..i];
  }

  lemma DropStep(v: u64, outs: seq<Output>, i: nat, m: Measure)
    requires i < |outs|
    ensures DropAll(v, outs[..i + 1], m) == Drop(DropAll(v, outs[..i], m), Weight(m, outs[i]))
  {
    assert outs[..i + 1][..i] == outs[..i];
  }

  lemma ShowsStep(m: Measure, outs: seq<Output>, i: nat)
    requires i < |outs|
    ensures AnyShows(m, outs[..i + 1]) <==> AnyShows(m, outs[..i]) || Shows(m, outs[i])
  {
    assert outs[..i + 1][..i] == outs[..i];
  }

  class RealtimeIndexerClient {
    var nightBalance: u64
    var dustBalance: u64
    var utxoCount: u64
    var lastState: WalletState
    var address: string
    var state: WalletState
    ghost var history: seq<Event>

    ghost predicate Valid()
      reads this
    {
      && nightBalance == Counter(history, Night)
      && dustBalance == Counter(history, Dust)
      && utxoCount == Counter(history, Count)
      && lastState.unshielded == Decimal(nightBalance)
      && lastState.dust == Decimal(dustBalance)
      && lastState.available == utxoCount
      && lastState.registered == 0
      && state.unshielded == Decimal(LastShown(history, Night))
      && state.dust == Decimal(LastShown(history, Dust))
      && state.available == utxoCount % 0x1_0000_0000
      && state.registered == Counter(history, Registered)
    }

    constructor (address: string)
      ensures Valid() && history == [] && this.address == address
    {
      nightBalance, dustBalance, utxoCount := 0, 0, 0;
      lastState := WalletState("", "0", "0", 0, 0, false);
      state := WalletState("", "0", "0", 0, 0, false);
      this.address := address;
      history := [];
    }

    /** Catch-up progress only marks the state as synced. */
    method OnProgress()
      requires Valid()
      modifies this`lastState
      ensures Valid() && lastState == old(lastState).(synced := true)
    {
      lastState := lastState.(synced := true);
    }

    method CurrentBalance(token: string) returns (balance: u64)
      requires Valid()
      ensures balance == Counter(history, if token == "DUST" || token == "dust" then Dust else Night)
    {
      balance := if token == "DUST" || token == "dust" then dustBalance else nightBalance;
    }

    /** One transaction event: creations, then spends, then the wallet states. */
    method OnTransaction(e: Event)
      requires Valid()
      modifies this
      ensures Valid() && history == old(history) + [e] && address == old(address)
    {
      hide BumpAll, DropAll, AnyShows, Decimal, LastShown, Counter;
      AppendEvent(history, e, Night);
      AppendEvent(history, e, Dust);
      AppendEvent(history, e, Count);
      AppendEvent(history, e, Registered);
      CreateAll(e.created);
      SpendAll(e.spent);
      if e.created != [] || e.spent != [] {
        lastState := lastState.(
          available := utxoCount,
          unshielded := Decimal(nightBalance),
          dust := Decimal(dustBalance),
          synced := true);
        OnWsUtxo(e);
      } else {
        NothingHappens(old(nightBalance), Night);
        NothingHappens(old(dustBalance), Dust);
        NothingHappens(old(utxoCount), Count);
        NothingHappens(state.registered, Registered);
      }
      history := history + [e];
    }

    /** The first loop: additions that wrap, each balance reported to the realtime state. */
    method CreateAll(created: seq<Output>)
      modifies this`nightBalance, this`dustBalance, this`utxoCount, this`state
      ensures nightBalance == BumpAll(old(nightBalance), created, Night)
      ensures dustBalance == BumpAll(old(dustBalance), created, Dust)
      ensures utxoCount == BumpAll(old(utxoCount), created, Count)
      ensures state == old(state).(
        unshielded := if AnyShows(Night, created) then Decimal(nightBalance) else old(state).unshielded,
        dust := if AnyShows(Dust, created) then Decimal(dustBalance) else old(state).dust)
    {
      hide BumpAll, AnyShows, Decimal, StreamNight, StreamDust, StreamAmount;
      var i := 0;
      NoneYet(Night, created);
      NoneYet(Dust, created);
      EmptyFolds(nightBalance, created, Night);
      EmptyFolds(dustBalance, created, Dust);
      EmptyFolds(utxoCount, created, Count);
      while i < |created|
        invariant i <= |created|
        invariant nightBalance == BumpAll(old(nightBalance), created[..i], Night)
        invariant dustBalance == BumpAll(old(dustBalance), created[..i], Dust)
        invariant utxoCount == BumpAll(old(utxoCount), created[..i], Count)
        invariant state == old(state).(
          unshielded := if AnyShows(Night, created[..i]) then Decimal(nightBalance) else old(state).unshielded,
          dust := if AnyShows(Dust, created[..i]) then Decimal(dustBalance) else old(state).dust)
      {
        var o := created[i];
        BumpStep(old(nightBalance), created, i, Night);
        BumpStep(old(dustBalance), created, i, Dust);
        BumpStep(old(utxoCount), created, i, Count);
        ShowsStep(Night, created, i);
        ShowsStep(Dust, created, i);
        Classes(o);
        if StreamNight(o) {
          nightBalance := (nightBalance + StreamAmount(o.value)) % TWO_64;
          state := state.(unshielded := Decimal(nightBalance));
        } else if StreamDust(o) {
          dustBalance := (dustBalance + StreamAmount(o.value)) % TWO_64;
          state := state.(dust := Decimal(dustBalance));
        }
        utxoCount := (utxoCount + 1) % TWO_64;
        i := i + 1;
      }
      assert created[..i] == created;
    }

    /** The second loop: subtractions that stop at zero. */
    method SpendAll(spent: seq<Output>)
      modifies this`nightBalance, this`dustBalance, this`utxoCount
      ensures nightBalance == DropAll(old(nightBalance), spent, Night)
      ensures dustBalance == DropAll(old(dustBalance), spent, Dust)
      ensures utxoCount == DropAll(old(utxoCount), spent, Count)
    {
      hide DropAll, StreamNight, StreamDust, StreamAmount;
      var i := 0;
      EmptyFolds(nightBalance, spent, Night);
      EmptyFolds(dustBalance, spent, Dust);
      EmptyFolds(utxoCount, spent, Count);
      while i < |spent|
        invariant i <= |spent|
        invariant nightBalance == DropAll(old(nightBalance), spent[..i], Night)
        invariant dustBalance == DropAll(old(dustBalance), spent[..i], Dust)
        invariant utxoCount == DropAll(old(utxoCount), spent[..i], Count)
      {
        var o := spent[i];
        DropStep(old(nightBalance), spent, i, Night);
        DropStep(old(dustBalance), spent, i, Dust);
        DropStep(old(utxoCount), spent, i, Count);
        Classes(o);
        if StreamNight(o) {
          nightBalance := if nightBalance > StreamAmount(o.value) then nightBalance - StreamAmount(o.value) else 0;
        } else if StreamDust(o) {
          dustBalance := if dustBalance > StreamAmount(o.value) then dustBalance - StreamAmount(o.value) else 0;
        }
        utxoCount := if utxoCount > 0 then utxoCount - 1 else 0;
        i := i + 1;
      }
      assert spent[..i] == spent;
    }

    /** The realtime client's own callback: the count cut to 32 bits and the registered outputs. */
    method OnWsUtxo(e: Event)
      modifies this`state
      ensures state == old(state).(
        address := address,
        available := utxoCount % 0x1_0000_0000,
        registered := AfterEvent(old(state).registered, e, Registered),
        synced := true)
    {
      hide BumpAll, DropAll;
      var registered := state.registered;
      var i := 0;
      EmptyFolds(registered, e.created, Registered);
      while i < |e.created|
        invariant i <= |e.created|
        invariant state == old(state) && registered == BumpAll(state.registered, e.created[..i], Registered)
      {
        BumpStep(state.registered, e.created, i, Registered);
        if e.created[i].registered {
          registered := (registered + 1) % TWO_64;
        }
        i := i + 1;
      }
      assert e.created[..i] == e.created;
      ghost var peak := registered;
      i := 0;
      EmptyFolds(peak, e.spent, Registered);
      while i < |e.spent|
        invariant i <= |e.spent|
        invariant state == old(state) && registered == DropAll(peak, e.spent[..i], Registered)
      {
        DropStep(peak, e.spent, i, Registered);
        if e.spent[i].registered && registered > 0 {
          registered := registered - 1;
        }
        i := i + 1;
      }
      assert e.spent[..i] == e.spent;
      state := state.(
        address := address,
        available := utxoCount % 0x1_0000_0000,
        registered := registered,
        synced := true);
    }

    /** The message loop: events in the order they arrive. */
    method Run(events: seq<Event>)
      requires Valid()
      modifies this
      ensures Valid() && history == old(history) + events && address == old(address)
    {
      hide Valid;
      var i := 0;
      while i < |events|
        invariant i <= |events|
        invariant Valid() && history == old(history) + events[..i] && address == old(address)
      {
        assert events[..i + 1] == events[..i] + [events[i]];
        OnTransaction(events[i]);
        i := i + 1;
      }
      assert events[..i] == events;
    }
  }

  lemma AppendEvent(h: seq<Event>, e: Event, m: Measure)
    ensures Counter(h + [e], m) == AfterEvent(Counter(h, m), e, m)
    ensures LastShown(h + [e], m)
      == if AnyShows(m, e.created) then BumpAll(Counter(h, m), e.created, m) else LastShown(h, m)
  {
    hide AnyShows, AfterEvent, BumpAll;
    assert (h + [e])[..|h|] == h;
  }

  lemma EmptyFolds(v: u64, outs: seq<Output>, m: Measure)
    ensures BumpAll(v, outs[..0], m) == v && DropAll(v, outs[..0], m) == v
  {
  }

  lemma NothingHappens(v: u64, m: Measure)
    ensures !AnyShows(m, []) && BumpAll(v, [], m) == v && DropAll(v, [], m) == v
  {
  }

  lemma NoneYet(m: Measure, outs: seq<Output>)
    ensures !AnyShows(m, outs[..0])
  {
  }

  lemma Classes(o: Output)
    ensures StreamDust(o) ==> !StreamNight(o)
  {
  }
}
