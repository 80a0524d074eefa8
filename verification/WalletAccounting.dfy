/**
 Wallet totals kept two ways: folded from a stream of transaction events, with wrapping
 additions and saturating subtractions, and recomputed by scanning the chain for unspent
 outputs. Over every well-formed history they agree, up to outputs typed by a bare "0x".
 */
module WalletAccounting {
  import opened Ascii
  import opened Bytes
  import opened Options
  import opened Text

  /** An output as the indexer reports it; the amount is a decimal text, the token type may be absent. */
  datatype Output = Output(
    tx: string, index: u32, value: string, tokenType: Option<string>, owner: string, registered: bool)

  /** What one transaction created and spent. */
  datatype Event = Event(created: seq<Output>, spent: seq<Output>)

  datatype WalletState = WalletState(
    address: string, unshielded: string, dust: string, available: u64, registered: u64, synced: bool)

  // ---------------------------------------------------------------------------
  // Token types and amounts
  // ---------------------------------------------------------------------------

  // The type of the native token: 32 zero bytes in hex.
  const NIGHT_TYPE: string := Repeated('0', 64)

  function Repeated(c: char, n: nat): (s: string)
    ensures |s| == n && forall i :: 0 <= i < n ==> s[i] == c
  {
    if n == 0 then "" else Repeated(c, n - 1) + [c]
  }

  /** The stream's classification. */
  function NormalizeTokenType(t: string): string {
    var raw := LowerAll(StripHexPrefix(t));
    if raw == "" || raw == NIGHT_TYPE then "NIGHT" else t
  }

  function StreamToken(o: Output): string {
    NormalizeTokenType(if o.tokenType.Some? then o.tokenType.value else "NIGHT")
  }

  predicate StreamNight(o: Output) {
    StreamToken(o) == "NIGHT" || StreamToken(o) == ""
  }

  predicate StreamDust(o: Output) {
    !StreamNight(o) && StreamToken(o) == "DUST"
  }

  /** The scan's classification. */
  predicate IsNightTokenType(t: string) {
    t == "" || LowerAll(StripHexPrefix(t)) == NIGHT_TYPE
  }

  function ScanToken(o: Output): string {
    if o.tokenType.Some? then o.tokenType.value else ""
  }

  predicate ScanNight(t: string) {
    IsNightTokenType(t) || t == "NIGHT"
  }

  predicate ScanDust(t: string) {
    !ScanNight(t) && t == "DUST"
  }

  /** Typed by a hex prefix and nothing else. */
  predicate Bare(o: Output) {
    o.tokenType == Some("0x") || o.tokenType == Some("0X")
  }

  /** The two classifications differ on bare prefixes only: NIGHT to the stream, nothing to the scan. */
  lemma TokensAgree(o: Output)
    ensures StreamNight(o) <==> ScanNight(ScanToken(o)) || Bare(o)
    ensures Bare(o) ==> !ScanNight(ScanToken(o)) && !ScanDust(ScanToken(o))
    ensures StreamDust(o) <==> ScanDust(ScanToken(o))
  {
    var t := ScanToken(o);
    assert StripHexPrefix("NIGHT") == "NIGHT" && StripHexPrefix("DUST") == "DUST";
    assert |LowerAll(StripHexPrefix("NIGHT"))| == 5 && |LowerAll(StripHexPrefix("DUST"))| == 4;
    assert |NIGHT_TYPE| == 64;
    assert StripHexPrefix("") == "";
    if o.tokenType.Some? {
      assert |LowerAll(StripHexPrefix(t))| == |StripHexPrefix(t)|;
      assert StripHexPrefix(t) == "" <==> t == "" || t == "0x" || t == "0X";
    }
  }

  predicate ZerosOnly(t: string) {
    |t| == 64 && forall i :: 0 <= i < |t| ==> t[i] == '0'
  }

  lemma NightTypeDigits()
    ensures |NIGHT_TYPE| == 64 && forall i :: 0 <= i < 64 ==> NIGHT_TYPE[i] == '0'
  {
  }

  lemma NightTypeIsZeros(t: string)
    ensures LowerAll(t) == NIGHT_TYPE <==> ZerosOnly(t)
  {
    NightTypeDigits();
    hide NIGHT_TYPE;
    if ZerosOnly(t) {
      assert forall i :: 0 <= i < 64 ==> LowerAll(t)[i] == '0';
      assert LowerAll(t) == NIGHT_TYPE;
    }
    if LowerAll(t) == NIGHT_TYPE {
      forall i | 0 <= i < |t|
        ensures t[i] == '0'
      {
        assert LowerAll(t)[i] == Lower(t[i]) == '0';
      }
    }
  }

  /**
   The token types, spelt out. NIGHT to the scan is no type, an empty one, the name, or 64 zeros
   behind an optional prefix; to the stream a bare prefix as well. DUST is its name to both.
   */
  lemma TokensExactly(o: Output)
    ensures var t := if o.tokenType.Some? then o.tokenType.value else "";
            && (ScanNight(ScanToken(o)) <==> t == "" || t == "NIGHT" || ZerosOnly(StripHexPrefix(t)))
            && (StreamNight(o) <==>
                  t == "" || t == "NIGHT" || t == "0x" || t == "0X" || ZerosOnly(StripHexPrefix(t)))
            && (StreamDust(o) <==> t == "DUST")
            && (ScanDust(ScanToken(o)) <==> t == "DUST")
  {
    var t := ScanToken(o);
    NightTypeIsZeros(StripHexPrefix(t));
    TokensAgree(o);
    hide LowerAll, NIGHT_TYPE;
    assert StripHexPrefix("DUST") == "DUST";
    assert !ZerosOnly("DUST");
  }

  /** std::stoull, or 0 when it throws. */
  function StreamAmount(text: string): u64 {
    match ParseUnsigned(text, 10)
    case Some(v) => v
    case None => 0
  }

  /** std::from_chars over the whole text; none when the scan throws. */
  function ScanAmount(text: string): Option<u64> {
    if text == "" then Some(0)
    else if AllDigits(text, 10) && Numeral(text, 10) < TWO_64 then Some(Numeral(text, 10))
    else None
  }

  /** Whatever amount the scan accepts, the stream reads the same. */
  lemma AmountsAgree(text: string)
    requires ScanAmount(text).Some?
    ensures StreamAmount(text) == ScanAmount(text).value
  {
    if text != "" {
      ParseDigits(text, 10);
    }
  }

  // ---------------------------------------------------------------------------
  // Totals
  // ---------------------------------------------------------------------------

  datatype Measure = Night | Dust | Count | Registered

  /** What an output adds to a counter of the stream. */
  function Weight(m: Measure, o: Output): u64 {
    match m
    case Night => if StreamNight(o) then StreamAmount(o.value) else 0
    case Dust => if StreamDust(o) then StreamAmount(o.value) else 0
    case Count => 1
    case Registered => if o.registered then 1 else 0
  }

  function Total(outs: seq<Output>, m: Measure): nat {
    if outs == [] then 0 else Total(outs[..|outs| - 1], m) + Weight(m, outs[|outs| - 1])
  }

  predicate Distinct(outs: seq<Output>) {
    forall i, j :: 0 <= i < j < |outs| ==> outs[i] != outs[j]
  }

  /** Those of created that are not in spent. */
  function Unspent(created: seq<Output>, spent: seq<Output>): seq<Output> {
    if created == [] then []
    else
      var init, o := created[..|created| - 1], created[|created| - 1];
      if o in spent then Unspent(init, spent) else Unspent(init, spent) + [o]
  }

  lemma TotalAppend(outs: seq<Output>, o: Output, m: Measure)
    ensures Total(outs + [o], m) == Total(outs, m) + Weight(m, o)
  {
    assert (outs + [o])[..|outs|] == outs;
  }

  lemma UnspentAppend(created: seq<Output>, spent: seq<Output>, o: Output)
    ensures Unspent(created + [o], spent) ==
            if o in spent then Unspent(created, spent) else Unspent(created, spent) + [o]
  {
    assert (created + [o])[..|created|] == created;
  }

  lemma {:induction false} SpendingOthers(created: seq<Output>, spent: seq<Output>, o: Output)
    requires o !in created
    ensures Unspent(created, spent + [o]) == Unspent(created, spent)
  {
    if created != [] {
      SpendingOthers(created[..|created| - 1], spent, o);
    }
  }

  /** Spending an output takes its weight from the total. */
  lemma {:induction false} SpendingOne(created: seq<Output>, spent: seq<Output>, o: Output, m: Measure)
    requires Distinct(created) && o in created && o !in spent
    ensures Total(Unspent(created, spent), m) == Total(Unspent(created, spent + [o]), m) + Weight(m, o)
  {
    hide Weight;
    var init, last := created[..|created| - 1], created[|created| - 1];
    if last == o {
      assert o !in init;
      SpendingOthers(init, spent, o);
      TotalAppend(Unspent(init, spent), o, m);
    } else {
      SpendingOne(init, spent, o, m);
      if last !in spent {
        TotalAppend(Unspent(init, spent), last, m);
        TotalAppend(Unspent(init, spent + [o]), last, m);
      }
    }
  }

  // ---------------------------------------------------------------------------
  // The stream's counters
  // ---------------------------------------------------------------------------

  /** uint64_t addition. */
  function Bump(v: u64, w: u64): u64 {
    (v + w) % TWO_64
  }

  /** Subtraction that stops at zero. */
  function Drop(v: u64, w: u64): u64 {
    if v > w then v - w else 0
  }

  function BumpAll(v: u64, outs: seq<Output>, m: Measure): u64 {
    if outs == [] then v else Bump(BumpAll(v, outs[..|outs| - 1], m), Weight(m, outs[|outs| - 1]))
  }

  function DropAll(v: u64, outs: seq<Output>, m: Measure): u64 {
    if outs == [] then v else Drop(DropAll(v, outs[..|outs| - 1], m), Weight(m, outs[|outs| - 1]))
  }

  function AfterEvent(v: u64, e: Event, m: Measure): u64 {
    DropAll(BumpAll(v, e.created, m), e.spent, m)
  }

  /** A counter after a run of events: additions of an event come before its subtractions. */
  function Counter(h: seq<Event>, m: Measure): u64 {
    if h == [] then 0 else AfterEvent(Counter(h[..|h| - 1], m), h[|h| - 1], m)
  }

  function CreatedBy(h: seq<Event>): seq<Output> {
    if h == [] then [] else CreatedBy(h[..|h| - 1]) + h[|h| - 1].created
  }

  function SpentBy(h: seq<Event>): seq<Output> {
    if h == [] then [] else SpentBy(h[..|h| - 1]) + h[|h| - 1].spent
  }

  predicate Subset(a: seq<Output>, b: seq<Output>) {
    forall o :: o in a ==> o in b
  }

  /** Every total that is reached after creating created and before spending more fits its counter. */
  predicate TotalsFit(created: seq<Output>, spent: seq<Output>) {
    && Total(Unspent(created, spent), Night) < TWO_64
    && Total(Unspent(created, spent), Dust) < TWO_64
    && Total(Unspent(created, spent), Count) < TWO_64
    && Total(Unspent(created, spent), Registered) < TWO_64
  }

  /** Outputs are created once, spent at most once and not before their creation; totals fit 64 bits. */
  predicate WellFormed(h: seq<Event>) {
    h == [] ||
    var init, e := h[..|h| - 1], h[|h| - 1];
    && WellFormed(init)
    && Distinct(CreatedBy(init) + e.created)
    && Distinct(SpentBy(init) + e.spent)
    && Subset(e.spent, CreatedBy(init) + e.created)
    && TotalsFit(CreatedBy(init) + e.created, SpentBy(init))
  }

  lemma Fits(created: seq<Output>, spent: seq<Output>, m: Measure)
    requires TotalsFit(created, spent)
    ensures Total(Unspent(created, spent), m) < TWO_64
  {
    hide Total, Unspent;
    match m
    case Night =>
    case Dust =>
    case Count =>
    case Registered =>
  }

  /** Adding outputs one by one never wraps, and gives the new total. */
  lemma {:induction false} Bumping(c: seq<Output>, s: seq<Output>, outs: seq<Output>, m: Measure, v: u64)
    requires Distinct(c + outs) && Subset(s, c)
    requires v == Total(Unspent(c, s), m) && Total(Unspent(c + outs, s), m) < TWO_64
    ensures BumpAll(v, outs, m) == Total(Unspent(c + outs, s), m)
    decreases |outs|
  {
    hide Weight, Total, Unspent;
    if outs == [] {
      assert c + outs == c;
    } else {
      var init, o := outs[..|outs| - 1], outs[|outs| - 1];
      assert c + outs == (c + init) + [o];
      LastIsNew(c + init, o);
      assert o !in s;
      UnspentAppend(c + init, s, o);
      TotalAppend(Unspent(c + init, s), o, m);
      Bumping(c, s, init, m, v);
    }
  }

  lemma LastIsNew(outs: seq<Output>, o: Output)
    requires Distinct(outs + [o])
    ensures Distinct(outs) && o !in outs
  {
    var t := outs + [o];
    assert t[|outs|] == o;
    forall i | 0 <= i < |outs|
      ensures outs[i] != o
    {
      assert t[i] == outs[i];
    }
    forall i, j | 0 <= i < j < |outs|
      ensures outs[i] != outs[j]
    {
      assert t[i] == outs[i] && t[j] == outs[j];
    }
  }

  /** Removing spent outputs one by one never saturates, and gives the new total. */
  lemma {:induction false} Dropping(c: seq<Output>, s: seq<Output>, outs: seq<Output>, m: Measure, v: u64)
    requires Distinct(c) && Distinct(s + outs) && Subset(outs, c)
    requires v == Total(Unspent(c, s), m)
    ensures DropAll(v, outs, m) == Total(Unspent(c, s + outs), m)
    ensures Total(Unspent(c, s), m) == Total(Unspent(c, s + outs), m) + Total(outs, m)
    decreases |outs|
  {
    hide Weight, Unspent, Distinct;
    if outs == [] {
      assert s + outs == s;
    } else {
      var init, o := outs[..|outs| - 1], outs[|outs| - 1];
      assert s + outs == (s + init) + [o];
      LastIsNew(s + init, o);
      assert o in outs;
      Dropping(c, s, init, m, v);
      SpendingOne(c, s + init, o, m);
    }
  }

  /** The invariant of every run: a counter is the total of what is unspent. */
  lemma {:induction false} CounterIsUnspent(h: seq<Event>, m: Measure)
    requires WellFormed(h)
    ensures Counter(h, m) == Total(Unspent(CreatedBy(h), SpentBy(h)), m)
    ensures Distinct(CreatedBy(h)) && Distinct(SpentBy(h)) && Subset(SpentBy(h), CreatedBy(h))
  {
    if h != [] {
      var init, e := h[..|h| - 1], h[|h| - 1];
      hide Weight, Total, Unspent, Distinct, BumpAll, DropAll, TotalsFit;
      var c, s := CreatedBy(init), SpentBy(init);
      CounterIsUnspent(init, m);
      Fits(c + e.created, s, m);
      Bumping(c, s, e.created, m, Counter(init, m));
      Dropping(c + e.created, s, e.spent, m, BumpAll(Counter(init, m), e.created, m));
    }
  }

  /** No subtraction of a well-formed run is cut off at zero, and no addition wraps. */
  lemma NeverSaturates(init: seq<Event>, e: Event, m: Measure, k: nat)
    requires WellFormed(init + [e]) && k < |e.spent|
    ensures Weight(m, e.spent[k]) <= DropAll(BumpAll(Counter(init, m), e.created, m), e.spent[..k], m)
  {
    LastEvent(init, e);
    hide Weight, Total, Unspent, Distinct, BumpAll, DropAll, TotalsFit, WellFormed, Counter;
    var c, s := CreatedBy(init), SpentBy(init);
    var v := BumpAll(Counter(init, m), e.created, m);
    CounterIsUnspent(init, m);
    Fits(c + e.created, s, m);
    Bumping(c, s, e.created, m, Counter(init, m));
    SplitAt(s, e.spent, k);
    InSplit(e.spent, k, c + e.created);
    NoSaturation(c + e.created, s, e.spent[..k], e.spent[k], e.spent[k + 1..], m, v);
  }

  lemma InSplit(outs: seq<Output>, k: nat, among: seq<Output>)
    requires k < |outs| && Subset(outs, among)
    ensures Subset(outs[..k], among) && outs[k] in among
  {
    assert outs[k] in outs;
  }

  lemma NoSaturation(
    c: seq<Output>, s: seq<Output>, before: seq<Output>, o: Output, more: seq<Output>, m: Measure, v: u64)
    requires Distinct(c) && Distinct(((s + before) + [o]) + more) && Subset(before, c) && o in c
    requires v == Total(Unspent(c, s), m)
    ensures Weight(m, o) <= DropAll(v, before, m)
  {
    hide *;
    DistinctPrefix((s + before) + [o], more);
    LastIsNew(s + before, o);
    Dropping(c, s, before, m, v);
    SpendingOne(c, s + before, o, m);
  }

  lemma NeverWraps(init: seq<Event>, e: Event, m: Measure, k: nat)
    requires WellFormed(init + [e]) && k < |e.created|
    ensures BumpAll(Counter(init, m), e.created[..k], m) + Weight(m, e.created[k]) < TWO_64
  {
    LastEvent(init, e);
    hide Weight, Total, Unspent, Distinct, BumpAll, TotalsFit, WellFormed, Counter;
    var c, s := CreatedBy(init), SpentBy(init);
    CounterIsUnspent(init, m);
    Fits(c + e.created, s, m);
    SplitAt(c, e.created, k);
    NoWrap(c, s, e.created[..k], e.created[k], e.created[k + 1..], m, Counter(init, m));
  }

  lemma SplitAt(c: seq<Output>, outs: seq<Output>, k: nat)
    requires k < |outs|
    ensures c + outs == ((c + outs[..k]) + [outs[k]]) + outs[k + 1..]
  {
  }

  lemma NoWrap(
    c: seq<Output>, s: seq<Output>, before: seq<Output>, o: Output, more: seq<Output>, m: Measure, v: u64)
    requires Distinct(((c + before) + [o]) + more) && Subset(s, c)
    requires v == Total(Unspent(c, s), m) && Total(Unspent(((c + before) + [o]) + more, s), m) < TWO_64
    ensures BumpAll(v, before, m) + Weight(m, o) < TWO_64
  {
    hide *;
    DistinctPrefix((c + before) + [o], more);
    LastIsNew(c + before, o);
    NotAmong(s, c, before, o);
    UnspentGrows((c + before) + [o], s, more, m);
    UnspentAppend(c + before, s, o);
    TotalAppend(Unspent(c + before, s), o, m);
    Bumping(c, s, before, m, v);
  }

  lemma NotAmong(s: seq<Output>, c: seq<Output>, before: seq<Output>, o: Output)
    requires Subset(s, c) && o !in c + before
    ensures o !in s
  {
  }

  lemma LastEvent(init: seq<Event>, e: Event)
    requires WellFormed(init + [e])
    ensures WellFormed(init)
    ensures Distinct(CreatedBy(init) + e.created) && Distinct(SpentBy(init) + e.spent)
    ensures Subset(e.spent, CreatedBy(init) + e.created)
    ensures TotalsFit(CreatedBy(init) + e.created, SpentBy(init))
  {
    hide Distinct, Subset, TotalsFit;
    assert (init + [e])[..|init|] == init;
  }

  lemma DistinctPrefix(a: seq<Output>, b: seq<Output>)
    requires Distinct(a + b)
    ensures Distinct(a)
  {
    forall i, j | 0 <= i < j < |a|
      ensures a[i] != a[j]
    {
      assert (a + b)[i] == a[i] && (a + b)[j] == a[j];
    }
  }

  lemma {:induction false} UnspentGrows(c: seq<Output>, s: seq<Output>, more: seq<Output>, m: Measure)
    ensures Total(Unspent(c, s), m) <= Total(Unspent(c + more, s), m)
    decreases |more|
  {
    hide Weight, Total, Unspent;
    if more == [] {
      assert c + more == c;
    } else {
      var init, o := more[..|more| - 1], more[|more| - 1];
      UnspentGrows(c, s, init, m);
      assert c + more == (c + init) + [o];
      UnspentAppend(c + init, s, o);
      TotalAppend(Unspent(c + init, s), o, m);
    }
  }

  /** Histories of this kind exist: any output can be created and then spent. */
  lemma CreatedThenSpent(o: Output)
    ensures WellFormed([Event([o], []), Event([], [o])])
  {
    var e, f := Event([o], []), Event([], [o]);
    OneFits(o);
    hide TotalsFit, Total, Unspent;
    assert [e, f][..1] == [e] && [e][..0] == [];
    assert CreatedBy([]) + [o] == [o] && SpentBy([]) + [] == [];
    assert CreatedBy([e]) == [o] && SpentBy([e]) == [];
    assert WellFormed([e]);
    assert [o] + [] == [o] && [] + [o] == [o];
  }

  lemma OneFits(o: Output)
    ensures TotalsFit([o], [])
  {
    assert Unspent([o], []) == [o] by { assert [o][..0] == []; }
    OneTotal(o, Night);
    OneTotal(o, Dust);
    OneTotal(o, Count);
    OneTotal(o, Registered);
    hide Weight, Total, Unspent;
  }

  lemma OneTotal(o: Output, m: Measure)
    ensures Total([o], m) == Weight(m, o)
  {
    hide Weight;
    assert [o][..0] == [];
  }
}
