/**
 Reservations of outpoints by pending transactions, with an expiry per entry. Over every run
 of operations a reservation excludes other transactions until it expires or its owner acts,
 and it never matters when expired entries are erased.
 */
module Reservations {
  import opened Bytes
  import opened Options
  import opened Text

  datatype UtxoInput = UtxoInput(outpoint: string, index: u32, address: string)

  datatype Reservation = Reservation(tx: string, expiry: u64)

  type Table = map<string, Reservation>

  function OutpointKey(input: UtxoInput): string {
    input.outpoint + [':'] + Decimal(input.index)
  }

  /** The key keeps outpoint and index apart, colons in the outpoint notwithstanding. */
  lemma KeyInjective(a: UtxoInput, b: UtxoInput)
    requires OutpointKey(a) == OutpointKey(b)
    ensures a.outpoint == b.outpoint && a.index == b.index
  {
    DecimalDigits(a.index);
    DecimalDigits(b.index);
    DecimalRoundTrip(a.index);
    DecimalRoundTrip(b.index);
    hide OutpointKey, Decimal, ParseUnsigned, AllDigits, Numeral;
    SameTail(a.outpoint, Decimal(a.index), b.outpoint, Decimal(b.index)) by {
      KeyParts(a);
      KeyParts(b);
    }
  }

  lemma KeyParts(a: UtxoInput)
    ensures OutpointKey(a) == a.outpoint + [':'] + Decimal(a.index)
  {
    hide Decimal;
  }

  lemma SameTail(x: string, d: string, y: string, e: string)
    requires x + [':'] + d == y + [':'] + e
    requires forall i :: 0 <= i < |d| ==> '0' <= d[i] <= '9'
    requires forall i :: 0 <= i < |e| ==> '0' <= e[i] <= '9'
    ensures x == y && d == e
  {
    var s := x + [':'] + d;
    LastColon(x, d);
    LastColon(y, e);
    assert s[|x|] == ':' && s[|y|] == ':';
    assert |x| == |y|;
    assert x == s[..|x|] == y;
    assert d == s[|x| + 1..] == e;
  }

  lemma LastColon(x: string, d: string)
    requires forall i :: 0 <= i < |d| ==> '0' <= d[i] <= '9'
    ensures forall i :: |x| < i < |x + [':'] + d| ==> (x + [':'] + d)[i] != ':'
  {
    var s := x + [':'] + d;
    forall i | |x| < i < |s|
      ensures s[i] != ':'
    {
      assert s[i] == d[i - |x| - 1];
    }
  }

  // ---------------------------------------------------------------------------
  // Operations on the table
  // ---------------------------------------------------------------------------

  /** The entry of an outpoint if it has not expired. */
  function Live(m: Table, key: string, now: u64): Option<Reservation> {
    if key in m && now <= m[key].expiry then Some(m[key]) else None
  }

  /** Whether a live entry belongs to somebody else; an empty exclusion excludes nobody. */
  predicate IsReservedAt(m: Table, key: string, exclude: string, now: u64) {
    var live := Live(m, key, now);
    live.Some? && !(exclude != "" && live.value.tx == exclude)
  }

  function Purged(m: Table, now: u64): Table {
    map k | k in m && now <= m[k].expiry :: m[k]
  }

  function Released(m: Table, tx: string): Table {
    map k | k in m && m[k].tx != tx :: m[k]
  }

  /** When expired entries leave the table: on being looked up, all at every look-up, or never. */
  datatype Policy = Lazy | Eager | Never

  /** The table after key was looked up. */
  function AfterRead(p: Policy, m: Table, key: string, now: u64): Table {
    match p
    case Lazy => if key in m && now > m[key].expiry then m - {key} else m
    case Eager => Purged(m, now)
    case Never => m
  }

  datatype Reply = Reply(ok: bool, table: Table)

  /** Reserves key after key, each looked up at its own time; what was reserved before a failure stays. */
  function ReserveAll(p: Policy, m: Table, keys: seq<string>, tx: string, expiry: u64, clock: seq<u64>): Reply
    requires |clock| == |keys|
    decreases |keys|
  {
    if keys == [] then Reply(true, m)
    else
      var read := AfterRead(p, m, keys[0], clock[0]);
      if IsReservedAt(m, keys[0], tx, clock[0]) then Reply(false, read)
      else ReserveAll(p, read[keys[0] := Reservation(tx, expiry)], keys[1..], tx, expiry, clock[1..])
  }

  function Expiry(now: u64, ttl: u64): u64 {
    (now + ttl) % TWO_64
  }

  // ---------------------------------------------------------------------------
  // The manager
  // ---------------------------------------------------------------------------

  function Keys(inputs: seq<UtxoInput>): (keys: seq<string>)
    ensures |keys| == |inputs|
    ensures forall i :: 0 <= i < |inputs| ==> keys[i] == OutpointKey(inputs[i])
  {
    if inputs == [] then [] else Keys(inputs[..|inputs| - 1]) + [OutpointKey(inputs[|inputs| - 1])]
  }

  class UtxoSetManager {
    var reserved: Table

    constructor ()
      ensures reserved == map[]
    {
      reserved := map[];
    }

    /** Looks up one outpoint, and erases its entry if that has expired. */
    method IsReserved(key: string, exclude: string, now: u64) returns (r: bool)
      modifies this
      ensures r == IsReservedAt(old(reserved), key, exclude, now)
      ensures reserved == AfterRead(Lazy, old(reserved), key, now)
      ensures r <==> key in old(reserved) && now <= old(reserved)[key].expiry
                     && (exclude == "" || old(reserved)[key].tx != exclude)
      ensures forall k :: k in reserved <==> k in old(reserved) && (k != key || now <= old(reserved)[k].expiry)
    {
      if key !in reserved {
        return false;
      }
      if now > reserved[key].expiry {
        reserved := reserved - {key};
        return false;
      }
      if exclude != "" && reserved[key].tx == exclude {
        return false;
      }
      r := true;
    }

    /** start is the clock when the call begins, clock what it shows at each look-up. */
    method ReserveUtxos(inputs: seq<UtxoInput>, tx: string, ttl: u64, start: u64, clock: seq<u64>)
      returns (ok: bool)
      requires |clock| == |inputs|
      modifies this
      ensures Reply(ok, reserved) == ReserveAll(Lazy, old(reserved), Keys(inputs), tx, Expiry(start, ttl), clock)
    {
      hide AfterRead, IsReservedAt, Keys, ReserveAll, OutpointKey, Expiry;
      var expiry := Expiry(start, ttl);
      ghost var keys := Keys(inputs);
      var i := 0;
      assert keys[0..] == keys && clock[0..] == clock;
      while i < |inputs|
        invariant i <= |inputs|
        invariant ReserveAll(Lazy, old(reserved), keys, tx, expiry, clock)
          == ReserveAll(Lazy, reserved, keys[i..], tx, expiry, clock[i..])
      {
        var key := OutpointKey(inputs[i]);
        ReserveNext(Lazy, reserved, keys[i..], tx, expiry, clock[i..]);
        assert keys[i..][1..] == keys[i + 1..] && clock[i..][1..] == clock[i + 1..];
        var taken := IsReserved(key, tx, clock[i]);
        if taken {
          return false;
        }
        reserved := reserved[key := Reservation(tx, expiry)];
        i := i + 1;
      }
      assert keys[i..] == [] && clock[i..] == [];
      ReserveNone(Lazy, reserved, tx, expiry);
      ok := true;
    }

    /** Collects the entries of tx, then erases them. */
    method ReleaseReserved(tx: string)
      modifies this
      ensures reserved == Released(old(reserved), tx)
      ensures forall k :: k in reserved <==> k in old(reserved) && old(reserved)[k].tx != tx
    {
      var toRemove: set<string> := {};
      var left := reserved.Keys;
      while left != {}
        invariant left <= reserved.Keys && reserved == old(reserved)
        invariant forall k :: k in toRemove <==> k in reserved.Keys - left && reserved[k].tx == tx
        decreases |left|
      {
        var k :| k in left;
        if reserved[k].tx == tx {
          toRemove := toRemove + {k};
        }
        left := left - {k};
      }
      reserved := reserved - toRemove;
    }

    method CleanupExpired(now: u64)
      modifies this
      ensures reserved == Purged(old(reserved), now)
      ensures forall k :: k in reserved <==> k in old(reserved) && now <= old(reserved)[k].expiry
    {
      var expired: set<string> := {};
      var left := reserved.Keys;
      while left != {}
        invariant left <= reserved.Keys && reserved == old(reserved)
        invariant forall k :: k in expired <==> k in reserved.Keys - left && now > reserved[k].expiry
        decreases |left|
      {
        var k :| k in left;
        if now > reserved[k].expiry {
          expired := expired + {k};
        }
        left := left - {k};
      }
      reserved := reserved - expired;
    }
  }

  lemma ReserveNext(p: Policy, m: Table, keys: seq<string>, tx: string, expiry: u64, clock: seq<u64>)
    requires |clock| == |keys| > 0
    ensures var read := AfterRead(p, m, keys[0], clock[0]);
            ReserveAll(p, m, keys, tx, expiry, clock)
            == if IsReservedAt(m, keys[0], tx, clock[0]) then Reply(false, read)
               else ReserveAll(p, read[keys[0] := Reservation(tx, expiry)], keys[1..], tx, expiry, clock[1..])
  {
    hide AfterRead, IsReservedAt;
  }

  lemma ReserveNone(p: Policy, m: Table, tx: string, expiry: u64)
    ensures ReserveAll(p, m, [], tx, expiry, []) == Reply(true, m)
  {
  }

  // ---------------------------------------------------------------------------
  // Runs
  // ---------------------------------------------------------------------------

  datatype Op =
    | Reserve(keys: seq<string>, owner: string, ttl: u64, start: u64, clock: seq<u64>)
    | Release(owner: string)
    | Query(key: string, exclude: string, now: u64)
    | Cleanup(now: u64)

  /** The readings of one operation do not run backwards; end is its last. */
  predicate OpTimed(op: Op, from: u64) {
    match op
    case Reserve(keys, _, _, start, clock) =>
      && |clock| == |keys| && from <= start
      && Ascending(clock, start)
    case Release(_) => true
    case Query(_, _, now) => from <= now
    case Cleanup(now) => from <= now
  }

  predicate Ascending(clock: seq<u64>, from: u64) {
    clock == [] || (from <= clock[0] && Ascending(clock[1..], clock[0]))
  }

  function LastTick(clock: seq<u64>, from: u64): u64 {
    if clock == [] then from else LastTick(clock[1..], clock[0])
  }

  function OpEnd(op: Op, from: u64): u64 {
    match op
    case Reserve(_, _, _, start, clock) => LastTick(clock, start)
    case Release(_) => from
    case Query(_, _, now) => now
    case Cleanup(now) => now
  }

  predicate Timed(ops: seq<Op>, from: u64) {
    ops == [] || (OpTimed(ops[0], from) && Timed(ops[1..], OpEnd(ops[0], from)))
  }

  function RunEnd(ops: seq<Op>, from: u64): u64 {
    if ops == [] then from else RunEnd(ops[1..], OpEnd(ops[0], from))
  }

  /** The answer and the table after one operation; without a policy of erasing, cleaning up does nothing. */
  function Step(p: Policy, m: Table, op: Op): Reply
    requires op.Reserve? ==> |op.clock| == |op.keys|
  {
    match op
    case Reserve(keys, owner, ttl, start, clock) => ReserveAll(p, m, keys, owner, Expiry(start, ttl), clock)
    case Release(owner) => Reply(true, Released(m, owner))
    case Query(key, exclude, now) => Reply(IsReservedAt(m, key, exclude, now), AfterRead(p, m, key, now))
    case Cleanup(now) => Reply(true, if p == Never then m else Purged(m, now))
  }

  /** All answers of a run. */
  function Answers(p: Policy, m: Table, ops: seq<Op>, from: u64): (a: seq<bool>)
    requires Timed(ops, from)
    ensures |a| == |ops|
    decreases |ops|
  {
    if ops == [] then []
    else
      var reply := Step(p, m, ops[0]);
      [reply.ok] + Answers(p, reply.table, ops[1..], OpEnd(ops[0], from))
  }

  function AfterRun(p: Policy, m: Table, ops: seq<Op>, from: u64): Table
    requires Timed(ops, from)
    decreases |ops|
  {
    if ops == [] then m else AfterRun(p, Step(p, m, ops[0]).table, ops[1..], OpEnd(ops[0], from))
  }

  // ---------------------------------------------------------------------------
  // When expired entries are erased does not matter
  // ---------------------------------------------------------------------------

  /** The tables have the same live entries at a time, and so at every later one. */
  ghost predicate SameFrom(a: Table, b: Table, now: u64) {
    forall k :: Live(a, k, now) == Live(b, k, now)
  }

  lemma SameLater(a: Table, b: Table, now: u64, later: u64)
    requires SameFrom(a, b, now) && now <= later
    ensures SameFrom(a, b, later)
  {
    forall k
      ensures Live(a, k, later) == Live(b, k, later)
    {
      assert Live(a, k, now) == Live(b, k, now);
    }
  }

  lemma ReadKeepsLive(p: Policy, m: Table, key: string, now: u64)
    ensures SameFrom(AfterRead(p, m, key, now), m, now)
  {
  }

  lemma SameTrans(a: Table, b: Table, c: Table, now: u64)
    requires SameFrom(a, b, now) && SameFrom(b, c, now)
    ensures SameFrom(a, c, now) && SameFrom(c, a, now)
  {
    hide Live;
    forall k
      ensures Live(a, k, now) == Live(c, k, now)
    {
      assert Live(a, k, now) == Live(b, k, now) && Live(b, k, now) == Live(c, k, now);
    }
  }

  lemma SameAfterReads(p: Policy, q: Policy, a: Table, b: Table, key: string, exclude: string, now: u64)
    requires SameFrom(a, b, now)
    ensures SameFrom(AfterRead(p, a, key, now), AfterRead(q, b, key, now), now)
    ensures IsReservedAt(a, key, exclude, now) == IsReservedAt(b, key, exclude, now)
  {
    hide AfterRead, Live;
    ReadKeepsLive(p, a, key, now);
    ReadKeepsLive(q, b, key, now);
    SameTrans(AfterRead(p, a, key, now), a, b, now);
    SameTrans(AfterRead(q, b, key, now), b, b, now);
    SameTrans(AfterRead(p, a, key, now), b, AfterRead(q, b, key, now), now);
    assert Live(a, key, now) == Live(b, key, now);
  }

  lemma SameAfterInsert(a: Table, b: Table, key: string, r: Reservation, now: u64)
    requires SameFrom(a, b, now)
    ensures SameFrom(a[key := r], b[key := r], now)
  {
    var c, d := a[key := r], b[key := r];
    forall k
      ensures Live(c, k, now) == Live(d, k, now)
    {
      assert Live(a, k, now) == Live(b, k, now);
    }
  }

  lemma SameAfterRelease(a: Table, b: Table, tx: string, now: u64)
    requires SameFrom(a, b, now)
    ensures SameFrom(Released(a, tx), Released(b, tx), now)
  {
    forall k
      ensures Live(Released(a, tx), k, now) == Live(Released(b, tx), k, now)
    {
      assert Live(a, k, now) == Live(b, k, now);
    }
  }

  lemma SameAfterCleanup(p: Policy, q: Policy, a: Table, b: Table, now: u64)
    requires SameFrom(a, b, now)
    ensures SameFrom(Step(p, a, Cleanup(now)).table, Step(q, b, Cleanup(now)).table, now)
  {
    forall k
      ensures Live(Step(p, a, Cleanup(now)).table, k, now) == Live(Step(q, b, Cleanup(now)).table, k, now)
    {
      assert Live(a, k, now) == Live(b, k, now);
    }
  }

  lemma {:induction false} SameReserves(
    p: Policy, q: Policy, a: Table, b: Table, keys: seq<string>, tx: string, expiry: u64, clock: seq<u64>, from: u64)
    requires |clock| == |keys| && Ascending(clock, from) && SameFrom(a, b, from)
    ensures var r, s := ReserveAll(p, a, keys, tx, expiry, clock), ReserveAll(q, b, keys, tx, expiry, clock);
            r.ok == s.ok && SameFrom(r.table, s.table, LastTick(clock, from))
    decreases |keys|
  {
    hide SameFrom, IsReservedAt, AfterRead;
    if keys != [] {
      var now := clock[0];
      SameLater(a, b, from, now);
      SameAfterReads(p, q, a, b, keys[0], tx, now);
      var c, d := AfterRead(p, a, keys[0], now), AfterRead(q, b, keys[0], now);
      if IsReservedAt(a, keys[0], tx, now) {
        LastTickLater(clock[1..], now);
        SameLater(c, d, now, LastTick(clock, from));
      } else {
        SameAfterInsert(c, d, keys[0], Reservation(tx, expiry), now);
        SameReserves(p, q, c[keys[0] := Reservation(tx, expiry)], d[keys[0] := Reservation(tx, expiry)],
                     keys[1..], tx, expiry, clock[1..], now);
      }
    }
  }

  lemma {:induction false} LastTickLater(clock: seq<u64>, from: u64)
    requires Ascending(clock, from)
    ensures from <= LastTick(clock, from)
    decreases |clock|
  {
    if clock != [] {
      LastTickLater(clock[1..], clock[0]);
    }
  }

  lemma SameSteps(p: Policy, q: Policy, a: Table, b: Table, op: Op, from: u64)
    requires OpTimed(op, from) && SameFrom(a, b, from)
    ensures Step(p, a, op).ok == Step(q, b, op).ok
    ensures SameFrom(Step(p, a, op).table, Step(q, b, op).table, OpEnd(op, from))
  {
    hide SameFrom, IsReservedAt, AfterRead, ReserveAll, Released, Purged, Expiry;
    match op
    case Reserve(keys, owner, ttl, start, clock) =>
      SameLater(a, b, from, start);
      SameReserves(p, q, a, b, keys, owner, Expiry(start, ttl), clock, start);
    case Release(owner) =>
      SameAfterRelease(a, b, owner, from);
    case Query(key, exclude, now) =>
      SameLater(a, b, from, now);
      SameAfterReads(p, q, a, b, key, exclude, now);
    case Cleanup(now) =>
      SameLater(a, b, from, now);
      SameAfterCleanup(p, q, a, b, now);
  }

  /** Lazily, eagerly or never: every run gives the same answers. */
  lemma {:induction false} PoliciesAgree(p: Policy, q: Policy, a: Table, b: Table, ops: seq<Op>, from: u64)
    requires Timed(ops, from) && SameFrom(a, b, from)
    ensures Answers(p, a, ops, from) == Answers(q, b, ops, from)
    decreases |ops|
  {
    hide SameFrom, Step;
    if ops != [] {
      SameSteps(p, q, a, b, ops[0], from);
      PoliciesAgree(p, q, Step(p, a, ops[0]).table, Step(q, b, ops[0]).table, ops[1..], OpEnd(ops[0], from));
    }
  }

  // ---------------------------------------------------------------------------
  // Exclusion
  // ---------------------------------------------------------------------------

  predicate Holds(m: Table, key: string, r: Reservation) {
    key in m && m[key] == r
  }

  /** Whether a call to reserve is the owner's; an empty name owns nothing when it asks again. */
  predicate ByOwner(tx: string, owner: string) {
    tx == owner && tx != ""
  }

  /** The owner neither releases its reservations nor reserves this outpoint again. */
  predicate Spares(op: Op, owner: string, key: string) {
    match op
    case Reserve(keys, tx, _, _, _) => !ByOwner(tx, owner) || key !in keys
    case Release(tx) => tx != owner
    case Query(_, _, _) => true
    case Cleanup(_) => true
  }

  predicate AllSpare(ops: seq<Op>, owner: string, key: string) {
    forall i :: 0 <= i < |ops| ==> Spares(ops[i], owner, key)
  }

  lemma ReadKeepsHeld(p: Policy, m: Table, key: string, r: Reservation, other: string, now: u64)
    requires Holds(m, key, r) && now <= r.expiry
    ensures Holds(AfterRead(p, m, other, now), key, r)
  {
  }

  lemma HeldIsReserved(m: Table, key: string, r: Reservation, exclude: string, now: u64)
    requires Holds(m, key, r) && now <= r.expiry
    ensures IsReservedAt(m, key, exclude, now) <==> exclude == "" || exclude != r.tx
  {
  }

  lemma {:induction false} ReserveKeepsHeld(
    p: Policy, m: Table, key: string, r: Reservation, keys: seq<string>, tx: string, expiry: u64,
    clock: seq<u64>, from: u64)
    requires |clock| == |keys| && Ascending(clock, from) && LastTick(clock, from) <= r.expiry
    requires Holds(m, key, r) && (!ByOwner(tx, r.tx) || key !in keys)
    ensures Holds(ReserveAll(p, m, keys, tx, expiry, clock).table, key, r)
    ensures key in keys ==> !ReserveAll(p, m, keys, tx, expiry, clock).ok
    decreases |keys|
  {
    hide IsReservedAt, AfterRead;
    if keys != [] {
      var now := clock[0];
      LastTickLater(clock[1..], now);
      ReadKeepsHeld(p, m, key, r, keys[0], now);
      HeldIsReserved(m, key, r, tx, now);
      if !IsReservedAt(m, keys[0], tx, now) {
        assert keys[0] != key && (key in keys[1..] ==> key in keys);
        var next := AfterRead(p, m, keys[0], now)[keys[0] := Reservation(tx, expiry)];
        ReserveKeepsHeld(p, next, key, r, keys[1..], tx, expiry, clock[1..], now);
      }
    }
  }

  lemma StepKeepsHeld(p: Policy, m: Table, key: string, r: Reservation, op: Op, from: u64)
    requires OpTimed(op, from) && OpEnd(op, from) <= r.expiry && Holds(m, key, r) && Spares(op, r.tx, key)
    ensures Holds(Step(p, m, op).table, key, r)
    ensures op.Reserve? && key in op.keys ==> !Step(p, m, op).ok
    ensures op.Query? && op.key == key ==> (Step(p, m, op).ok <==> op.exclude == "" || op.exclude != r.tx)
  {
    hide IsReservedAt, AfterRead, ReserveAll;
    match op
    case Reserve(keys, owner, ttl, start, clock) =>
      ReserveKeepsHeld(p, m, key, r, keys, owner, Expiry(start, ttl), clock, start);
    case Release(owner) =>
    case Query(k, exclude, now) =>
      ReadKeepsHeld(p, m, key, r, k, now);
      if k == key {
        HeldIsReserved(m, key, r, exclude, now);
      }
    case Cleanup(now) =>
  }

  lemma {:induction false} RunEndLater(ops: seq<Op>, from: u64)
    requires Timed(ops, from)
    ensures from <= RunEnd(ops, from)
    decreases |ops|
  {
    if ops != [] {
      EndLater(ops[0], from);
      RunEndLater(ops[1..], OpEnd(ops[0], from));
    }
  }

  lemma EndLater(op: Op, from: u64)
    requires OpTimed(op, from)
    ensures from <= OpEnd(op, from)
  {
    if op.Reserve? {
      LastTickLater(op.clock, op.start);
    }
  }

  /**
   Until it expires, a reservation survives every run in which its owner neither releases nor
   reserves this outpoint again, and in that run nobody is granted the outpoint.
   */
  lemma {:induction false} ReservationExcludes(
    p: Policy, m: Table, key: string, r: Reservation, ops: seq<Op>, from: u64)
    requires Timed(ops, from) && RunEnd(ops, from) <= r.expiry
    requires Holds(m, key, r) && AllSpare(ops, r.tx, key)
    ensures Holds(AfterRun(p, m, ops, from), key, r)
    ensures forall i :: 0 <= i < |ops| && ops[i].Reserve? && key in ops[i].keys ==> !Answers(p, m, ops, from)[i]
    ensures forall i :: 0 <= i < |ops| && ops[i].Query? && ops[i].key == key && ops[i].exclude != r.tx ==>
              Answers(p, m, ops, from)[i]
    decreases |ops|
  {
    hide Step, Holds, Spares;
    if ops != [] {
      var end := OpEnd(ops[0], from);
      RunEndLater(ops[1..], end);
      assert Spares(ops[0], r.tx, key);
      StepKeepsHeld(p, m, key, r, ops[0], from);
      SpareTail(ops, r.tx, key);
      ReservationExcludes(p, Step(p, m, ops[0]).table, key, r, ops[1..], end);
      AnswersTail(p, m, ops, from);
    }
  }

  /** The answers behind the first are those of the rest of the run. */
  lemma AnswersTail(p: Policy, m: Table, ops: seq<Op>, from: u64)
    requires Timed(ops, from) && ops != []
    ensures Answers(p, m, ops, from)[0] == Step(p, m, ops[0]).ok
    ensures forall i :: 0 < i < |ops| ==>
              && ops[i] == ops[1..][i - 1]
              && Answers(p, m, ops, from)[i]
                 == Answers(p, Step(p, m, ops[0]).table, ops[1..], OpEnd(ops[0], from))[i - 1]
  {
    hide Step;
  }

  lemma SpareTail(ops: seq<Op>, owner: string, key: string)
    requires ops != [] && AllSpare(ops, owner, key)
    ensures AllSpare(ops[1..], owner, key)
  {
    hide Spares;
    forall i | 0 <= i < |ops| - 1
      ensures Spares(ops[1..][i], owner, key)
    {
      assert ops[1..][i] == ops[i + 1];
    }
  }

  /** A granted reservation holds every outpoint asked for, with the expiry of the call. */
  lemma {:induction false} GrantedHolds(
    p: Policy, m: Table, keys: seq<string>, tx: string, expiry: u64, clock: seq<u64>, from: u64, key: string)
    requires |clock| == |keys| && Ascending(clock, from) && LastTick(clock, from) <= expiry
    requires ReserveAll(p, m, keys, tx, expiry, clock).ok
    requires key in keys || Holds(m, key, Reservation(tx, expiry))
    ensures Holds(ReserveAll(p, m, keys, tx, expiry, clock).table, key, Reservation(tx, expiry))
    decreases |keys|
  {
    hide IsReservedAt, AfterRead;
    if keys != [] {
      var now, r := clock[0], Reservation(tx, expiry);
      LastTickLater(clock[1..], now);
      var read := AfterRead(p, m, keys[0], now);
      if Holds(m, key, r) {
        ReadKeepsHeld(p, m, key, r, keys[0], now);
      }
      assert key in keys ==> key == keys[0] || key in keys[1..];
      GrantedHolds(p, read[keys[0] := r], keys[1..], tx, expiry, clock[1..], now, key);
    }
  }

  /**
   A reservation granted at start for ttl milliseconds keeps others out until start + ttl, that
   moment included, and not longer. The sum must fit 64 bits: otherwise it wraps, and the
   reservation expires in the past.
   */
  lemma ReservedUntil(
    p: Policy, m: Table, keys: seq<string>, tx: string, ttl: u64, start: u64, clock: seq<u64>, key: string,
    exclude: string, now: u64)
    requires |clock| == |keys| && Ascending(clock, start) && key in keys
    requires LastTick(clock, start) <= Expiry(start, ttl) && ReserveAll(p, m, keys, tx, Expiry(start, ttl), clock).ok
    requires exclude == "" || exclude != tx
    ensures var table := ReserveAll(p, m, keys, tx, Expiry(start, ttl), clock).table;
            IsReservedAt(table, key, exclude, now) <==> now <= (start + ttl) % TWO_64
    ensures start + ttl < TWO_64 ==>
      (IsReservedAt(ReserveAll(p, m, keys, tx, Expiry(start, ttl), clock).table, key, exclude, now)
       <==> now <= start + ttl)
  {
    hide ReserveAll;
    GrantedHolds(p, m, keys, tx, Expiry(start, ttl), clock, start, key);
  }

  /** Releasing frees what the transaction held, and nothing else. */
  lemma ReleaseFrees(m: Table, tx: string, key: string, exclude: string, now: u64)
    ensures IsReservedAt(Released(m, tx), key, exclude, now)
       <==> IsReservedAt(m, key, exclude, now) && m[key].tx != tx
  {
  }

  // ---------------------------------------------------------------------------
  // The owner's own reservations
  // ---------------------------------------------------------------------------

  predicate HeldBy(m: Table, key: string, owner: string) {
    key in m && m[key].tx == owner
  }

  /** Reserving again, the owner keeps the outpoint; once the call has succeeded, with the new expiry. */
  lemma {:induction false} OwnerReserves(
    p: Policy, m: Table, key: string, r: Reservation, keys: seq<string>, expiry: u64, clock: seq<u64>, from: u64)
    requires |clock| == |keys| && Ascending(clock, from)
    requires LastTick(clock, from) <= r.expiry && LastTick(clock, from) <= expiry
    requires Holds(m, key, r) && r.tx != ""
    ensures var reply := ReserveAll(p, m, keys, r.tx, expiry, clock);
            && (Holds(reply.table, key, r) || Holds(reply.table, key, Reservation(r.tx, expiry)))
            && (reply.ok && key in keys ==> Holds(reply.table, key, Reservation(r.tx, expiry)))
    decreases |keys|
  {
    hide IsReservedAt, AfterRead;
    if keys != [] {
      var now := clock[0];
      LastTickLater(clock[1..], now);
      ReadKeepsHeld(p, m, key, r, keys[0], now);
      HeldIsReserved(m, key, r, r.tx, now);
      if !IsReservedAt(m, keys[0], r.tx, now) {
        var again := Reservation(r.tx, expiry);
        var next := AfterRead(p, m, keys[0], now)[keys[0] := again];
        assert key in keys ==> key == keys[0] || key in keys[1..];
        OwnerReserves(p, next, key, if key == keys[0] then again else r, keys[1..], expiry, clock[1..], now);
      }
    }
  }

  /** No reading of the operation passes the expiry, nor the one its owner sets in it. */
  predicate InTime(m: Table, key: string, op: Op, from: u64)
    requires key in m
  {
    && OpEnd(op, from) <= m[key].expiry
    && (op.Reserve? && ByOwner(op.owner, m[key].tx) && key in op.keys ==>
          OpEnd(op, from) <= Expiry(op.start, op.ttl))
  }

  /** The outpoint's entry, as it is from operation to operation, never expires in the run. */
  predicate Unexpired(p: Policy, m: Table, key: string, ops: seq<Op>, from: u64)
    requires Timed(ops, from)
    decreases |ops|
  {
    ops == [] || (key in m && InTime(m, key, ops[0], from)
                  && Unexpired(p, Step(p, m, ops[0]).table, key, ops[1..], OpEnd(ops[0], from)))
  }

  predicate NeverReleased(ops: seq<Op>, owner: string) {
    forall i :: 0 <= i < |ops| && ops[i].Release? ==> ops[i].owner != owner
  }

  lemma OwnerStep(p: Policy, m: Table, key: string, owner: string, op: Op, from: u64)
    requires OpTimed(op, from) && HeldBy(m, key, owner) && InTime(m, key, op, from)
    requires op.Release? ==> op.owner != owner
    ensures HeldBy(Step(p, m, op).table, key, owner)
    ensures op.Reserve? && key in op.keys && !ByOwner(op.owner, owner) ==> !Step(p, m, op).ok
    ensures op.Query? && op.key == key && op.exclude != owner ==> Step(p, m, op).ok
  {
    hide ReserveAll, IsReservedAt, AfterRead;
    var r := m[key];
    if op.Reserve? && ByOwner(op.owner, owner) && key in op.keys {
      OwnerReserves(p, m, key, r, op.keys, Expiry(op.start, op.ttl), op.clock, op.start);
    } else {
      StepKeepsHeld(p, m, key, r, op, from);
    }
  }

  /**
   An outpoint stays its owner's until it expires or the owner releases it, whatever the owner
   reserves meanwhile, the outpoint itself included; and nobody else is granted it.
   */
  lemma {:induction false} OwnerKeeps(p: Policy, m: Table, key: string, owner: string, ops: seq<Op>, from: u64)
    requires Timed(ops, from) && HeldBy(m, key, owner)
    requires Unexpired(p, m, key, ops, from) && NeverReleased(ops, owner)
    ensures HeldBy(AfterRun(p, m, ops, from), key, owner)
    ensures forall i :: 0 <= i < |ops| && ops[i].Reserve? && key in ops[i].keys && !ByOwner(ops[i].owner, owner) ==>
              !Answers(p, m, ops, from)[i]
    ensures forall i :: 0 <= i < |ops| && ops[i].Query? && ops[i].key == key && ops[i].exclude != owner ==>
              Answers(p, m, ops, from)[i]
    decreases |ops|
  {
    hide Step, HeldBy, InTime, ByOwner;
    if ops != [] {
      OwnerStep(p, m, key, owner, ops[0], from);
      ReleaseTail(ops, owner);
      OwnerKeeps(p, Step(p, m, ops[0]).table, key, owner, ops[1..], OpEnd(ops[0], from));
      AnswersTail(p, m, ops, from);
    }
  }

  lemma ReleaseTail(ops: seq<Op>, owner: string)
    requires ops != [] && NeverReleased(ops, owner)
    ensures NeverReleased(ops[1..], owner)
  {
    forall i | 0 <= i < |ops| - 1 && ops[1..][i].Release?
      ensures ops[1..][i].owner != owner
    {
      assert ops[1..][i] == ops[i + 1];
    }
  }
}
