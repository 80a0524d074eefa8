/**
 Duplicate rejection: the transaction builder compares outpoints without their hex prefix,
 the validator compares printed keys. Whatever the builder accepts passes the validator's
 duplicate check, but not the other way round.
 */
module Inputs {
  import opened Bytes
  import opened Options
  import opened Reservations
  import opened Text

  const MAX_INPUTS: nat := 256

  datatype InputError =
    | BadCount | Duplicate(key: string) | MissingFields | DoesNotExist(key: string) | AlreadySpent(key: string)
    | HeldByAnother(key: string) | NotVerified

  predicate SameOutpoint(a: UtxoInput, b: UtxoInput) {
    StripHexPrefix(a.outpoint) == StripHexPrefix(b.outpoint) && a.index == b.index
  }

  predicate Apart(inputs: seq<UtxoInput>) {
    forall i, j :: 0 <= i < j < |inputs| ==> !SameOutpoint(inputs[i], inputs[j])
  }

  predicate KeysDistinct(inputs: seq<UtxoInput>) {
    forall i, j :: 0 <= i < j < |inputs| ==> OutpointKey(inputs[i]) != OutpointKey(inputs[j])
  }

  class TransactionBuilder {
    var inputs: seq<UtxoInput>

    /** No outpoint twice, in whatever spelling. */
    ghost predicate Valid()
      reads this
    {
      Apart(inputs)
    }

    constructor ()
      ensures Valid() && inputs == []
    {
      inputs := [];
    }

    method HasDuplicate(input: UtxoInput) returns (r: bool)
      ensures r <==> exists i :: 0 <= i < |inputs| && SameOutpoint(inputs[i], input)
    {
      var i := 0;
      while i < |inputs|
        invariant i <= |inputs| && forall j :: 0 <= j < i ==> !SameOutpoint(inputs[j], input)
      {
        if SameOutpoint(inputs[i], input) {
          return true;
        }
        i := i + 1;
      }
      r := false;
    }

    /** verified is what the look-up of the output found; without a manager it is true. */
    method AddInput(input: UtxoInput, verified: bool) returns (error: Option<InputError>)
      requires Valid()
      modifies this
      ensures Valid()
      ensures error == None <==> verified && forall i :: 0 <= i < |old(inputs)| ==> !SameOutpoint(old(inputs)[i], input)
      ensures (exists i :: 0 <= i < |old(inputs)| && SameOutpoint(old(inputs)[i], input))
              ==> error == Some(Duplicate(OutpointKey(input)))
      ensures error == Some(NotVerified) <==>
        !verified && forall i :: 0 <= i < |old(inputs)| ==> !SameOutpoint(old(inputs)[i], input)
      ensures error == None ==> inputs == old(inputs) + [input]
      ensures error != None ==> inputs == old(inputs)
    {
      var duplicate := HasDuplicate(input);
      if duplicate {
        return Some(Duplicate(OutpointKey(input)));
      }
      if !verified {
        return Some(NotVerified);
      }
      inputs := inputs + [input];
      error := None;
    }
  }

  /** What the manager knows of an input. */
  datatype Status = Status(exists_: bool, spent: bool, reserved: bool)

  predicate StatusGood(s: Status) {
    s.exists_ && !s.spent && !s.reserved
  }

  predicate InputGood(inputs: seq<UtxoInput>, known: Option<seq<Status>>, i: nat)
    requires i < |inputs| && (known.Some? ==> |known.value| == |inputs|)
  {
    inputs[i].outpoint != "" && inputs[i].address != "" && (known.Some? ==> StatusGood(known.value[i]))
  }

  /** What is wrong with input i, the first defect in the order of the checks. */
  predicate FailsWith(inputs: seq<UtxoInput>, known: Option<seq<Status>>, i: nat, error: InputError)
    requires i < |inputs| && (known.Some? ==> |known.value| == |inputs|)
  {
    var named := inputs[i].outpoint != "" && inputs[i].address != "";
    match error
    case MissingFields => !named
    case DoesNotExist(key) =>
      named && key == OutpointKey(inputs[i]) && known.Some? && !known.value[i].exists_
    case AlreadySpent(key) =>
      named && key == OutpointKey(inputs[i]) && known.Some? && known.value[i].exists_ && known.value[i].spent
    case HeldByAnother(key) =>
      && named && key == OutpointKey(inputs[i]) && known.Some?
      && known.value[i].exists_ && !known.value[i].spent && known.value[i].reserved
    case _ => false
  }

  /** Input j is the first whose key came before. */
  predicate RepeatsAt(inputs: seq<UtxoInput>, j: nat, key: string) {
    && j < |inputs| && KeysDistinct(inputs[..j]) && OutpointKey(inputs[j]) == key
    && exists i :: 0 <= i < j && OutpointKey(inputs[i]) == key
  }

  /** known is none without a manager. */
  method ValidateInputs(inputs: seq<UtxoInput>, known: Option<seq<Status>>) returns (error: Option<InputError>)
    requires known.Some? ==> |known.value| == |inputs|
    ensures error == Some(BadCount) <==> |inputs| == 0 || |inputs| > 256
    ensures error.Some? && error.value.Duplicate? <==> 0 < |inputs| <= MAX_INPUTS && !KeysDistinct(inputs)
    ensures error == None <==> 0 < |inputs| <= MAX_INPUTS && KeysDistinct(inputs)
                               && forall i :: 0 <= i < |inputs| ==> InputGood(inputs, known, i)
    ensures error == None ==> forall i :: 0 <= i < |inputs| ==>
      && inputs[i].outpoint != "" && inputs[i].address != ""
      && (known.Some? ==> known.value[i].exists_ && !known.value[i].spent && !known.value[i].reserved)
    ensures error.Some? && error.value.Duplicate? ==> exists j :: RepeatsAt(inputs, j, error.value.key)
    ensures error.Some? && !error.value.BadCount? && !error.value.Duplicate? ==>
      exists i :: 0 <= i < |inputs| && FailsWith(inputs, known, i, error.value)
                  && forall j :: 0 <= j < i ==> InputGood(inputs, known, j)
  {
    hide OutpointKey;
    if |inputs| == 0 || |inputs| > MAX_INPUTS {
      return Some(BadCount);
    }
    var seen: set<string> := {};
    var i := 0;
    while i < |inputs|
      invariant i <= |inputs|
      invariant forall k :: k in seen <==> exists j :: 0 <= j < i && OutpointKey(inputs[j]) == k
      invariant forall j, l :: 0 <= j < l < i ==> OutpointKey(inputs[j]) != OutpointKey(inputs[l])
    {
      var key := OutpointKey(inputs[i]);
      if key in seen {
        assert RepeatsAt(inputs, i, key);
        return Some(Duplicate(key));
      }
      seen := seen + {key};
      i := i + 1;
    }
    i := 0;
    while i < |inputs|
      invariant i <= |inputs| && forall j :: 0 <= j < i ==> InputGood(inputs, known, j)
    {
      var key := OutpointKey(inputs[i]);
      ghost var good := InputGood(inputs, known, i);
      if inputs[i].outpoint == "" || inputs[i].address == "" {
        assert FailsWith(inputs, known, i, MissingFields);
        return Some(MissingFields);
      }
      if known.Some? {
        var status := known.value[i];
        if !status.exists_ {
          assert FailsWith(inputs, known, i, DoesNotExist(key));
          return Some(DoesNotExist(key));
        }
        if status.spent {
          assert FailsWith(inputs, known, i, AlreadySpent(key));
          return Some(AlreadySpent(key));
        }
        if status.reserved {
          assert FailsWith(inputs, known, i, HeldByAnother(key));
          return Some(HeldByAnother(key));
        }
      }
      i := i + 1;
    }
    forall j | 0 <= j < |inputs|
      ensures inputs[j].outpoint != "" && inputs[j].address != ""
      ensures known.Some? ==> known.value[j].exists_ && !known.value[j].spent && !known.value[j].reserved
    {
      assert InputGood(inputs, known, j);
    }
    error := None;
  }

  /** What the builder accepted has no duplicates for the validator either. */
  lemma BuilderPassesDuplicateCheck(inputs: seq<UtxoInput>)
    requires Apart(inputs)
    ensures KeysDistinct(inputs)
  {
    hide OutpointKey;
    forall i, j | 0 <= i < j < |inputs|
      ensures OutpointKey(inputs[i]) != OutpointKey(inputs[j])
    {
      SameKeySameOutpoint(inputs[i], inputs[j]);
    }
  }

  lemma SameKeySameOutpoint(a: UtxoInput, b: UtxoInput)
    ensures OutpointKey(a) == OutpointKey(b) ==> SameOutpoint(a, b)
  {
    hide OutpointKey, StripHexPrefix;
    if OutpointKey(a) == OutpointKey(b) {
      KeyInjective(a, b);
    }
  }

  /** Two of the inputs are one outpoint spelt differently. */
  predicate RespeltPair(inputs: seq<UtxoInput>) {
    exists i, j :: 0 <= i < j < |inputs| && SameOutpoint(inputs[i], inputs[j])
                   && inputs[i].outpoint != inputs[j].outpoint
  }

  /** The validator's check is blind exactly to one outpoint spelt with different prefixes. */
  lemma DuplicateChecksDiffer(inputs: seq<UtxoInput>)
    ensures !Apart(inputs) <==> !KeysDistinct(inputs) || RespeltPair(inputs)
  {
    if !KeysDistinct(inputs) {
      if Apart(inputs) {
        BuilderPassesDuplicateCheck(inputs);
        assert false;
      }
    } else {
      hide OutpointKey, StripHexPrefix;
      if !Apart(inputs) {
        var i, j :| 0 <= i < j < |inputs| && SameOutpoint(inputs[i], inputs[j]);
        if inputs[i].outpoint == inputs[j].outpoint {
          SameKey(inputs[i], inputs[j]);
          assert false;
        }
      }
    }
  }

  /** One such list: the builder refuses it, the validator's check does not. */
  lemma RespeltSample()
    ensures var a, b := UtxoInput("0xab", 0, "x"), UtxoInput("ab", 0, "x");
            KeysDistinct([a, b]) && RespeltPair([a, b])
  {
    var a, b := UtxoInput("0xab", 0, "x"), UtxoInput("ab", 0, "x");
    assert |OutpointKey(a)| == |OutpointKey(b)| + 2;
    assert StripHexPrefix("0xab") == "ab" && StripHexPrefix("ab") == "ab";
    assert SameOutpoint([a, b][0], [a, b][1]);
    hide OutpointKey;
  }

  lemma SameKey(a: UtxoInput, b: UtxoInput)
    requires a.outpoint == b.outpoint && a.index == b.index
    ensures OutpointKey(a) == OutpointKey(b)
  {
  }
}
