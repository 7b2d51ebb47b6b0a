/** How async_result reduces a list of completion signatures to plain ones. */
module Signatures {
  import opened Options

  datatype RefQualifier = NoRef | LvalueRef | RvalueRef

  /** R(Args...), possibly ref-qualified, possibly noexcept. */
  datatype Signature = Signature(result: int, args: seq<int>, qualifier: RefQualifier, isNoexcept: bool)

  /** is_simple_completion_signature. */
  predicate IsSimple(s: Signature) {
    s.qualifier == NoRef && !s.isNoexcept
  }

  /** are_simple_completion_signatures: the primary template makes an empty list not simple. */
  predicate AreSimple(sigs: seq<Signature>)
    decreases |sigs|
  {
    if sigs == [] then false
    else if |sigs| == 1 then IsSimple(sigs[0])
    else IsSimple(sigs[0]) && AreSimple(sigs[1..])
  }

  /** simple_completion_signature. */
  function Simple(s: Signature): Signature {
    s.(qualifier := NoRef, isNoexcept := false)
  }

  function SimpleAll(sigs: seq<Signature>): seq<Signature> {
    seq(|sigs|, i requires 0 <= i < |sigs| => Simple(sigs[i]))
  }

  /**
   The signatures of the completion_handler_async_result that async_result finally derives from,
   allowing the given number of recursive steps.
   */
  function Resolve(sigs: seq<Signature>, steps: nat): Option<seq<Signature>>
    decreases steps
  {
    if AreSimple(sigs) then Some(sigs)
    else if steps == 0 then None
    else Resolve(SimpleAll(sigs), steps - 1)
  }

  lemma {:induction false} AreSimpleIff(sigs: seq<Signature>)
    ensures AreSimple(sigs) <==> sigs != [] && forall i | 0 <= i < |sigs| :: IsSimple(sigs[i])
    decreases |sigs|
  {
    if |sigs| > 1 {
      AreSimpleIff(sigs[1..]);
      assert forall i | 0 < i < |sigs| :: sigs[i] == sigs[1..][i - 1];
    }
  }

  lemma SimpleAllIsSimple(sigs: seq<Signature>)
    ensures AreSimple(SimpleAll(sigs)) <==> sigs != []
  {
    AreSimpleIff(SimpleAll(sigs));
  }

  lemma {:induction false} EmptyNeverResolves(steps: nat)
    ensures Resolve([], steps) == None
    decreases steps
  {
    if steps > 0 {
      assert SimpleAll([]) == [];
      EmptyNeverResolves(steps - 1);
    }
  }

  /** Every non-empty list resolves in at most one recursive step, the empty list in no number. */
  lemma ResolvesIff(sigs: seq<Signature>, steps: nat)
    ensures Resolve(sigs, steps).Some? <==> sigs != [] && (steps > 0 || AreSimple(sigs))
  {
    if sigs == [] {
      EmptyNeverResolves(steps);
    } else {
      SimpleAllIsSimple(sigs);
    }
  }

  /** What it resolves to: plain signatures with the same result types and argument lists. */
  lemma ResolvesToSimple(sigs: seq<Signature>, steps: nat)
    requires Resolve(sigs, steps).Some?
    ensures var plain := Resolve(sigs, steps).value;
            && plain == SimpleAll(sigs) && SimpleAll(plain) == plain && |plain| == |sigs|
            && forall i | 0 <= i < |sigs| ::
                 IsSimple(plain[i]) && plain[i].result == sigs[i].result && plain[i].args == sigs[i].args
  {
    ResolvesIff(sigs, steps);
    AreSimpleIff(sigs);
    if AreSimple(sigs) {
      assert SimpleAll(sigs) == sigs;
    } else {
      SimpleAllIsSimple(sigs);
    }
  }
}
