/** associated_allocator, associated_cancellation_slot and associated_executor on nested binders. */
module Associators {
  import opened Binders
  import opened Options

  datatype Kind = AllocatorKind | SlotKind | ExecutorKind

  /** An explicit specialisation that answers for the type itself. */
  function Specialised(kind: Kind, o: Object): Option<int> {
    match (kind, o)
    case (AllocatorKind, AllocatorBinder(a, _)) => Some(a)
    case (SlotKind, SlotBinder(s, _)) => Some(s)
    case _ => None
  }

  /** An explicit specialisation that forwards: reference_wrapper, for allocators and executors only. */
  function Forwarded(kind: Kind, o: Object): Option<Object> {
    if o.Reference? && kind != SlotKind then Some(o.target) else None
  }

  /** The type's own nested associated type; each binder has the one it binds. */
  function Nested(kind: Kind, o: Object): Option<int> {
    match (kind, o)
    case (AllocatorKind, Plain(leaf)) => leaf.allocator
    case (SlotKind, Plain(leaf)) => leaf.slot
    case (ExecutorKind, Plain(leaf)) => leaf.executor
    case (AllocatorKind, AllocatorBinder(a, _)) => Some(a)
    case (SlotKind, SlotBinder(s, _)) => Some(s)
    case _ => None
  }

  /** The generic associator: both binders forward every associator to their target. */
  function Associator(o: Object): Option<Object> {
    if o.AllocatorBinder? || o.SlotBinder? then Some(o.target) else None
  }

  /** Associator<T, Default>::get: specialisation, else nested type, else associator, else default. */
  function Lookup(kind: Kind, o: Object, default: int): int
    decreases o
  {
    if Specialised(kind, o).Some? then Specialised(kind, o).value
    else if Forwarded(kind, o).Some? then Lookup(kind, Forwarded(kind, o).value, default)
    else if Nested(kind, o).Some? then Nested(kind, o).value
    else if Associator(o).Some? then Lookup(kind, Associator(o).value, default)
    else default
  }

  // ----- The reference: a list of layers -----

  /** The object and everything inside it, from the outside in. */
  function Layers(o: Object): (ls: seq<Object>)
    ensures |ls| > 0 && ls[0] == o && ls[|ls| - 1].Plain?
  {
    if o.Plain? then [o] else [o] + Layers(o.target)
  }

  /** reference_wrapper hides everything inside it from the cancellation slot associator. */
  predicate Hides(kind: Kind, layer: Object) {
    kind == SlotKind && layer.Reference?
  }

  /** Layer i is visible from the outside. */
  ghost predicate Visible(kind: Kind, o: Object, i: nat) {
    i < |Layers(o)| && forall j | 0 <= j < i :: !Hides(kind, Layers(o)[j])
  }

  /** Layer i is the outermost visible one that supplies a value. */
  ghost predicate Outermost(kind: Kind, o: Object, i: nat) {
    && Visible(kind, o, i) && Nested(kind, Layers(o)[i]).Some?
    && forall j | 0 <= j < i :: Nested(kind, Layers(o)[j]).None?
  }

  lemma InnerOutermost(kind: Kind, o: Object, i: nat)
    requires !o.Plain? && Nested(kind, o).None? && !Hides(kind, o)
    ensures Outermost(kind, o, i + 1) <==> Outermost(kind, o.target, i)
  {
    var outer, inner := Layers(o), Layers(o.target);
    assert forall j | 0 <= j < |inner| :: outer[j + 1] == inner[j];
    if Outermost(kind, o.target, i) {
      forall j | 0 <= j < i + 1
        ensures !Hides(kind, outer[j]) && Nested(kind, outer[j]).None?
      {
        if j > 0 {
          assert outer[j] == inner[j - 1];
        }
      }
    }
    if Outermost(kind, o, i + 1) {
      forall j | 0 <= j < i
        ensures !Hides(kind, inner[j]) && Nested(kind, inner[j]).None?
      {
        assert inner[j] == outer[j + 1];
      }
    }
  }

  lemma {:induction false} OutermostSupplies(kind: Kind, o: Object, default: int, i: nat)
    requires Outermost(kind, o, i)
    ensures Nested(kind, Layers(o)[i]) == Some(Lookup(kind, o, default))
    decreases o
  {
    if i > 0 {
      assert Nested(kind, Layers(o)[0]).None? && !Hides(kind, Layers(o)[0]);
      InnerOutermost(kind, o, i - 1);
      OutermostSupplies(kind, o.target, default, i - 1);
    }
  }

  lemma {:induction false} NoneSupplies(kind: Kind, o: Object, default: int)
    requires forall i: nat :: !Outermost(kind, o, i)
    ensures Lookup(kind, o, default) == default
    decreases o
  {
    assert !Outermost(kind, o, 0);
    if !o.Plain? && !Hides(kind, o) {
      forall i: nat
        ensures !Outermost(kind, o.target, i)
      {
        InnerOutermost(kind, o, i);
        assert !Outermost(kind, o, i + 1);
      }
      NoneSupplies(kind, o.target, default);
    }
  }

  /** A lookup answers with the outermost visible layer that supplies a value, else the default. */
  lemma LookupIsOutermost(kind: Kind, o: Object, default: int)
    ensures forall i: nat | Outermost(kind, o, i) :: Nested(kind, Layers(o)[i]) == Some(Lookup(kind, o, default))
    ensures (forall i: nat :: !Outermost(kind, o, i)) ==> Lookup(kind, o, default) == default
  {
    forall i: nat | Outermost(kind, o, i)
      ensures Nested(kind, Layers(o)[i]) == Some(Lookup(kind, o, default))
    {
      OutermostSupplies(kind, o, default, i);
    }
    if forall i: nat :: !Outermost(kind, o, i) {
      NoneSupplies(kind, o, default);
    }
  }

  // ----- Rebinding and swapping -----

  /** The value some binder of the token itself supplies, if any. */
  function Bound(kind: Kind, token: Object): Option<int> {
    match token
    case AllocatorBinder(a, target) => if kind == AllocatorKind then Some(a) else Bound(kind, target)
    case SlotBinder(s, target) => if kind == SlotKind then Some(s) else Bound(kind, target)
    case _ => None
  }

  /** A handler inside the token's nest sees the token's binders first, then its own associations. */
  lemma {:induction false} LookupOnRebound(kind: Kind, token: Object, handler: Object, default: int)
    ensures Lookup(kind, Rebind(token, handler), default)
         == if Bound(kind, token).Some? then Bound(kind, token).value else Lookup(kind, handler, default)
    decreases token
  {
    match token
    case AllocatorBinder(_, target) => LookupOnRebound(kind, target, handler, default);
    case SlotBinder(_, target) => LookupOnRebound(kind, target, handler, default);
    case _ =>
  }

  /**
   A plain handler inside a token's nest: the value the nest binds, else the allocator, slot or
   executor of the handler's own type, else the default. One kind is never taken for another.
   */
  lemma LeafAnswers(token: Object, leaf: Leaf, default: int)
    ensures var h := Rebind(token, Plain(leaf));
            && Lookup(AllocatorKind, h, default) == Answer(Bound(AllocatorKind, token), leaf.allocator, default)
            && Lookup(SlotKind, h, default) == Answer(Bound(SlotKind, token), leaf.slot, default)
            && Lookup(ExecutorKind, h, default) == Answer(None, leaf.executor, default)
  {
    LookupOnRebound(AllocatorKind, token, Plain(leaf), default);
    LookupOnRebound(SlotKind, token, Plain(leaf), default);
    LookupOnRebound(ExecutorKind, token, Plain(leaf), default);
    NoExecutorBound(token);
  }

  /** The first value there is. */
  function Answer(bound: Option<int>, own: Option<int>, default: int): int {
    if bound.Some? then bound.value else if own.Some? then own.value else default
  }

  /** Neither of the two binders binds an executor. */
  lemma {:induction false} NoExecutorBound(token: Object)
    ensures Bound(ExecutorKind, token) == None
    decreases token
  {
    match token
    case AllocatorBinder(_, target) => NoExecutorBound(target);
    case SlotBinder(_, target) => NoExecutorBound(target);
    case _ =>
  }

  /**
   What initiation preserves: the handler that reaches the user's initiation answers every lookup
   as the token does, exactly when the binders decide it or the inner handler answers alike.
   */
  lemma InitiationKeepsLookups(kind: Kind, id: int, token: Object, args: seq<Arg>, i: nat, default: int)
    requires i < |InnerHandlers(Inner(token))|
    ensures i < |AsyncInitiate(User(id), token, args).calls|
    ensures var handler := AsyncInitiate(User(id), token, args).calls[i].handler;
            Lookup(kind, handler, default) == Lookup(kind, token, default)
            <==> Bound(kind, token).Some?
                 || Lookup(kind, InnerHandlers(Inner(token))[i], default) == Lookup(kind, Inner(token), default)
  {
    InitiateRebuilds(id, token, args);
    RebindInner(token);
    LookupOnRebound(kind, token, Inner(token), default);
    LookupOnRebound(kind, token, InnerHandlers(Inner(token))[i], default);
  }

  /** Binders of different kinds commute under every surrounding nest. */
  lemma SwapBinders(kind: Kind, outer: Object, a: Allocator, s: Slot, target: Object, default: int)
    ensures Lookup(kind, Rebind(outer, AllocatorBinder(a, SlotBinder(s, target))), default)
         == Lookup(kind, Rebind(outer, SlotBinder(s, AllocatorBinder(a, target))), default)
  {
    LookupOnRebound(kind, outer, AllocatorBinder(a, SlotBinder(s, target)), default);
    LookupOnRebound(kind, outer, SlotBinder(s, AllocatorBinder(a, target)), default);
  }

  /** The object without its reference_wrappers, wherever they stand. */
  function Unwrapped(o: Object): Object {
    match o
    case Plain(_) => o
    case AllocatorBinder(a, target) => AllocatorBinder(a, Unwrapped(target))
    case SlotBinder(s, target) => SlotBinder(s, Unwrapped(target))
    case Reference(target) => Unwrapped(target)
  }

  /**
   reference_wrappers, any number of them anywhere in a nest, change no allocator or executor
   lookup; from a cancellation slot lookup the outermost one hides everything inside it.
   */
  lemma {:induction false} ReferenceTransparency(kind: Kind, o: Object, default: int)
    ensures Lookup(kind, o, default)
         == if kind != SlotKind || !Inner(o).Reference? then Lookup(kind, Unwrapped(o), default)
            else if Bound(kind, o).Some? then Bound(kind, o).value
            else default
    decreases o
  {
    match o
    case Plain(_) =>
    case AllocatorBinder(_, target) => ReferenceTransparency(kind, target, default);
    case SlotBinder(_, target) => ReferenceTransparency(kind, target, default);
    case Reference(target) =>
      if kind != SlotKind {
        ReferenceTransparency(kind, target, default);
      }
  }

  // ----- The is_unspecialised marker -----

  /** asio_associated_executor_is_unspecialised (and the slot's): whether the trait carries it. */
  predicate Unspecialised(kind: Kind, o: Object)
    requires kind != AllocatorKind
    decreases o
  {
    match o
    case Plain(_) => Nested(kind, o).None?
    case Reference(target) => if kind == SlotKind then true else Unspecialised(kind, target)
    case _ => false
  }

  /** A lookup that answers with every default has found nothing. */
  ghost predicate FindsNothing(kind: Kind, o: Object) {
    forall default: int :: Lookup(kind, o, default) == default
  }

  /** The object is a leaf inside reference_wrappers only, as far as the associator can see. */
  predicate Bare(kind: Kind, o: Object) {
    match o
    case Plain(_) => true
    case Reference(target) => kind == SlotKind || Bare(kind, target)
    case _ => false
  }

  /** The marker implies that the default is used, but a binder of another kind hides it. */
  lemma {:induction false} UnspecialisedIff(kind: Kind, o: Object)
    requires kind != AllocatorKind
    ensures Unspecialised(kind, o) <==> FindsNothing(kind, o) && Bare(kind, o)
    decreases o
  {
    match o
    case Plain(_) =>
      assert Lookup(kind, o, 0) == 0 && Lookup(kind, o, 1) == 1 <==> Nested(kind, o).None?;
    case Reference(target) =>
      if kind != SlotKind {
        UnspecialisedIff(kind, target);
        assert forall default: int :: Lookup(kind, o, default) == Lookup(kind, target, default);
      }
    case _ =>
  }
}
