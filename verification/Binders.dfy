/**
 Completion tokens and handlers wrapped in allocator and cancellation slot binders: how initiate
 peels a token into a stack of init_wrapper continuations, and how associators look through a nest.
 */
module Binders {

  import opened Options

  type Allocator = int
  type Slot = int
  type Executor = int
  type Arg = int

  /** What a leaf's own type provides: nested associated types, and its async_result. */
  datatype Leaf = Leaf(
    name: int, allocator: Option<Allocator>, slot: Option<Slot>, executor: Option<Executor>, result: Result)

  /**
   The async_result of a leaf. Direct: the token is the handler. Custom: the token's own initiate
   calls the initiation with these handlers in turn (none at all for a deferred operation) and
   returns a value; it may declare a completion_handler_type. Legacy: no initiate member, so
   async_completion builds the handler.
   */
  datatype Result =
    | Direct
    | Custom(handlers: seq<Object>, declared: Option<Type>, returned: int)
    | Legacy(handler: Object, returned: int)

  datatype Type =
    | LeafType(name: int)
    | AllocatorBinderType(target: Type)
    | SlotBinderType(target: Type)
    | ReferenceType(target: Type)

  /** A token or handler: binders and reference_wrappers around a leaf. */
  datatype Object =
    | Plain(leaf: Leaf)
    | AllocatorBinder(allocator: Allocator, target: Object)
    | SlotBinder(slot: Slot, target: Object)
    | Reference(target: Object)

  // ----- Initiation -----

  /** The user's initiation inside a stack of init_wrappers. */
  datatype Initiation =
    | User(id: int)
    | AllocatorWrapper(allocator: Allocator, initiation: Initiation)
    | SlotWrapper(slot: Slot, initiation: Initiation)

  /** A call that reached the user's initiation. */
  datatype Call = Call(id: int, handler: Object, args: seq<Arg>)

  datatype Outcome = Outcome(calls: seq<Call>, returned: Option<int>)

  /** init_wrapper::operator(): binds the handler again and passes it on. */
  function Invoke(init: Initiation, handler: Object, args: seq<Arg>): Call {
    match init
    case User(id) => Call(id, handler, args)
    case AllocatorWrapper(a, inner) => Invoke(inner, AllocatorBinder(a, handler), args)
    case SlotWrapper(s, inner) => Invoke(inner, SlotBinder(s, handler), args)
  }

  function InvokeEach(init: Initiation, handlers: seq<Object>, args: seq<Arg>): seq<Call> {
    seq(|handlers|, i requires 0 <= i < |handlers| => Invoke(init, handlers[i], args))
  }

  /** async_initiate: a binder's initiate wraps the initiation and goes on with the target. */
  function AsyncInitiate(init: Initiation, token: Object, args: seq<Arg>): Outcome
    decreases token
  {
    match token
    case AllocatorBinder(a, target) => AsyncInitiate(AllocatorWrapper(a, init), target, args)
    case SlotBinder(s, target) => AsyncInitiate(SlotWrapper(s, init), target, args)
    case Reference(_) => Outcome([Invoke(init, token, args)], None)
    case Plain(leaf) =>
      match leaf.result
      case Direct => Outcome([Invoke(init, token, args)], None)
      case Custom(handlers, _, returned) => Outcome(InvokeEach(init, handlers, args), Some(returned))
      case Legacy(handler, returned) => Outcome([Invoke(init, handler, args)], Some(returned))
  }

  // ----- The structural form -----

  /** The token without its binders. */
  function Inner(token: Object): (inner: Object)
    ensures inner.Plain? || inner.Reference?
  {
    match token
    case AllocatorBinder(_, target) => Inner(target)
    case SlotBinder(_, target) => Inner(target)
    case _ => token
  }

  /** The token's nest of binders around another handler. */
  function Rebind(token: Object, handler: Object): Object {
    match token
    case AllocatorBinder(a, target) => AllocatorBinder(a, Rebind(target, handler))
    case SlotBinder(s, target) => SlotBinder(s, Rebind(target, handler))
    case _ => handler
  }

  /** The handlers with which the inner token alone calls its initiation. */
  function InnerHandlers(inner: Object): seq<Object> {
    if inner.Plain? && inner.leaf.result.Custom? then inner.leaf.result.handlers
    else if inner.Plain? && inner.leaf.result.Legacy? then [inner.leaf.result.handler]
    else [inner]
  }

  function InnerReturn(inner: Object): Option<int> {
    if inner.Plain? && !inner.leaf.result.Direct? then Some(inner.leaf.result.returned) else None
  }

  lemma {:induction false} InitiatePeels(init: Initiation, token: Object, args: seq<Arg>)
    ensures AsyncInitiate(init, token, args).returned == InnerReturn(Inner(token))
    ensures var handlers := InnerHandlers(Inner(token)); var calls := AsyncInitiate(init, token, args).calls;
            |calls| == |handlers|
            && forall i | 0 <= i < |handlers| :: calls[i] == Invoke(init, Rebind(token, handlers[i]), args)
    decreases token
  {
    match token
    case AllocatorBinder(a, target) => InitiatePeels(AllocatorWrapper(a, init), target, args);
    case SlotBinder(s, target) => InitiatePeels(SlotWrapper(s, init), target, args);
    case _ =>
  }

  /**
   However deep and mixed the nest: the user's initiation is called once for each handler the
   inner token passes on, in that order, with the arguments unchanged and with that handler
   inside the token's own nest; the return value is the inner token's.
   */
  lemma InitiateRebuilds(id: int, token: Object, args: seq<Arg>)
    ensures AsyncInitiate(User(id), token, args).returned == InnerReturn(Inner(token))
    ensures var handlers := InnerHandlers(Inner(token)); var calls := AsyncInitiate(User(id), token, args).calls;
            |calls| == |handlers|
            && forall i | 0 <= i < |handlers| :: calls[i] == Call(id, Rebind(token, handlers[i]), args)
  {
    InitiatePeels(User(id), token, args);
  }

  lemma {:induction false} RebindInner(token: Object)
    ensures Rebind(token, Inner(token)) == token
    decreases token
  {
    match token
    case AllocatorBinder(_, target) => RebindInner(target);
    case SlotBinder(_, target) => RebindInner(target);
    case _ =>
  }

  /** With a plain inner handler the initiation is called exactly once, with the token itself. */
  lemma DirectTokenArrivesWhole(id: int, token: Object, args: seq<Arg>)
    requires InnerHandlers(Inner(token)) == [Inner(token)]
    ensures AsyncInitiate(User(id), token, args).calls == [Call(id, token, args)]
  {
    InitiateRebuilds(id, token, args);
    RebindInner(token);
  }

  // ----- completion_handler_type -----

  function TypeOf(o: Object): Type {
    match o
    case Plain(leaf) => LeafType(leaf.name)
    case AllocatorBinder(_, target) => AllocatorBinderType(TypeOf(target))
    case SlotBinder(_, target) => SlotBinderType(TypeOf(target))
    case Reference(target) => ReferenceType(TypeOf(target))
  }

  /**
   async_result<token>::completion_handler_type; a binder has the member exactly when its target's
   async_result has it.
   */
  function CompletionHandlerType(token: Object): Option<Type> {
    match token
    case AllocatorBinder(_, target) =>
      (match CompletionHandlerType(target) case Some(t) => Some(AllocatorBinderType(t)) case None => None)
    case SlotBinder(_, target) =>
      (match CompletionHandlerType(target) case Some(t) => Some(SlotBinderType(t)) case None => None)
    case Reference(_) => Some(TypeOf(token))
    case Plain(leaf) =>
      match leaf.result
      case Direct => Some(TypeOf(token))
      case Custom(_, declared, _) => declared
      case Legacy(handler, _) => Some(TypeOf(handler))
  }

  /** The token's nest of binders around another handler type. */
  function RebindType(token: Object, t: Type): Type {
    match token
    case AllocatorBinder(_, target) => AllocatorBinderType(RebindType(target, t))
    case SlotBinder(_, target) => SlotBinderType(RebindType(target, t))
    case _ => t
  }

  lemma {:induction false} RebindTypeInjective(token: Object, t: Type, u: Type)
    ensures RebindType(token, t) == RebindType(token, u) <==> t == u
    decreases token
  {
    match token
    case AllocatorBinder(_, target) => RebindTypeInjective(target, t, u);
    case SlotBinder(_, target) => RebindTypeInjective(target, t, u);
    case _ =>
  }

  lemma {:induction false} RebindTypeOf(token: Object, handler: Object)
    ensures TypeOf(Rebind(token, handler)) == RebindType(token, TypeOf(handler))
    decreases token
  {
    match token
    case AllocatorBinder(_, target) => RebindTypeOf(target, handler);
    case SlotBinder(_, target) => RebindTypeOf(target, handler);
    case _ =>
  }

  /**
   What the inner token's own async_result declares: the type of the handler it passes on, or for
   a custom one whatever it declares, possibly nothing.
   */
  function Declared(inner: Object): Option<Type> {
    if inner.Plain? && inner.leaf.result.Custom? then inner.leaf.result.declared
    else Some(TypeOf(InnerHandlers(inner)[0]))
  }

  /** The traits compute what the inner token declares, inside the token's own nest of binders. */
  lemma {:induction false} HandlerTypeRebinds(token: Object)
    ensures match Declared(Inner(token))
            case None => CompletionHandlerType(token).None?
            case Some(t) => CompletionHandlerType(token) == Some(RebindType(token, t))
    decreases token
  {
    match token
    case AllocatorBinder(_, target) => HandlerTypeRebinds(target);
    case SlotBinder(_, target) => HandlerTypeRebinds(target);
    case _ =>
  }

  /**
   The type computed by the traits is the type of a handler that reaches the initiation exactly
   when the inner token's own declaration is right about the handler it passes on: always, unless
   a custom async_result declares another type or none.
   */
  lemma HandlerTypeAgrees(id: int, token: Object, args: seq<Arg>, i: nat)
    requires i < |InnerHandlers(Inner(token))|
    ensures i < |AsyncInitiate(User(id), token, args).calls|
    ensures var arrived := AsyncInitiate(User(id), token, args).calls[i].handler;
            var inner := Inner(token);
            && (CompletionHandlerType(token) == Some(TypeOf(arrived))
                <==> Declared(inner) == Some(TypeOf(InnerHandlers(inner)[i])))
            && (!(inner.Plain? && inner.leaf.result.Custom?) ==> CompletionHandlerType(token) == Some(TypeOf(arrived)))
  {
    var handler := InnerHandlers(Inner(token))[i];
    InitiateRebuilds(id, token, args);
    RebindTypeOf(token, handler);
    HandlerTypeRebinds(token);
    if Declared(Inner(token)).Some? {
      RebindTypeInjective(token, Declared(Inner(token)).value, TypeOf(handler));
    }
  }
}
