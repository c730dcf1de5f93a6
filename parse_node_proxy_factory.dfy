/** `ParseNodeProxyFactory`: wraps a parse-node factory and composes two actions of its own around
    the hooks each root node it hands out already has. */
module ParseNodeProxy {
  import opened Wrappers
  import opened Serialization

  /** The before composition: the proxy's action for a non-nil parsable only, then the node's
      original hook when it is non-nil. */
  function ComposeBefore(proxyAction: Action, original: Option<Action>): (r: Action)
    ensures forall f :: Effect(r, NilParsable, f) ==
              if original.Some? then Effect(original.value, NilParsable, f) else f
    ensures Callbacks(r, NilParsable) == if original.Some? then Callbacks(original.value, NilParsable) else []
  {
    WhenPresent(proxyAction, original)
  }

  /** For a non-nil parsable the composed before hook runs the proxy's action, then the original. */
  lemma ComposeBeforeOrder(proxyAction: Action, original: Option<Action>, p: Parsable, f: Flags)
    requires p != NilParsable
    ensures Effect(ComposeBefore(proxyAction, original), p, f) ==
              if original.Some? then Effect(original.value, p, Effect(proxyAction, p, f)) else Effect(proxyAction, p, f)
    ensures Callbacks(ComposeBefore(proxyAction, original), p) ==
              Callbacks(proxyAction, p) + if original.Some? then Callbacks(original.value, p) else []
  {
  }

  /** The after composition, corrected: the proxy's after action, then the original after hook, for
      every parsable (the closure's guard tests the factory, which is never nil). */
  function ComposeAfter(onAfterAction: Action, original: Option<Action>): Action {
    ComposeAction(onAfterAction, original)
  }

  /** The corrected after hook runs the proxy's after action, then the original, whatever the parsable. */
  lemma ComposeAfterOrder(onAfterAction: Action, original: Option<Action>, p: Parsable, f: Flags)
    ensures Effect(ComposeAfter(onAfterAction, original), p, f) ==
              if original.Some? then Effect(original.value, p, Effect(onAfterAction, p, f)) else Effect(onAfterAction, p, f)
    ensures Callbacks(ComposeAfter(onAfterAction, original), p) ==
              Callbacks(onAfterAction, p) + if original.Some? then Callbacks(original.value, p) else []
  {
    ComposedActionOrder(onAfterAction, original, p, f);
  }

  /** The after composition as written: the proxy's BEFORE action, then the original after hook;
      the after action is stored but never run. */
  function ComposeAfterAsWritten(onBeforeAction: Action, onAfterAction: Action, original: Option<Action>): Action {
    ComposeAction(onBeforeAction, original)
  }

  /** As written, the after hook runs the proxy's before action, then the original, whatever the
      parsable. */
  lemma ComposeAfterAsWrittenOrder(onBeforeAction: Action, onAfterAction: Action, original: Option<Action>,
                                   p: Parsable, f: Flags)
    ensures Effect(ComposeAfterAsWritten(onBeforeAction, onAfterAction, original), p, f) ==
              if original.Some? then Effect(original.value, p, Effect(onBeforeAction, p, f)) else Effect(onBeforeAction, p, f)
    ensures Callbacks(ComposeAfterAsWritten(onBeforeAction, onAfterAction, original), p) ==
              Callbacks(onBeforeAction, p) + if original.Some? then Callbacks(original.value, p) else []
  {
    ComposedActionOrder(onBeforeAction, original, p, f);
  }

  /** As written, the proxy's after action is never used: the composed after hook is the same whatever
      it is. */
  lemma AsWrittenIgnoresAfterAction(onBeforeAction: Action, a: Action, b: Action, original: Option<Action>)
    ensures ComposeAfterAsWritten(onBeforeAction, a, original) == ComposeAfterAsWritten(onBeforeAction, b, original)
    ensures a != b ==> ComposeAfter(a, original) != ComposeAfter(b, original)
  {
  }

  class ParseNodeProxyFactory {
    const factory: ParseNodeFactory
    const onBeforeAction: Action
    const onAfterAction: Action

    /** `NewParseNodeProxyFactory`. */
    constructor (factory: ParseNodeFactory, onBeforeAction: Action, onAfterAction: Action)
      ensures this.factory == factory && this.onBeforeAction == onBeforeAction && this.onAfterAction == onAfterAction
    {
      this.factory := factory;
      this.onBeforeAction := onBeforeAction;
      this.onAfterAction := onAfterAction;
    }

    /** `GetValidContentType` delegates to the wrapped factory. */
    function GetValidContentType(): (r: Result<string, Error>)
      ensures r == factory.validContentType
    {
      factory.GetValidContentType()
    }

    /** `GetRootParseNode`: an error of the wrapped factory is returned as it is. Otherwise the before
        and after hooks are replaced in that order by their compositions with the proxy's actions, and
        the first setter that fails ends the call with its error, leaving the later slot as it was. */
    method GetRootParseNode(contentType: string, content: seq<byte>) returns (r: Result<ParseNode, Error>)
      modifies factory.Footprint(contentType)
      ensures factory.GetRootParseNode(contentType, content).Failure? ==>
                r == Failure(factory.GetRootParseNode(contentType, content).error)
      ensures factory.GetRootParseNode(contentType, content).Success? ==>
                var n := factory.GetRootParseNode(contentType, content).value;
                var refused := n.refusedSlots;
                && r == (if BeforeSlot in refused || AfterSlot in refused then Failure(n.failure) else Success(n))
                && n.onBefore == (if BeforeSlot in refused then old(n.onBefore)
                                  else Some(ComposeBefore(onBeforeAction, old(n.onBefore))))
                && n.onAfter == (if BeforeSlot in refused || AfterSlot in refused then old(n.onAfter)
                                 else Some(ComposeAfter(onAfterAction, old(n.onAfter))))
    {
      var got := factory.GetRootParseNode(contentType, content);
      if got.Failure? {
        return Failure(got.error);
      }
      var node := got.value;
      var originalBefore := node.GetOnBeforeAssignFieldValues();
      var err := node.SetOnBeforeAssignFieldValues(ComposeBefore(onBeforeAction, originalBefore));
      if err.Some? {
        return Failure(err.value);
      }
      var originalAfter := node.GetOnAfterAssignFieldValues();
      err := node.SetOnAfterAssignFieldValues(ComposeAfter(onAfterAction, originalAfter));
      if err.Some? {
        return Failure(err.value);
      }
      return Success(node);
    }
  }
}
