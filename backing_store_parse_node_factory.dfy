/** `BackingStoreParseNodeFactory`: a parse-node proxy whose actions mark a backed model's store as
    being initialized while its fields are assigned, so that the parsed values are not flagged as
    changes. */
module BackingStoreParseNodeFactory {
  import opened Wrappers
  import opened Serialization
  import opened ParseNodeProxy

  class BackingStoreParseNodeFactory {
    const proxy: ParseNodeProxyFactory

    /** `NewBackingStoreParseNodeFactory`: embeds a proxy over the given factory with exactly the two
        initialization actions. */
    constructor (factory: ParseNodeFactory)
      ensures fresh(proxy) && proxy.factory == factory
      ensures proxy.onBeforeAction == BeginInitialization && proxy.onAfterAction == CompleteInitialization
    {
      proxy := new ParseNodeProxyFactory(factory, BeginInitialization, CompleteInitialization);
    }
  }

  /** While a backed model's fields are assigned, its store records values as not changed. */
  lemma ParseBeginsInitialization(p: Parsable, f: Flags, originalBefore: Option<Action>)
    requires HasStore(p)
    requires originalBefore.Some? ==> CallbacksOnly(originalBefore.value)
    ensures Effect(ComposeBefore(BeginInitialization, originalBefore), p, f) == Flags(f.returnOnlyChanged, false)
  {
    if originalBefore.Some? {
      EffectOfCallbacksOnly(originalBefore.value, p, Flags(f.returnOnlyChanged, false));
    }
  }

  /** With the corrected after composition, a parse of a backed model, on a node whose own hooks only
      call the caller's callbacks, ends with initialization completed and the reporting mode as it
      was. */
  lemma ParseCompletesInitialization(p: Parsable, f: Flags, originalBefore: Option<Action>, originalAfter: Option<Action>)
    requires HasStore(p)
    requires originalBefore.Some? ==> CallbacksOnly(originalBefore.value)
    requires originalAfter.Some? ==> CallbacksOnly(originalAfter.value)
    ensures var before := ComposeBefore(BeginInitialization, originalBefore);
            var after := ComposeAfter(CompleteInitialization, originalAfter);
            Effect(after, p, Effect(before, p, f)) == Flags(f.returnOnlyChanged, true)
  {
    ParseBeginsInitialization(p, f, originalBefore);
    if originalAfter.Some? {
      EffectOfCallbacksOnly(originalAfter.value, p, Flags(f.returnOnlyChanged, true));
    }
  }

  /** As written, the after hook runs the before action again: the parse ends with initialization
      still marked incomplete, so every later `Set` on the model is recorded as not changed. */
  lemma AsWrittenParseLeavesInitializationIncomplete(p: Parsable, f: Flags, originalBefore: Option<Action>,
                                                     originalAfter: Option<Action>)
    requires HasStore(p)
    requires originalBefore.Some? ==> CallbacksOnly(originalBefore.value)
    requires originalAfter.Some? ==> CallbacksOnly(originalAfter.value)
    ensures var before := ComposeBefore(BeginInitialization, originalBefore);
            var after := ComposeAfterAsWritten(BeginInitialization, CompleteInitialization, originalAfter);
            Effect(after, p, Effect(before, p, f)) == Flags(f.returnOnlyChanged, false)
  {
    ParseBeginsInitialization(p, f, originalBefore);
    if originalAfter.Some? {
      EffectOfCallbacksOnly(originalAfter.value, p, Flags(f.returnOnlyChanged, false));
    }
  }

  /** A model without a store, nil included, is left as it is by both hooks. */
  lemma UnbackedModelUntouched(p: Parsable, f: Flags, originalBefore: Option<Action>, originalAfter: Option<Action>)
    requires !HasStore(p)
    ensures Effect(ComposeBefore(BeginInitialization, originalBefore), p, f) == f
    ensures Effect(ComposeAfter(CompleteInitialization, originalAfter), p, f) == f
  {
    EffectWithoutStore(ComposeBefore(BeginInitialization, originalBefore), p, f);
    EffectWithoutStore(ComposeAfter(CompleteInitialization, originalAfter), p, f);
  }
}
