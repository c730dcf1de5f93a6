/** `NewBackingStoreSerializationWriterProxyFactory`: a writer proxy whose actions make a backed model's
    store report only changed values while the model is written, write a null for every value changed
    to nil, and restore the store afterwards. */
module BackingStoreWriterFactory {
  import opened Wrappers
  import opened Serialization
  import opened SerializationWriterProxy
  import BackingStore

  method NewBackingStoreSerializationWriterProxyFactory(factory: SerializationWriterFactory)
    returns (r: SerializationWriterProxyFactory)
    ensures fresh(r) && r.factory == factory
    ensures r.onBeforeAction == ReturnOnlyChanged && r.onAfterAction == ReturnAllAndComplete
    ensures r.onSerializationStart == WriteChangedNils
  {
    r := new SerializationWriterProxyFactory(factory, ReturnOnlyChanged, ReturnAllAndComplete, WriteChangedNils);
  }

  /** The hooks installed on a writer whose own hooks only call the caller's callbacks, around a
      backed model: the before hook switches the store to changed values only and leaves its
      initialization flag; the after hook, whatever happened in between, switches it back and marks
      initialization completed. */
  lemma SerializationBracket(p: Parsable, f: Flags, g: Flags, originalBefore: Option<Action>, originalAfter: Option<Action>)
    requires HasStore(p)
    requires originalBefore.Some? ==> CallbacksOnly(originalBefore.value)
    requires originalAfter.Some? ==> CallbacksOnly(originalAfter.value)
    ensures Effect(ComposeAction(ReturnOnlyChanged, originalBefore), p, f) == Flags(true, f.initializationCompleted)
    ensures Effect(ComposeAction(ReturnAllAndComplete, originalAfter), p, g) == Flags(false, true)
  {
    if originalBefore.Some? {
      EffectOfCallbacksOnly(originalBefore.value, p, Flags(true, f.initializationCompleted));
    }
    if originalAfter.Some? {
      EffectOfCallbacksOnly(originalAfter.value, p, Flags(false, true));
    }
  }

  /** A model that is not backed, or whose store is nil, is left as it is by all three hooks, and the
      start hook returns no error and writes nothing. */
  lemma UnbackedModelUntouched(p: Parsable, f: Flags, originalBefore: Option<Action>, originalAfter: Option<Action>,
                               w: SerializationWriter)
    requires !HasStore(p)
    ensures Effect(ComposeAction(ReturnOnlyChanged, originalBefore), p, f) == f
    ensures Effect(ComposeAction(ReturnAllAndComplete, originalAfter), p, f) == f
    ensures StartResult(WriteChangedNils, NilWritesFail(p, w)) == Completed
  {
    EffectWithoutStore(ComposeAction(ReturnOnlyChanged, originalBefore), p, f);
    EffectWithoutStore(ComposeAction(ReturnAllAndComplete, originalAfter), p, f);
  }

  /** While the before hook is in effect, the store reports only entries whose changed flag is set. */
  lemma OnlyChangedWhileWriting(s: BackingStore.InMemoryBackingStore)
    requires FlagsOf(s).returnOnlyChanged
    ensures forall k :: k in s.ReportedEntries() ==> BackingStore.Flagged(s.changedValues, k)
  {
  }
}
