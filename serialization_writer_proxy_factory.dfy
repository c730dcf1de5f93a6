/** `SerializationWriterProxyFactory`: wraps a writer factory and composes three actions of its own
    around the hooks each writer it hands out already has. */
module SerializationWriterProxy {
  import opened Wrappers
  import opened Serialization

  /** The start composition, corrected: the proxy's start action first; unless it failed, the
      writer's original start hook when that is non-nil. */
  function ComposeStart(proxyStart: StartAction, originalStart: Option<StartAction>): (r: StartAction)
    ensures forall nf :: StartResult(r, nf) ==
              if StartResult(proxyStart, nf) != Completed || originalStart.None? then StartResult(proxyStart, nf)
              else StartResult(originalStart.value, nf)
    ensures forall nf :: StartCallbacks(r, nf) ==
              StartCallbacks(proxyStart, nf)
              + if StartResult(proxyStart, nf) == Completed && originalStart.Some?
                then StartCallbacks(originalStart.value, nf) else []
  {
    StartThen(proxyStart, originalStart)
  }

  /** The start composition as written: after the proxy's start action, the original start hook runs
      only when the original BEFORE hook is non-nil, and is called even when it is nil itself. */
  function ComposeStartAsWritten(proxyStart: StartAction, originalBefore: Option<Action>,
                                 originalStart: Option<StartAction>): (r: StartAction)
    ensures forall nf :: StartResult(proxyStart, nf) != Completed ==> StartResult(r, nf) == StartResult(proxyStart, nf)
  {
    StartAsWritten(proxyStart, originalBefore, originalStart)
  }

  /** As written, a writer with a start hook but no before hook loses its start hook: the original
      never runs, so its error is never seen and its callbacks are never called. */
  lemma AsWrittenSkipsOriginalStart(proxyStart: StartAction, originalStart: StartAction, nf: bool)
    requires StartResult(proxyStart, nf) == Completed
    ensures StartResult(ComposeStartAsWritten(proxyStart, None, Some(originalStart)), nf) == Completed
    ensures StartCallbacks(ComposeStartAsWritten(proxyStart, None, Some(originalStart)), nf) == StartCallbacks(proxyStart, nf)
    ensures StartResult(ComposeStart(proxyStart, Some(originalStart)), nf) == StartResult(originalStart, nf)
    ensures StartCallbacks(ComposeStart(proxyStart, Some(originalStart)), nf)
            == StartCallbacks(proxyStart, nf) + StartCallbacks(originalStart, nf)
  {
  }

  /** The concrete case: an original start hook that fails is reported by the corrected composition
      and swallowed by the one as written. */
  lemma AsWrittenSwallowsStartError(tag: nat, failing: nat)
    ensures StartResult(ComposeStartAsWritten(StartCallback(tag, false), None, Some(StartCallback(failing, true))), false) == Completed
    ensures StartResult(ComposeStart(StartCallback(tag, false), Some(StartCallback(failing, true))), false) == Failed
  {
  }

  /** As written, a writer with a before hook but no start hook makes the composed start hook call a
      nil function: it panics once the proxy's own start action has succeeded. */
  lemma AsWrittenPanicsWithoutOriginalStart(proxyStart: StartAction, originalBefore: Action, nf: bool)
    requires StartResult(proxyStart, nf) == Completed
    ensures StartResult(ComposeStartAsWritten(proxyStart, Some(originalBefore), None), nf) == Panicked
    ensures StartResult(ComposeStart(proxyStart, None), nf) == Completed
  {
  }

  /** The two compositions agree exactly when the writer has both hooks or neither. */
  lemma AsWrittenAgreesWhenBothOrNeither(proxyStart: StartAction, originalBefore: Option<Action>,
                                         originalStart: Option<StartAction>, nf: bool)
    requires originalBefore.Some? <==> originalStart.Some?
    ensures StartResult(ComposeStartAsWritten(proxyStart, originalBefore, originalStart), nf)
            == StartResult(ComposeStart(proxyStart, originalStart), nf)
    ensures StartCallbacks(ComposeStartAsWritten(proxyStart, originalBefore, originalStart), nf)
            == StartCallbacks(ComposeStart(proxyStart, originalStart), nf)
  {
  }

  class SerializationWriterProxyFactory {
    const factory: SerializationWriterFactory
    const onBeforeAction: Action
    const onAfterAction: Action
    const onSerializationStart: StartAction

    /** `NewSerializationWriterProxyFactory`. */
    constructor (factory: SerializationWriterFactory, onBeforeAction: Action, onAfterAction: Action,
                 onSerializationStart: StartAction)
      ensures this.factory == factory && this.onBeforeAction == onBeforeAction
      ensures this.onAfterAction == onAfterAction && this.onSerializationStart == onSerializationStart
    {
      this.factory := factory;
      this.onBeforeAction := onBeforeAction;
      this.onAfterAction := onAfterAction;
      this.onSerializationStart := onSerializationStart;
    }

    /** `GetValidContentType` delegates to the wrapped factory. */
    function GetValidContentType(): (r: Result<string, Error>)
      ensures r == factory.validContentType
    {
      factory.GetValidContentType()
    }

    /** `GetSerializationWriter`: an error of the wrapped factory is returned as it is, with no hook
        installed. Otherwise the before, after and start hooks are replaced in that order by their
        compositions with the proxy's actions, and the first setter that fails ends the call with its
        error, leaving the later slots as they were. `asWritten` selects the start composition: `true`
        is the one as written, guarded by the original before hook, and `false` the corrected one. */
    method GetSerializationWriter(contentType: string, asWritten: bool) returns (r: Result<SerializationWriter, Error>)
      modifies factory.Footprint(contentType)
      ensures factory.GetSerializationWriter(contentType).Failure? ==>
                r == Failure(factory.GetSerializationWriter(contentType).error)
      ensures factory.GetSerializationWriter(contentType).Success? ==>
                var w := factory.GetSerializationWriter(contentType).value;
                var refused := w.refusedSlots;
                && w.calls == old(w.calls)
                && r == (if refused == {} then Success(w) else Failure(w.failure))
                && w.onBefore == (if BeforeSlot in refused then old(w.onBefore)
                                  else Some(ComposeAction(onBeforeAction, old(w.onBefore))))
                && w.onAfter == (if BeforeSlot in refused || AfterSlot in refused then old(w.onAfter)
                                 else Some(ComposeAction(onAfterAction, old(w.onAfter))))
                && w.onStart == (if refused != {} then old(w.onStart)
                                 else if asWritten then Some(ComposeStartAsWritten(onSerializationStart, old(w.onBefore), old(w.onStart)))
                                 else Some(ComposeStart(onSerializationStart, old(w.onStart))))
    {
      var got := factory.GetSerializationWriter(contentType);
      if got.Failure? {
        return Failure(got.error);
      }
      var writer := got.value;
      var originalBefore := writer.GetOnBeforeSerialization();
      var err := writer.SetOnBeforeSerialization(ComposeAction(onBeforeAction, originalBefore));
      if err.Some? {
        return Failure(err.value);
      }
      var originalAfter := writer.GetOnAfterObjectSerialization();
      err := writer.SetOnAfterObjectSerialization(ComposeAction(onAfterAction, originalAfter));
      if err.Some? {
        return Failure(err.value);
      }
      var originalStart := writer.GetOnStartObjectSerialization();
      var start := if asWritten then ComposeStartAsWritten(onSerializationStart, originalBefore, originalStart)
                   else ComposeStart(onSerializationStart, originalStart);
      err := writer.SetOnStartObjectSerialization(start);
      if err.Some? {
        return Failure(err.value);
      }
      assert writer.refusedSlots == {} by {
        assert forall s :: s in writer.refusedSlots ==> s.BeforeSlot? || s.AfterSlot? || s.StartSlot?;
      }
      return Success(writer);
    }
  }
}
