/** The serialization interfaces the core drives: the models handed to hooks, the hooks themselves
    (Go closures, here a datatype naming each closure the core builds), and stand-ins for a
    serialization writer, a parse node and their factories, whose implementations are not part of
    this model. */
module Serialization {
  import opened Wrappers
  import BackingStore

  type byte = bv8

  /** A `Parsable` as hooks see it: nil, a model without a backing store, or a `BackedModel` whose
      `GetBackingStore()` may be nil. */
  datatype Parsable = NilParsable | Plain(name: string) | Backed(store: BackingStore.InMemoryBackingStore?)

  /** The hooks of the backing-store factories act only on a backed model with a non-nil store. */
  predicate HasStore(p: Parsable) {
    p.Backed? && p.store != null
  }

  /** A `ParsableAction`. */
  datatype Action =
      /** a callback of the caller's, seen only through the record of its calls */
    | Callback(tag: nat)
      /** the before hook of the backing-store writer factory: `SetReturnOnlyChangedValues(true)` */
    | ReturnOnlyChanged
      /** the after hook of the backing-store writer factory: `SetReturnOnlyChangedValues(false)`, then
          `SetInitializationCompleted(true)` */
    | ReturnAllAndComplete
      /** the before hook of the backing-store parse-node factory: `SetInitializationCompleted(false)` */
    | BeginInitialization
      /** the after hook of the backing-store parse-node factory: `SetInitializationCompleted(true)` */
    | CompleteInitialization
      /** a proxy's composition: run `first`, then `original` when it is non-nil */
    | Then(first: Action, original: Option<Action>)
      /** the parse-node proxy's before composition: run `first` only for a non-nil parsable, then
          `original` when it is non-nil */
    | WhenPresent(first: Action, original: Option<Action>)

  /** The two mode flags of a backing store. */
  datatype Flags = Flags(returnOnlyChanged: bool, initializationCompleted: bool)

  function FlagsOf(s: BackingStore.InMemoryBackingStore): Flags
    reads s
  {
    Flags(s.returnOnlyChangedValues, s.initializationCompleted)
  }

  /** What running an action on a model does to the flags of the model's store. */
  function Effect(a: Action, p: Parsable, f: Flags): Flags
  {
    match a
    case Callback(_) => f
    case ReturnOnlyChanged => if HasStore(p) then f.(returnOnlyChanged := true) else f
    case ReturnAllAndComplete => if HasStore(p) then Flags(false, true) else f
    case BeginInitialization => if HasStore(p) then f.(initializationCompleted := false) else f
    case CompleteInitialization => if HasStore(p) then f.(initializationCompleted := true) else f
    case Then(first, original) =>
      var g := Effect(first, p, f);
      if original.Some? then Effect(original.value, p, g) else g
    case WhenPresent(first, original) =>
      var g := if p != NilParsable then Effect(first, p, f) else f;
      if original.Some? then Effect(original.value, p, g) else g
  }

  /** The callbacks of the caller's that running an action calls, in order. */
  function Callbacks(a: Action, p: Parsable): seq<nat>
  {
    match a
    case Callback(tag) => [tag]
    case Then(first, original) =>
      Callbacks(first, p) + (if original.Some? then Callbacks(original.value, p) else [])
    case WhenPresent(first, original) =>
      (if p != NilParsable then Callbacks(first, p) else [])
      + (if original.Some? then Callbacks(original.value, p) else [])
    case _ => []
  }

  /** A model nobody can reach a store through is left untouched by every action. */
  lemma {:induction false} EffectWithoutStore(a: Action, p: Parsable, f: Flags)
    requires !HasStore(p)
    ensures Effect(a, p, f) == f
  {
    match a
    case Then(first, original) =>
      EffectWithoutStore(first, p, f);
      if original.Some? { EffectWithoutStore(original.value, p, f); }
    case WhenPresent(first, original) =>
      EffectWithoutStore(first, p, f);
      if original.Some? { EffectWithoutStore(original.value, p, f); }
    case _ =>
  }

  /** Runs an action on a model: the closures change the flags of the model's store, if it has one,
      through its setters. */
  method Run(a: Action, p: Parsable) returns (callbacks: seq<nat>)
    modifies if HasStore(p) then {p.store} else {}
    ensures callbacks == Callbacks(a, p)
    ensures HasStore(p) ==> FlagsOf(p.store) == Effect(a, p, old(FlagsOf(p.store)))
    ensures HasStore(p) ==> p.store.store == old(p.store.store) && p.store.changedValues == old(p.store.changedValues)
                            && p.store.subscribers == old(p.store.subscribers)
                            && p.store.notifications == old(p.store.notifications)
  {
    match a
    case Callback(tag) =>
      callbacks := [tag];
    case ReturnOnlyChanged =>
      callbacks := [];
      if p.Backed? && p.store != null {
        p.store.SetReturnOnlyChangedValues(true);
      }
    case ReturnAllAndComplete =>
      callbacks := [];
      if p.Backed? && p.store != null {
        var store := p.store;
        store.SetReturnOnlyChangedValues(false);
        store.SetInitializationCompleted(true);
      }
    case BeginInitialization =>
      callbacks := [];
      if p.Backed? && p.store != null {
        p.store.SetInitializationCompleted(false);
      }
    case CompleteInitialization =>
      callbacks := [];
      if p.Backed? && p.store != null {
        p.store.SetInitializationCompleted(true);
      }
    case Then(first, original) =>
      callbacks := Run(first, p);
      if original.Some? {
        var more := Run(original.value, p);
        callbacks := callbacks + more;
      }
    case WhenPresent(first, original) =>
      callbacks := [];
      if p != NilParsable {
        callbacks := Run(first, p);
      }
      if original.Some? {
        var more := Run(original.value, p);
        callbacks := callbacks + more;
      }
  }

  /** The composition both proxies build for a hook slot: the proxy's action first, then the
      original hook of the writer or node when it is non-nil. */
  function ComposeAction(proxyAction: Action, original: Option<Action>): Action {
    Then(proxyAction, original)
  }

  /** A composed hook does what the proxy's action does, then what the original does. */
  lemma ComposedActionOrder(proxyAction: Action, original: Option<Action>, p: Parsable, f: Flags)
    ensures Effect(ComposeAction(proxyAction, original), p, f) ==
              if original.Some? then Effect(original.value, p, Effect(proxyAction, p, f)) else Effect(proxyAction, p, f)
    ensures Callbacks(ComposeAction(proxyAction, original), p) ==
              Callbacks(proxyAction, p) + if original.Some? then Callbacks(original.value, p) else []
  {
  }

  /** An action of the caller's callbacks alone, which no backing store hears of. */
  predicate CallbacksOnly(a: Action) {
    match a
    case Callback(_) => true
    case Then(first, original) => CallbacksOnly(first) && (original.Some? ==> CallbacksOnly(original.value))
    case WhenPresent(first, original) => CallbacksOnly(first) && (original.Some? ==> CallbacksOnly(original.value))
    case _ => false
  }

  lemma {:induction false} EffectOfCallbacksOnly(a: Action, p: Parsable, f: Flags)
    requires CallbacksOnly(a)
    ensures Effect(a, p, f) == f
  {
    match a
    case Then(first, original) =>
      EffectOfCallbacksOnly(first, p, f);
      if original.Some? { EffectOfCallbacksOnly(original.value, p, f); }
    case WhenPresent(first, original) =>
      EffectOfCallbacksOnly(first, p, f);
      if original.Some? { EffectOfCallbacksOnly(original.value, p, f); }
    case Callback(_) =>
  }

  /** A `ParsableWriter`: runs when a writer starts an object, may write to the writer, may fail. */
  datatype StartAction =
      /** a callback of the caller's; `fails` says whether it returns an error */
    | StartCallback(tag: nat, fails: bool)
      /** the start hook of the backing-store writer factory: one `WriteNullValue` per key changed to nil */
    | WriteChangedNils
      /** a proxy's composition: run `first`; unless it failed, run `original` when it is non-nil */
    | StartThen(first: StartAction, original: Option<StartAction>)
      /** the writer proxy's composition as written: run `first`; unless it failed, run
          `originalStart` when `originalBefore` is non-nil */
    | StartAsWritten(first: StartAction, originalBefore: Option<Action>, originalStart: Option<StartAction>)

  /** How a start hook ends: without error, with an error, or with the panic of a call to a nil
      function. */
  datatype StartOutcome = Completed | Failed | Panicked

  /** How running a start action ends, given whether the backing-store hook's null writes fail. */
  function StartResult(a: StartAction, nilWritesFail: bool): StartOutcome
  {
    match a
    case StartCallback(_, fails) => if fails then Failed else Completed
    case WriteChangedNils => if nilWritesFail then Failed else Completed
    case StartThen(first, original) =>
      var r := StartResult(first, nilWritesFail);
      if r != Completed || original.None? then r else StartResult(original.value, nilWritesFail)
    case StartAsWritten(first, originalBefore, originalStart) =>
      var r := StartResult(first, nilWritesFail);
      if r != Completed || originalBefore.None? then r
      else if originalStart.None? then Panicked
      else StartResult(originalStart.value, nilWritesFail)
  }

  /** The callbacks of the caller's that running a start action calls, in order. */
  function StartCallbacks(a: StartAction, nilWritesFail: bool): seq<nat>
  {
    match a
    case StartCallback(tag, _) => [tag]
    case WriteChangedNils => []
    case StartThen(first, original) =>
      StartCallbacks(first, nilWritesFail)
      + (if StartResult(first, nilWritesFail) == Completed && original.Some?
         then StartCallbacks(original.value, nilWritesFail) else [])
    case StartAsWritten(first, originalBefore, originalStart) =>
      StartCallbacks(first, nilWritesFail)
      + (if StartResult(first, nilWritesFail) == Completed && originalBefore.Some? && originalStart.Some?
         then StartCallbacks(originalStart.value, nilWritesFail) else [])
  }

  /** The calls a writer receives. */
  datatype WriterCall =
    | WriteObjectValue(key: string, model: Parsable)
    | WriteCollectionOfObjectValues(key: string, models: Option<seq<Parsable>>)
    | WriteNullValue(key: string)
    | GetSerializedContent
    | Close

  /** The hook slots of a writer or parse node. */
  datatype Slot = BeforeSlot | AfterSlot | StartSlot

  /** A `SerializationWriter`. The stand-in keeps the three hook slots, records every call, and fails
      exactly where its constants say. */
  class SerializationWriter {
    var onBefore: Option<Action>
    var onAfter: Option<Action>
    var onStart: Option<StartAction>
    var calls: seq<WriterCall>
    /** the slots whose setter returns `failure` */
    const refusedSlots: set<Slot>
    /** the keys whose `WriteNullValue` returns `failure` */
    const rejectedNullKeys: set<string>
    /** whether the two object writes return `failure` */
    const failsObjectWrites: bool
    const content: Result<seq<byte>, Error>
    const failure: Error

    constructor (before: Option<Action>, after: Option<Action>, start: Option<StartAction>, refused: set<Slot>,
                 rejected: set<string>, failsWrites: bool, content: Result<seq<byte>, Error>, failure: Error)
      ensures onBefore == before && onAfter == after && onStart == start && calls == []
      ensures refusedSlots == refused && rejectedNullKeys == rejected && failsObjectWrites == failsWrites
      ensures this.content == content && this.failure == failure
    {
      onBefore, onAfter, onStart, calls := before, after, start, [];
      refusedSlots, rejectedNullKeys, failsObjectWrites := refused, rejected, failsWrites;
      this.content, this.failure := content, failure;
    }

    function GetOnBeforeSerialization(): Option<Action>
      reads this
    {
      onBefore
    }

    function GetOnAfterObjectSerialization(): Option<Action>
      reads this
    {
      onAfter
    }

    function GetOnStartObjectSerialization(): Option<StartAction>
      reads this
    {
      onStart
    }

    method SetOnBeforeSerialization(a: Action) returns (err: Option<Error>)
      modifies this`onBefore
      ensures err == if BeforeSlot in refusedSlots then Some(failure) else None
      ensures onBefore == if BeforeSlot in refusedSlots then old(onBefore) else Some(a)
    {
      if BeforeSlot in refusedSlots {
        return Some(failure);
      }
      onBefore := Some(a);
      return None;
    }

    method SetOnAfterObjectSerialization(a: Action) returns (err: Option<Error>)
      modifies this`onAfter
      ensures err == if AfterSlot in refusedSlots then Some(failure) else None
      ensures onAfter == if AfterSlot in refusedSlots then old(onAfter) else Some(a)
    {
      if AfterSlot in refusedSlots {
        return Some(failure);
      }
      onAfter := Some(a);
      return None;
    }

    method SetOnStartObjectSerialization(a: StartAction) returns (err: Option<Error>)
      modifies this`onStart
      ensures err == if StartSlot in refusedSlots then Some(failure) else None
      ensures onStart == if StartSlot in refusedSlots then old(onStart) else Some(a)
    {
      if StartSlot in refusedSlots {
        return Some(failure);
      }
      onStart := Some(a);
      return None;
    }

    method WriteNull(key: string) returns (err: Option<Error>)
      modifies this`calls
      ensures calls == old(calls) + [WriteNullValue(key)]
      ensures err == if key in rejectedNullKeys then Some(failure) else None
    {
      calls := calls + [WriteNullValue(key)];
      err := if key in rejectedNullKeys then Some(failure) else None;
    }

    method WriteObject(key: string, model: Parsable) returns (err: Option<Error>)
      modifies this`calls
      ensures calls == old(calls) + [WriteObjectValue(key, model)]
      ensures err == if failsObjectWrites then Some(failure) else None
    {
      calls := calls + [WriteObjectValue(key, model)];
      err := if failsObjectWrites then Some(failure) else None;
    }

    method WriteCollection(key: string, models: Option<seq<Parsable>>) returns (err: Option<Error>)
      modifies this`calls
      ensures calls == old(calls) + [WriteCollectionOfObjectValues(key, models)]
      ensures err == if failsObjectWrites then Some(failure) else None
    {
      calls := calls + [WriteCollectionOfObjectValues(key, models)];
      err := if failsObjectWrites then Some(failure) else None;
    }

    method SerializedContent() returns (r: Result<seq<byte>, Error>)
      modifies this`calls
      ensures calls == old(calls) + [GetSerializedContent]
      ensures r == content
    {
      calls := calls + [GetSerializedContent];
      r := content;
    }

    method CloseWriter()
      modifies this`calls
      ensures calls == old(calls) + [Close]
    {
      calls := calls + [Close];
    }
  }

  /** The keys of a store changed to nil. */
  function NilKeys(s: BackingStore.InMemoryBackingStore): set<string>
    reads s
  {
    set k | k in s.store && s.ChangedToNil(k)
  }

  /** Whether the backing-store start hook fails on this model and writer: some key changed to nil is
      one whose null write the writer rejects. */
  predicate NilWritesFail(p: Parsable, w: SerializationWriter)
    reads if HasStore(p) then {p.store} else {}
  {
    HasStore(p) && NilKeys(p.store) * w.rejectedNullKeys != {}
  }

  /** The null writes of the given keys, in order. */
  function NullWrites(keys: seq<string>): (r: seq<WriterCall>)
    ensures |r| == |keys|
    ensures forall i :: 0 <= i < |keys| ==> r[i] == WriteNullValue(keys[i])
  {
    if keys == [] then [] else NullWrites(keys[..|keys| - 1]) + [WriteNullValue(keys[|keys| - 1])]
  }

  /** The loop of the backing-store start hook: the null writes of `keys` in order, up to and
      including the first one the writer refuses, whose error is returned. */
  method WriteNulls(keys: seq<string>, w: SerializationWriter) returns (err: Option<Error>, n: nat)
    modifies w`calls
    ensures n <= |keys| && w.calls == old(w.calls) + NullWrites(keys[..n])
    ensures forall i :: 0 <= i < n - 1 ==> keys[i] !in w.rejectedNullKeys
    ensures err.None? ==> n == |keys| && forall i :: 0 <= i < |keys| ==> keys[i] !in w.rejectedNullKeys
    ensures err.Some? ==> n > 0 && keys[n - 1] in w.rejectedNullKeys && err == Some(w.failure)
  {
    n := 0;
    err := None;
    while n < |keys|
      invariant n <= |keys| && w.calls == old(w.calls) + NullWrites(keys[..n])
      invariant forall i :: 0 <= i < n ==> keys[i] !in w.rejectedNullKeys
      invariant err.None?
    {
      err := w.WriteNull(keys[n]);
      assert keys[..n + 1][..n] == keys[..n];
      n := n + 1;
      if err.Some? {
        return;
      }
    }
  }

  /** What the null writes of distinct keys say about the set of keys they come from. */
  lemma NullWritesOfKeys(keys: seq<string>, n: nat, nils: set<string>, rejected: set<string>, failed: bool)
    requires forall i, j :: 0 <= i < j < |keys| ==> keys[i] != keys[j]
    requires forall k :: k in keys <==> k in nils
    requires n <= |keys|
    requires forall i :: 0 <= i < n - 1 ==> keys[i] !in rejected
    requires !failed ==> n == |keys| && forall i :: 0 <= i < |keys| ==> keys[i] !in rejected
    requires failed ==> n > 0 && keys[n - 1] in rejected
    ensures failed <==> nils * rejected != {}
    ensures var written := NullWrites(keys[..n]);
            && (forall i :: 0 <= i < |written| ==> written[i].WriteNullValue? && written[i].key in nils)
            && (forall i, j :: 0 <= i < j < |written| ==> written[i] != written[j])
            && (forall i :: 0 <= i < |written| - 1 ==> written[i].key !in rejected)
            && (!failed ==> forall k :: k in nils ==> WriteNullValue(k) in written)
            && (failed ==> written != [] && written[|written| - 1].key in rejected)
  {
    var written := NullWrites(keys[..n]);
    forall i | 0 <= i < |written| ensures written[i].WriteNullValue? && written[i].key in nils {
      assert written[i] == WriteNullValue(keys[i]);
      assert keys[i] in keys;
    }
    if failed {
      assert keys[n - 1] in keys;
      assert keys[n - 1] in nils * rejected;
    } else {
      forall k | k in nils ensures WriteNullValue(k) in written {
        var i :| 0 <= i < |keys| && keys[i] == k;
        assert written[i] == WriteNullValue(k);
      }
      forall k | k in nils ensures k !in rejected {
        var i :| 0 <= i < |keys| && keys[i] == k;
      }
    }
  }

  /** The start hook of the backing-store writer factory: one `WriteNullValue` per key the store
      enumerates as changed to nil, in the order it gives them, stopping at the first error, which it
      returns. A model without a store writes nothing. */
  method WriteChangedNilValues(p: Parsable, w: SerializationWriter) returns (err: Option<Error>)
    modifies w`calls
    ensures err.Some? <==> NilWritesFail(p, w)
    ensures err.Some? ==> err == Some(w.failure)
    ensures |w.calls| >= |old(w.calls)| && w.calls[..|old(w.calls)|] == old(w.calls)
    ensures HasStore(p) ==>
            var written := w.calls[|old(w.calls)|..];
            && (forall i :: 0 <= i < |written| ==> written[i].WriteNullValue? && written[i].key in NilKeys(p.store))
            && (forall i, j :: 0 <= i < j < |written| ==> written[i] != written[j])
            && (forall i :: 0 <= i < |written| - 1 ==> written[i].key !in w.rejectedNullKeys)
            && (err.None? ==> forall k :: k in NilKeys(p.store) ==> WriteNullValue(k) in written)
            && (err.Some? ==> written != [] && written[|written| - 1].key in w.rejectedNullKeys)
    ensures !HasStore(p) ==> w.calls == old(w.calls)
  {
    if !(p.Backed? && p.store != null) {
      return None;
    }
    var nilValues := p.store.EnumerateKeysForValuesChangedToNil();
    var n;
    err, n := WriteNulls(nilValues, w);
    NullWritesOfKeys(nilValues, n, NilKeys(p.store), w.rejectedNullKeys, err.Some?);
    assert w.calls[|old(w.calls)|..] == NullWrites(nilValues[..n]);
  }

  /** Calls that are all null writes of the given keys. */
  predicate NullWritesOf(written: seq<WriterCall>, keys: set<string>) {
    forall i :: 0 <= i < |written| ==> written[i].WriteNullValue? && written[i].key in keys
  }

  /** Two runs of null writes, one after the other, are one run of null writes. */
  lemma NullWritesExtend(s0: seq<WriterCall>, s1: seq<WriterCall>, s2: seq<WriterCall>, keys: set<string>)
    requires |s0| <= |s1| <= |s2| && s1[..|s0|] == s0 && s2[..|s1|] == s1
    requires NullWritesOf(s1[|s0|..], keys) && NullWritesOf(s2[|s1|..], keys)
    ensures NullWritesOf(s2[|s0|..], keys)
  {
    forall i | 0 <= i < |s2| - |s0|
      ensures s2[|s0|..][i].WriteNullValue? && s2[|s0|..][i].key in keys
    {
      if |s0| + i < |s1| {
        assert s2[|s0|..][i] == s1[|s0|..][i];
      } else {
        assert s2[|s0|..][i] == s2[|s1|..][|s0| + i - |s1|];
      }
    }
  }

  /** Runs a start action on a model and writer. The outcome and the callbacks follow `StartResult`
      and `StartCallbacks`; the only calls the writer receives are null writes for keys changed to
      nil. */
  method RunStart(a: StartAction, p: Parsable, w: SerializationWriter) returns (outcome: StartOutcome, callbacks: seq<nat>)
    modifies w`calls
    ensures outcome == StartResult(a, NilWritesFail(p, w))
    ensures callbacks == StartCallbacks(a, NilWritesFail(p, w))
    ensures |w.calls| >= |old(w.calls)| && w.calls[..|old(w.calls)|] == old(w.calls)
    ensures HasStore(p) ==> NullWritesOf(w.calls[|old(w.calls)|..], NilKeys(p.store))
    ensures !HasStore(p) ==> w.calls == old(w.calls)
  {
    match a
    case StartCallback(tag, fails) =>
      outcome := if fails then Failed else Completed;
      callbacks := [tag];
    case WriteChangedNils =>
      var err := WriteChangedNilValues(p, w);
      outcome := if err.Some? then Failed else Completed;
      callbacks := [];
    case StartThen(first, original) =>
      outcome, callbacks := RunStart(first, p, w);
      if outcome == Completed && original.Some? {
        ghost var mid := w.calls;
        var more;
        outcome, more := RunStart(original.value, p, w);
        if HasStore(p) { NullWritesExtend(old(w.calls), mid, w.calls, NilKeys(p.store)); }
        callbacks := callbacks + more;
      }
    case StartAsWritten(first, originalBefore, originalStart) =>
      outcome, callbacks := RunStart(first, p, w);
      if outcome == Completed && originalBefore.Some? {
        if originalStart.None? {
          outcome := Panicked;
        } else {
          ghost var mid := w.calls;
          var more;
          outcome, more := RunStart(originalStart.value, p, w);
          if HasStore(p) { NullWritesExtend(old(w.calls), mid, w.calls, NilKeys(p.store)); }
          callbacks := callbacks + more;
        }
      }
  }

  /** A `ParsableFactory`; nil is `None` where the source allows it. */
  datatype ParsableFactory = ParsableFactory(name: string)

  /** A `ParseNode`. The stand-in keeps the two hook slots and hands back fixed results. */
  class ParseNode {
    var onBefore: Option<Action>
    var onAfter: Option<Action>
    /** the slots whose setter returns `failure` */
    const refusedSlots: set<Slot>
    const failure: Error
    const objectValue: Result<Parsable, Error>
    const collectionValue: Result<seq<Parsable>, Error>

    constructor (before: Option<Action>, after: Option<Action>, refused: set<Slot>, failure: Error,
                 objectValue: Result<Parsable, Error>, collectionValue: Result<seq<Parsable>, Error>)
      ensures onBefore == before && onAfter == after && refusedSlots == refused && this.failure == failure
      ensures this.objectValue == objectValue && this.collectionValue == collectionValue
    {
      onBefore, onAfter, refusedSlots, this.failure := before, after, refused, failure;
      this.objectValue, this.collectionValue := objectValue, collectionValue;
    }

    function GetOnBeforeAssignFieldValues(): Option<Action>
      reads this
    {
      onBefore
    }

    function GetOnAfterAssignFieldValues(): Option<Action>
      reads this
    {
      onAfter
    }

    method SetOnBeforeAssignFieldValues(a: Action) returns (err: Option<Error>)
      modifies this`onBefore
      ensures err == if BeforeSlot in refusedSlots then Some(failure) else None
      ensures onBefore == if BeforeSlot in refusedSlots then old(onBefore) else Some(a)
    {
      if BeforeSlot in refusedSlots {
        return Some(failure);
      }
      onBefore := Some(a);
      return None;
    }

    method SetOnAfterAssignFieldValues(a: Action) returns (err: Option<Error>)
      modifies this`onAfter
      ensures err == if AfterSlot in refusedSlots then Some(failure) else None
      ensures onAfter == if AfterSlot in refusedSlots then old(onAfter) else Some(a)
    {
      if AfterSlot in refusedSlots {
        return Some(failure);
      }
      onAfter := Some(a);
      return None;
    }

    function GetObjectValue(factory: ParsableFactory): Result<Parsable, Error> {
      objectValue
    }

    function GetCollectionOfObjectValues(factory: ParsableFactory): Result<seq<Parsable>, Error> {
      collectionValue
    }
  }

  /** A `SerializationWriterFactory`. The stand-in hands out one writer per content type it knows. */
  class SerializationWriterFactory {
    const validContentType: Result<string, Error>
    const writers: map<string, SerializationWriter>
    const failure: Error

    constructor (validContentType: Result<string, Error>, writers: map<string, SerializationWriter>, failure: Error)
      ensures this.validContentType == validContentType && this.writers == writers && this.failure == failure
    {
      this.validContentType, this.writers, this.failure := validContentType, writers, failure;
    }

    function GetValidContentType(): Result<string, Error> {
      validContentType
    }

    function GetSerializationWriter(contentType: string): Result<SerializationWriter, Error> {
      if contentType in writers then Success(writers[contentType]) else Failure(failure)
    }

    /** The writers a call for this content type may change. */
    function Footprint(contentType: string): set<SerializationWriter> {
      if contentType in writers then {writers[contentType]} else {}
    }
  }

  /** A `ParseNodeFactory`. The stand-in hands out one root node per content type it knows, whatever
      the content. */
  class ParseNodeFactory {
    const validContentType: Result<string, Error>
    const nodes: map<string, ParseNode>
    const failure: Error

    constructor (validContentType: Result<string, Error>, nodes: map<string, ParseNode>, failure: Error)
      ensures this.validContentType == validContentType && this.nodes == nodes && this.failure == failure
    {
      this.validContentType, this.nodes, this.failure := validContentType, nodes, failure;
    }

    function GetValidContentType(): Result<string, Error> {
      validContentType
    }

    function GetRootParseNode(contentType: string, content: seq<byte>): Result<ParseNode, Error> {
      if contentType in nodes then Success(nodes[contentType]) else Failure(failure)
    }

    /** The nodes a call for this content type may change. */
    function Footprint(contentType: string): set<ParseNode> {
      if contentType in nodes then {nodes[contentType]} else {}
    }
  }
}
