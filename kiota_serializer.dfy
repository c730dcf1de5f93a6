/** The serialization entry points: argument checks in a fixed order, then one ordered sequence of
    calls on the writer or parse node the default registry hands out. The default registries are
    parameters here. */
module KiotaSerializer {
  import opened Wrappers
  import opened Serialization

  const ErrEmptyContentType := Error("the content type is empty")
  const ErrEmptyValue := Error("the value is empty")
  const ErrEmptyContent := Error("the content is empty")
  const ErrEmptyParsableFactory := Error("the parsable factory is empty")

  /** The `interface{}` value `getSerializationWriter` checks against nil. A slice stored in an
      interface is never nil, even when the slice itself is. */
  datatype Value = NilValue | ModelValue(model: Parsable) | CollectionValue(models: Option<seq<Parsable>>)

  /** A model passed on as `interface{}`: a nil `Parsable` becomes a nil interface. */
  function OfModel(model: Parsable): Value {
    if model == NilParsable then NilValue else ModelValue(model)
  }

  /** A collection passed on as `interface{}` as the source does it: never nil. */
  function OfCollectionAsWritten(models: Option<seq<Parsable>>): Value {
    CollectionValue(models)
  }

  /** A collection passed on as `interface{}`, corrected: a nil slice counts as a nil value. */
  function OfCollection(models: Option<seq<Parsable>>): Value {
    if models.None? then NilValue else CollectionValue(models)
  }

  /** `getSerializationWriter`: an empty content type is rejected first, a nil value second, and
      only then is the registry asked, whose answer is returned as it is. */
  function GetSerializationWriter(contentType: string, value: Value, registry: SerializationWriterFactory)
    : (r: Result<SerializationWriter, Error>)
    ensures contentType == "" ==> r == Failure(ErrEmptyContentType)
    ensures contentType != "" && value == NilValue ==> r == Failure(ErrEmptyValue)
    ensures contentType != "" && value != NilValue ==> r == registry.GetSerializationWriter(contentType)
  {
    if contentType == "" then Failure(ErrEmptyContentType)
    else if value == NilValue then Failure(ErrEmptyValue)
    else registry.GetSerializationWriter(contentType)
  }

  /** `Serialize`: with a writer obtained, exactly one `WriteObjectValue("", model)`; on its error the
      error is returned without asking for the content; otherwise the content is returned. The
      deferred `Close` runs once on both paths, last. */
  method Serialize(contentType: string, model: Parsable, registry: SerializationWriterFactory)
    returns (r: Result<seq<byte>, Error>)
    modifies registry.Footprint(contentType)
    ensures var got := GetSerializationWriter(contentType, OfModel(model), registry);
            got.Failure? ==> r == Failure(got.error)
    ensures var got := GetSerializationWriter(contentType, OfModel(model), registry);
            got.Success? ==>
              var w := got.value;
              && w.calls == old(w.calls) + [WriteObjectValue("", model)]
                            + (if w.failsObjectWrites then [] else [GetSerializedContent]) + [Close]
              && r == (if w.failsObjectWrites then Failure(w.failure) else w.content)
  {
    var got := GetSerializationWriter(contentType, OfModel(model), registry);
    if got.Failure? {
      return Failure(got.error);
    }
    var writer := got.value;
    var err := writer.WriteObject("", model);
    if err.Some? {
      writer.CloseWriter();
      return Failure(err.value);
    }
    r := writer.SerializedContent();
    writer.CloseWriter();
  }

  /** `SerializeCollection`: with a writer obtained, exactly one `WriteCollectionOfObjectValues("",
      models)` and no object write; then as `Serialize`. A nil collection is rejected as a nil value. */
  method SerializeCollection(contentType: string, models: Option<seq<Parsable>>, registry: SerializationWriterFactory)
    returns (r: Result<seq<byte>, Error>)
    modifies registry.Footprint(contentType)
    ensures var got := GetSerializationWriter(contentType, OfCollection(models), registry);
            got.Failure? ==> r == Failure(got.error)
    ensures var got := GetSerializationWriter(contentType, OfCollection(models), registry);
            got.Success? ==>
              var w := got.value;
              && w.calls == old(w.calls) + [WriteCollectionOfObjectValues("", models)]
                            + (if w.failsObjectWrites then [] else [GetSerializedContent]) + [Close]
              && r == (if w.failsObjectWrites then Failure(w.failure) else w.content)
  {
    var got := GetSerializationWriter(contentType, OfCollection(models), registry);
    if got.Failure? {
      return Failure(got.error);
    }
    var writer := got.value;
    var err := writer.WriteCollection("", models);
    if err.Some? {
      writer.CloseWriter();
      return Failure(err.value);
    }
    r := writer.SerializedContent();
    writer.CloseWriter();
  }

  /** A nil model is refused before any registry is asked, for any content type. */
  lemma NilModelRefused(contentType: string, registry: SerializationWriterFactory)
    ensures GetSerializationWriter(contentType, OfModel(NilParsable), registry)
            == Failure(if contentType == "" then ErrEmptyContentType else ErrEmptyValue)
  {
  }

  /** As written, a nil collection gets past the nil check: the registry is asked for a writer, which
      then writes an empty collection. Corrected, it is refused as a nil value. */
  lemma AsWrittenNilCollectionPasses(contentType: string, registry: SerializationWriterFactory)
    requires contentType != ""
    ensures GetSerializationWriter(contentType, OfCollectionAsWritten(None), registry)
            == registry.GetSerializationWriter(contentType)
    ensures GetSerializationWriter(contentType, OfCollection(None), registry) == Failure(ErrEmptyValue)
  {
  }

  /** The two conversions agree on every non-nil collection. */
  lemma CollectionConversionsAgree(models: seq<Parsable>)
    ensures OfCollection(Some(models)) == OfCollectionAsWritten(Some(models))
  {
  }

  /** `getParseNode`: an empty content type is rejected first, nil or empty content second, a nil
      factory third; only then is the registry asked, whose answer is returned as it is. */
  function GetParseNode(contentType: string, content: Option<seq<byte>>, factory: Option<ParsableFactory>,
                        registry: ParseNodeFactory): (r: Result<ParseNode, Error>)
    ensures contentType == "" ==> r == Failure(ErrEmptyContentType)
    ensures contentType != "" && (content.None? || content.value == []) ==> r == Failure(ErrEmptyContent)
    ensures contentType != "" && content.Some? && content.value != [] && factory.None? ==> r == Failure(ErrEmptyParsableFactory)
    ensures r.Success? ==> contentType != "" && content.Some? && content.value != [] && factory.Some?
    ensures contentType != "" && content.Some? && content.value != [] && factory.Some? ==>
              r == registry.GetRootParseNode(contentType, content.value)
  {
    if contentType == "" then Failure(ErrEmptyContentType)
    else if content.None? || |content.value| == 0 then Failure(ErrEmptyContent)
    else if factory.None? then Failure(ErrEmptyParsableFactory)
    else registry.GetRootParseNode(contentType, content.value)
  }

  /** `Deserialize`: the node's `GetObjectValue` result, every error passed on unchanged. */
  function Deserialize(contentType: string, content: Option<seq<byte>>, factory: Option<ParsableFactory>,
                       registry: ParseNodeFactory): (r: Result<Parsable, Error>)
    ensures var node := GetParseNode(contentType, content, factory, registry);
            if node.Failure? then r == Failure(node.error) else r == node.value.GetObjectValue(factory.value)
  {
    var node := GetParseNode(contentType, content, factory, registry);
    if node.Failure? then Failure(node.error)
    else
      var result := node.value.GetObjectValue(factory.value);
      if result.Failure? then Failure(result.error) else Success(result.value)
  }

  /** `DeserializeCollection`: the node's `GetCollectionOfObjectValues` result, every error passed on
      unchanged. */
  function DeserializeCollection(contentType: string, content: Option<seq<byte>>, factory: Option<ParsableFactory>,
                                 registry: ParseNodeFactory): (r: Result<seq<Parsable>, Error>)
    ensures var node := GetParseNode(contentType, content, factory, registry);
            if node.Failure? then r == Failure(node.error) else r == node.value.GetCollectionOfObjectValues(factory.value)
  {
    var node := GetParseNode(contentType, content, factory, registry);
    if node.Failure? then Failure(node.error)
    else
      var result := node.value.GetCollectionOfObjectValues(factory.value);
      if result.Failure? then Failure(result.error) else Success(result.value)
  }
}
