# kiota-abstractions-go core, modelled in Dafny

This project models the parts of the Go Kiota abstractions library that hold logic of their own.

- **The ISO 8601 duration value type** (`serialization/duration.go`). A struct of eight integer units with:
  - an in-place normaliser that carries small units into larger ones, and can refuse weeks mixed with years or months;
  - a renderer that writes `P…T…`;
  - the conversions to a fixed length;
  - the regular-expression parser.
- **The time-of-day value type** (`serialization/time_only.go`). It formats and parses `HH:MM:SS[.f…]` with 0 to 9 decimal places, and keeps the precision it was read with.
- **The change-tracking in-memory backing store** (`store/inmemory_backing_store.go`). It holds:
  - a key/value map and a changed-flag map;
  - subscribers, who are notified on every effective `Set`;
  - two mode flags, "return only changed values" and "initialization completed".
- **The hook lambdas that drive those two flags** while a backed model is written and parsed (`store/backing_store_*_factory.go`). They reach the store through the generic writer and parse-node proxy factories, which compose them with the hooks a writer or node already has (`serialization/*_proxy_factory.go`).
- **The serializer entry points** (`serialization/kiota_serializer.go`). Each checks its arguments in a fixed order, then drives a writer or parse node through a fixed call sequence.
- **The `PersonStatus` enum codec** (`internal/person_status.go`).

Each source file has its own module.

- **Imperative code stays imperative:**
  - `Duration.Duration` is a class whose carries, `Normalize`, `String` and conversions update its fields in place.
  - `BackingStore.InMemoryBackingStore` is a class over `map` fields, and its looping operations are methods with loop invariants.
  - The proxies are classes whose `GetSerializationWriter` and `GetRootParseNode` overwrite the hook slots of a writer or node, setter by setter.
- **Each method is proved against a specification function** (`Normalized`, `Render`, `LengthNanos`, `ReportedEntries`, `Effect`, `StartResult`, …). What the source promises is proved about those functions as lemmas.
- **Hooks are data.** Go closures cannot be compared or inspected, so each closure the core builds is a constructor of `Serialization.Action` or `Serialization.StartAction`:
  - `Effect` and `Callbacks` give what running an `Action` does to a store's two flags, and which of the caller's own callbacks it calls;
  - `StartResult` and `StartCallbacks` do the same for a `StartAction`;
  - `Serialization.Run` and `Serialization.RunStart` execute them on real stores and writers, proved against those functions.
- **Foreign objects are stand-ins.**
  - A writer, parse node or factory from another package becomes a small class. It keeps its hook slots, records the calls it receives, and fails exactly where its constants say.
  - The default registries used by `kiota_serializer.go` are parameters.
  - The random id of `Subscribe` is a parameter.

Module `Wrappers` holds `Option`, `Result` and `Error`. Module `Text` holds `strings.TrimSpace`, decimal digit strings and `%0Nd` padding.

## Model

| member | source | states |
|---|---|---|
| Duration.Duration.Normalize | serialization/duration.go:136-176 | the fields become `Normalized` of the old fields (the six carries in source order, all written before the check), and the error is `ErrWeeksNotWithYearsOrMonth` exactly when `NormalizeError` says so |
| Duration.NormalizePreservesLength | serialization/duration.go:143-166 | every carry is exact: the fixed-length part (ms + 1000·s + … + weeks) and the calendar months (12·years + months) are unchanged |
| Duration.NormalizeBounds | serialization/duration.go:143-166 | for non-negative fields: ms < 1000, s < 60, min < 60, h < 24, months ≤ 12, and days < 7 when neither months nor years blocked the day carry |
| Duration.NormalizeWeeks | serialization/duration.go:159-162 | weeks are never carried away; with months or years present they do not change at all |
| Duration.MonthCarryIsStrict | serialization/duration.go:163-166 | 12 months stay 12 months; 13 months become one year and one month |
| Duration.NormalizeErrorOfInput | serialization/duration.go:168-170 | for non-negative fields the error happens iff the input has weeks together with years or months |
| Duration.NormalizeIdempotent | serialization/duration.go:136-176 | for non-negative fields a second normalisation changes nothing and gives the same error |
| Duration.NormalizeNotIdempotentForNegativeYears | serialization/duration.go:159-166 | with negative years the month carry can clear the calendar part after the day carry was skipped, so idempotence needs non-negative fields |
| Duration.RenderDesignators | serialization/duration.go:103-127 | the text starts with the only `P`, and contains `T` iff hours, minutes or seconds are non-zero (`hasTimePart`) |
| Duration.Duration.String | serialization/duration.go:94-130 | normalises in place; a normalisation error becomes a failure (the panic), otherwise the result is `Render` of the normalised fields: positive units in the order Y M W D, then T and H M S; milliseconds are never written |
| Duration.WriteText | serialization/duration.go:103-127 | the appends of `string` (`P`, each positive date unit, then `T` and each positive time unit when there is a time part) build exactly `Render` of the fields |
| Duration.NormalizeExamples | serialization/duration.go:136-166 | the carries the package's tests exercise (1001 ms, 61 s, 61 min, 25 h, 8 d, 56 w, 2 months 15 days, 13 months, and the two weeks errors) |
| Duration.RenderExamples | serialization/duration.go:103-129 | the texts of those values with a time part, among them `PT1S` for 1001 ms |
| Duration.RenderDateExamples | serialization/duration.go:103-116 | the texts of those values with only date units, among them `P1W1D` for 8 days and `P1Y1M` for 13 months |
| Duration.Duration.ToDurationWithMonths | serialization/duration.go:189-210 | normalises in place; on error the length is 0 with that error, otherwise it is `LengthNanos` with `daysInAMonth`-day months |
| Duration.LengthDropsMilliSeconds | serialization/duration.go:189-210 | that length is the whole seconds of the input's fixed-length part plus the normalised calendar part, so sub-second milliseconds are dropped |
| Duration.Duration.ToDuration | serialization/duration.go:182-187 | months refuse the call with `ErrMonthsInDurationUseOverload` before anything is touched; otherwise it is `toDurationWithMonths(31)` |
| DurationParsing.ParseWith | serialization/duration.go:38-53 | parsing fails (bad format) iff the text has no `P`; a match of the week pattern gives the weeks alone |
| DurationParsing.FromString | serialization/duration.go:38-91 | the loop over the group names assigns exactly the fields `ParseWith` gives for the selected seconds grammar, into a fresh duration: `fractionRequired` true is the source as written, false the corrected grammar; it fails iff there is no `P` |
| DurationParsing.ParseRender | serialization/duration.go:23-24 | with the seconds fraction optional (corrected), parsing a rendered duration gives back every unit but the milliseconds, unless there are weeks, in which case only the weeks come back |
| DurationParsing.ParseAsWrittenRender | serialization/duration.go:23 | with the seconds group as written, rendered whole seconds are read back as 0 |
| DurationParsing.StringThenParse | serialization/duration.go:94-130 | with the corrected seconds grammar, rendering non-negative fields and parsing the text again gives back the normalised fields without milliseconds, or only the weeks |
| DurationParsing.StringThenParseAsWritten | serialization/duration.go:23-130 | with the seconds grammar as written, the same round trip also loses the whole seconds, which read back as 0 |
| DurationParsing.AsWrittenDropsWholeSeconds | serialization/duration.go:23 | `PT1S`, the text for 1001 ms, parses as zero as written and as one second when corrected |
| DurationParsing.ParseExamples | serialization/duration.go:44-52 | with the corrected grammar, `P1M` and `P1MT1M` parse as expected, `P1W1D` keeps only the week, and `1W` is a format error |
| DurationParsing.ParseAsWrittenExamples | serialization/duration.go:23-52 | the same four results with the grammar as written, which the package's tests run |
| TimeOfDay.Format | serialization/time_only.go:15-28 | a precision-`p` layout writes 8 characters, plus a dot and `p` digits when `p > 0` |
| TimeOfDay.ParseWith | serialization/time_only.go:39-59 | blank text gives the nil result; a precision above 9 is the precision error; a parsed value keeps the length of the text after the first dot as its precision |
| TimeOfDay.ParseTrims | serialization/time_only.go:40 | only the trimmed text is read |
| TimeOfDay.ParseString | serialization/time_only.go:31-59 | parsing what `String` writes gives the time back, its nanoseconds cut to the precision, with the same precision |
| TimeOfDay.ParseTimeOnlyExact | serialization/time_only.go:39-59 | the strict parser accepts exactly the text `String` writes for a time whose nanoseconds fit its precision, and returns that time |
| TimeOfDay.AsWrittenExtendsStrict | serialization/time_only.go:53 | wherever the strict parser does not report a layout mismatch, `time.Parse`'s reading gives the same result |
| TimeOfDay.NewTimeOnly | serialization/time_only.go:62-72 | keeps the time; its precision is at most 9, and `q` places keep all the nanoseconds iff `q` is at least that precision, so the trailing-zero trim gives the fewest exact places |
| TimeOfDay.NewTimeOnlyRoundTrip | serialization/time_only.go:31-72 | the text of a `NewTimeOnly` parses back to the same value |
| TimeOfDay.NewTimeOnlyExamples | serialization/time_only.go:62-72 | the precisions 0, 3, 6, 9, 2 and 1 of the package's tests |
| TimeOfDay.String | serialization/time_only.go:31-36 | the text of a precision with a layout is `HH:MM:SS`, with colons at 2 and 5, plus a dot and `p` digits when `p > 0`; a precision without a layout gives the empty text |
| TimeOfDay.StringExamples | serialization/time_only.go:31-36 | `15:04:05` and `05:04:05` without a fraction, and the empty text for a precision that has no layout |
| TimeOfDay.FormatPrefix | serialization/time_only.go:17-28 | the layouts share their prefix: a lower precision writes the first `9 + p` characters of what a higher one writes |
| TimeOfDay.PrecisionMessageExample | serialization/time_only.go:49 | the precision error for 10 reads `time precision of 10 exceeds maximum allowed of 9` |
| TimeOfDay.PrecisionErrorExample | serialization/time_only.go:45-51 | ten decimals give the precision error for 10 |
| TimeOfDay.HourOutOfRangeExample | serialization/time_only.go:53-56 | `25:04:05` is a layout mismatch |
| TimeOfDay.ShortFieldsExample | serialization/time_only.go:53-56 | `5:4:5` is a layout mismatch |
| TimeOfDay.AsWrittenTakesOneDigitHour | serialization/time_only.go:53 | `time.Parse` reads the text for any time before ten o'clock with its leading zero dropped, and `String` then writes one character more; the strict reading refuses it |
| TimeOfDay.AsWrittenTakesCommaFraction | serialization/time_only.go:52-53 | the layout without a fraction (line 18) lets `,digits` through, so the nanoseconds are read and `String` drops them; the strict reading refuses it |
| TimeOfDay.AsWrittenTakesSignedFraction | serialization/time_only.go:46-53 | `.+f` is read as `.0f` by `time.Parse`; the strict reading refuses it |
| Text.TrimSpace | serialization/time_only.go:40 | the result is a piece of the text with only white space before and after it, neither starts nor ends with white space, and is empty iff the text is blank |
| Text.TrimmedEnds | serialization/time_only.go:40 | the piece `TrimSpace` keeps, between the leading white space and the trailing white space of the rest, neither starts nor ends with white space, and what is cut off on either side is all white space |
| Text.TrimmedBlank | serialization/time_only.go:40 | that piece is empty exactly when the whole text is white space |
| BackingStore.InMemoryBackingStore.constructor | store/inmemory_backing_store.go:21-29 | a new store is empty, reports all values, and has initialization completed |
| BackingStore.InMemoryBackingStore.Get | store/inmemory_backing_store.go:31-44 | a blank key is the empty-key error; otherwise the value stored under the trimmed key, or nil when it is missing or when only changed values are reported and the key is not flagged |
| BackingStore.InMemoryBackingStore.Set | store/inmemory_backing_store.go:46-69 | a blank key is the error and changes nothing; the set takes effect iff the current value is nil or differs; then the value is stored, its flag becomes the initialization flag, and each subscriber is notified once with key, old and new value; a later `Get` sees the value, or nil when it is unflagged and only changed values are reported |
| BackingStore.NotifySubscribers | store/inmemory_backing_store.go:64-68 | the batch holds one notification for every subscriber id, no id twice, each carrying the key and the old and new values |
| BackingStore.NotifiesEachCount | store/inmemory_backing_store.go:64-68 | the batch has exactly one entry per subscriber |
| BackingStore.UnsubscribedHearsNothing | store/inmemory_backing_store.go:111-120 | an id that is not subscribed receives no notification |
| BackingStore.DistinctRecipients | store/inmemory_backing_store.go:64-68 | a batch with distinct ids has as many recipients as entries |
| BackingStore.InMemoryBackingStore.ReportedEntries | store/inmemory_backing_store.go:71-81 | exactly the stored entries that pass `Get`'s filter, with their values |
| BackingStore.InMemoryBackingStore.Enumerate | store/inmemory_backing_store.go:71-81 | the loop returns `ReportedEntries` and changes nothing |
| BackingStore.GetAgreesWithEnumerate | store/inmemory_backing_store.go:31-81 | for any non-blank key, `Get` and `Enumerate` agree on the reported value |
| BackingStore.InMemoryBackingStore.EnumerateKeysForValuesChangedToNil | store/inmemory_backing_store.go:83-92 | each key whose flag is set and whose value is nil, each exactly once, and no other |
| BackingStore.InMemoryBackingStore.Subscribe | store/inmemory_backing_store.go:94-98 | subscribes the callback under the given new id and returns that id |
| BackingStore.InMemoryBackingStore.SubscribeWithId | store/inmemory_backing_store.go:100-109 | a blank id is an error and changes nothing; otherwise the trimmed id is inserted or overwritten |
| BackingStore.InMemoryBackingStore.Unsubscribe | store/inmemory_backing_store.go:111-120 | a blank id is an error and changes nothing; otherwise the trimmed id is removed |
| BackingStore.InMemoryBackingStore.Clear | store/inmemory_backing_store.go:122-127 | every entry and its flag are removed; subscribers and both mode flags are kept |
| BackingStore.InMemoryBackingStore.SetInitializationCompleted | store/inmemory_backing_store.go:133-135 | sets that flag and nothing else |
| BackingStore.InMemoryBackingStore.GetInitializationCompleted | store/inmemory_backing_store.go:129-131 | reads the initialization flag |
| BackingStore.InMemoryBackingStore.GetReturnOnlyChangedValues | store/inmemory_backing_store.go:137-139 | reads the reporting flag: when it is false every key is reported, and when it is true exactly the flagged keys are |
| BackingStore.InMemoryBackingStore.SetReturnOnlyChangedValues | store/inmemory_backing_store.go:141-143 | sets that flag and nothing else |
| Serialization.Run | store/backing_store_serialization_writer_proxy_factory.go:8-17 | running an action calls exactly `Callbacks` and moves the store's flags by `Effect`; it leaves the store's entries, flags map, subscribers and notifications alone |
| Serialization.EffectWithoutStore | store/backing_store_serialization_writer_proxy_factory.go:9 | no action changes anything for a model without a store |
| Serialization.ComposedActionOrder | serialization/serialization_writer_proxy_factory.go:41-48 | a composed hook runs the proxy's action, then the original when it is non-nil, in that order |
| Serialization.EffectOfCallbacksOnly | serialization/serialization_writer_proxy_factory.go:45-47 | the caller's own hooks do not touch the store's flags |
| Serialization.WriteChangedNilValues | store/backing_store_serialization_writer_proxy_factory.go:18-31 | one distinct null write per key changed to nil, stopping at the first refused one; the error is returned iff some such key is refused; on success every such key is written; a model without a store gets no writes and no error |
| Serialization.WriteNulls | store/backing_store_serialization_writer_proxy_factory.go:22-27 | the loop writes a null for each key in order and stops after the first key the writer refuses, returning that error; without an error every key was written and none refused |
| Serialization.NullWritesOfKeys | store/backing_store_serialization_writer_proxy_factory.go:20-27 | for the distinct keys changed to nil, the loop's writes are distinct null writes of such keys, cover all of them on success, and end with the refused key on failure; the failure happens iff some such key is refused |
| Serialization.NullWritesExtend | store/backing_store_serialization_writer_proxy_factory.go:22-27 | two runs of null writes, one after the other, are one run |
| Serialization.RunStart | serialization/serialization_writer_proxy_factory.go:66-80 | the outcome and callbacks of a start hook follow `StartResult` and `StartCallbacks`; the writer only receives null writes for keys changed to nil |
| Serialization.SerializationWriter.SetOnBeforeSerialization | serialization/serialization_writer_proxy_factory.go:41-51 | the stand-in's setter installs the hook, or returns its error and leaves the slot alone |
| SerializationWriterProxy.ComposeStart | serialization/serialization_writer_proxy_factory.go:66-80 | corrected start composition: the proxy's start first; an error or panic is returned at once; otherwise the original start hook when it is non-nil |
| SerializationWriterProxy.ComposeStartAsWritten | serialization/serialization_writer_proxy_factory.go:66-80 | as written, an error of the proxy's start is returned at once |
| SerializationWriterProxy.AsWrittenSkipsOriginalStart | serialization/serialization_writer_proxy_factory.go:73 | a writer with a start hook but no before hook loses that hook's result and callbacks as written, and keeps them when corrected |
| SerializationWriterProxy.AsWrittenSwallowsStartError | serialization/serialization_writer_proxy_factory.go:73-77 | an original start hook that fails is reported when corrected and swallowed as written |
| SerializationWriterProxy.AsWrittenPanicsWithoutOriginalStart | serialization/serialization_writer_proxy_factory.go:73-74 | a writer with a before hook but no start hook makes the composed start call a nil function |
| SerializationWriterProxy.AsWrittenAgreesWhenBothOrNeither | serialization/serialization_writer_proxy_factory.go:65-80 | the two compositions agree when the writer has both hooks or neither |
| SerializationWriterProxy.SerializationWriterProxyFactory.constructor | serialization/serialization_writer_proxy_factory.go:16-28 | keeps the factory and the three actions |
| SerializationWriterProxy.SerializationWriterProxyFactory.GetValidContentType | serialization/serialization_writer_proxy_factory.go:30-32 | the inner factory's answer, unchanged |
| SerializationWriterProxy.SerializationWriterProxyFactory.GetSerializationWriter | serialization/serialization_writer_proxy_factory.go:34-86 | an inner error is returned, and no writer is touched; otherwise the before, after and start slots are composed in that order, each over the slot's old hook; the start slot gets the composition as written (guarded by the old before hook) when `asWritten` holds, and the corrected one otherwise; the first refused setter returns its error and later slots keep their hooks; no call is made on the writer |
| ParseNodeProxy.ComposeBefore | serialization/parse_node_proxy_factory.go:33-40 | for a nil parsable only the original runs, when it is non-nil |
| ParseNodeProxy.ComposeBeforeOrder | serialization/parse_node_proxy_factory.go:33-40 | for a non-nil parsable the proxy's action runs first, then the original when it is non-nil, in flags and in callbacks |
| ParseNodeProxy.ComposeAfterOrder | serialization/parse_node_proxy_factory.go:45-53 | the corrected after hook runs the proxy's after action, then the original when it is non-nil, for every parsable |
| ParseNodeProxy.ComposeAfterAsWrittenOrder | serialization/parse_node_proxy_factory.go:45-53 | as written, the after hook runs the proxy's before action, then the original when it is non-nil, for every parsable |
| ParseNodeProxy.AsWrittenIgnoresAfterAction | serialization/parse_node_proxy_factory.go:46-53 | as written, the composed after hook does the same as with the before action in its place, whatever the after action is |
| ParseNodeProxy.ParseNodeProxyFactory.constructor | serialization/parse_node_proxy_factory.go:10-20 | keeps the factory and the two actions |
| ParseNodeProxy.ParseNodeProxyFactory.GetValidContentType | serialization/parse_node_proxy_factory.go:22-24 | the inner factory's answer, unchanged |
| ParseNodeProxy.ParseNodeProxyFactory.GetRootParseNode | serialization/parse_node_proxy_factory.go:26-59 | an inner error is returned; otherwise the before slot, then the after slot, are composed over their old hooks (the after slot with the after action, corrected); a refused setter returns its error and the later slot is left alone |
| BackingStoreWriterFactory.NewBackingStoreSerializationWriterProxyFactory | store/backing_store_serialization_writer_proxy_factory.go:7-32 | a fresh proxy over the factory with the three backing-store actions |
| BackingStoreWriterFactory.SerializationBracket | store/backing_store_serialization_writer_proxy_factory.go:8-17 | around a backed model, the composed before hook turns on "only changed values" and keeps the initialization flag; the composed after hook turns it off and completes initialization |
| BackingStoreWriterFactory.UnbackedModelUntouched | store/backing_store_serialization_writer_proxy_factory.go:9-30 | a model without a store is left alone by all three hooks, and the start hook ends without error |
| BackingStoreWriterFactory.OnlyChangedWhileWriting | store/backing_store_serialization_writer_proxy_factory.go:10 | while "only changed values" is on, the store reports only flagged entries |
| BackingStoreParseNodeFactory.BackingStoreParseNodeFactory.constructor | store/backing_store_parse_node_factory.go:11-23 | embeds a fresh parse-node proxy over the factory with exactly the two initialization actions |
| BackingStoreParseNodeFactory.ParseBeginsInitialization | store/backing_store_parse_node_factory.go:12-15 | while a backed model's fields are assigned, its store is not initialized, so every value `Set` is recorded as not changed |
| BackingStoreParseNodeFactory.ParseCompletesInitialization | store/backing_store_parse_node_factory.go:16-19 | with the corrected composition, a parse ends with initialization completed and the reporting mode as it was |
| BackingStoreParseNodeFactory.AsWrittenParseLeavesInitializationIncomplete | serialization/parse_node_proxy_factory.go:47-48 | as written, a parse through the backing-store factory ends with initialization not completed |
| BackingStoreParseNodeFactory.UnbackedModelUntouched | store/backing_store_parse_node_factory.go:13-17 | a model without a store is left alone by both hooks |
| KiotaSerializer.GetSerializationWriter | serialization/kiota_serializer.go:33-45 | an empty content type is rejected first and a nil value second; only then is the registry asked, and its answer is returned as it is |
| KiotaSerializer.Serialize | serialization/kiota_serializer.go:9-20 | argument errors are returned; with a writer: one `WriteObjectValue("", model)`, then `GetSerializedContent` unless that write failed, then exactly one `Close`; the result is the write error or the content |
| KiotaSerializer.SerializeCollection | serialization/kiota_serializer.go:21-32 | the same with one `WriteCollectionOfObjectValues("", models)` and no object write; a nil collection is rejected as a nil value (corrected) |
| KiotaSerializer.NilModelRefused | serialization/kiota_serializer.go:9-13 | a nil model is refused before any registry is asked, with the content-type error first |
| KiotaSerializer.AsWrittenNilCollectionPasses | serialization/kiota_serializer.go:21-38 | a nil slice gets past the nil check as written; the corrected conversion refuses it |
| KiotaSerializer.CollectionConversionsAgree | serialization/kiota_serializer.go:22 | both conversions agree on every non-nil collection |
| KiotaSerializer.GetParseNode | serialization/kiota_serializer.go:58-73 | an empty content type first, nil or empty content second, a nil factory third; only then is the registry asked, and its answer is returned as it is |
| KiotaSerializer.Deserialize | serialization/kiota_serializer.go:47-57 | the node's `GetObjectValue` result, with every error passed on unchanged |
| KiotaSerializer.DeserializeCollection | serialization/kiota_serializer.go:74-84 | the node's `GetCollectionOfObjectValues` result, with every error passed on unchanged |
| PersonStatus.String | internal/person_status.go:12-14 | the name is one of the two names, and it is `active` exactly for `ACTIVE` |
| PersonStatus.IsMultiValue | internal/person_status.go:34-36 | a status is never multi-valued |
| PersonStatus.Parse | internal/person_status.go:15-26 | parsing succeeds iff the text is `active` or `suspended`; any other text fails with `Unknown PersonStatus value: ` followed by it |
| PersonStatus.ParseString | internal/person_status.go:12-26 | every status survives the trip through its name |
| PersonStatus.StringParse | internal/person_status.go:12-26 | every name that parses is the name of what it parses to |
| PersonStatus.StringInjective | internal/person_status.go:12-14 | distinct statuses have distinct names |
| PersonStatus.SerializePersonStatus | internal/person_status.go:27-33 | a slice of the same length with each value's name at its index |
| PersonStatus.SerializedParse | internal/person_status.go:27-33 | every serialized name parses back to its value |

## Left out

- Go's `int` and `time.Duration` are 64-bit. The model uses unbounded integers, so overflow is not modelled: in the carries, in `toDurationWithMonths`, and in the parser's `time.Duration(val) * time.Hour` and `* time.Minute`, which wrap above 2,562,047 hours and 153,722,867 minutes (`PT2562048H` gives -2562047 hours in Go and 2562048 in the model).
- `strconv.ParseFloat` and `math.Modf`:
  - a captured number is read as its exact decimal value;
  - the milliseconds of a seconds fraction come from a function given by the caller (`fractionMillis`);
  - float rounding and range errors are not modelled.
- The regular expressions are modelled as the leftmost match from the first `P`, group by group, not by a general regular-expression engine. The `default` arm of the group switch (`unknown field`) is unreachable, because both patterns name only handled groups.
- The `hour` and `minute` cases go through `time.Duration` and back. Within the int64 range of that product, the round trip is the identity, and the model assigns the number directly.
- `time.Time`'s date, location and monotonic reading are not part of `TimeOfDay`, which keeps only the clock. `time.Parse`'s error messages are one `LayoutMismatch`.
- The package's duration and time-only tests call names the source does not have (`String`, `Normalize`, `StringWithPrecision`, `DetectPrecision`). The model follows the code:
  - `TestToDurationWithMonths` expects success with weeks and months together;
  - `TestTimeOnly_StringRoundTrip` expects `String` to drop decimals that the code keeps.
- `reflect.DeepEqual` is value equality on `BackingStore.Payload`; values are `Option<Payload>`, with nil as `None`.
- `Subscribe`'s `uuid.New()` is the parameter `newId`. Callbacks are `Subscriber` handles, so a notification is recorded, not executed.
- The order in which subscribers are notified, and the order of `EnumerateKeysForValuesChangedToNil`, follows Go's map iteration. The loops pick keys in an unspecified order, and the contracts promise no order.
- Only `InMemoryBackingStore` is modelled as the `BackingStore` behind a `BackedModel`. Other implementations, and a `BackedModel` whose `GetBackingStore` changes between calls, are not.
- The closures of the caller's own hooks are seen only through the record of their calls (`Callback`, `StartCallback`). A hook that does something else to the store is not modelled.
- The proxy closures check `s != nil` and `p != nil`. A proxy is never nil here. A nil action passed to a proxy constructor, which would panic when called, is not modelled.
- `WriteObjectValue` itself is a stand-in: it does not run the writer's hooks, so the model does not chain the hooks to the object writes.
- The writer, parse-node and factory stand-ins fail only where their constants say. The registries `DefaultSerializationWriterFactoryInstance` and `DefaultParseNodeFactoryInstance` are parameters.
- `Close`'s error is dropped by `defer` in the source, and the model's `Close` has none.
- The `DeserializeWithType` helpers and `getTypeFactory` use reflection and are not part of this model.
- PersonStatus.String: the Go type is an `int`, and `String` of any value other than 0 and 1 panics with an index out of range. The datatype has only the two constants, so that panic is not modelled.
- `ParsePersonStatus` returns a pointer in an `interface{}`. The model returns the value.
- The request-building code, URI templates, headers, multipart bodies, authentication, the backing-store factory singletons and the `untyped_*` wrappers are not part of this model.

## Findings

| source | as written | input that shows it | evidently intended | confidence | as-written member | corrected member |
|---|---|---|---|---|---|---|
| serialization/duration.go:23 | the seconds group `(\d+(?:\.\d+))S` demands a fraction | `PT1S`, which `string` writes for 1001 ms, parses as a zero duration | whole seconds parse, so that the parser reads what the renderer writes | high, not executed | DurationParsing.AsWrittenDropsWholeSeconds | DurationParsing.ParseRender |
| serialization/time_only.go:53 | `time.Parse` with the layouts `15:04:05…` reads a one-digit hour, a comma fraction after the layout with no fraction, and a sign in the fraction | `5:04:05` parses, and `String` writes `05:04:05`; `05:04:05,5` parses with precision 0; `05:04:05.+5` is read as `.05` | only RFC 3339 section 5.6 partial-time, `HH:MM:SS[.f]`, which `String` writes back unchanged | medium, not executed | TimeOfDay.AsWrittenTakesOneDigitHour | TimeOfDay.ParseTimeOnlyExact |
| serialization/serialization_writer_proxy_factory.go:73 | the start composition checks `originalBefore != nil` before calling `originalStart` | a writer with a start hook but no before hook: its start hook never runs, and its error is lost; a writer with a before hook but no start hook: the nil `originalStart` is called and panics | check `originalStart != nil` | high, not executed | SerializationWriterProxy.AsWrittenSwallowsStartError | SerializationWriterProxy.ComposeStart |
| serialization/parse_node_proxy_factory.go:47-48 | the composed after hook calls `onBeforeAction` | a backed model parsed through the backing-store parse-node factory ends with initialization not completed, so its later changes are not flagged | call `onAfterAction` | high, not executed | BackingStoreParseNodeFactory.AsWrittenParseLeavesInitializationIncomplete | BackingStoreParseNodeFactory.ParseCompletesInitialization |
| serialization/kiota_serializer.go:21-38 | `getSerializationWriter(contentType, models)` checks `value == nil` on a `[]Parsable` wrapped in `interface{}`, which is never nil | `SerializeCollection("application/json", nil)` gets past the check and asks the registry for a writer | refuse a nil collection with "the value is empty", as `Serialize` does for a nil model | medium, not executed | KiotaSerializer.AsWrittenNilCollectionPasses | KiotaSerializer.SerializeCollection |
