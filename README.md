# izat/infra in Dafny

A model of the infrastructure library `infrastructure` (Java, Spring) and proofs about it.

The centre is the **typed message-queue path**:

- `MessageConverter` wraps a type tag and a serialised body in a `Message` envelope and decodes it
  back with the tag-to-class map it was built with.
- `MessageReceiver` is the process-wide receiver slot, which can be filled only once.
- `MessageReceiverImpl` builds the listener registry, rejects duplicate tags and dispatches messages.
- `MessageQueueServiceImpl` encodes a message and forwards it to the sender.

Around that core sit self-contained pieces, each modelled in the source's own form:

- stateful structures, modelled as classes whose methods update fields:
  - the event bus (`Events`);
  - the lazily filled enum table (`EnumUtils`);
  - the role-hierarchy store and its expansion loop (`RedisBackedRoleHierarchy`, `CachedRoleHierarchy`);
  - the verification-code service over its storage (`DefaultVerificationCodeService`,
    `RedisBackedVerificationCodeStorage`). Redis is an in-memory key/value map.
- pure list and string logic, modelled as datatypes and functions:
  - `StringPart`, `BeanUtils`, `Groupable`, `PagedList`;
  - identity keys (`RedisIdentityWrapper`, `NameAndRemoteAddrIdentity`);
  - error messages (`ErrorCode`, `ErrorCodeException`, `HttpRequestErrorCode`);
  - authorities and principals (`AuthorityUtils`, `SimpleAuthentication`, `SerializablePrincipalObject`).
- validators and arithmetic:
  - `NumberUtil`: a `BigDecimal` is an unscaled integer with a scale, rounded HALF_UP;
  - `PlatformUtil`: the `MBER` customer-code format;
  - `DateUtil`: the millisecond bucket logic, with "now" as a parameter;
  - `ExcelUtil`: the paging of `listToExcel` and the header and row rules of `excelToList`, over an
    abstract grid of cells.

Java `int` and `long` arithmetic is wrapped explicitly where it matters (`JavaInt`): truncating
division, `(int)` casts and `String.hashCode`. A thrown exception is an `Err`/`Option` value.
Jackson and UTF-8 are replaced by concrete codecs with proved round trips (`Json`, `Utf8`), so nothing
about them is assumed.

Modules: `Wrappers`, `JavaInt`, `Text`, `Utf8` and `Json` are support modules. The others model
these Java files:

- `MessageConverter`: `MessageConverter.java`;
- `MessageReceiver`: `MessageReceiver.java` and `MessageReceiverImpl.java`;
- `MessageQueueService`: `MessageQueueServiceImpl.java`;
- `StringPart`, `Events`, `EnumUtils`, `BeanUtils`, `Groupable`, `PagedList`, `AuthorityUtils`,
  `SimpleAuthentication`, `NumberUtil`, `PlatformUtil`, `DateUtil`, `ExcelUtil`: the file of the same name;
- `RoleHierarchy`: `RedisBackedRoleHierarchy.java` and `CachedRoleHierarchy.java`;
- `SerializablePrincipal`: `SerializablePrincipalObject.java`;
- `ErrorCode`: `ErrorCode.java`, `ErrorCodeException.java` and `HttpRequestErrorCode.java`;
- `VerificationIdentity`: `NameAndRemoteAddrIdentity.java`;
- `CodeStorage`: `RedisIdentityWrapper.java` and `RedisBackedVerificationCodeStorage.java`;
- `CodeService`: `DefaultVerificationCodeService.java` and `SimpleCodeGenerator.java`.

## Model

| member | source | states |
|---|---|---|
| MessageConverter.Envelope | src/main/java/infrastructure/mq/internal/MessageConverter.java:19-22 | the `Message` envelope built from a tag and a serialised body always has the envelope's shape |
| MessageConverter.StringProperty | src/main/java/infrastructure/mq/internal/MessageConverter.java:25-30 | a property read from the envelope is a string member of that name |
| MessageConverter.Converter.ToBytes | src/main/java/infrastructure/mq/internal/MessageConverter.java:19-22 | the bytes decode to the serialised envelope of the tag and the serialised body; the tag map is not consulted |
| MessageConverter.Converter.ShapeFor | src/main/java/infrastructure/mq/internal/MessageConverter.java:28 | a shape is found iff the tag is present and registered, and it is the registered one |
| MessageConverter.Converter.FromBytes | src/main/java/infrastructure/mq/internal/MessageConverter.java:25-30 | a decoded message has a registered tag and a body that conforms to that tag's shape |
| MessageConverter.RoundTrip | src/main/java/infrastructure/mq/internal/MessageConverter.java:19-30 | for a registered tag and a conforming body, `fromBytes(toBytes(t, v)) == (t, v)` |
| MessageConverter.UnregisteredTag | src/main/java/infrastructure/mq/internal/MessageConverter.java:28 | an unregistered tag encodes fine, but decoding fails because no target type is found |
| MessageConverter.FromBytesTag | src/main/java/infrastructure/mq/internal/MessageConverter.java:26-29 | a successful decode returns exactly the `type` property stored in the envelope |
| Json.RoundTrip | src/main/java/infrastructure/mq/internal/MessageConverter.java:19-30 | the JSON codec that stands in for Jackson parses what it serialises back to the same value for a conforming shape |
| Utf8.DecodeEncode | src/main/java/infrastructure/mq/internal/MessageConverter.java:19-30 | UTF-8 decoding of encoded text gives the text back |
| MessageReceiver.RegistryEntries | src/main/java/infrastructure/mq/internal/MessageReceiverImpl.java:25-33 | after a successful build, each key maps to a listener declaring that key, and every listener is registered under its own tag |
| MessageReceiver.RegistryOkIffDistinct | src/main/java/infrastructure/mq/internal/MessageReceiverImpl.java:25-33 | the registry builds iff no two listeners declare the same tag |
| MessageReceiver.RegistryConflict | src/main/java/infrastructure/mq/internal/MessageReceiverImpl.java:27-31 | a failure names the tag and the classes of an earlier and a later listener that share it |
| MessageReceiver.RegistryErrorPersists | src/main/java/infrastructure/mq/internal/MessageReceiverImpl.java:25-33 | once a prefix of the listeners fails, the whole list fails with the same error |
| MessageReceiver.ReceiverImpl.constructor | src/main/java/infrastructure/mq/internal/MessageReceiverImpl.java:22-24 | a receiver starts with its converter and an empty registry |
| MessageReceiver.ReceiverImpl.Register | src/main/java/infrastructure/mq/internal/MessageReceiverImpl.java:25-33 | the registration loop succeeds iff the registry builds, leaves that registry, or stops at the first conflicting listener |
| MessageReceiver.ReceiverImpl.OnMessageReceived | src/main/java/infrastructure/mq/internal/MessageReceiverImpl.java:37-48 | conversion errors propagate unchanged; for any decoded tag and body the result is the handler's outcome when a listener has the tag, and `false` when none has it |
| MessageReceiver.ReceiverSlot.constructor | src/main/java/infrastructure/mq/provider/MessageReceiver.java:7-11 | before any receiver is built, `getInstance` is null |
| MessageReceiver.ReceiverSlot.GetInstance | src/main/java/infrastructure/mq/provider/MessageReceiver.java:9-11 | the receiver held in the static slot, null while none was built |
| MessageReceiver.ReceiverSlot.NewReceiverImpl | src/main/java/infrastructure/mq/provider/MessageReceiver.java:13-20 | a second receiver fails naming both classes and leaves the slot unchanged; the first is recorded even when its registry then fails |
| MessageReceiver.DeliverEncoded | src/main/java/infrastructure/mq/internal/MessageReceiverImpl.java:37-48 | an encoded message is handed to the listener of its tag, whose outcome is returned, and gives `false` when no listener has the tag |
| MessageReceiver.DeliverDecoded | src/main/java/infrastructure/mq/internal/MessageReceiverImpl.java:37-48 | any bytes that decode, including envelopes with extra properties, reach the listener declaring the decoded tag among the registered listeners, with its outcome returned; `false` when no listener declares it |
| MessageQueueService.QueueService.constructor | src/main/java/infrastructure/mq/internal/MessageQueueServiceImpl.java:16-19 | the service holds exactly its sender and converter |
| MessageQueueService.QueueService.Send | src/main/java/infrastructure/mq/internal/MessageQueueServiceImpl.java:21-25 | exactly one immediate send is appended, with the same tag and the converter's bytes |
| MessageQueueService.QueueService.SendAt | src/main/java/infrastructure/mq/internal/MessageQueueServiceImpl.java:27-31 | exactly one timed send is appended, with the trigger time unchanged |
| MessageQueueService.QueueService.SendPeriodic | src/main/java/infrastructure/mq/internal/MessageQueueServiceImpl.java:33-37 | exactly one periodic send is appended, with the first time and interval unchanged |
| MessageQueueService.ForwardedTagMatches | src/main/java/infrastructure/mq/internal/MessageQueueServiceImpl.java:21-25 | a forwarded message that decodes carries the tag it was sent with |
| StringPart.StringPart.WithSeparator | src/main/java/infrastructure/bean/StringPart.java:41-48 | fails exactly when the index is outside 0..expected, with the source's message |
| StringPart.StringPart.WithFirstSeparator | src/main/java/infrastructure/bean/StringPart.java:37-39 | the one-argument form equals the checked form at index 0 |
| StringPart.StringPart.Join | src/main/java/infrastructure/bean/StringPart.java:52-64 | succeeds iff the separator count is `expected` or `expected + 1`, otherwise fails with the source's message; the joined string is the parts interleaved with the separators, followed by the extra separator when one more is given |
| StringPart.Of | src/main/java/infrastructure/bean/StringPart.java:13-35 | zero parts fail; n parts give a value with those parts that expects n - 1 separators |
| StringPart.JoinParts | src/main/java/infrastructure/bean/StringPart.java:195-205 | the StringBuilder loop builds p0 s0 p1 s1 ... p(n-1) |
| StringPart.JoinCheckedInterleaves | src/main/java/infrastructure/bean/StringPart.java:71-211 | every variant's `joinChecked` interleaves its parts with the separators |
| StringPart.WithSeparatorValid | src/main/java/infrastructure/bean/StringPart.java:167-192 | `withSeparator` keeps the array variant for four or more parts only |
| StringPart.WithSeparatorMerges | src/main/java/infrastructure/bean/StringPart.java:105-192 | below the last index, parts i and i + 1 merge around the separator, the others keep their order, and one separator fewer is expected |
| StringPart.WithSeparatorAppends | src/main/java/infrastructure/bean/StringPart.java:80-184 | at the last index the separator is appended to the last part |
| StringPart.InterleaveMerge | src/main/java/infrastructure/bean/StringPart.java:136-150 | interleaving merged parts equals interleaving the original parts with the separator put at i |
| StringPart.WithSeparatorJoin | src/main/java/infrastructure/bean/StringPart.java:136-150 | `withSeparator(i, s).join(rest)` equals `join` with s placed at position i |
| Events.Inserted | src/main/java/infrastructure/bean/Events.java:46-50 | adding to an insertion-ordered set keeps distinctness; an absent listener goes last and the others keep their order; a present one changes nothing |
| Events.Removed | src/main/java/infrastructure/bean/Events.java:58 | removal drops exactly that listener and keeps the others |
| Events.RemovedAbsent | src/main/java/infrastructure/bean/Events.java:58 | removing a listener the set does not hold changes nothing |
| Events.RemovedAt | src/main/java/infrastructure/bean/Events.java:58 | removing the listener at position i of a set without repeats cuts out exactly that position |
| Events.RemovedOrder | src/main/java/infrastructure/bean/Events.java:58 | removal leaves an absent listener's set unchanged, and otherwise cuts out its one position, the others keeping registration order |
| Events.EventBus.constructor | src/main/java/infrastructure/bean/Events.java:41 | the listener map starts empty |
| Events.EventBus.RegisterListener | src/main/java/infrastructure/bean/Events.java:43-52 | the listener is added to its class's set, which is created if absent; the bus invariant holds |
| Events.EventBus.RemoveListener | src/main/java/infrastructure/bean/Events.java:54-63 | no entry means no change; a set that becomes empty is removed, otherwise it is replaced by the smaller set |
| Events.EventBus.Publish | src/main/java/infrastructure/bean/Events.java:66-71 | the listeners of exactly the event's class are called in registration order up to and including the first whose `onEvent` throws, whose exception then leaves `publish`; with no thrower every listener is called and nothing propagates |
| Events.FirstThrowingAt | src/main/java/infrastructure/bean/Events.java:69 | the position where `forEach` stops is the one before which no listener throws and at which one does |
| Events.FirstThrowingIsFirst | src/main/java/infrastructure/bean/Events.java:69 | every listener before the stopping position completes, the one at it throws, and the whole set runs iff none throws |
| Events.RemovedKeeps | src/main/java/infrastructure/bean/Events.java:54-63 | removal keeps a listener set free of duplicates |
| Events.InsertedIdempotent | src/main/java/infrastructure/bean/Events.java:46-48 | registering the same listener twice keeps a single copy |
| Events.RemoveUndoesInsert | src/main/java/infrastructure/bean/Events.java:43-63 | removing a newly added listener restores the set |
| EnumUtils.TableEntries | src/main/java/infrastructure/bean/EnumUtils.java:34-47 | a built table maps each constant's value to that constant and nothing else |
| EnumUtils.TableOkIffDistinct | src/main/java/infrastructure/bean/EnumUtils.java:36-45 | the table builds iff the values are distinct; a failure names two constants sharing a value |
| EnumUtils.TableErrorPersists | src/main/java/infrastructure/bean/EnumUtils.java:36-45 | the first conflict decides the error |
| EnumUtils.EnumHolder.constructor | src/main/java/infrastructure/bean/EnumUtils.java:22 | the holder starts empty |
| EnumUtils.EnumHolder.Register | src/main/java/infrastructure/bean/EnumUtils.java:29-48 | an already registered class fails; a conflict fails and leaves the holder unchanged; otherwise the table is stored |
| EnumUtils.EnumHolder.Of | src/main/java/infrastructure/bean/EnumUtils.java:59-64 | fails iff two values clash; otherwise returns the constant with that value, or none if no constant has it; a registered class is not registered again, and a lazily registered class adds exactly its value table, every other class keeping its table |
| BeanUtils.KeySet | src/main/java/infrastructure/bean/BeanUtils.java:21-23 | a key is in the set iff some element has it |
| BeanUtils.KeyIndexEntries | src/main/java/infrastructure/bean/BeanUtils.java:56 | the keyed map sends each key to the right element with that key |
| BeanUtils.KeyIndexOkIffDistinct | src/main/java/infrastructure/bean/BeanUtils.java:56 | the keyed map builds iff right keys are distinct; a failure reports a duplicated key |
| BeanUtils.LeftJoin | src/main/java/infrastructure/bean/BeanUtils.java:53-62 | one pair per left element, in left order |
| BeanUtils.LeftJoinMatches | src/main/java/infrastructure/bean/BeanUtils.java:56-61 | fails iff two right elements share a key; each right side is the element with the left key, or null iff none has it |
| BeanUtils.Matching | src/main/java/infrastructure/bean/BeanUtils.java:68 | the right elements with a key, empty iff none has it |
| BeanUtils.MatchingAppend | src/main/java/infrastructure/bean/BeanUtils.java:68 | matches keep right-list order |
| BeanUtils.GroupByMatching | src/main/java/infrastructure/bean/BeanUtils.java:68 | `groupingBy` has a key iff some element has it, mapped to all matches in order |
| BeanUtils.LeftJoinMany | src/main/java/infrastructure/bean/BeanUtils.java:65-74 | one pair per left element, in left order |
| BeanUtils.LeftJoinManyMatches | src/main/java/infrastructure/bean/BeanUtils.java:68-73 | each right side is null iff nothing matches, else all matches in right order |
| Groupable.Item.constructor | src/main/java/infrastructure/bean/Groupable.java:11-16 | an item holds its key, its constructed value and its list |
| Groupable.Collected | src/main/java/infrastructure/bean/Groupable.java:24 | a key that no item has collects nothing |
| Groupable.FirstsAreFirstOccurrences | src/main/java/infrastructure/bean/Groupable.java:19-23 | the output is exactly the first item of each key, in first-occurrence order, and covers every key |
| Groupable.FirstsDistinct | src/main/java/infrastructure/bean/Groupable.java:19-21 | no two output items share a key |
| Groupable.CollectedStep | src/main/java/infrastructure/bean/Groupable.java:24 | collected values follow input order and skip null constructions |
| Groupable.Grouping | src/main/java/infrastructure/bean/Groupable.java:18-30 | returns the group heads; each head's list is set to its non-null constructions, or kept when there are none; other items are untouched |
| PagedList.PageCount | src/main/java/infrastructure/bean/PagedList.java:28-30 | null iff record count or page size is null or the size is 0; otherwise an `int` |
| PagedList.PagedList.Map | src/main/java/infrastructure/bean/PagedList.java:37-39 | records mapped element-wise; page number, size, record count and page count kept |
| PagedList.OfRecords | src/main/java/infrastructure/bean/PagedList.java:14-16 | all paging fields null |
| PagedList.Paged | src/main/java/infrastructure/bean/PagedList.java:22-31 | keeps the given records and paging fields |
| PagedList.MapSeq | src/main/java/infrastructure/bean/PagedList.java:19 | the mapper is applied element-wise, keeping length and order |
| PagedList.OfMapped | src/main/java/infrastructure/bean/PagedList.java:18-20 | mapped records, no page count |
| PagedList.PagedMapped | src/main/java/infrastructure/bean/PagedList.java:33-35 | mapped records with the given paging fields |
| PagedList.PageCountIsCeiling | src/main/java/infrastructure/bean/PagedList.java:29 | for positive counts the page count is the ceiling of records / size |
| PagedList.PageCountNoRecords | src/main/java/infrastructure/bean/PagedList.java:29 | zero records give 1 page for sizes beyond ±1, 0 for size 1 and 2 for size -1 (truncating division) |
| RoleHierarchy.KeyWithNamespace | src/main/java/infrastructure/spring/security/authorization/RedisBackedRoleHierarchy.java:38-40 | the key is "infra:roleHierarchy:" followed by the name |
| RoleHierarchy.KeyInjective | src/main/java/infrastructure/spring/security/authorization/RedisBackedRoleHierarchy.java:38-40 | different parents have different keys |
| RoleHierarchy.Enumerate | src/main/java/infrastructure/spring/security/authorization/CachedRoleHierarchy.java:18 | a set is enumerated without duplicates and with exactly its members |
| RoleHierarchy.RedisBackedRoleHierarchy.constructor | src/main/java/infrastructure/spring/security/authorization/RedisBackedRoleHierarchy.java:13-15 | the store is the given map of non-empty sets |
| RoleHierarchy.RedisBackedRoleHierarchy.GetAuthorities | src/main/java/infrastructure/spring/security/authorization/RedisBackedRoleHierarchy.java:17-21 | an absent key has no children |
| RoleHierarchy.RedisBackedRoleHierarchy.GetAuthoritiesOf | src/main/java/infrastructure/spring/security/authorization/RedisBackedRoleHierarchy.java:23-29 | holds exactly the children of the given parents: each parent's children in turn, each once per parent, so duplicates across parents are kept |
| RoleHierarchy.RedisBackedRoleHierarchy.SetAuthorities | src/main/java/infrastructure/spring/security/authorization/RedisBackedRoleHierarchy.java:31-36 | replaces the parent's whole set; afterwards its children are exactly the given ones; other parents unchanged; an empty list deletes the key and fails |
| RoleHierarchy.RedisBackedRoleHierarchy.GetReachableGrantedAuthorities | src/main/java/infrastructure/spring/security/authorization/CachedRoleHierarchy.java:14-27 | the result has no duplicates and holds exactly the inputs and their direct children (one level) |
| AuthorityUtils.AuthorityCollection.Add | src/main/java/infrastructure/spring/security/authentication/AuthorityUtils.java:23-25 | an unmodifiable collection refuses `add`; a modifiable one appends |
| AuthorityUtils.AuthorityList | src/main/java/infrastructure/spring/security/authentication/AuthorityUtils.java:13-21 | one authority per role, in order, named by the role |
| AuthorityUtils.CreateAuthorityList | src/main/java/infrastructure/spring/security/authentication/AuthorityUtils.java:13-21 | the loop builds exactly that list |
| AuthorityUtils.CreateImmutableAuthorityCollection | src/main/java/infrastructure/spring/security/authentication/AuthorityUtils.java:23-25 | the same elements, unmodifiable |
| AuthorityUtils.Names | src/main/java/infrastructure/spring/security/authorization/CachedRoleHierarchy.java:16-17 | the authority names in order |
| AuthorityUtils.NamesOfAuthorityList | src/main/java/infrastructure/spring/security/authentication/AuthorityUtils.java:13-21 | the names of the created list are the roles |
| AuthorityUtils.ImmutableRefusesAdd | src/main/java/infrastructure/spring/security/authentication/AuthorityUtils.java:23-25 | the immutable collection rejects modification |
| SimpleAuthentication.SimpleAuthentication.GetAuthorities | src/main/java/infrastructure/spring/security/authentication/SimpleAuthentication.java:23-26 | the stored authorities |
| SimpleAuthentication.SimpleAuthentication.GetCredentials | src/main/java/infrastructure/spring/security/authentication/SimpleAuthentication.java:28-31 | always null |
| SimpleAuthentication.SimpleAuthentication.GetDetails | src/main/java/infrastructure/spring/security/authentication/SimpleAuthentication.java:33-36 | always null |
| SimpleAuthentication.SimpleAuthentication.GetPrincipal | src/main/java/infrastructure/spring/security/authentication/SimpleAuthentication.java:38-41 | the given principal |
| SimpleAuthentication.SimpleAuthentication.IsAuthenticated | src/main/java/infrastructure/spring/security/authentication/SimpleAuthentication.java:43-46 | always true |
| SimpleAuthentication.SimpleAuthentication.SetAuthenticated | src/main/java/infrastructure/spring/security/authentication/SimpleAuthentication.java:48-51 | always fails, whatever the argument |
| SimpleAuthentication.SimpleAuthentication.GetName | src/main/java/infrastructure/spring/security/authentication/SimpleAuthentication.java:53-56 | the principal's name |
| SimpleAuthentication.New | src/main/java/infrastructure/spring/security/authentication/SimpleAuthentication.java:13-21 | null names give NO_AUTHORITIES; otherwise one unmodifiable authority per name, in order |
| SimpleAuthentication.AuthoritiesAreFixed | src/main/java/infrastructure/spring/security/authentication/SimpleAuthentication.java:13-26 | the authorities of an authentication can never be added to |
| SerializablePrincipal.HashIsPolynomial | src/main/java/infrastructure/spring/security/authentication/SerializablePrincipalObject.java:17-20 | the wrapped `String.hashCode` equals the polynomial sum of s[i]·31^(n-1-i) modulo 2^32 |
| SerializablePrincipal.PolynomialAppend | src/main/java/infrastructure/spring/security/authentication/SerializablePrincipalObject.java:17-20 | appending a code unit multiplies the polynomial by 31 and adds the unit |
| SerializablePrincipal.Principal.GetName | src/main/java/infrastructure/spring/security/authentication/SerializablePrincipalObject.java:13-15 | the constructor's name |
| SerializablePrincipal.Principal.ToString | src/main/java/infrastructure/spring/security/authentication/SerializablePrincipalObject.java:33-36 | the name |
| SerializablePrincipal.Principal.HashCode | src/main/java/infrastructure/spring/security/authentication/SerializablePrincipalObject.java:17-20 | an `int` |
| SerializablePrincipal.Principal.EqualsObject | src/main/java/infrastructure/spring/security/authentication/SerializablePrincipalObject.java:22-31 | false for null and other classes; otherwise true iff the names are equal |
| SerializablePrincipal.EqualsIsEquivalence | src/main/java/infrastructure/spring/security/authentication/SerializablePrincipalObject.java:22-31 | `equals` is reflexive, symmetric and transitive, holds iff the names are equal, and is false for null |
| SerializablePrincipal.EqualsHashCode | src/main/java/infrastructure/spring/security/authentication/SerializablePrincipalObject.java:17-31 | equal principals have equal hash codes |
| ErrorCode.ErrorCode.GetMessage | src/main/java/infrastructure/errorcode/ErrorCode.java:6-11 | an enum code gives its name with '_' replaced by ' '; another code gives "code SimpleName"; an HTTP code gives its stored message |
| ErrorCode.ErrorCode.E | src/main/java/infrastructure/errorcode/ErrorCode.java:13-15 | the exception carries this code and no cause |
| ErrorCode.ErrorCode.ECause | src/main/java/infrastructure/errorcode/ErrorCode.java:17-19 | the exception carries this code and the cause |
| ErrorCode.ErrorCode.ThrowIf | src/main/java/infrastructure/errorcode/ErrorCode.java:21-25 | raises exactly when the condition holds, with this code |
| ErrorCode.ErrorCodeException.GetErrorCode | src/main/java/infrastructure/errorcode/ErrorCodeException.java:15-17 | the error code the exception was built with |
| ErrorCode.ErrorCodeException.GetMessage | src/main/java/infrastructure/errorcode/ErrorCodeException.java:19-22 | the numeric code, a space, then the code's message |
| ErrorCode.MessageIgnoresCause | src/main/java/infrastructure/errorcode/ErrorCodeException.java:6-22 | the message and error code do not depend on the cause |
| ErrorCode.FirstLine | src/main/java/infrastructure/errorcode/HttpRequestErrorCode.java:15-20 | a prefix with no '\n', the whole text iff it has no '\n', otherwise cut at the first '\n' |
| ErrorCode.HttpRequestErrorCodeOf | src/main/java/infrastructure/errorcode/HttpRequestErrorCode.java:9-21 | the code is the HTTP status and the message the first line of "SimpleName: message" |
| ErrorCode.HttpMessageSingleLine | src/main/java/infrastructure/errorcode/HttpRequestErrorCode.java:9-21 | a single-line exception keeps its whole raw message |
| VerificationIdentity.Identity.GetName | src/main/java/infrastructure/verificationcode/identity/NameAndRemoteAddrIdentity.java:53-56 | the name the identity was built with |
| VerificationIdentity.Identity.IdentityMap | src/main/java/infrastructure/verificationcode/identity/NameAndRemoteAddrIdentity.java:58-61 | the map holds exactly the entries' keys, each with its value |
| VerificationIdentity.NameAndAddr | src/main/java/infrastructure/verificationcode/identity/NameAndRemoteAddrIdentity.java:43-51 | the identity is well formed and keeps the name |
| VerificationIdentity.NameAndAddrMap | src/main/java/infrastructure/verificationcode/identity/NameAndRemoteAddrIdentity.java:43-51 | "name" maps to the name; "addr" exists only with an address, with ':' replaced by '-' |
| VerificationIdentity.NameAndRemoteAddr | src/main/java/infrastructure/verificationcode/identity/NameAndRemoteAddrIdentity.java:39-41 | the public constructor's map holds only "name" |
| VerificationIdentity.FirstUsable | src/main/java/infrastructure/verificationcode/identity/NameAndRemoteAddrIdentity.java:32-36 | the first header, in order, that is non-empty and not "unknown", or none iff there is no such header |
| VerificationIdentity.GetIpAddress | src/main/java/infrastructure/verificationcode/identity/NameAndRemoteAddrIdentity.java:31-37 | the first usable of the five headers, else the remote address |
| VerificationIdentity.GetRemoteAddr | src/main/java/infrastructure/verificationcode/identity/NameAndRemoteAddrIdentity.java:22-29 | fails with `IllegalStateException` iff no request is bound; "unknown" for non-servlet attributes; otherwise the request's IP address |
| VerificationIdentity.ForwardedForWins | src/main/java/infrastructure/verificationcode/identity/NameAndRemoteAddrIdentity.java:32-36 | a usable x-forwarded-for always wins |
| CodeStorage.NewWrapper | src/main/java/infrastructure/verificationcode/storage/RedisIdentityWrapper.java:12-17 | one restrict key per identity entry, "ns:key:value", and the code key "ns:name" |
| CodeStorage.Wrap | src/main/java/infrastructure/verificationcode/storage/RedisBackedVerificationCodeStorage.java:24-27 | the keys use "infra:verificationCode:restrict" and "infra:verificationCode" |
| CodeStorage.CodeKeyByNameOnly | src/main/java/infrastructure/verificationcode/storage/RedisIdentityWrapper.java:16 | the code key depends only on the name |
| CodeStorage.NameIdentityKeysDistinct | src/main/java/infrastructure/verificationcode/storage/RedisIdentityWrapper.java:13-16 | within one identity built from a name, the code key is never one of the restrict keys |
| CodeStorage.CodeKeyIsAnotherUsersRestrictKey | src/main/java/infrastructure/verificationcode/storage/RedisIdentityWrapper.java:13-16 | as written, for every name n the code key of the user "restrict:name:" + n is n's restrict key, so storing that user's code leaves n request-restricted |
| CodeStorage.WrapCorrected | src/main/java/infrastructure/verificationcode/storage/RedisIdentityWrapper.java:13-16 | the same restrict keys, with the code key under a namespace of its own |
| CodeStorage.CorrectedKeysDisjoint | src/main/java/infrastructure/verificationcode/storage/RedisIdentityWrapper.java:13-16 | with the corrected namespace, no identity's code key is any identity's restrict key |
| CodeStorage.WriteRestrictKeys | src/main/java/infrastructure/verificationcode/storage/RedisBackedVerificationCodeStorage.java:33-34 | each restrict key is written with the code key as its value and a 1-minute expiry; nothing else changes |
| CodeStorage.WrittenEntries | src/main/java/infrastructure/verificationcode/storage/RedisBackedVerificationCodeStorage.java:29-36 | `set` stores the code for 5 minutes, the restrict keys for 1, and nothing else |
| CodeStorage.ClearedEntries | src/main/java/infrastructure/verificationcode/storage/RedisBackedVerificationCodeStorage.java:49-53 | `clear` removes the code key and every restrict key, and nothing else |
| CodeStorage.RedisBackedVerificationCodeStorage.constructor | src/main/java/infrastructure/verificationcode/storage/RedisBackedVerificationCodeStorage.java:20-22 | the storage wraps the given store |
| CodeStorage.RedisBackedVerificationCodeStorage.Get | src/main/java/infrastructure/verificationcode/storage/RedisBackedVerificationCodeStorage.java:38-41 | the value under the code key, absent iff nothing is stored |
| CodeStorage.RedisBackedVerificationCodeStorage.IsRequestRestricted | src/main/java/infrastructure/verificationcode/storage/RedisBackedVerificationCodeStorage.java:43-47 | restricted iff some restrict key of the identity is present in the store |
| CodeStorage.RedisBackedVerificationCodeStorage.Set | src/main/java/infrastructure/verificationcode/storage/RedisBackedVerificationCodeStorage.java:29-36 | after `set`, `get` returns the code and the identity is restricted iff it has entries |
| CodeStorage.RedisBackedVerificationCodeStorage.Clear | src/main/java/infrastructure/verificationcode/storage/RedisBackedVerificationCodeStorage.java:49-53 | after `clear`, nothing is stored and the identity is not restricted |
| CodeStorage.RedisBackedVerificationCodeStorage.Expire | src/main/java/infrastructure/verificationcode/storage/RedisBackedVerificationCodeStorage.java:11-16 | an expired key disappears and nothing else changes |
| CodeService.Generate | src/main/java/infrastructure/verificationcode/generator/SimpleCodeGenerator.java:11-14 | four digits whose value is the random number |
| CodeService.GenerateInjective | src/main/java/infrastructure/verificationcode/generator/SimpleCodeGenerator.java:13 | different random numbers give different codes |
| CodeService.DefaultVerificationCodeService.constructor | src/main/java/infrastructure/verificationcode/verifier/DefaultVerificationCodeService.java:21-27 | the service holds its storage and sender |
| CodeService.DefaultVerificationCodeService.NewVerificationCode | src/main/java/infrastructure/verificationcode/verifier/DefaultVerificationCodeService.java:30-45 | a restricted identity fails before any send or store; a stored non-empty code is reused, else a new one is generated; it is sent once, then stored; a sender failure leaves storage unchanged |
| CodeService.DefaultVerificationCodeService.Verify | src/main/java/infrastructure/verificationcode/verifier/DefaultVerificationCodeService.java:48-57 | succeeds iff the code is non-empty and equals the stored one, then clears the identity; otherwise INCORRECT_VERIFICATION_CODE and storage unchanged |
| CodeService.DefaultVerificationCodeService.VerifyTwice | src/main/java/infrastructure/verificationcode/verifier/DefaultVerificationCodeService.java:48-57 | repeating a verification always fails the second time |
| CodeService.DefaultVerificationCodeService.RequestTwice | src/main/java/infrastructure/verificationcode/verifier/DefaultVerificationCodeService.java:30-45 | a second request right after a successful one is refused and the first code stays stored |
| NumberUtil.MatchesNumberIff | src/main/java/infrastructure/utils/NumberUtil.java:13 | the matcher accepts exactly an optional sign, digits, and an optional '.' with digits |
| NumberUtil.MatchesNumberSound | src/main/java/infrastructure/utils/NumberUtil.java:13 | every accepted string fits that grammar |
| NumberUtil.MatchesNumberComplete | src/main/java/infrastructure/utils/NumberUtil.java:13 | every string of that grammar is accepted |
| NumberUtil.MatchesWholeNumberIff | src/main/java/infrastructure/utils/NumberUtil.java:14 | the matcher accepts exactly an optional '-' followed by digits |
| NumberUtil.IsNumber | src/main/java/infrastructure/utils/NumberUtil.java:23-25 | true iff non-null and the trimmed text fits the number grammar |
| NumberUtil.IsWholeNumber | src/main/java/infrastructure/utils/NumberUtil.java:33-35 | true iff non-null and the trimmed text fits the whole-number grammar |
| NumberUtil.WholeNumberIsNumber | src/main/java/infrastructure/utils/NumberUtil.java:13-14 | every whole number is a number |
| NumberUtil.PlusIsNotWhole | src/main/java/infrastructure/utils/NumberUtil.java:13-35 | "+1" is a number but not a whole number |
| NumberUtil.RoundHalfUp | src/main/java/infrastructure/utils/NumberUtil.java:106-109 | the result is the HALF_UP rounding of the quotient |
| NumberUtil.HalfUpUnique | src/main/java/infrastructure/utils/NumberUtil.java:106-109 | the HALF_UP rounding of a quotient is unique |
| NumberUtil.RoundHalfUpExact | src/main/java/infrastructure/utils/NumberUtil.java:106-109 | an exact quotient is not changed by rounding |
| NumberUtil.RoundHalfUpNegate | src/main/java/infrastructure/utils/NumberUtil.java:106-109 | HALF_UP rounds away from zero symmetrically |
| NumberUtil.SetScale2 | src/main/java/infrastructure/utils/NumberUtil.java:106-109 | scale 2, HALF_UP-rounded value |
| NumberUtil.SetScale2Exact | src/main/java/infrastructure/utils/NumberUtil.java:106-109 | a value with at most 2 decimals is kept exactly |
| NumberUtil.SetScale2Examples | src/main/java/infrastructure/utils/NumberUtil.java:106-109 | 6.666 becomes 6.67 and -6.664 becomes -6.66 |
| NumberUtil.Compare | src/main/java/infrastructure/utils/NumberUtil.java:54 | `compareTo` gives -1, 0 or 1 |
| NumberUtil.CompareAntisymmetric | src/main/java/infrastructure/utils/NumberUtil.java:54 | swapping the operands negates the comparison |
| NumberUtil.CompareIgnoresScale | src/main/java/infrastructure/utils/NumberUtil.java:54 | the comparison ignores the scale, unlike `equals` |
| NumberUtil.CompareWithZero | src/main/java/infrastructure/utils/NumberUtil.java:117-139 | comparing with zero gives the sign of the unscaled value |
| NumberUtil.BiggerThanZero | src/main/java/infrastructure/utils/NumberUtil.java:117-119 | false on null, else positive |
| NumberUtil.SmallerThanZero | src/main/java/infrastructure/utils/NumberUtil.java:127-129 | false on null, else negative |
| NumberUtil.IsZero | src/main/java/infrastructure/utils/NumberUtil.java:137-139 | true on null, else zero |
| NumberUtil.IsSameValue | src/main/java/infrastructure/utils/NumberUtil.java:148-152 | a null side counts as zero |
| NumberUtil.IsSameValueSymmetric | src/main/java/infrastructure/utils/NumberUtil.java:148-152 | the relation is symmetric |
| NumberUtil.IsOrSmallerZero | src/main/java/infrastructure/utils/NumberUtil.java:160-163 | exactly not `biggerThanZero` |
| NumberUtil.IsOrBiggerZero | src/main/java/infrastructure/utils/NumberUtil.java:171-174 | exactly not `smallerThanZero` |
| NumberUtil.SignTrichotomy | src/main/java/infrastructure/utils/NumberUtil.java:117-139 | each value is exactly one of positive, negative or zero |
| NumberUtil.Multiply | src/main/java/infrastructure/utils/NumberUtil.java:53-57 | zero if either operand is null or zero, else the product rounded HALF_UP to 2 decimals |
| NumberUtil.MultiplyByOne | src/main/java/infrastructure/utils/NumberUtil.java:53-57 | multiplying by one only rescales |
| NumberUtil.Divide | src/main/java/infrastructure/utils/NumberUtil.java:66-70 | null iff the divisor is null or zero; a null dividend is 0; else the quotient rounded HALF_UP to 2 decimals |
| NumberUtil.DivideBySelf | src/main/java/infrastructure/utils/NumberUtil.java:66-70 | a value divided by itself is 1.00 |
| NumberUtil.DivideZero | src/main/java/infrastructure/utils/NumberUtil.java:66-70 | a null dividend gives 0.00 |
| NumberUtil.Opposite | src/main/java/infrastructure/utils/NumberUtil.java:95-98 | zero for null, else the negation rounded HALF_UP to 2 decimals |
| NumberUtil.Scale | src/main/java/infrastructure/utils/NumberUtil.java:106-109 | zero for null, else the value rounded HALF_UP to 2 decimals |
| NumberUtil.OppositeIsNegatedScale | src/main/java/infrastructure/utils/NumberUtil.java:95-109 | `opposite` is the negation of `scale` |
| NumberUtil.ScaleIdempotent | src/main/java/infrastructure/utils/NumberUtil.java:106-109 | scaling twice is scaling once |
| NumberUtil.AddExact | src/main/java/infrastructure/utils/NumberUtil.java:84 | `BigDecimal.add` is exact at any common scale |
| NumberUtil.TotalIsSum | src/main/java/infrastructure/utils/NumberUtil.java:82-85 | the running total is the exact sum of the values |
| NumberUtil.Values | src/main/java/infrastructure/utils/NumberUtil.java:79-81 | null entries read as zero |
| NumberUtil.Add | src/main/java/infrastructure/utils/NumberUtil.java:78-87 | null array entries are overwritten with zero in place; the result is the exact sum rounded HALF_UP to 2 decimals |
| PlatformUtil.StrToCode | src/main/java/infrastructure/utils/PlatformUtil.java:32-38 | a null argument fails; a parsed code is a `long` |
| PlatformUtil.IsCodeLegal | src/main/java/infrastructure/utils/PlatformUtil.java:21-24 | legal text is non-null and trims to 12 characters starting with "MBER" |
| PlatformUtil.CodeToStr | src/main/java/infrastructure/utils/PlatformUtil.java:46-48 | "MBER" then the code: at least 8 digits for a non-negative code, '-' and at least 7 digits for a negative one, and "    null" (space-padded to width 8) for a null code |
| PlatformUtil.NullCodeText | src/main/java/infrastructure/utils/PlatformUtil.java:21-48 | the null rendering is not legal code text, and `strToCode` reads it back as null |
| PlatformUtil.CodeTextIsTrimmed | src/main/java/infrastructure/utils/PlatformUtil.java:21-23 | a rendered code is non-blank and unchanged by trimming |
| PlatformUtil.EightDigits | src/main/java/infrastructure/utils/PlatformUtil.java:47 | codes up to 99999999 render as exactly 8 digits of their value |
| PlatformUtil.ParseDigits | src/main/java/infrastructure/utils/PlatformUtil.java:34 | `Long.valueOf` of a digit string in range is its value |
| PlatformUtil.RemovePrefix | src/main/java/infrastructure/utils/PlatformUtil.java:34 | removing "MBER" from "MBER" + digits leaves the digits |
| PlatformUtil.DigitsInjective | src/main/java/infrastructure/utils/PlatformUtil.java:23 | equal-length digit strings with the same value are equal |
| PlatformUtil.CodeToStrLegal | src/main/java/infrastructure/utils/PlatformUtil.java:21-48 | codes 0..99999999 render as 12 characters and are legal |
| PlatformUtil.CodeRoundTrip | src/main/java/infrastructure/utils/PlatformUtil.java:32-48 | `strToCode(codeToStr(c)) == c` for 0 <= c <= 99999999 |
| PlatformUtil.LegalCodeRoundTrip | src/main/java/infrastructure/utils/PlatformUtil.java:21-48 | a legal code text parses to a code in range that renders back to the trimmed text |
| PlatformUtil.CodeToStrLegalIff | src/main/java/infrastructure/utils/PlatformUtil.java:21-48 | a rendered code is legal iff 0 <= code <= 99999999 |
| PlatformUtil.IsEmptyCollection | src/main/java/infrastructure/utils/PlatformUtil.java:51-53 | null counts as empty; otherwise empty iff there are no elements |
| PlatformUtil.IsEmptyMap | src/main/java/infrastructure/utils/PlatformUtil.java:55-57 | null counts as empty; otherwise empty iff there are no entries |
| PlatformUtil.IsNotEmptyCollection | src/main/java/infrastructure/utils/PlatformUtil.java:51-61 | exactly the negation of `isEmpty` |
| PlatformUtil.IsNotEmptyMap | src/main/java/infrastructure/utils/PlatformUtil.java:55-65 | exactly the negation of `isEmpty` |
| DateUtil.Millis | src/main/java/infrastructure/utils/DateUtil.java:736-739 | every unit is at least a minute long |
| DateUtil.GetDateDiff | src/main/java/infrastructure/utils/DateUtil.java:733-765 | the label is never empty |
| DateUtil.Label | src/main/java/infrastructure/utils/DateUtil.java:746-764 | the label is never empty |
| DateUtil.LabelIsCoarsestUnit | src/main/java/infrastructure/utils/DateUtil.java:751-762 | the count is taken in the coarsest unit the difference reaches, with that unit's suffix |
| DateUtil.LabelUnderAMinute | src/main/java/infrastructure/utils/DateUtil.java:761-763 | under a minute gives "刚刚" |
| DateUtil.DateDiffIsCoarsestUnit | src/main/java/infrastructure/utils/DateUtil.java:733-765 | the label uses the coarsest unit reached by the wrapped `long` difference, or "刚刚" under a minute |
| DateUtil.CountAtLeastOne | src/main/java/infrastructure/utils/DateUtil.java:751-760 | a count is at least one iff the difference reaches the unit |
| DateUtil.IsEarlyThanNow | src/main/java/infrastructure/utils/DateUtil.java:805-807 | false for a null date; otherwise true iff the date is strictly before now |
| DateUtil.NotEarlyIsJustNow | src/main/java/infrastructure/utils/DateUtil.java:740-745 | a date that is not earlier than now, or less than a minute ago, gives "刚刚" |
| DateUtil.CountDays | src/main/java/infrastructure/utils/DateUtil.java:257 | the day count as written is an `int` |
| DateUtil.Seconds | src/main/java/infrastructure/utils/DateUtil.java:257 | the second difference uses truncating division and is a `long` |
| DateUtil.CountDaysCorrected | src/main/java/infrastructure/utils/DateUtil.java:257 | the day count divides before narrowing, so it is the true count whenever that fits an `int` |
| DateUtil.NestedTruncDiv | src/main/java/infrastructure/utils/DateUtil.java:257 | dividing by 3600 and then 24 is dividing by 86400, truncating |
| DateUtil.CountDaysAgreesWhenSecondsFit | src/main/java/infrastructure/utils/DateUtil.java:257 | when the seconds fit an `int`, both versions give the true day count |
| DateUtil.CountDaysWrapsAfter68Years | src/main/java/infrastructure/utils/DateUtil.java:257 | 2^31 seconds gives -24855 days as written, 24855 corrected |
| ExcelUtil.FirstAbsent | src/main/java/infrastructure/utils/ExcelUtil.java:221-229 | a reported key is not present |
| ExcelUtil.FirstAbsentNoneIff | src/main/java/infrastructure/utils/ExcelUtil.java:221-229 | no key is reported exactly when every key is present; a reported key is one of the keys |
| ExcelUtil.FirstAbsentAt | src/main/java/infrastructure/utils/ExcelUtil.java:223-228 | the first missing key, in iteration order, is the one reported |
| ExcelUtil.Pages | src/main/java/infrastructure/utils/ExcelUtil.java:54-57 | the page count is the ceiling of the item count / 1000 |
| ExcelUtil.SheetRange | src/main/java/infrastructure/utils/ExcelUtil.java:74-76 | every sheet starts at i·1000 and ends inside the list |
| ExcelUtil.SheetAsWritten | src/main/java/infrastructure/utils/ExcelUtil.java:71-135 | a sheet has its title row plus one row per index in its range |
| ExcelUtil.WorkbookAsWritten | src/main/java/infrastructure/utils/ExcelUtil.java:54-57 | one sheet per page |
| ExcelUtil.ListToExcel | src/main/java/infrastructure/utils/ExcelUtil.java:32-148 | a null version or empty data fails; an undeclared field fails naming it; otherwise the workbook as written |
| ExcelUtil.WriteSheet | src/main/java/infrastructure/utils/ExcelUtil.java:71-135 | one sheet: titles, then its rows, or the first undeclared field |
| ExcelUtil.WriteTitles | src/main/java/infrastructure/utils/ExcelUtil.java:93-105 | the title row is the values of the field map, in order |
| ExcelUtil.WriteRows | src/main/java/infrastructure/utils/ExcelUtil.java:108-134 | the rows of the items in the range, one per item in order, or the first undeclared field |
| ExcelUtil.WriteRow | src/main/java/infrastructure/utils/ExcelUtil.java:115-132 | one data row: each field's value in field order, or the first undeclared field |
| ExcelUtil.SheetAsWrittenRows | src/main/java/infrastructure/utils/ExcelUtil.java:93-134 | row 0 holds the titles and row k holds item i·1000 + k - 1 |
| ExcelUtil.AsWrittenCoverage | src/main/java/infrastructure/utils/ExcelUtil.java:74-76 | an item lands in some sheet iff its index is not 999 mod 1000 |
| ExcelUtil.AsWrittenPlacement | src/main/java/infrastructure/utils/ExcelUtil.java:108-134 | any other item j is in sheet j / 1000 at row j mod 1000 + 1 |
| ExcelUtil.ThousandItemsLoseOne | src/main/java/infrastructure/utils/ExcelUtil.java:74-76 | 1000 items give one sheet of 1000 rows, and item 999 is missing |
| ExcelUtil.SheetCorrected | src/main/java/infrastructure/utils/ExcelUtil.java:74-76 | with an inclusive end, a sheet has its titles plus all rows of its range |
| ExcelUtil.WorkbookCorrected | src/main/java/infrastructure/utils/ExcelUtil.java:54-57 | one corrected sheet per page |
| ExcelUtil.CorrectedCoverage | src/main/java/infrastructure/utils/ExcelUtil.java:74-76 | with the corrected range every item lands in exactly one sheet, j / 1000 |
| ExcelUtil.CorrectedPlacement | src/main/java/infrastructure/utils/ExcelUtil.java:108-134 | with the corrected range item j is at row j mod 1000 + 1 of sheet j / 1000 |
| ExcelUtil.HeaderPrefix | src/main/java/infrastructure/utils/ExcelUtil.java:208-216 | a header prefix read whole has one name per cell |
| ExcelUtil.HeaderNameOkIff | src/main/java/infrastructure/utils/ExcelUtil.java:208-211 | a header cell names its column iff it holds text, is blank, or is a formula caching a string (read like that string); a missing cell is a null-pointer failure and any other cell an illegal-state failure |
| ExcelUtil.HeaderPrefixNames | src/main/java/infrastructure/utils/ExcelUtil.java:208-216 | each name read is the one its cell gives: the trimmed text of a text cell, empty for a blank one |
| ExcelUtil.HeaderPrefixFirstError | src/main/java/infrastructure/utils/ExcelUtil.java:208-216 | a failing header fails with the error of its first cell that gives no name, all cells before it giving one |
| ExcelUtil.HeaderPrefixErrPersists | src/main/java/infrastructure/utils/ExcelUtil.java:208-216 | once a header cell fails, reading further cells keeps that error |
| ExcelUtil.LastIndex | src/main/java/infrastructure/utils/ExcelUtil.java:213-215 | the last position of a name |
| ExcelUtil.PutAllLookup | src/main/java/infrastructure/utils/ExcelUtil.java:213-215 | after the `put` loop each name maps to its last column and other keys are kept |
| ExcelUtil.LastIndexSome | src/main/java/infrastructure/utils/ExcelUtil.java:213-218 | the column of a name is the same whether read from the raw or the completed header |
| ExcelUtil.NameSet | src/main/java/infrastructure/utils/ExcelUtil.java:222 | the header names as a set |
| ExcelUtil.AllColumnsPresentIff | src/main/java/infrastructure/utils/ExcelUtil.java:221-229 | the column check passes iff every required column is in the header |
| ExcelUtil.ColumnMapStep | src/main/java/infrastructure/utils/ExcelUtil.java:208-216 | one pass of the inner loop maps every filled name to its last column |
| ExcelUtil.PutNames | src/main/java/infrastructure/utils/ExcelUtil.java:213-215 | the inner loop puts every header name with its index |
| ExcelUtil.ReadHeader | src/main/java/infrastructure/utils/ExcelUtil.java:202-218 | fails exactly as the header cells do; otherwise the names and a column map from each name to its last column, without the null key |
| ExcelUtil.CheckColumns | src/main/java/infrastructure/utils/ExcelUtil.java:221-229 | reports exactly the first required column missing from the header |
| ExcelUtil.Contents | src/main/java/infrastructure/utils/ExcelUtil.java:252-266 | one content per field |
| ExcelUtil.ContentAt | src/main/java/infrastructure/utils/ExcelUtil.java:252-266 | the cell read through the column map is the field's content |
| ExcelUtil.ReadContent | src/main/java/infrastructure/utils/ExcelUtil.java:252-266 | reading an entry of the field map through the column map yields that entry's content of the row |
| ExcelUtil.AnyNotBlankIff | src/main/java/infrastructure/utils/ExcelUtil.java:270 | the row is valid exactly when some content read for it is not blank |
| ExcelUtil.ConvertRow | src/main/java/infrastructure/utils/ExcelUtil.java:242-271 | an undeclared entity field fails; otherwise the entity of the row's contents and whether any is non-blank |
| ExcelUtil.SheetEntities | src/main/java/infrastructure/utils/ExcelUtil.java:190-275 | a sheet without a first row gives nothing |
| ExcelUtil.ConvertSheet | src/main/java/infrastructure/utils/ExcelUtil.java:192-274 | header errors, then the first missing column, then the row results, as specified by `SheetEntities` |
| ExcelUtil.ConvertRows | src/main/java/infrastructure/utils/ExcelUtil.java:236-274 | the row loop skips missing rows and keeps the valid entities in order, or fails on an undeclared field |
| ExcelUtil.ExcelToListResult | src/main/java/infrastructure/utils/ExcelUtil.java:182-187 | a workbook without sheets fails |
| ExcelUtil.GatheredErrPersists | src/main/java/infrastructure/utils/ExcelUtil.java:190-275 | once a sheet fails, the whole import fails with that error |
| ExcelUtil.ExcelToList | src/main/java/infrastructure/utils/ExcelUtil.java:160-278 | the import is the sheets' entities in order, or the first error |
| ExcelUtil.SheetErrorFailsImport | src/main/java/infrastructure/utils/ExcelUtil.java:190-275 | any failing sheet fails the whole import |
| ExcelUtil.MissingColumnFailsImport | src/main/java/infrastructure/utils/ExcelUtil.java:221-234 | a required column missing from any sheet's header fails the import |
| ExcelUtil.KeptMembers | src/main/java/infrastructure/utils/ExcelUtil.java:236-274 | an entity is kept iff it comes from a present row with some non-blank content |
| ExcelUtil.KeptAtMostRows | src/main/java/infrastructure/utils/ExcelUtil.java:236-274 | no more entities than data rows |

## Left out

- Jackson and UTF-8 are replaced by a concrete JSON codec over a small value type and a UTF-8 codec.
  Unknown properties are ignored, as with `FAIL_ON_UNKNOWN_PROPERTIES` disabled. Jackson's scalar
  coercions, such as a number read into a `String`, are not modelled.
- The real message senders (`ThreadingMessageSender`), retries, threads and Spring configuration are not
  modelled. The sender is a recording class that logs each call.
- A message listener's `handle` is a total function to `bool`; `false` stands for a handler that threw.
  An event listener's `onEvent` failure is the set `throws` passed to `Events.EventBus.Publish`; the
  exception itself is reduced to the listener that raised it.
- Static fields (`MessageReceiver.messageReceiver`, `Events.listenerMap`, `EnumUtils.enumHolder`) are
  an explicit object standing for the process-wide state.
- Events.EventListener.constructor: the self-registration in `AbstractEventListener`'s constructor is a
  separate `RegisterListener` call, and the event class comes from a field rather than from reflection.
- `HashSet` iteration order of role sets is a nondeterministic choice in the methods. Only
  order-independent facts are stated about it. The identity map's entries have a fixed order
  ("name", then "addr"); the store after `set` and `clear` does not depend on that order.
- VerificationIdentity.FirstUsable: headers are looked up by the exact name queried. The servlet
  `getHeader` lookup is case-insensitive.
- StringPart: separators are strings. The source takes `Object` separators and appends them with
  `String.valueOf`, so a null separator would read "null"; that case is not modelled.
- Redis is an in-memory map. Expiry is an explicit `Expire` step; the 5- and 1-minute TTLs are stored
  with the entries, and wall-clock time is not modelled.
- RoleHierarchy.RedisBackedRoleHierarchy.SetAuthorities: an empty collection is modelled as deleting the
  key and then failing, because Redis `SADD` needs at least one member.
- CodeService.Generate: `new Random().nextInt(10000)` is a parameter `random`. A sender failure is the
  flag `senderFails`.
- Logging (`logger.debug`) is left out.
- `BigDecimal` with a negative scale is not modelled, because scales are `nat`.
- PlatformUtil.StrToCode: `Long.valueOf` accepts only ASCII digits with an optional sign here. Java also
  accepts other Unicode decimal digits.
- DateUtil: only `getDateDiff`, `isEarlyThanNow` and the `countDays` formula are modelled. Date parsing
  and formatting, calendars and time zones are out. "Now" is a parameter.
- ExcelUtil: POI workbook creation, stream writing and `close` are not modelled. `WorkbookFactory.create`
  failures are out. XLS and XLSX behave identically.
- ExcelUtil.ConvertRow: `setFieldValueByName`'s type conversions (integers, dates, etc.) are not modelled.
  The entity is a map from field name to text, and the entity class's fields are a `declared` set. The
  search through superclasses in `getFieldByName` is not distinguished from `getDeclaredField`.
- ExcelUtil.ConvertRow: date and number cell formatting is abstracted as `NumericCell(text)`. A
  formula cell's cached result is kept only as "a string" or "something else", and an error cell
  as its error text.
- ExcelUtil.ListToExcel: the `int` overflow of `(i + 1) * 1000` for lists beyond 2147483000 items is
  not wrapped.
- ExcelUtil.ExcelToList: `getSheetAt` never returns null.
- DateUtil.GetDateDiff: its contract only says the label is non-empty; the bucket behaviour is stated by
  `DateUtil.DateDiffIsCoarsestUnit`.
- `BeanUtils.copyUsingSetter` and `getGetter` use reflection and are not part of this model.
- A Java `NullPointerException` on a null argument is an error value, where the source would throw.

## Findings

| source | as written | input that shows it | evidently intended | confidence | as-written member | corrected member |
|---|---|---|---|---|---|---|
| src/main/java/infrastructure/utils/ExcelUtil.java:74-76 | a sheet's end index is `(i + 1) * 1000 - 1`, used as an exclusive bound at line 108 | a list of 1000 items: sheet 0 gets rows for items 0..998 only, and item 999 is never written | every item is written: sheet i holds items i·1000 up to (i + 1)·1000, exclusive | not executed | ExcelUtil.ThousandItemsLoseOne | ExcelUtil.CorrectedCoverage |
| src/main/java/infrastructure/verificationcode/storage/RedisIdentityWrapper.java:13-16 | the code key is `"infra:verificationCode" + ":" + name`, and the restrict namespace `"infra:verificationCode:restrict"` starts with the code namespace | user "restrict:name:alice" has code key "infra:verificationCode:restrict:name:alice", which is alice's restrict key: storing a code for that user marks alice as request-restricted | code keys and restrict keys never coincide, across identities too | not executed | CodeStorage.CodeKeyIsAnotherUsersRestrictKey | CodeStorage.CorrectedKeysDisjoint |
| src/main/java/infrastructure/utils/DateUtil.java:257 | `(int) (t2 / 1000 - t1 / 1000) / 3600 / 24` casts the seconds to `int` before dividing | t1 = 0, t2 = 2147483648000 (2^31 seconds, about 68 years) gives -24855 days | divide first, then narrow: 24855 days | not executed | DateUtil.CountDaysWrapsAfter68Years | DateUtil.CountDaysCorrected |
