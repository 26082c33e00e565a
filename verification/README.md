# Lazy ghost builder — a Dafny model

This project models the core of `neontsun/lazy-object`, a PHP library that builds *lazy ghost*
objects: some properties of the target class are written at build time ("eager" properties),
the others are filled on first access by a deferred initializer closure.

The model covers three parts of the builder:

- **Property classification and the completeness check** (`GhostInitializer`). The reflected
  class is a sequence of property records (name, attributes, has-default, readonly). An attribute is the
  set of class names it is an instance of. A property is lazy-tagged when one of its attributes is
  an instance of the library's `Lazy` attribute or of the configured custom attribute.
  `GetObjectProperties` returns the properties that are neither lazy-tagged nor defaulted, in
  order, and the number of lazy-tagged ones. `CheckGivenAllNotLazyConstructorParameters` demands
  an eager value for every such property.
- **The deferred initializer** (`GhostInitializer.Initialize`, `RunInitializer`). Its input is
  the finite sequence the user's initializer yields. Each item is a `Property(name, value)` or
  something else. The closure first collects the items, rejecting a non-`Property` and a name the
  class does not have. It then compares the number of items with the lazy count. Only then does
  it write every value into the object, in yield order. Whether a property's type accepts a value
  is an abstract `typeOk(name, value)`. A readonly property refuses a raw write once it holds a
  value, so yielding it twice, or yielding one that was written eagerly, makes the write loop throw.
- **The fluent builder** (`Builder.LazyGhostBuilder`) and **`LazyGroup`**. The builder class
  keeps the eager `properties` map, the per-property lazy closures and the appended list of
  groups. The setters update these fields in place. `Build` reads the constructor parameter names,
  runs the reconciliation check, selects the constructor names that have no eager value (in
  constructor order), compiles an initializer for them, creates the ghost and raw-writes every
  eager entry into it.

The object being built is a `GhostObject`: a map from property name to value, plus the list
of names its initializer was compiled for. Reflection answers are plain data. Callers' closures
are opaque tokens.

The reconciliation check and the closure that `build` passes to `newLazyGhost` come from helpers
whose bodies are not part of this model (`checkGivenAllClassConstructorParameters`,
`initializer(list)`); the model takes their answers, including their failures, as given. The
closure that `getInitializer` compiles checks only the *number* of yielded properties, never
their names; `CountComparedNotNames` shows this. The test at
`tests/LazyGhostBuilderTest.php:278` expects an English message for a failed eager write, but
`build` throws a Russian one. The model records the kind of error, not its message.

## Model

| member | source | states |
|---|---|---|
| `Builder.LazyGhostBuilder.Create` | src/Builder/AbstractLazyGhostBuilder.php:52-59 | fails with `NotAClass` iff the name is not an existing class; otherwise a fresh builder for that class with empty state, no initializer and no custom attribute |
| `Builder.LazyGhostBuilder.constructor` | src/Builder/AbstractLazyGhostBuilder.php:31-46 | a new builder stores its class and starts with no custom attribute, no initializer and an empty eager map (the four fields declared there); the lazy and group collections also start empty (see "## Left out") |
| `GhostInitializer.CheckInitializerInitialize` | src/Builder/AbstractLazyGhostBuilder.php:122-127 | passes iff an initializer closure is assigned; otherwise fails with `InitializerNotAssigned` |
| `Builder.LazyGhostBuilder.GetInitializer` | src/Builder/AbstractLazyGhostBuilder.php:66-78 | no initializer gives `InitializerNotAssigned` before any other check; otherwise it succeeds iff every non-lazy, non-defaulted property has an eager value, else `NotAllPropertiesPassed`; on success the closure captures the class, the initializer and the number of lazy-tagged properties |
| `GhostInitializer.GetObjectProperties` | src/Builder/AbstractLazyGhostBuilder.php:149-189 | the non-lazy list is exactly the properties neither lazy-tagged nor defaulted, in reflection order; the count is the number of lazy-tagged properties (tagged = an attribute is an instance of the custom attribute or of `Lazy`) |
| `GhostInitializer.ClassificationPartition` | src/Builder/AbstractLazyGhostBuilder.php:176-182 | lazy-tagged, required-eager and defaulted properties partition the class: their counts add up to the number of properties, and no required-eager property is lazy |
| `GhostInitializer.CheckGivenAllNotLazyConstructorParameters` | src/Builder/AbstractLazyGhostBuilder.php:135-144 | passes iff every required-eager name is a key of the eager map (extra keys are never rejected); otherwise `NotAllPropertiesPassed` |
| `GhostInitializer.Collect` | src/Builder/AbstractLazyGhostBuilder.php:82-98 | succeeds iff every yielded item is a `Property` naming a property of the class; it then keeps every yielded name and value, in yield order; a failure is `UnexpectedType` or `PropertyNotFound` |
| `GhostInitializer.CollectFirstRejection` | src/Builder/AbstractLazyGhostBuilder.php:82-97 | the first rejected item decides the error: a non-`Property` gives `UnexpectedType`, an unknown name gives `PropertyNotFound` |
| `GhostInitializer.InitializeRejectsAt` | src/Builder/AbstractLazyGhostBuilder.php:82-97 | a rejected item after an accepted prefix ends the closure with that item's error, before the count check and before any write |
| `GhostInitializer.WriteAll` | src/Builder/AbstractLazyGhostBuilder.php:104-113 | every exception of the write loop is caught and reported as `LazyTypeMismatch` |
| `GhostInitializer.WriteAllPassesIff` | src/Builder/AbstractLazyGhostBuilder.php:104-113 | the write loop passes iff every write is type-correct and no readonly property is written while it already holds a value or for a second time |
| `GhostInitializer.WriteAllStopsAtFirstMismatch` | src/Builder/AbstractLazyGhostBuilder.php:104-113 | at the first rejected write the loop stops with `LazyTypeMismatch`, and exactly the writes before it have reached the object |
| `GhostInitializer.WriteAllKeys` | src/Builder/AbstractLazyGhostBuilder.php:105-107 | when all writes succeed, the object's properties are exactly its old ones plus the written names |
| `GhostInitializer.WriteAllLastValues` | src/Builder/AbstractLazyGhostBuilder.php:105-107 | when all writes succeed, each written name holds the value written last under it |
| `GhostInitializer.WriteAllUntouched` | src/Builder/AbstractLazyGhostBuilder.php:105-107 | when all writes succeed, a property no write names keeps its old value |
| `GhostInitializer.Initialize` | src/Builder/AbstractLazyGhostBuilder.php:78-114 | the closure succeeds iff the yield count equals the lazy count, every item is an accepted `Property`, and the collected writes are all accepted in turn (type-correct, readonly properties written once and only when empty); every error other than a type mismatch leaves the object untouched; a count mismatch among accepted items fails with `LazyCountMismatch` before any write |
| `GhostInitializer.RunInitializer` | src/Builder/AbstractLazyGhostBuilder.php:78-114 | the closure's loops leave the object and return the outcome exactly as `Initialize` specifies |
| `GhostInitializer.SuccessfulInitializationValues` | src/Builder/AbstractLazyGhostBuilder.php:100-107 | after a successful run every yielded name is set, each to the value yielded last under it, properties never yielded keep their values, and no property other than the old and the yielded ones appears |
| `GhostInitializer.CountComparedNotNames` | src/Builder/AbstractLazyGhostBuilder.php:100-102 | only the count is compared: with writable lazy properties `a` and `b`, yielding `a` twice passes and `b` is never written |
| `GhostInitializer.ReadonlyYieldedTwiceRejected` | src/Builder/AbstractLazyGhostBuilder.php:100-113 | with readonly lazy properties `a` and `b`, yielding `a` twice passes the count check but fails with `LazyTypeMismatch` at the second write |
| `GhostInitializer.ReadonlyEagerValueNotRewritten` | src/Builder/AbstractLazyGhostBuilder.php:104-113 | for any compiled closure, yielding a readonly property that already holds a value makes the closure fail, whatever the count |
| `Builder.YieldingEachLazyPropertySucceeds` | src/Builder/AbstractLazyGhostBuilder.php:76-114 | for a class with unique property names whose lazy properties hold no value yet, yielding each lazy property exactly once, in any order, with type-correct values under the compiled lazy count succeeds and writes every lazy property |
| `Seqs.Filter` | src/Builder/LazyGhostBuilder.php:90-98 | an order-preserving selection: no longer than its input, and an element is in it iff it is in the input and passes the test |
| `Seqs.FilterAppend` | src/Builder/AbstractLazyGhostBuilder.php:154-183 | selection distributes over concatenation, so kept elements keep their relative order |
| `Builder.NamesForInitializerMembers` | src/Builder/LazyGhostBuilder.php:90-98 | a name goes to the initializer iff it is a constructor parameter without an eager value, so the list is disjoint from the eager keys |
| `Builder.NamesForInitializerOrder` | src/Builder/LazyGhostBuilder.php:90-98 | the initializer names keep constructor order: selecting from a concatenation concatenates the selections |
| `Builder.NoEagerValuesKeepsAllNames` | src/Builder/LazyGhostBuilder.php:90-98 | with no eager values every constructor parameter goes to the initializer, unchanged and in order |
| `Builder.LazyGhostBuilder.Property` | src/Builder/LazyGhostBuilder.php:61-66 | sets `properties[name] := value`, overwriting an earlier value; every other entry and field is unchanged; returns the same builder |
| `Builder.LazyGhostBuilder.LazyProperty` | src/Builder/LazyGhostBuilder.php:29-36 | fails with `NotMarkedLazy` iff the lazy-attribute check fails, leaving the state unchanged; otherwise stores the closure under the name and returns the same builder |
| `Builder.LazyGhostBuilder.LazyGroupProperties` | src/Builder/LazyGhostBuilder.php:43-54 | fails with `NotMarkedLazy` iff the lazy-attribute check fails; otherwise appends exactly one group with the given id, names and closure, keeps earlier groups, and the new group has every given name |
| `Builder.LazyGhostBuilder.Build` | src/Builder/LazyGhostBuilder.php:72-124 | a failure to read the constructor names is passed on; then a failed reconciliation gives `ConstructorParametersMismatch`; then a failure to compile the initializer is passed on, all before any object exists; it succeeds iff those three steps pass and every eager entry names a class property its type accepts; otherwise `EagerTypeMismatch`; a success is a fresh ghost holding exactly the eager entries, with an initializer for the constructor names that have no eager value, in constructor order |
| `Runtime.GhostObject.constructor` | src/Builder/LazyGhostBuilder.php:107-109 | a new ghost has no property written and records the names its initializer was compiled for |
| `LazyGroups.LazyGroup.HasProperty` | src/Entity/LazyGroup.php:24-27 | true iff the name occurs in the group's property list (strict comparison) |
| `LazyGroups.ListedPropertiesAreMembers` | src/Entity/LazyGroup.php:11-27 | every name listed at construction is a member, no other name is, and id, properties and closure stay as constructed; the non-empty id and names are the field types |

## Left out

- PHP reflection is replaced by data. `ReflectionClass`, `getProperties` (src/Builder/AbstractLazyGhostBuilder.php:195-198), `getAttributes()->newInstance()` and `hasDefaultValue` become a `ClassInfo` record. An exception thrown while creating an attribute instance is not modelled.
- The PHP 8.4 lazy-ghost primitive is left out: `newLazyGhost`, `setRawValue`, `setRawValueWithoutLazyInitialization` and `isUninitializedLazyObject`. The object is a map from name to value. The primitive guarantees that the initializer runs at most once, and the model assumes this. Its rollback of a ghost whose initializer throws is not modelled: the model keeps the writes made before the failure.
- Type checking of raw writes is the abstract parameter `typeOk`; the readonly rule is modelled, other reasons a raw write may throw (hooks, visibility) are not.
- `constructorPropertiesNames`, `checkGivenAllClassConstructorParameters`, `initializer(list)` and `checkLazyPropertiesHasLazyAttribute` are called from src/Builder/LazyGhostBuilder.php but are not part of this model. They are function-valued parameters (`Builder.Helpers`), and the model invents no body for them; `constructorPropertiesNames` and `initializer(list)` may fail, and `Build` passes their error on. `initializer(list)` is represented by the list of names it receives, which the new ghost records; which of its checks fails (the tests expect `getInitializer`'s messages from `build`) is not modelled.
- The setters `initializer(Closure)` and `setCustomLazyAttribute` are declared in src/Contract/Builder/LazyGhostBuilderInterface.php, but their bodies are not part of this model. The fields they set are modelled.
- The group id `(string) time()` is a wall-clock call. It is a parameter of `LazyGroupProperties`.
- Closures and generators are opaque `Closure` tokens. What the user's initializer yields is a finite sequence given to `Initialize`/`RunInitializer`.
- Builder.LazyGhostBuilder.constructor: declares `lazyProperties` and `lazyGroupProperties` and starts them empty. The source declares neither field: PHP creates them as dynamic properties on the first write (src/Builder/LazyGhostBuilder.php:33 and :47), and before that a read gives null with an "Undefined property" warning. `Build` therefore hands the reconciliation helper empty collections where the source hands it null.
- Builder.LazyGhostBuilder.Build: writes the eager entries in no particular order, because a Dafny map has no insertion order. Both outcomes match the source: either every write succeeds, or the first failure throws and the object is never returned.
- `LazyObjectFactory` (a `class_exists` wrapper), the interfaces, the `Lazy` attribute class, the exception classes and their messages, and the test fixtures are left out. The DTOs `Property`, `LazyProperty` and `ObjectProperties` appear only as the datatypes `Yielded`, `LazyWrite` and `ObjectProperties`.
- Concurrency: the code has none.
