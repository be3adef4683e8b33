# dynux reducer manager, modelled in Dafny

dynux's `ReducerManager` is a registry of named reducers. It lets an application
register and unregister reducers at runtime against one store. Each change rebuilds
the composite reducer and installs it into the bound store. The state slices of
removed reducers are pruned lazily, on the next call of `reduce`.

`dynux.dfy` (module `Dynux`) models the class as a Dafny class with the source's
fields:

- `reducers: map<string, R>` is the reducer map. `R` is an opaque type parameter.
- `keysToRemove: seq<string>` is the pending-removal list.
- `combined` is the reducer map that the current composite was built from.
- `store: Option<S>` is the bound store, where `S` is an opaque store identity.
- `installed: seq<Install>` logs every call of the store's `replaceReducer`: which
  store received it and which map the installed composite was built from.

The constructor establishes `Valid()` and every method preserves it. It says the
composite always reflects the current map, which the method contracts rely on. It
also says that only non-empty keys are ever pending. No contract relies on that
second fact; the methods only preserve it.

The state library's `combineReducers` is not modelled. It stands as the function
`combine`, handed to the constructor. `combine(snapshot, state, action)` runs the
composite built from `snapshot` on `state` and `action`. The incoming state is an
`Option<map<string, V>>`, where `None` stands for `undefined`. The spread
`{ ...undefined }` gives `{}`. So with keys pending, an `undefined` state reaches the
composite as an empty map. The thrown error of `replaceReducers` is the
`Outcome.NoStoreBound` result. That result comes out of `Add` and `Remove` after the
map, the pending list and the composite have already been updated, as in the
source.

The deletion loop of `reduce` is the method `DeleteKeys`. It is proved against the
recursive function `DeleteAll`, and `DeleteAll`'s contract states what pruning
means. `dynux_scenarios.dfy` (module `DynuxScenarios`) holds client methods. Each one
drives a fresh manager through a sequence of calls from the tests and the code. It
proves the joint outcome from the class contracts alone.

Two consequences of the order of statements in the source:

- A first `bindStore` never fails: it sets `_store` before calling `replaceReducers`
  (src/dynux.ts:49-53). `BindStore` asserts this.
- When `replaceReducers` throws, the map and the composite have already changed
  (src/dynux.ts:110, 125, 138-141). A failing `add` has inserted its key. A failing
  `remove` has deleted its key and queued it for pruning (src/dynux.ts:128).
  `UnboundRemoveFails` shows this.

`replaceReducers` installs the composite reducer itself, not `reduce`. So once a
composite has been installed into a store, that store's dispatches no longer go
through `reduce`'s pruning. Only stores created with `reduce` as their reducer, and
never installed into, still do. The model records the install and does not model
the store's dispatch.

## Model

| member | source | states |
|---|---|---|
| Dynux.ShallowCopy | src/dynux.ts:83 | spreading undefined gives the empty map; spreading a map keeps its keys and values |
| Dynux.DeleteAll | src/dynux.ts:83-87 | deleting the pending keys from a copy of the state leaves exactly the keys not pending, each with its slice unchanged |
| Dynux.DeleteOne | src/dynux.ts:85-87 | with a single key pending, pruning the spread state deletes exactly that key |
| Dynux.DeleteKeys | src/dynux.ts:85-87 | the `for` loop of `delete state[key]` computes `DeleteAll` of the state and the pending list |
| Dynux.ReducerManager.constructor | src/dynux.ts:31-34 | the map is a copy of the initial reducers, the pending list is empty, the composite is built from that map, no store is bound and nothing has been installed |
| Dynux.ReducerManager.BindStore | src/dynux.ts:48-55 | the store is always set to the new one; the composite is installed into it only when no store was bound before, and a rebind installs nothing; map, pending list and composite are unchanged |
| Dynux.ReducerManager.GetReducerMap | src/dynux.ts:60-62 | returns the registry's current reducer map |
| Dynux.ReducerManager.HasReducer | src/dynux.ts:68-70 | true exactly when the key is registered; reads the state and changes nothing |
| Dynux.ReducerManager.Reduce | src/dynux.ts:77-94 | with nothing pending the composite gets the incoming state untouched; otherwise it gets a copy of the state with every pending key deleted; the pending list is empty afterwards and nothing but the pending list changes (store, map and install log are untouched) |
| Dynux.ReducerManager.Add | src/dynux.ts:103-112 | an empty or already registered key changes nothing and keeps the first reducer; a fresh key is inserted with its reducer, the composite is rebuilt from the new map and installed once into the bound store; with no store bound the call fails after the insertion; the pending list and the store are untouched |
| Dynux.ReducerManager.Remove | src/dynux.ts:118-130 | an empty or unregistered key changes nothing; a registered key is deleted from the map and appended to the pending list, the composite is rebuilt and installed once; with no store bound the call fails after these updates |
| Dynux.ReducerManager.ReplaceReducers | src/dynux.ts:137-145 | the composite is rebuilt from the current map first; then it is installed into the bound store, or the call fails when no store is bound |
| DynuxScenarios.AddThenHas | test/dynux.test.ts:76-91 | after bind and add of a fresh key, `hasReducer` is true, the map is the initial one plus the new entry, and exactly two installs happened (bind, add) |
| DynuxScenarios.DuplicateAddKeepsFirst | test/dynux.test.ts:111-128 | adding the same key twice keeps the first reducer and installs nothing for the second add |
| DynuxScenarios.RemoveUnknownIsNoOp | test/dynux.test.ts:130-136 | removing an unregistered key does not fail and leaves map, pending list and installs as they were |
| DynuxScenarios.RemoveTwiceQueuesOnce | src/dynux.ts:118-129 | removing a key twice unregisters it, the second call is a no-op, and the key is pending once |
| DynuxScenarios.AddThenRemoveRestoresMap | test/dynux.test.ts:93-109 | add followed by remove of a fresh key restores the initial map and leaves that key pending |
| DynuxScenarios.UnboundRemoveFails | test/dynux.test.ts:43-46 | remove on a never-bound manager fails, yet the key is already unregistered and pending, and nothing was installed |
| DynuxScenarios.RemoveThenReduce | src/dynux.ts:81-93 | the next call of `reduce` after a removal hands the composite the state minus the removed slice; the call after that hands it the state unchanged |
| DynuxScenarios.RebindAfterRemove | test/dynux.test.ts:154-170 | a store created after a removal with `reduce` as its reducer starts from `undefined`, and its first dispatch reaches `reduce`, which hands the composite an empty state; binding it afterwards sets the store and installs nothing |
| DynuxScenarios.RemoveThenReAddPrunes | src/dynux.ts:82-89 | a key removed and re-added before any call of `reduce` is registered, yet its old slice is still pruned by the next call of `reduce` |

## Left out

- Method binding in the constructor (`this.x = this.x.bind(this)`, src/dynux.ts:36-42) has no logical content.
- How `combineReducers` combines slices, and the action that `replaceReducer` itself dispatches, belong to the state library. They are the parameter `combine` and the `installed` log.
- GetReducerMap: returns the map as a value. Changes a caller makes through the live object the source returns, which would bypass the composite rebuild, are not modelled.
- JavaScript object semantics: prototype keys seen by `in` and numeric-key coercion in `delete` do not carry over. Keys are strings, a falsy key is `""`, and membership is map membership. The pending list's `string | number` element type is narrowed to the strings that `remove` actually pushes.
- Type-level declaration merging (src/augmentation.ts) has no runtime behaviour.
- Object identity of states is not modelled: the source makes a fresh copy only when keys are pending, and the model works on map values. The state handed to the composite is exposed as a ghost out-parameter of `Reduce`.
