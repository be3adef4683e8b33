/**
 * Client scenarios of the reducer manager: sequences of calls whose joint
 * effect follows from the manager's contracts alone, one per behaviour its
 * tests and code describe.
 */
module DynuxScenarios {
  import opened Dynux

  /** A fresh key added on a bound manager is registered, maps to its
      reducer, and the composite is installed once by the bind and once by
      the add. */
  method AddThenHas<R, V, A, S>(combine: (map<string, R>, Option<map<string, V>>, A) -> map<string, V>,
                                initial: map<string, R>, s: S, key: string, reducer: R)
    returns (outcome: Outcome, has: bool, current: map<string, R>, installs: seq<Install<R, S>>)
    requires key != "" && key !in initial
    ensures outcome == Ok && has
    ensures current == initial[key := reducer]
    ensures installs == [Install(s, initial), Install(s, initial[key := reducer])]
  {
    var m := new ReducerManager<R, V, A, S>(initial, combine);
    m.BindStore(s);
    outcome := m.Add(key, reducer);
    has := m.HasReducer(key);
    current := m.GetReducerMap();
    installs := m.installed;
  }

  /** Adding a key twice keeps the first reducer and installs nothing the
      second time. */
  method DuplicateAddKeepsFirst<R, V, A, S>(combine: (map<string, R>, Option<map<string, V>>, A) -> map<string, V>,
                                            initial: map<string, R>, s: S, key: string, first: R, second: R)
    returns (outcome: Outcome, current: map<string, R>, installCount: nat)
    requires key != "" && key !in initial
    ensures outcome == Ok
    ensures current == initial[key := first]
    ensures installCount == 2
  {
    var m := new ReducerManager<R, V, A, S>(initial, combine);
    m.BindStore(s);
    outcome := m.Add(key, first);
    outcome := m.Add(key, second);
    current := m.GetReducerMap();
    installCount := |m.installed|;
  }

  /** Removing an unregistered key neither fails nor changes anything. */
  method RemoveUnknownIsNoOp<R, V, A, S>(combine: (map<string, R>, Option<map<string, V>>, A) -> map<string, V>,
                                         initial: map<string, R>, s: S, key: string)
    returns (outcome: Outcome, current: map<string, R>, pending: seq<string>, installCount: nat)
    requires key !in initial
    ensures outcome == Ok
    ensures current == initial && pending == [] && installCount == 1
  {
    var m := new ReducerManager<R, V, A, S>(initial, combine);
    m.BindStore(s);
    outcome := m.Remove(key);
    current := m.GetReducerMap();
    pending := m.keysToRemove;
    installCount := |m.installed|;
  }

  /** Removing a key twice unregisters it and queues it for pruning once. */
  method RemoveTwiceQueuesOnce<R, V, A, S>(combine: (map<string, R>, Option<map<string, V>>, A) -> map<string, V>,
                                           initial: map<string, R>, s: S, key: string)
    returns (second: Outcome, has: bool, pending: seq<string>)
    requires key != "" && key in initial
    ensures second == Ok && !has
    ensures pending == [key]
  {
    var m := new ReducerManager<R, V, A, S>(initial, combine);
    m.BindStore(s);
    var first := m.Remove(key);
    second := m.Remove(key);
    has := m.HasReducer(key);
    pending := m.keysToRemove;
  }

  /** Adding a key and removing it again restores the map, but leaves the
      key queued for pruning. */
  method AddThenRemoveRestoresMap<R, V, A, S>(combine: (map<string, R>, Option<map<string, V>>, A) -> map<string, V>,
                                              initial: map<string, R>, s: S, key: string, reducer: R)
    returns (current: map<string, R>, pending: seq<string>)
    requires key != "" && key !in initial
    ensures current == initial
    ensures pending == [key]
  {
    var m := new ReducerManager<R, V, A, S>(initial, combine);
    m.BindStore(s);
    var added := m.Add(key, reducer);
    var removed := m.Remove(key);
    current := m.GetReducerMap();
    pending := m.keysToRemove;
  }

  /** Mutating a manager that was never bound fails, yet the key is removed
      already and nothing was installed anywhere. */
  method UnboundRemoveFails<R, V, A, S>(combine: (map<string, R>, Option<map<string, V>>, A) -> map<string, V>,
                                        initial: map<string, R>, key: string)
    returns (outcome: Outcome, has: bool, pending: seq<string>, installCount: nat)
    requires key != "" && key in initial
    ensures outcome == NoStoreBound
    ensures !has && pending == [key] && installCount == 0
  {
    var m := new ReducerManager<R, V, A, S>(initial, combine);
    outcome := m.Remove(key);
    has := m.HasReducer(key);
    pending := m.keysToRemove;
    installCount := |m.installed|;
  }

  /** The next call of `reduce` after a removal hands the composite a state
      without the removed slice and with every other slice as it was; the
      call after that hands it the state unchanged. */
  method RemoveThenReduce<R, V, A, S>(combine: (map<string, R>, Option<map<string, V>>, A) -> map<string, V>,
                                      initial: map<string, R>, s: S, key: string,
                                      state: map<string, V>, action: A)
    returns (firstNext: map<string, V>, secondNext: map<string, V>)
    requires key != "" && key in initial
    ensures firstNext == combine(initial - {key}, Some(state - {key}), action)
    ensures secondNext == combine(initial - {key}, Some(state), action)
  {
    var m := new ReducerManager<R, V, A, S>(initial, combine);
    m.BindStore(s);
    var removed := m.Remove(key);
    assert m.keysToRemove == [key] && m.combined == initial - {key};
    ghost var handed;
    firstNext, handed := m.Reduce(Some(state), action);
    DeleteOne(Some(state), key);
    assert handed == Some(state - {key});
    assert m.keysToRemove == [] && m.combined == initial - {key};
    secondNext, handed := m.Reduce(Some(state), action);
  }

  /** A store created after a removal, with `reduce` as its reducer, starts
      from `undefined`: its first dispatch reaches `reduce`, which hands the
      composite an empty state, and binding it afterwards
      is a rebind that installs nothing. */
  method RebindAfterRemove<R, V, A, S>(combine: (map<string, R>, Option<map<string, V>>, A) -> map<string, V>,
                                       initial: map<string, R>, s: S, newStore: S, key: string, init: A)
    returns (initialState: map<string, V>, bound: Option<S>, installs: seq<Install<R, S>>)
    requires key != "" && key in initial
    ensures initialState == combine(initial - {key}, Some(map[]), init)
    ensures bound == Some(newStore)
    ensures installs == [Install(s, initial), Install(s, initial - {key})]
  {
    var m := new ReducerManager<R, V, A, S>(initial, combine);
    m.BindStore(s);
    var removed := m.Remove(key);
    assert m.keysToRemove == [key] && m.combined == initial - {key};
    ghost var handed;
    initialState, handed := m.Reduce(None, init);
    DeleteOne<V>(None, key);
    assert handed == Some(map[]);
    m.BindStore(newStore);
    bound := m.store;
    installs := m.installed;
  }

  /** A key removed and added again before any call of `reduce` has its old
      slice still pruned by the next call of `reduce`, so the new reducer
      starts from no slice. */
  method RemoveThenReAddPrunes<R, V, A, S>(combine: (map<string, R>, Option<map<string, V>>, A) -> map<string, V>,
                                           initial: map<string, R>, s: S, key: string, reducer: R,
                                           state: map<string, V>, action: A)
    returns (has: bool, next: map<string, V>)
    requires key != "" && key in initial
    ensures has
    ensures next == combine((initial - {key})[key := reducer], Some(state - {key}), action)
  {
    var m := new ReducerManager<R, V, A, S>(initial, combine);
    m.BindStore(s);
    var removed := m.Remove(key);
    assert m.keysToRemove == [key] && m.reducers == initial - {key};
    var added := m.Add(key, reducer);
    assert m.keysToRemove == [key] && m.combined == (initial - {key})[key := reducer];
    has := m.HasReducer(key);
    ghost var handed;
    next, handed := m.Reduce(Some(state), action);
    DeleteOne(Some(state), key);
    assert handed == Some(state - {key});
  }
}
