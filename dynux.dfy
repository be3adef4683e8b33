/**
 * A model of the reducer manager of dynux: a registry of named reducers that
 * recombines them into one composite reducer whenever the registered set
 * changes, installs that composite into the bound store, and lazily prunes
 * the state slices of removed reducers on the next call of `reduce`.
 *
 * The state library's `combineReducers` is not modelled: it is the function
 * `combine` handed to the constructor, applied to the reducer map the
 * composite was built from, the incoming state and the action.
 */
module Dynux {

  datatype Option<+T> = None | Some(value: T)

  /** How a mutating call ends: normally, or with the error that
      `replaceReducers` throws when no store has been bound. */
  datatype Outcome = Ok | NoStoreBound

  /** One call of a store's `replaceReducer`: the store that received the
      composite and the reducer map the composite was built from. */
  datatype Install<R, S> = Install(store: S, reducers: map<string, R>)

  /** The object spread `{ ...state }`; spreading `undefined` gives `{}`. */
  function ShallowCopy<V>(state: Option<map<string, V>>): (r: map<string, V>)
    ensures state.None? ==> r == map[]
    ensures state.Some? ==> r.Keys == state.value.Keys
    ensures state.Some? ==> forall k :: k in r ==> r[k] == state.value[k]
  {
    match state
    case None => map[]
    case Some(m) => m
  }

  /** `state` after `delete state[k]` for every `k` of `keys`, in order:
      exactly the keys of `keys` are gone and every other slice is kept. */
  function DeleteAll<V>(state: map<string, V>, keys: seq<string>): (r: map<string, V>)
    ensures forall k :: k in r <==> k in state && k !in keys
    ensures forall k :: k in r ==> r[k] == state[k]
    decreases |keys|
  {
    if keys == [] then state
    else
      DeleteAll(state, keys[..|keys| - 1]) - {keys[|keys| - 1]}
  }

  /** Pruning a single pending key from a state is deleting that key. */
  lemma DeleteOne<V>(state: Option<map<string, V>>, key: string)
    ensures DeleteAll(ShallowCopy(state), [key]) == ShallowCopy(state) - {key}
  {
  }

  /** The cleanup loop of `reduce`: deletes the pending keys one by one
      from a copy of the state. */
  method DeleteKeys<V>(state: map<string, V>, keys: seq<string>) returns (cleaned: map<string, V>)
    ensures cleaned == DeleteAll(state, keys)
  {
    cleaned := state;
    for i := 0 to |keys|
      invariant cleaned == DeleteAll(state, keys[..i])
    {
      cleaned := cleaned - {keys[i]};
    }
  }

  class ReducerManager<R, V, A, S> {
    /** The composite reducer built from a reducer map, run on a state
        (`None` for `undefined`) and an action. */
    const combine: (map<string, R>, Option<map<string, V>>, A) -> map<string, V>

    /** The registered reducers by key. */
    var reducers: map<string, R>
    /** The store the composite is installed into, if one is bound. */
    var store: Option<S>
    /** Keys removed since the last `Reduce`, whose slices are still to be pruned. */
    var keysToRemove: seq<string>
    /** The reducer map the current composite reducer was built from. */
    var combined: map<string, R>
    /** Every composite installed into a store, oldest first. */
    var installed: seq<Install<R, S>>

    /** The composite always reflects the current map, and only non-empty
        keys are ever pending. */
    ghost predicate Valid()
      reads this
    {
      && combined == reducers
      && forall i :: 0 <= i < |keysToRemove| ==> keysToRemove[i] != ""
    }

    constructor (initialReducers: map<string, R>,
                 combine: (map<string, R>, Option<map<string, V>>, A) -> map<string, V>)
      ensures Valid()
      ensures reducers == initialReducers && combined == initialReducers
      ensures keysToRemove == [] && store == None && installed == []
      ensures this.combine == combine
    {
      this.combine := combine;
      reducers := initialReducers;
      keysToRemove := [];
      combined := initialReducers;
      store := None;
      installed := [];
    }

    /** Binds `s`; only the first bind installs the composite, a rebind
        installs nothing. */
    method BindStore(s: S)
      requires Valid()
      modifies this`store, this`combined, this`installed
      ensures Valid()
      ensures store == Some(s)
      ensures combined == old(combined)
      ensures installed == if old(store).None? then old(installed) + [Install(s, reducers)]
                           else old(installed)
    {
      var prevStore := store;
      store := Some(s);
      if prevStore.None? {
        var outcome := ReplaceReducers();
        assert outcome == Ok;
      }
    }

    /** The current reducer map, as a value. */
    function GetReducerMap(): (m: map<string, R>)
      reads this
      ensures m == reducers
    {
      reducers
    }

    /** Whether `key` is registered. */
    function HasReducer(key: string): (b: bool)
      reads this
      ensures b <==> key in reducers
    {
      key in reducers
    }

    /** Prunes the slices of every pending key from a copy of `state`,
        clears the pending list and runs the composite on the result;
        `handed` is the state the composite receives. */
    method Reduce(state: Option<map<string, V>>, action: A)
      returns (next: map<string, V>, ghost handed: Option<map<string, V>>)
      requires Valid()
      modifies this`keysToRemove
      ensures Valid()
      ensures keysToRemove == []
      ensures next == combine(combined, handed, action)
      ensures old(keysToRemove) == [] ==> handed == state
      ensures old(keysToRemove) != [] ==>
                handed == Some(DeleteAll(ShallowCopy(state), old(keysToRemove)))
    {
      var s := state;
      if |keysToRemove| > 0 {
        var cleaned := DeleteKeys(ShallowCopy(state), keysToRemove);
        s := Some(cleaned);
        keysToRemove := [];
      }
      handed := s;
      next := combine(combined, s, action);
    }

    /** Registers `reducer` under `key`, unless `key` is empty or already
        registered, in which case nothing at all changes. */
    method Add(key: string, reducer: R) returns (outcome: Outcome)
      requires Valid()
      modifies this`reducers, this`combined, this`installed
      ensures Valid()
      ensures key == "" || key in old(reducers) ==> unchanged(this) && outcome == Ok
      ensures key != "" && key !in old(reducers) ==>
                && reducers == old(reducers)[key := reducer]
                && outcome == (if store.None? then NoStoreBound else Ok)
                && installed == (if store.None? then old(installed)
                                 else old(installed) + [Install(store.value, reducers)])
    {
      if key == "" || key in reducers {
        return Ok;
      }
      reducers := reducers[key := reducer];
      outcome := ReplaceReducers();
    }

    /** Unregisters `key` and queues its slice for pruning, unless `key` is
        empty or not registered, in which case nothing at all changes. */
    method Remove(key: string) returns (outcome: Outcome)
      requires Valid()
      modifies this`reducers, this`keysToRemove, this`combined, this`installed
      ensures Valid()
      ensures key == "" || key !in old(reducers) ==> unchanged(this) && outcome == Ok
      ensures key != "" && key in old(reducers) ==>
                && reducers == old(reducers) - {key}
                && keysToRemove == old(keysToRemove) + [key]
                && outcome == (if store.None? then NoStoreBound else Ok)
                && installed == (if store.None? then old(installed)
                                 else old(installed) + [Install(store.value, reducers)])
    {
      if key == "" || key !in reducers {
        return Ok;
      }
      reducers := reducers - {key};
      keysToRemove := keysToRemove + [key];
      outcome := ReplaceReducers();
    }

    /** Rebuilds the composite from the current map, then installs it into
        the bound store; with no store bound it fails after the rebuild. */
    method ReplaceReducers() returns (outcome: Outcome)
      modifies this`combined, this`installed
      ensures combined == reducers
      ensures outcome == if store.None? then NoStoreBound else Ok
      ensures installed == if store.None? then old(installed)
                           else old(installed) + [Install(store.value, reducers)]
    {
      combined := reducers;
      match store {
        case None =>
          outcome := NoStoreBound;
        case Some(s) =>
          installed := installed + [Install(s, combined)];
          outcome := Ok;
      }
    }
  }
}
