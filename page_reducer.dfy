/** The "page" slice of the store: a reducer over a dictionary that maps a
    page slug to the page's content, to `null` ("not found"), or to nothing
    at all ("never loaded"). */
module PageReducer {
  import opened Wrappers

  /** A value held under a slug. `Null` is JavaScript's `null`: it is what
      SET_NOT_FOUND stores, and a LOAD_PAGE payload may be `null` too. */
  datatype Payload<D> = Null | Content(value: D)

  /** The state object: its `items` dictionary and every other own property
      (`rest`, by property name), which the object spread `...state` copies. */
  datatype State<D, F> = State(items: map<string, Payload<D>>, rest: map<string, F>)

  /** The actions the reducer can receive. The action-type constants are
      opaque; `Other` is any action whose type is neither of the two. */
  datatype Action<D> =
    | LoadPage(slug: string, data: Payload<D>)
    | SetNotFound(slug: string)
    | Other(tag: string)
  {
    /** The action is one of the two the reducer handles. */
    predicate Recognised() { LoadPage? || SetNotFound? }

    /** The value a recognised action stores under its slug. */
    function Stored(): (v: Payload<D>)
      requires Recognised()
      ensures SetNotFound? ==> v == Null
      ensures LoadPage? ==> v == data
    {
      if LoadPage? then data else Null
    }
  }

  /** The state a store starts from: no page has been requested yet. */
  function InitialState<D, F>(): (s: State<D, F>)
    ensures forall slug :: StatusOf(s, slug) == Unknown
    ensures s.rest == map[]
  {
    State(map[], map[])
  }

  /** The state the reducer works on: the one supplied, or `initialState`
      when the caller passes `undefined`. */
  function Start<D, F>(state: Option<State<D, F>>): (s: State<D, F>)
    ensures state.Some? ==> s == state.value
    ensures state.None? ==> s.rest == map[] && forall slug :: StatusOf(s, slug) == Unknown
  {
    state.GetOr(InitialState())
  }

  /** The state object is well formed: `items` is not also among the other
      properties. */
  predicate WellFormed<D, F>(s: State<D, F>)
  {
    "items" !in s.rest
  }

  /** The reducer. A recognised action writes its value under its slug in a
      copy of `items` and keeps every other property; any other action
      returns the state it was given. */
  function Reducer<D, F>(state: Option<State<D, F>>, action: Action<D>): (r: State<D, F>)
    ensures !action.Recognised() ==> r == Start(state)
    ensures action.Recognised() ==> r.rest == Start(state).rest
    ensures action.Recognised() ==> r.items.Keys == Start(state).items.Keys + {action.slug}
    ensures action.LoadPage? ==> r.items[action.slug] == action.data
    ensures action.SetNotFound? ==> r.items[action.slug] == Null
    ensures action.Recognised() ==>
      forall k :: k in Start(state).items && k != action.slug ==> r.items[k] == Start(state).items[k]
    ensures WellFormed(Start(state)) ==> WellFormed(r)
  {
    var s := Start(state);
    match action
    case LoadPage(slug, data) => State(s.items[slug := data], s.rest)
    case SetNotFound(slug) => State(s.items[slug := Null], s.rest)
    case Other(_) => s
  }

  /** With no state supplied the reducer starts from an empty dictionary:
      afterwards at most the action's slug is present. */
  lemma StartsEmpty<D, F>(action: Action<D>)
    ensures Reducer<D, F>(None, action).rest == map[]
    ensures action.Recognised() ==> Reducer<D, F>(None, action).items == map[action.slug := action.Stored()]
    ensures !action.Recognised() ==> Reducer<D, F>(None, action).items == map[]
  {
  }

  /** After SET_NOT_FOUND the slug holds `null`, whatever it held before,
      loaded content included. */
  lemma NotFoundOverridesContent<D, F>(s: State<D, F>, slug: string, d: D)
    requires slug in s.items && s.items[slug] == Content(d)
    ensures Reducer(Some(s), SetNotFound(slug)).items[slug] == Null
    ensures Reducer(Some(s), SetNotFound(slug)).items.Keys == s.items.Keys
  {
  }

  /** LOAD_PAGE with a `null` payload cannot be told apart from
      SET_NOT_FOUND on the same slug. */
  lemma LoadNullIsNotFound<D, F>(state: Option<State<D, F>>, slug: string)
    ensures Reducer(state, LoadPage(slug, Null)) == Reducer(state, SetNotFound(slug))
  {
  }

  /** Last write wins: of two recognised actions on one slug, only the second
      leaves a trace. */
  lemma LastWriteWins<D, F>(s: State<D, F>, a1: Action<D>, a2: Action<D>)
    requires a1.Recognised() && a2.Recognised() && a1.slug == a2.slug
    ensures Reducer(Some(Reducer(Some(s), a1)), a2) == Reducer(Some(s), a2)
  {
  }

  /** Applying the same action twice equals applying it once. */
  lemma Idempotent<D, F>(s: State<D, F>, a: Action<D>)
    ensures Reducer(Some(Reducer(Some(s), a)), a) == Reducer(Some(s), a)
  {
  }

  /** Actions on different slugs do not interfere: they commute. */
  lemma DistinctSlugsCommute<D, F>(s: State<D, F>, a1: Action<D>, a2: Action<D>)
    requires a1.Recognised() && a2.Recognised() && a1.slug != a2.slug
    ensures Reducer(Some(Reducer(Some(s), a1)), a2) == Reducer(Some(Reducer(Some(s), a2)), a1)
  {
  }

  // ---------------------------------------------------------------------
  // Sequences of dispatched actions

  /** The state after the store dispatches `actions` one at a time, starting from `s`. */
  function DispatchAll<D, F>(s: State<D, F>, actions: seq<Action<D>>): (r: State<D, F>)
  {
    if actions == [] then s
    else Reducer(Some(DispatchAll(s, actions[..|actions| - 1])), actions[|actions| - 1])
  }

  /** The value that the last recognised action on `slug` in `actions`
      stores, if any action in `actions` writes `slug` at all. */
  function LastWrite<D>(actions: seq<Action<D>>, slug: string): (w: Option<Payload<D>>)
  {
    if actions == [] then None
    else
      var a := actions[|actions| - 1];
      if a.Recognised() && a.slug == slug then Some(a.Stored())
      else LastWrite(actions[..|actions| - 1], slug)
  }

  /** The slugs that the recognised actions in `actions` write. */
  function WrittenSlugs<D>(actions: seq<Action<D>>): (slugs: set<string>)
  {
    set i | 0 <= i < |actions| && actions[i].Recognised() :: actions[i].slug
  }

  /** Other properties of the state survive any run of actions. */
  lemma {:induction false} DispatchKeepsRest<D, F>(s: State<D, F>, actions: seq<Action<D>>)
    ensures DispatchAll(s, actions).rest == s.rest
  {
    if actions != [] {
      DispatchKeepsRest(s, actions[..|actions| - 1]);
    }
  }

  /** No key is ever removed: after a run of actions the slugs present are
      the ones present before plus the ones the actions wrote. */
  lemma {:induction false} DispatchKeys<D, F>(s: State<D, F>, actions: seq<Action<D>>)
    ensures DispatchAll(s, actions).items.Keys == s.items.Keys + WrittenSlugs(actions)
  {
    if actions != [] {
      var init := actions[..|actions| - 1];
      var a := actions[|actions| - 1];
      DispatchKeys(s, init);
      assert actions == init + [a];
      if a.Recognised() {
        assert WrittenSlugs(actions) == WrittenSlugs(init) + {a.slug};
      } else {
        assert WrittenSlugs(actions) == WrittenSlugs(init);
      }
    }
  }

  /** Each slug ends up holding what the last recognised action on it stored,
      or, when no action wrote it, what it held before. */
  lemma {:induction false} DispatchLookup<D, F>(s: State<D, F>, actions: seq<Action<D>>, slug: string)
    ensures LastWrite(actions, slug).Some? ==>
      slug in DispatchAll(s, actions).items &&
      DispatchAll(s, actions).items[slug] == LastWrite(actions, slug).value
    ensures LastWrite(actions, slug).None? ==>
      (slug in DispatchAll(s, actions).items <==> slug in s.items) &&
      (slug in s.items ==> DispatchAll(s, actions).items[slug] == s.items[slug])
  {
    if actions != [] {
      DispatchLookup(s, actions[..|actions| - 1], slug);
    }
  }

  // ---------------------------------------------------------------------
  // The per-slug status that readers of the dictionary observe

  datatype Status = Unknown | NotFound | Loaded

  /** How a reader classifies a slug: absent, present with `null`, or
      present with content. */
  function StatusOf<D, F>(s: State<D, F>, slug: string): (st: Status)
    ensures st == Unknown <==> slug !in s.items
    ensures st == NotFound <==> slug in s.items && s.items[slug] == Null
  {
    if slug !in s.items then Unknown
    else if s.items[slug] == Null then NotFound
    else Loaded
  }

  /** One reducer step on the per-slug status: a recognised action on the
      slug makes it NotFound or Loaded according to the value it stores;
      every other action leaves the slug's status as it was. */
  lemma StatusStep<D, F>(s: State<D, F>, a: Action<D>, slug: string)
    ensures StatusOf(Reducer(Some(s), a), slug) ==
      if a.Recognised() && a.slug == slug then (if a.Stored() == Null then NotFound else Loaded)
      else StatusOf(s, slug)
  {
  }

  /** Once a slug has been requested it never returns to Unknown, whatever
      actions follow. */
  lemma NeverForgotten<D, F>(s: State<D, F>, actions: seq<Action<D>>, slug: string)
    requires StatusOf(s, slug) != Unknown
    ensures StatusOf(DispatchAll(s, actions), slug) != Unknown
  {
    DispatchKeys(s, actions);
  }

  /** A load followed by a not-found, followed by an unrecognised action, on
      an empty store, worked step by step. */
  lemma Scenario<D>(about: D)
    ensures
      var s1 := Reducer(Some(InitialState<D, int>()), LoadPage("about-us", Content(about)));
      var s2 := Reducer(Some(s1), SetNotFound("missing-page"));
      var s3 := Reducer(Some(s2), Other("UNKNOWN"));
      && s1.items == map["about-us" := Content(about)]
      && s2.items == map["about-us" := Content(about), "missing-page" := Null]
      && s3 == s2
  {
  }
}
