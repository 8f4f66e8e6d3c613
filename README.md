# Daily Targum news reader: page reducer and home-feed layout

This project models two pieces of client logic of the Daily Targum news
reader and proves properties of them in Dafny.

- **The page reducer** (`page_reducer.dfy`, module `PageReducer`). The store
  keeps a dictionary `items` from a page slug to the page's content. A value
  of `null` means "not found". A slug that is absent means "never loaded".
  `LOAD_PAGE` writes its payload under its slug. `SET_NOT_FOUND` writes
  `null`. Any other action returns the state unchanged. The state is a
  datatype, an immutable value: the reducer builds a new dictionary and keeps
  every other property of the state object (`rest`, keyed by property name).
  A state of `None` is the `undefined` that makes the reducer start from
  `initialState`. `DispatchAll` folds a run of actions, so that
  properties of whole action histories can be stated.
- **The home-feed layout** (`home.dfy`, module `Home`). It covers `chopArray`,
  which cuts a section's articles into one group of one and three groups of
  two. It covers the fixed section table, and the `slice(0, 20)` that hands
  each section at most twenty feed items. It covers the rule that an empty or
  missing list renders nothing, the mapping from groups to large and compact
  cards, and the guard that ignores a pull-to-refresh while a refresh runs.
  A JavaScript read past the end of an array (`undefined`) is `None`. A render
  that throws a TypeError is `Crashed` (or `None` for a single group).
  The section render callback throws on short lists (see "## Findings"), so
  the section and the home screen come in two forms: `ArticleSectionAsWritten`
  and `HomeViewAsWritten` render as the code is written, while `ArticleSection`
  and `HomeView` render with the corrected callback. As written, a throw in
  one section makes the whole screen throw, because the screen has no error
  boundary; `HomeViewAsWritten` is then `None`.
- `wrappers.dfy` holds the `Option` datatype both modules use.

The reducer stores `null` for "not found", so a `LOAD_PAGE` whose payload is
`null` cannot be told apart from a `SET_NOT_FOUND` on the same slug;
`LoadNullIsNotFound` proves it. Slugs are never checked, so any string is
accepted as a slug.

## Model

| member | source | states |
|---|---|---|
| PageReducer.Action.Stored | src/store/ducks/page/reducer.ts:10-21 | the value a recognised action writes: the payload for LOAD_PAGE, `null` for SET_NOT_FOUND |
| PageReducer.InitialState | src/store/ducks/page/reducer.ts:3-5 | the initial state has every slug unknown and no other properties |
| PageReducer.Start | src/store/ducks/page/reducer.ts:7 | the reducer works on the state supplied, or, when none is, on one with every slug unknown and no other properties |
| PageReducer.Reducer | src/store/ducks/page/reducer.ts:7-25 | an unrecognised action returns its input state; a recognised one keeps every non-`items` property, makes the key set the old one plus the slug, stores the payload (LOAD_PAGE) or `null` (SET_NOT_FOUND) under the slug, and keeps every other key's value; well-formedness is preserved |
| PageReducer.StartsEmpty | src/store/ducks/page/reducer.ts:3-8 | with no state supplied, the result has no other properties and at most the action's slug in `items` |
| PageReducer.NotFoundOverridesContent | src/store/ducks/page/reducer.ts:16-21 | SET_NOT_FOUND on a slug that holds loaded content replaces it with `null` and adds no key |
| PageReducer.LoadNullIsNotFound | src/store/ducks/page/reducer.ts:10-21 | LOAD_PAGE with a `null` payload gives exactly the same state as SET_NOT_FOUND on that slug |
| PageReducer.LastWriteWins | src/store/ducks/page/reducer.ts:8-21 | two recognised actions on one slug leave the state the second alone would give |
| PageReducer.Idempotent | src/store/ducks/page/reducer.ts:7-25 | any action applied twice gives the state it gives once |
| PageReducer.DistinctSlugsCommute | src/store/ducks/page/reducer.ts:8-21 | recognised actions on different slugs commute, so neither affects the other's entry |
| PageReducer.DispatchKeepsRest | src/store/ducks/page/reducer.ts:12-20 | every non-`items` property survives any run of actions |
| PageReducer.DispatchKeys | src/store/ducks/page/reducer.ts:8-21 | after any run of actions the keys are the old keys plus the slugs the run wrote: no key is ever removed |
| PageReducer.DispatchLookup | src/store/ducks/page/reducer.ts:8-21 | after any run of actions each slug holds what the last recognised action on it stored, or its old value (or stays absent) if none wrote it |
| PageReducer.StatusOf | src/store/ducks/page/reducer.ts:11-17 | a reader sees a slug as unknown exactly when it is absent, as not found exactly when it holds `null` |
| PageReducer.StatusStep | src/store/ducks/page/reducer.ts:8-23 | one step on a slug's status: a recognised action on the slug makes it not found (`null` stored) or loaded; any other action leaves its status unchanged |
| PageReducer.NeverForgotten | src/store/ducks/page/reducer.ts:8-21 | a slug that has been loaded or marked not found never becomes unknown again |
| PageReducer.Scenario | src/store/ducks/page/reducer.ts:3-23 | from the empty store: load `about-us`, mark `missing-page` not found, then an unknown action leaves the state unchanged |
| Home.At | src/screens/Home.tsx:21 | an array read is defined exactly within bounds, and then is the element |
| Home.ChopArray | src/screens/Home.tsx:20-22 | four groups; group 0 is `[arr[0]]`, group g (1 to 3) is `[arr[2g-1], arr[2g]]`, undefined where `arr` is too short |
| Home.ChopArrayFlattens | src/screens/Home.tsx:21 | the groups laid end to end are the reads of positions 0 to 6, in order |
| Home.ChopArrayIgnoresTail | src/screens/Home.tsx:21 | elements after index 6 do not change the groups |
| Home.ChopArrayDefined | src/screens/Home.tsx:21 | each group position reads an index below 7, is defined exactly when that index exists, and then holds that element |
| Home.SectionsTable | src/screens/Home.tsx:24-45 | four sections in the order News, Sports, Opinions, inside-beat, with distinct ids, all of article type |
| Home.FirstTwenty | src/screens/Home.tsx:196 | `slice(0, 20)` gives min(length, 20) items, a prefix of the data |
| Home.HomeSections | src/screens/Home.tsx:192-199 | the four sections' props exist exactly when every section id is in the feed |
| Home.MapSections | src/screens/Home.tsx:192-199 | defined exactly when every section id is in the feed; then one props record per section, in order, with key and category its id, its title, and the first twenty items of its feed |
| Home.HomeSectionsPrefix | src/screens/Home.tsx:192-199 | each of the four sections gets at most twenty items, a prefix of its own feed data |
| Home.Item | src/screens/Home.tsx:82-107 | `item[j]` is defined exactly when the group has a defined article at `j` |
| Home.RenderGroupAsWritten | src/screens/Home.tsx:78-117 | the callback as written throws unless the articles its cards read are defined; group 0 gives one large card for item 0, other groups two compact cards for items 0 and 1 |
| Home.RenderGroup | src/screens/Home.tsx:78-117 | the corrected callback: the same cards, and no cards instead of a throw when an article is missing |
| Home.NothingToShow | src/screens/Home.tsx:60 | a list renders nothing exactly when it is null/undefined or empty |
| Home.ArticleSection | src/screens/Home.tsx:60-118 | the corrected section: renders nothing exactly when items is null, undefined or empty; never throws; otherwise shows title, category and one card row per group of `chopArray(items)`, through the corrected callback |
| Home.ArticleSectionAsWritten | src/screens/Home.tsx:60-118 | renders nothing exactly when items is null, undefined or empty |
| Home.AsWrittenCrashesOnShortLists | src/screens/Home.tsx:77-117 | as written, a section throws exactly when it has between one and six articles |
| Home.AsWrittenCrashesOnOneArticle | src/screens/Home.tsx:77-117 | as written, a section of one article throws |
| Home.CorrectedAgreesWhenNoCrash | src/screens/Home.tsx:77-117 | wherever the code as written does not throw, the corrected section renders the same thing |
| Home.FullSectionShowsFirstSeven | src/screens/Home.tsx:77-117 | with seven or more articles: one large card for article 0, compact cards for articles 1 to 6 in pairs, and the cards' articles, row by row, are exactly the first seven articles in order |
| Home.ShowsOnlyFirstSeven | src/screens/Home.tsx:20-117 | every card shows one of the first seven articles handed to the section |
| Home.HomeView | src/screens/Home.tsx:192-199 | the corrected home screen: defined exactly when every section id is in the feed; then section i is the corrected section for table row i with the first twenty items of its feed |
| Home.SectionAsWritten | src/screens/Home.tsx:193-198 | the as-written section for table row i throws exactly when its feed holds 1 to 6 articles |
| Home.HomeViewAsWritten | src/screens/Home.tsx:192-199 | the home screen as written: when it renders, the feed holds every section id, no section throws, and section i is the as-written section for table row i with the first twenty items of its feed; a throw in any one section makes the whole screen throw |
| Home.HomeAsWrittenCrashes | src/screens/Home.tsx:77-199 | as written, the home screen renders exactly when the feed holds every section id and no section's feed holds 1 to 6 articles |
| Home.HomeViewSection | src/screens/Home.tsx:192-199 | on the corrected home screen, each section renders nothing exactly when its feed is empty, carries its table title and id, and shows only articles among the first seven of its own feed |
| Home.OnRefresh | src/screens/Home.tsx:171-176 | dispatches one `refreshAll` when no refresh runs, and nothing when one does |
| Home.OnRefreshAllCount | src/screens/Home.tsx:171-176 | a run of gestures dispatches one `refreshAll` per gesture that found no refresh running, and none if a refresh runs throughout |

## Findings

| source | as written | input that shows it | evidently intended | confidence | as-written member | corrected member |
|---|---|---|---|---|---|---|
| src/screens/Home.tsx:79-107 | the guard `if(!item) return null` tests the group, which is an array and always truthy; the cards then read `item[0].id` and `item[1].title`, which throw a TypeError when the article is `undefined` | a section with 1 to 6 articles, e.g. one article: `chopArray` gives `[undefined, undefined]` as group 1 | a group with a missing article renders nothing | not executed; assumes `CardRow` calls the callback once per group | Home.AsWrittenCrashesOnShortLists | Home.ArticleSection |

## Left out

- JSX rendering, the stylesheet, `LinearGradient`, and the Theme, Card, CardRow, Section, Divider and Button components are UI built on the framework. `CardRow` is not part of this model; it is assumed to call its callback once per group with the group's index.
- The scroll and animation wiring (`Animated.Value`, `Animated.event`, `interpolate`, the content insets and `HEADER_HEIGHT`) is float and pixel arithmetic driven by the framework.
- Navigation, the Redux hooks (`useDispatch`, `useNewsSelector`), `useDate` and `formatDateAbriviated` are calls into code that is not shown. The feed and the `refreshing` flag are parameters instead.
- The image URL query strings on the cards are string glue for an external image service.
- The news store, `GetArticle` and `./types` are not part of this model. Payloads and articles are type parameters. The action-type constants are opaque, and an `Other` action is taken to have a type different from both.
- The `Action` datatype only expresses well-formed actions. In the source a `LOAD_PAGE` or `SET_NOT_FOUND` action without a `payload` throws a TypeError when it reads `action.payload.slug`, and a payload without a `slug` is stored under the key `"undefined"`; neither is modelled.
- A feed entry is reduced to its `data` list. A missing or `null` `data` list is not modelled; a section id missing from the feed is, as `None`.
- PageReducer.Reducer: `items` is a map, so JavaScript's special `__proto__` key is not modelled: assigning that slug in a plain object runs the prototype setter and creates no own key, so the entry is lost on the next copy, whereas the model stores it like any other slug (and `NeverForgotten` holds for it only in the model). The model also works on immutable values, so the fact that the input state's dictionary is never mutated holds by construction. The JavaScript object copy and the aliasing it avoids are not represented.
- Home.OnRefresh: the news reducer that sets and clears the `refreshing` flag is not shown, so the guard is modelled per gesture with the flag as an input.
