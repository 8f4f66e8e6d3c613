/** The pure layout logic of the home feed: how each fixed section's
    articles are cut into card groups, which feed items a section receives,
    when a section renders nothing, and the double-refresh guard. */
module Home {
  import opened Wrappers

  /** JavaScript `arr[i]`: the element, or `undefined` (`None`) past the
      end. Arrays are never bounds-checked. */
  function At<T>(arr: seq<T>, i: nat): (r: Option<T>)
    ensures r.Some? <==> i < |arr|
    ensures i < |arr| ==> r.value == arr[i]
  {
    if i < |arr| then Some(arr[i]) else None
  }

  /** `chopArray`: one group holding the first article, then three groups
      of two. It reads positions 0 to 6 and nothing else. */
  function ChopArray<T>(arr: seq<T>): (groups: seq<seq<Option<T>>>)
    ensures |groups| == 4
    ensures |groups[0]| == 1 && groups[0][0] == At(arr, 0)
    ensures forall g :: 1 <= g < 4 ==> |groups[g]| == 2
    ensures forall g, j :: 1 <= g < 4 && 0 <= j < 2 ==> groups[g][j] == At(arr, 2 * g - 1 + j)
  {
    [[At(arr, 0)], [At(arr, 1), At(arr, 2)], [At(arr, 3), At(arr, 4)], [At(arr, 5), At(arr, 6)]]
  }

  /** The groups laid end to end. */
  function Flatten<X>(groups: seq<seq<X>>): (r: seq<X>)
  {
    if groups == [] then [] else groups[0] + Flatten(groups[1..])
  }

  /** The first `n` reads `arr[0]`, ..., `arr[n-1]`, past-the-end ones included. */
  function Reads<T>(arr: seq<T>, n: nat): (r: seq<Option<T>>)
    ensures |r| == n && forall i :: 0 <= i < n ==> r[i] == At(arr, i)
  {
    seq(n, i requires 0 <= i < n => At(arr, i))
  }

  /** Concatenating the groups gives positions 0 to 6 of `arr`, in order. */
  lemma ChopArrayFlattens<T>(arr: seq<T>)
    ensures Flatten(ChopArray(arr)) == Reads(arr, 7)
  {
    var g := ChopArray(arr);
    assert Flatten(g[3..]) == g[3] by { assert g[3..][1..] == []; }
    assert Flatten(g[2..]) == g[2] + g[3] by { assert g[2..][1..] == g[3..]; }
    assert Flatten(g[1..]) == g[1] + g[2] + g[3] by { assert g[1..][1..] == g[2..]; }
  }

  /** Only the first seven articles matter: anything after index 6 never
      appears in a group. */
  lemma ChopArrayIgnoresTail<T>(arr: seq<T>, tail: seq<T>)
    requires |arr| >= 7
    ensures ChopArray(arr + tail) == ChopArray(arr)
  {
  }

  /** A position of the groups is defined exactly when the article it reads
      exists, and every defined one is one of `arr[0..6]`. */
  lemma ChopArrayDefined<T>(arr: seq<T>, g: nat, j: nat)
    requires g < 4 && j < (if g == 0 then 1 else 2)
    ensures var k := if g == 0 then 0 else 2 * g - 1 + j;
      && k < 7
      && (ChopArray(arr)[g][j].Some? <==> k < |arr|)
      && (ChopArray(arr)[g][j].Some? ==> ChopArray(arr)[g][j].value == arr[k])
  {
  }

  // ---------------------------------------------------------------------
  // The fixed section table

  /** One row of the `sections` table. */
  datatype SectionInfo = SectionInfo(id: string, title: string, kind: string)

  const Sections: seq<SectionInfo> := [
    SectionInfo("News", "News", "article"),
    SectionInfo("Sports", "Sports", "article"),
    SectionInfo("Opinions", "Opinions", "article"),
    SectionInfo("inside-beat", "Inside Beat", "article")
  ]

  /** Four sections, in the order News, Sports, Opinions, inside-beat, with
      distinct ids (the ids are the React keys) and all of article type. */
  lemma SectionsTable()
    ensures |Sections| == 4
    ensures Sections[0].id == "News" && Sections[1].id == "Sports"
    ensures Sections[2].id == "Opinions" && Sections[3].id == "inside-beat"
    ensures forall i, j :: 0 <= i < j < |Sections| ==> Sections[i].id != Sections[j].id
    ensures forall i :: 0 <= i < |Sections| ==> Sections[i].kind == "article"
  {
  }

  /** Most feed items any section is handed. */
  const MaxSectionItems: nat := 20

  /** `data.slice(0, 20)`: the first twenty items, or all of them when there
      are fewer. */
  function FirstTwenty<T>(data: seq<T>): (r: seq<T>)
    ensures |r| <= MaxSectionItems
    ensures |r| == if |data| < MaxSectionItems then |data| else MaxSectionItems
    ensures r == data[..|r|]
  {
    if |data| <= MaxSectionItems then data else data[..MaxSectionItems]
  }

  /** The properties the home screen passes to one `ArticleSection`. */
  datatype SectionProps<T> = SectionProps(key: string, title: string, items: Option<seq<T>>, category: string)

  /** `sections.map(...)` over a feed that maps a section id to its data
      list. Reading the feed entry of an id the feed lacks throws, so the
      whole map yields `None`. */
  function MapSections<T>(secs: seq<SectionInfo>, feed: map<string, seq<T>>): (r: Option<seq<SectionProps<T>>>)
    ensures r.Some? <==> forall i :: 0 <= i < |secs| ==> secs[i].id in feed
    ensures r.Some? ==> |r.value| == |secs|
    ensures r.Some? ==> forall i :: 0 <= i < |secs| ==>
      && r.value[i].key == secs[i].id
      && r.value[i].title == secs[i].title
      && r.value[i].category == secs[i].id
      && r.value[i].items == Some(FirstTwenty(feed[secs[i].id]))
  {
    if secs == [] then Some([])
    else if secs[0].id !in feed then None
    else
      var tail := MapSections(secs[1..], feed);
      if tail.None? then None
      else Some([SectionProps(secs[0].id, secs[0].title, Some(FirstTwenty(feed[secs[0].id])), secs[0].id)] + tail.value)
  }

  /** The four sections' properties, in table order. */
  function HomeSections<T>(feed: map<string, seq<T>>): (r: Option<seq<SectionProps<T>>>)
    ensures r.Some? <==> forall i :: 0 <= i < |Sections| ==> Sections[i].id in feed
    ensures r.Some? ==> |r.value| == 4
  {
    MapSections(Sections, feed)
  }

  /** Every section the home screen renders is handed a prefix of at most
      twenty items of its own feed, and its category is its id. */
  lemma HomeSectionsPrefix<T>(feed: map<string, seq<T>>, i: nat)
    requires HomeSections(feed).Some? && i < |Sections|
    ensures |HomeSections(feed).value| == 4
    ensures var p := HomeSections(feed).value[i];
      && p.items.Some?
      && |p.items.value| <= MaxSectionItems
      && p.items.value <= feed[Sections[i].id]
      && p.category == Sections[i].id && p.key == Sections[i].id
  {
  }

  // ---------------------------------------------------------------------
  // Rendering one section

  /** A card the section shows: the large lead card, or a compact one. */
  datatype Card<T> = Large(article: T) | Compact(article: T)

  /** What `ArticleSection` renders: nothing (`null`), the section with its
      title, category and one list of cards per group, or a render that
      throws. */
  datatype SectionView<T> = Nothing | Shown(title: string, category: string, rows: seq<seq<Card<T>>>) | Crashed

  /** `item[j]` inside the callback: the article at position `j` of the
      group, or `undefined` when the group is shorter or holds `undefined`
      there. */
  function Item<T>(group: seq<Option<T>>, j: nat): (r: Option<T>)
    ensures r.Some? <==> j < |group| && group[j].Some?
    ensures r.Some? ==> r == group[j]
  {
    if j < |group| then group[j] else None
  }

  /** The render callback as the source writes it; `None` is a TypeError.
      The guard `if(!item)` tests the group array, which is always truthy,
      so an undefined article read by a card throws. */
  function RenderGroupAsWritten<T>(group: seq<Option<T>>, i: nat): (r: Option<seq<Card<T>>>)
    ensures r.Some? <==> Item(group, 0).Some? && (i == 0 || Item(group, 1).Some?)
    ensures r.Some? && i == 0 ==> r.value == [Large(Item(group, 0).value)]
    ensures r.Some? && i != 0 ==> r.value == [Compact(Item(group, 0).value), Compact(Item(group, 1).value)]
  {
    var first := Item(group, 0);
    var second := Item(group, 1);
    if first.None? then None
    else if i == 0 then Some([Large(first.value)])
    else if second.None? then None
    else Some([Compact(first.value), Compact(second.value)])
  }

  /** The render callback as evidently intended: a group missing an
      article it would show renders nothing instead of throwing. */
  function RenderGroup<T>(group: seq<Option<T>>, i: nat): (cards: seq<Card<T>>)
    ensures i == 0 && Item(group, 0).Some? ==> cards == [Large(Item(group, 0).value)]
    ensures i != 0 && Item(group, 0).Some? && Item(group, 1).Some? ==>
      cards == [Compact(Item(group, 0).value), Compact(Item(group, 1).value)]
    ensures Item(group, 0).None? || (i != 0 && Item(group, 1).None?) ==> cards == []
  {
    RenderGroupAsWritten(group, i).GetOr([])
  }

  /** The empty-list rule: `null`, `undefined` or `[]` renders nothing. */
  predicate NothingToShow<T>(items: Option<seq<T>>)
    ensures NothingToShow(items) <==> items == None || items == Some([])
  {
    items.None? || |items.value| == 0
  }

  /** `ArticleSection` with the corrected render callback. */
  function ArticleSection<T>(title: string, items: Option<seq<T>>, category: string): (v: SectionView<T>)
    ensures v.Nothing? <==> NothingToShow(items)
    ensures !v.Crashed?
    ensures v.Shown? ==> v.title == title && v.category == category && |v.rows| == 4
    ensures v.Shown? ==> forall g :: 0 <= g < 4 ==> v.rows[g] == RenderGroup(ChopArray(items.value)[g], g)
  {
    if NothingToShow(items) then Nothing
    else
      var groups := ChopArray(items.value);
      Shown(title, category, seq(4, g requires 0 <= g < 4 => RenderGroup(groups[g], g)))
  }

  /** `ArticleSection` as the source writes it: a group that throws makes
      the whole section throw. */
  function ArticleSectionAsWritten<T>(title: string, items: Option<seq<T>>, category: string): (v: SectionView<T>)
    ensures v.Nothing? <==> NothingToShow(items)
  {
    if NothingToShow(items) then Nothing
    else
      var groups := ChopArray(items.value);
      var rendered := seq(4, g requires 0 <= g < 4 => RenderGroupAsWritten(groups[g], g));
      if exists g :: 0 <= g < 4 && rendered[g].None? then Crashed
      else Shown(title, category, seq(4, g requires 0 <= g < 4 => rendered[g].value))
  }

  /** As written, a section throws exactly when it has between one and six
      articles. */
  lemma AsWrittenCrashesOnShortLists<T>(title: string, items: seq<T>, category: string)
    ensures ArticleSectionAsWritten(title, Some(items), category).Crashed? <==> 1 <= |items| < 7
  {
    var groups := ChopArray(items);
    if 1 <= |items| < 7 {
      var g := if |items| < 3 then 1 else if |items| < 5 then 2 else 3;
      var rendered := seq(4, g requires 0 <= g < 4 => RenderGroupAsWritten(groups[g], g));
      assert rendered[g].None?;
    }
  }

  /** The smallest input that shows it: a section with one article. */
  lemma AsWrittenCrashesOnOneArticle<T>(a: T)
    ensures ArticleSectionAsWritten("News", Some([a]), "News") == Crashed
  {
    AsWrittenCrashesOnShortLists("News", [a], "News");
  }

  /** The corrected section agrees with the source whenever the source does
      not throw. */
  lemma CorrectedAgreesWhenNoCrash<T>(title: string, items: Option<seq<T>>, category: string)
    requires !ArticleSectionAsWritten(title, items, category).Crashed?
    ensures ArticleSection(title, items, category) == ArticleSectionAsWritten(title, items, category)
  {
  }

  /** The articles on a list of card rows, in order. */
  function Articles<T>(rows: seq<seq<Card<T>>>): (r: seq<T>)
  {
    Flatten(seq(|rows|, i requires 0 <= i < |rows| => CardArticles(rows[i])))
  }

  function CardArticles<T>(cards: seq<Card<T>>): (r: seq<T>)
    ensures |r| == |cards| && forall i :: 0 <= i < |cards| ==> r[i] == cards[i].article
  {
    seq(|cards|, i requires 0 <= i < |cards| => cards[i].article)
  }

  /** With at least seven articles a section shows one large card and six
      compact ones, for exactly the first seven articles in order. */
  lemma FullSectionShowsFirstSeven<T>(title: string, items: seq<T>, category: string)
    requires |items| >= 7
    ensures var v := ArticleSection(title, Some(items), category);
      && v.Shown?
      && v.rows[0] == [Large(items[0])]
      && (forall g :: 1 <= g < 4 ==> v.rows[g] == [Compact(items[2 * g - 1]), Compact(items[2 * g])])
      && Articles(v.rows) == items[..7]
  {
    var v := ArticleSection(title, Some(items), category);
    var rows := v.rows;
    assert rows[0] == [Large(items[0])];
    assert rows[1] == [Compact(items[1]), Compact(items[2])];
    assert rows[2] == [Compact(items[3]), Compact(items[4])];
    assert rows[3] == [Compact(items[5]), Compact(items[6])];
    var per := seq(|rows|, i requires 0 <= i < |rows| => CardArticles(rows[i]));
    assert per[0] == [items[0]];
    assert per[1] == [items[1], items[2]];
    assert per[2] == [items[3], items[4]];
    assert per[3] == [items[5], items[6]];
    assert Flatten(per[3..]) == [items[5], items[6]] by { assert per[3..][1..] == []; }
    assert Flatten(per[2..]) == [items[3], items[4], items[5], items[6]] by { assert per[2..][1..] == per[3..]; }
    assert Flatten(per[1..]) == items[1..7] by { assert per[1..][1..] == per[2..]; }
  }

  /** Every article a section shows is one of the first seven it is handed. */
  lemma ShowsOnlyFirstSeven<T>(title: string, items: seq<T>, category: string, g: nat, c: nat)
    requires var v := ArticleSection(title, Some(items), category); v.Shown? && g < |v.rows| && c < |v.rows[g]|
    ensures exists k :: 0 <= k < 7 && k < |items| && items[k] == ArticleSection(title, Some(items), category).rows[g][c].article
  {
  }

  /** The sections the home screen renders with the corrected section, in
      table order; `None` when reading the feed throws. */
  function HomeView<T>(feed: map<string, seq<T>>): (r: Option<seq<SectionView<T>>>)
    ensures r.Some? <==> forall i :: 0 <= i < |Sections| ==> Sections[i].id in feed
    ensures r.Some? ==> |r.value| == 4 && forall i :: 0 <= i < 4 ==>
      r.value[i] == ArticleSection(Sections[i].title, Some(FirstTwenty(feed[Sections[i].id])), Sections[i].id)
  {
    match HomeSections(feed)
    case None => None
    case Some(ps) => Some(seq(|ps|, i requires 0 <= i < |ps| => ArticleSection(ps[i].title, ps[i].items, ps[i].category)))
  }

  /** The as-written section for table row `i`, given that the feed holds
      its id. */
  function SectionAsWritten<T>(feed: map<string, seq<T>>, i: nat): (v: SectionView<T>)
    requires i < |Sections| && Sections[i].id in feed
    ensures v.Crashed? <==> 1 <= |feed[Sections[i].id]| < 7
  {
    AsWrittenCrashesOnShortLists(Sections[i].title, FirstTwenty(feed[Sections[i].id]), Sections[i].id);
    ArticleSectionAsWritten(Sections[i].title, Some(FirstTwenty(feed[Sections[i].id])), Sections[i].id)
  }

  /** The sections as the source renders them; `None` when the render of
      the screen throws. It throws when a feed entry is missing, and when
      any one section throws: the screen has no error boundary, so a throw
      in one section unwinds the whole screen. */
  function HomeViewAsWritten<T>(feed: map<string, seq<T>>): (r: Option<seq<SectionView<T>>>)
    ensures r.Some? ==> (forall i :: 0 <= i < |Sections| ==> Sections[i].id in feed)
    ensures r.Some? ==> |r.value| == 4 && forall i :: 0 <= i < 4 ==>
      && !r.value[i].Crashed?
      && r.value[i] == ArticleSectionAsWritten(Sections[i].title, Some(FirstTwenty(feed[Sections[i].id])), Sections[i].id)
  {
    match HomeSections(feed)
    case None => None
    case Some(ps) =>
      var views := seq(|ps|, i requires 0 <= i < |ps| => ArticleSectionAsWritten(ps[i].title, ps[i].items, ps[i].category));
      if exists i :: 0 <= i < |views| && views[i].Crashed? then None else Some(views)
  }

  /** As written, the home screen renders exactly when the feed holds every
      section id and no section's feed holds between one and six articles. */
  lemma HomeAsWrittenCrashes<T>(feed: map<string, seq<T>>)
    ensures HomeViewAsWritten(feed).Some? <==>
      && (forall i :: 0 <= i < |Sections| ==> Sections[i].id in feed)
      && (forall i :: 0 <= i < |Sections| ==> !(1 <= |feed[Sections[i].id]| < 7))
  {
    if forall i :: 0 <= i < |Sections| ==> Sections[i].id in feed {
      var ps := HomeSections(feed).value;
      var views := seq(|ps|, i requires 0 <= i < |ps| => ArticleSectionAsWritten(ps[i].title, ps[i].items, ps[i].category));
      forall i | 0 <= i < |Sections|
        ensures views[i].Crashed? <==> 1 <= |feed[Sections[i].id]| < 7
      {
        assert views[i] == SectionAsWritten(feed, i);
      }
    }
  }

  /** Section `i` of the home screen renders nothing exactly when its feed
      is empty; otherwise it carries its table title and id, and every
      article it shows is among the first seven of its own feed. */
  lemma HomeViewSection<T>(feed: map<string, seq<T>>, i: nat, g: nat, c: nat)
    requires HomeView(feed).Some? && i < |Sections|
    ensures |HomeView(feed).value| == 4
    ensures var v := HomeView(feed).value[i];
      && (v.Nothing? <==> |feed[Sections[i].id]| == 0)
      && !v.Crashed?
      && (v.Shown? ==> v.title == Sections[i].title && v.category == Sections[i].id)
    ensures var v := HomeView(feed).value[i];
      v.Shown? && g < |v.rows| && c < |v.rows[g]| ==>
      exists k :: 0 <= k < 7 && k < |feed[Sections[i].id]| && feed[Sections[i].id][k] == v.rows[g][c].article
  {
  }

  // ---------------------------------------------------------------------
  // Pull to refresh

  /** The news-store action the screen dispatches. */
  datatype NewsAction = RefreshAll

  /** `onRefresh`: dispatch `refreshAll` unless a refresh is already running. */
  function OnRefresh(refreshing: bool): (dispatched: seq<NewsAction>)
    ensures |dispatched| <= 1
    ensures dispatched != [] <==> !refreshing
    ensures forall d :: d in dispatched ==> d == RefreshAll
  {
    if refreshing then [] else [RefreshAll]
  }

  /** What a run of pull-to-refresh gestures dispatches, each seeing the
      `refreshing` flag given for it. */
  function OnRefreshAll(flags: seq<bool>): (r: seq<NewsAction>)
  {
    if flags == [] then [] else OnRefresh(flags[0]) + OnRefreshAll(flags[1..])
  }

  /** How many of the flags are false. */
  function CountIdle(flags: seq<bool>): (n: nat)
  {
    if flags == [] then 0 else (if flags[0] then 0 else 1) + CountIdle(flags[1..])
  }

  /** A run of gestures dispatches one `refreshAll` per gesture that found
      no refresh running, and none while one runs. */
  lemma {:induction false} OnRefreshAllCount(flags: seq<bool>)
    ensures |OnRefreshAll(flags)| == CountIdle(flags)
    ensures forall d :: d in OnRefreshAll(flags) ==> d == RefreshAll
    ensures (forall i :: 0 <= i < |flags| ==> flags[i]) ==> OnRefreshAll(flags) == []
  {
    if flags != [] {
      OnRefreshAllCount(flags[1..]);
      assert forall i :: 0 <= i < |flags[1..]| ==> flags[1..][i] == flags[i + 1];
    }
  }
}
