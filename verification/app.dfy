/** The root component's state and the step functions its handlers perform, one at a time. */
module App {
  import opened Options
  import opened Comics
  import Favorites
  import Feed

  /** `favorites` is the in-memory favourites list, `stored` what the storage key holds (None
      while the key is absent), `feed` the accumulated recent comics, `loading` the round guard. */
  datatype AppState = AppState(
    favorites: seq<Comic>,
    stored: Option<seq<Comic>>,
    feed: seq<Comic>,
    loading: bool)

  /** Reading the storage key back yields exactly the in-memory favourites. */
  predicate Persisted(s: AppState)
  {
    Favorites.Load(s.stored) == s.favorites
  }

  /** What every handler keeps: storage mirrors memory and no id appears twice in the feed. */
  predicate Valid(s: AppState)
  {
    Persisted(s) && DistinctIds(s.feed)
  }

  /** The state after mounting: favourites loaded from the storage slot, an empty feed, no round
      in flight. */
  function Start(slot: Option<seq<Comic>>): (s: AppState)
    ensures Valid(s)
    ensures s.feed == [] && !s.loading && s.stored == slot
    ensures slot.None? ==> s.favorites == []
  {
    AppState(Favorites.Load(slot), slot, [], false)
  }

  /** `toggleFavorite`: the toggled list is set in memory and written to storage. */
  function ToggleFavorite(s: AppState, c: Comic): (r: AppState)
    ensures Persisted(r) && r.stored.Some?
    ensures HasId(r.favorites, c.id) <==> !HasId(s.favorites, c.id)
    ensures forall j :: j != c.id ==> (HasId(r.favorites, j) <==> HasId(s.favorites, j))
    ensures r.favorites == Favorites.Toggle(s.favorites, c)
    ensures r.feed == s.feed && r.loading == s.loading
  {
    Favorites.ToggleKeepsOtherIds(s.favorites, c);
    var updated := Favorites.Toggle(s.favorites, c);
    s.(favorites := updated, stored := Some(updated))
  }

  /** `clearFavorites`: when the user confirms, both memory and storage become the empty list;
      otherwise nothing changes. */
  function ClearFavorites(s: AppState, confirmed: bool): (r: AppState)
    ensures confirmed ==> r.favorites == [] && r.stored == Some([])
    ensures !confirmed ==> r == s
    ensures Persisted(s) ==> Persisted(r)
    ensures r.feed == s.feed && r.loading == s.loading
  {
    if confirmed then s.(favorites := [], stored := Some([])) else s
  }

  /** The guard at the head of `loadComics`: a round starts, and raises `loading`, only when
      none is in flight; the flag reports whether it started. */
  function BeginRound(s: AppState): (r: (AppState, bool))
    ensures r.0.loading
    ensures r.1 <==> !s.loading
    ensures r.0.favorites == s.favorites && r.0.stored == s.stored && r.0.feed == s.feed
  {
    if s.loading then (s, false) else (s.(loading := true), true)
  }

  /** The rest of the round, once `batch` (the shuffled comics of one fetch) has arrived:
      survivors are appended and `loading` is lowered in every case. */
  function FinishRound(s: AppState, batch: seq<Comic>): (r: AppState)
    ensures !r.loading
    ensures r.favorites == s.favorites && r.stored == s.stored
    ensures |r.feed| >= |s.feed| && r.feed[..|s.feed|] == s.feed
    ensures forall c :: c in r.feed <==>
              c in s.feed || (c in batch && !HasId(s.feed, c.id) && Displayable(c))
    ensures r.feed == s.feed + Feed.Arrivals(s.feed, batch)
  {
    Feed.ExtendAppendsArrivals(s.feed, batch);
    AppState(s.favorites, s.stored, Feed.Extend(s.feed, batch), false)
  }

  /** One complete call of `loadComics`: a no-op while a round is in flight, otherwise a
      guarded round that ends with `loading` false. */
  function LoadComics(s: AppState, batch: seq<Comic>): (r: AppState)
    ensures s.loading ==> r == s
    ensures !s.loading ==> !r.loading
    ensures r.favorites == s.favorites && r.stored == s.stored
    ensures |r.feed| >= |s.feed| && r.feed[..|s.feed|] == s.feed
    ensures !s.loading ==> r.feed == s.feed + Feed.Arrivals(s.feed, batch)
  {
    var (started, go) := BeginRound(s);
    if go then FinishRound(started, batch) else started
  }

  /** A second call while a round is in flight neither starts a fetch nor changes state. */
  lemma SecondRoundRefused(s: AppState)
    ensures !BeginRound(BeginRound(s).0).1
    ensures BeginRound(BeginRound(s).0).0 == BeginRound(s).0
  {
  }

  /** Toggle, confirmed or refused clear, and a round with a duplicate-free batch all keep
      the state valid. */
  lemma HandlersKeepValid(s: AppState, c: Comic, confirmed: bool, batch: seq<Comic>)
    requires Valid(s)
    requires DistinctIds(batch)
    ensures Valid(ToggleFavorite(s, c))
    ensures Valid(ClearFavorites(s, confirmed))
    ensures Valid(LoadComics(s, batch))
  {
    if !s.loading {
      Feed.ExtendKeepsDistinct(s.feed, batch);
    }
  }
}
