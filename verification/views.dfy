/** Read-time projections the two list components compute from the state: the feed's year
    filter and the favourites panel's title-sorted view. */
module Views {
  import opened Options
  import opened Seqs
  import opened Comics
  import Decimal

  /** `new Date(text).getFullYear()`: a year, or NaN for text that is not a date. */
  datatype Year = Valid(year: int) | InvalidDate

  /** `year.toString()`. */
  function YearText(y: Year): (s: string)
    ensures y.Valid? ==> s == Decimal.IntText(y.year)
    ensures y.InvalidDate? ==> s == "NaN"
  {
    match y
    case Valid(n) => Decimal.IntText(n)
    case InvalidDate => "NaN"
  }

  /** `dates.find(d => d.type === 'onsaleDate')?.date`: the date of the first on-sale entry. */
  function OnsaleDate(dates: seq<DateEntry>): (r: Option<string>)
    ensures r.None? <==> forall i :: 0 <= i < |dates| ==> dates[i].kind != "onsaleDate"
    ensures r.Some? ==>
              (exists i :: 0 <= i < |dates| && dates[i].kind == "onsaleDate"
                 && dates[i].date == r.value
                 && forall j :: 0 <= j < i ==> dates[j].kind != "onsaleDate")
    decreases |dates|
  {
    if |dates| == 0 then None
    else if dates[0].kind == "onsaleDate" then Some(dates[0].date)
    else
      var r := OnsaleDate(dates[1..]);
      assert r.Some? ==>
               (exists i :: 1 <= i < |dates| && dates[i].kind == "onsaleDate"
                  && dates[i].date == r.value
                  && forall j :: 0 <= j < i ==> dates[j].kind != "onsaleDate") by {
        if r.Some? {
          var i :| 0 <= i < |dates[1..]| && dates[1..][i].kind == "onsaleDate"
              && dates[1..][i].date == r.value
              && forall j :: 0 <= j < i ==> dates[1..][j].kind != "onsaleDate";
          assert dates[i + 1] == dates[1..][i];
          assert forall j :: 1 <= j < i + 1 ==> dates[j] == dates[1..][j - 1];
        }
      }
      r
  }

  /** The predicate of `filteredComics`: everything passes an empty filter; otherwise the first
      on-sale date must be present, non-empty, and its year's text must equal the filter. */
  function KeptByYear(filter: string, yearOf: string -> Year): Comic -> bool
  {
    (c: Comic) =>
      if filter == "" then true
      else match OnsaleDate(c.dates)
        case None => false
        case Some(d) => d != "" && YearText(yearOf(d)) == filter
  }

  /** `filteredComics`. */
  function FilterByYear(comics: seq<Comic>, filter: string, yearOf: string -> Year): (r: seq<Comic>)
    ensures IsSubseq(r, comics)
    ensures forall c :: c in r <==> c in comics && KeptByYear(filter, yearOf)(c)
    ensures forall c :: multiset(r)[c] == if KeptByYear(filter, yearOf)(c) then multiset(comics)[c] else 0
  {
    FilterIsSubseq(comics, KeptByYear(filter, yearOf));
    FilterCount(comics, KeptByYear(filter, yearOf));
    Filter(comics, KeptByYear(filter, yearOf))
  }

  /** An empty filter keeps the whole list, in order. */
  lemma EmptyFilterKeepsAll(comics: seq<Comic>, yearOf: string -> Year)
    ensures FilterByYear(comics, "", yearOf) == comics
  {
    FilterKeepsAll(comics, KeptByYear("", yearOf));
  }

  /** With a non-empty filter, a comic without an on-sale entry is never shown. */
  lemma NoOnsaleDateExcluded(comics: seq<Comic>, filter: string, yearOf: string -> Year, c: Comic)
    requires filter != ""
    requires forall i :: 0 <= i < |c.dates| ==> c.dates[i].kind != "onsaleDate"
    ensures c !in FilterByYear(comics, filter, yearOf)
  {
    assert OnsaleDate(c.dates).None?;
    assert !KeptByYear(filter, yearOf)(c);
  }

  /** Only the first on-sale entry counts: whatever follows it never changes the date found. */
  lemma {:induction false} FirstOnsaleDecides(pre: seq<DateEntry>, date: string, post: seq<DateEntry>)
    requires forall i :: 0 <= i < |pre| ==> pre[i].kind != "onsaleDate"
    ensures OnsaleDate(pre + [DateEntry("onsaleDate", date)] + post) == Some(date)
    decreases |pre|
  {
    var e := DateEntry("onsaleDate", date);
    if |pre| == 0 {
      assert (pre + [e] + post)[0] == e;
    } else {
      FirstOnsaleDecides(pre[1..], date, post);
      assert (pre + [e] + post)[0] == pre[0];
      assert (pre + [e] + post)[1..] == pre[1..] + [e] + post;
    }
  }

  /** For a filter that is the text of year `y`, a comic is kept exactly when its first on-sale
      date is non-empty and falls in year `y`: the comparison is on exact text, and the text of
      a year determines the year. */
  lemma KeptIffYearMatches(c: Comic, y: int, yearOf: string -> Year)
    ensures KeptByYear(Decimal.IntText(y), yearOf)(c) <==>
              OnsaleDate(c.dates).Some? && OnsaleDate(c.dates).value != ""
              && yearOf(OnsaleDate(c.dates).value) == Valid(y)
  {
    var f := Decimal.IntText(y);
    if OnsaleDate(c.dates).Some? {
      var d := OnsaleDate(c.dates).value;
      match yearOf(d)
      case Valid(n) => Decimal.IntTextInjective(n, y);
      case InvalidDate =>
        assert f != "NaN";
    }
  }

  /** A filter containing a space, such as " 2023", matches nothing: no year's text has one. */
  lemma SpacedFilterMatchesNothing(comics: seq<Comic>, filter: string, yearOf: string -> Year)
    requires ' ' in filter
    ensures FilterByYear(comics, filter, yearOf) == []
  {
    forall c | c in comics
      ensures !KeptByYear(filter, yearOf)(c)
    {
      if OnsaleDate(c.dates).Some? {
        var t := YearText(yearOf(OnsaleDate(c.dates).value));
        var k :| 0 <= k < |filter| && filter[k] == ' ';
        assert t != filter by {
          if |t| == |filter| && k < |t| {
            assert t[k] != ' ';
          }
        }
      }
    }
  }

  /** `a.title.localeCompare(b.title)` behaves as a total preorder on titles when its
      "not after" reading (`<= 0`) is total and transitive. */
  ghost predicate ConsistentComparator(cmp: (string, string) -> int)
  {
    Total(cmp) && Transitive(cmp)
  }

  /** No comic is listed after one whose title the comparator places before its own. */
  ghost predicate SortedByTitle(s: seq<Comic>, cmp: (string, string) -> int)
  {
    forall i, j :: 0 <= i < j < |s| ==> cmp(s[i].title, s[j].title) <= 0
  }

  /** Places `x` before the first entry of `t` it may precede. */
  function InsertByTitle(x: Comic, t: seq<Comic>, cmp: (string, string) -> int): (r: seq<Comic>)
    ensures multiset(r) == multiset(t) + multiset{x}
    decreases |t|
  {
    if |t| == 0 || cmp(x.title, t[0].title) <= 0 then [x] + t
    else
      assert t == [t[0]] + t[1..];
      [t[0]] + InsertByTitle(x, t[1..], cmp)
  }

  /** `[...favoriteComics].sort((a, b) => a.title.localeCompare(b.title))`: a new list holding
      the same comics, the argument itself untouched. */
  function SortByTitle(s: seq<Comic>, cmp: (string, string) -> int): (r: seq<Comic>)
    ensures multiset(r) == multiset(s)
    decreases |s|
  {
    if |s| == 0 then []
    else
      assert s == [s[0]] + s[1..];
      InsertByTitle(s[0], SortByTitle(s[1..], cmp), cmp)
  }

  ghost predicate Total(cmp: (string, string) -> int)
  {
    forall a, b :: cmp(a, b) <= 0 || cmp(b, a) <= 0
  }

  ghost predicate Transitive(cmp: (string, string) -> int)
  {
    forall a, b, c :: cmp(a, b) <= 0 && cmp(b, c) <= 0 ==> cmp(a, c) <= 0
  }

  /** A comic that may precede the head of a sorted list may precede all of it. */
  lemma PrependKeepsSorted(x: Comic, t: seq<Comic>, cmp: (string, string) -> int)
    requires Transitive(cmp)
    requires SortedByTitle(t, cmp)
    requires |t| == 0 || cmp(x.title, t[0].title) <= 0
    ensures SortedByTitle([x] + t, cmp)
  {
    var r := [x] + t;
    forall j | 1 <= j < |r|
      ensures cmp(x.title, r[j].title) <= 0
    {
      assert r[j] == t[j - 1];
      if j > 1 {
        assert cmp(t[0].title, t[j - 1].title) <= 0;
      }
    }
  }

  /** The head of a sorted list may precede every element of a list built from its tail and
      one comic it may precede. */
  lemma HeadPrecedesRest(h: Comic, x: Comic, tail: seq<Comic>, rest: seq<Comic>, cmp: (string, string) -> int)
    requires SortedByTitle([h] + tail, cmp)
    requires cmp(h.title, x.title) <= 0
    requires multiset(rest) == multiset(tail) + multiset{x}
    ensures forall j :: 0 <= j < |rest| ==> cmp(h.title, rest[j].title) <= 0
  {
    var t := [h] + tail;
    forall j | 0 <= j < |rest|
      ensures cmp(h.title, rest[j].title) <= 0
    {
      assert rest[j] in multiset(rest);
      if rest[j] != x {
        assert rest[j] in multiset(tail);
        var k :| 0 <= k < |tail| && tail[k] == rest[j];
        assert t[0] == h && t[k + 1] == rest[j];
        assert cmp(t[0].title, t[k + 1].title) <= 0;
      }
    }
  }

  lemma ConsKeepsSorted(h: Comic, rest: seq<Comic>, cmp: (string, string) -> int)
    requires SortedByTitle(rest, cmp)
    requires forall j :: 0 <= j < |rest| ==> cmp(h.title, rest[j].title) <= 0
    ensures SortedByTitle([h] + rest, cmp)
  {
    var r := [h] + rest;
    forall i, j | 0 <= i < j < |r|
      ensures cmp(r[i].title, r[j].title) <= 0
    {
      assert r[j] == rest[j - 1];
      if i > 0 {
        assert r[i] == rest[i - 1];
      }
    }
  }

  /** A sorted list stays sorted when its tail is. */
  lemma TailSorted(t: seq<Comic>, cmp: (string, string) -> int)
    requires |t| > 0 && SortedByTitle(t, cmp)
    ensures SortedByTitle(t[1..], cmp)
  {
    forall i, j | 0 <= i < j < |t| - 1
      ensures cmp(t[1..][i].title, t[1..][j].title) <= 0
    {
      assert t[1..][i] == t[i + 1] && t[1..][j] == t[j + 1];
    }
  }

  lemma {:induction false} InsertKeepsSorted(x: Comic, t: seq<Comic>, cmp: (string, string) -> int)
    requires Total(cmp) && Transitive(cmp)
    requires SortedByTitle(t, cmp)
    ensures SortedByTitle(InsertByTitle(x, t, cmp), cmp)
    decreases |t|
  {
    if |t| == 0 || cmp(x.title, t[0].title) <= 0 {
      PrependKeepsSorted(x, t, cmp);
    } else {
      var h, tail := t[0], t[1..];
      var rest := InsertByTitle(x, tail, cmp);
      TailSorted(t, cmp);
      InsertKeepsSorted(x, tail, cmp);
      assert cmp(h.title, x.title) <= 0;
      assert t == [h] + tail;
      HeadPrecedesRest(h, x, tail, rest, cmp);
      ConsKeepsSorted(h, rest, cmp);
    }
  }

  /** With a consistent comparator the sorted copy is ordered by title. */
  lemma {:induction false} SortByTitleSorted(s: seq<Comic>, cmp: (string, string) -> int)
    requires ConsistentComparator(cmp)
    ensures SortedByTitle(SortByTitle(s, cmp), cmp)
    decreases |s|
  {
    if |s| > 0 {
      SortByTitleSorted(s[1..], cmp);
      InsertKeepsSorted(s[0], SortByTitle(s[1..], cmp), cmp);
    }
  }

  /** A `ComicCard` with its `isFavorite` flag. */
  datatype Card = Card(comic: Comic, isFavorite: bool)

  /** What the favourites panel renders: whether the clear button is offered, and the cards. */
  datatype FavoritesPanel = FavoritesPanel(offersClear: bool, cards: seq<Card>)

  function CardComics(cards: seq<Card>): (r: seq<Comic>)
    ensures |r| == |cards|
    ensures forall i :: 0 <= i < |cards| ==> r[i] == cards[i].comic
  {
    seq(|cards|, i requires 0 <= i < |cards| => cards[i].comic)
  }

  /** The favourites panel: the clear button appears exactly when there are favourites, and
      every favourite appears once per occurrence as a card marked favourite. */
  function RenderFavorites(favorites: seq<Comic>, cmp: (string, string) -> int): (p: FavoritesPanel)
    ensures p.offersClear <==> |favorites| > 0
    ensures |p.cards| == |favorites|
    ensures forall i :: 0 <= i < |p.cards| ==> p.cards[i].isFavorite
    ensures multiset(CardComics(p.cards)) == multiset(favorites)
  {
    var sorted := SortByTitle(favorites, cmp);
    var cards := seq(|sorted|, i requires 0 <= i < |sorted| => Card(sorted[i], true));
    assert CardComics(cards) == sorted;
    assert |sorted| == |multiset(sorted)| == |multiset(favorites)| == |favorites|;
    FavoritesPanel(|favorites| > 0, cards)
  }

  /** With a consistent comparator the cards appear in title order. */
  lemma RenderedFavoritesSorted(favorites: seq<Comic>, cmp: (string, string) -> int)
    requires ConsistentComparator(cmp)
    ensures SortedByTitle(CardComics(RenderFavorites(favorites, cmp).cards), cmp)
  {
    SortByTitleSorted(favorites, cmp);
    assert CardComics(RenderFavorites(favorites, cmp).cards) == SortByTitle(favorites, cmp);
  }
}
