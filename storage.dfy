/**
 * The browser-side store of favourite cities and consultation history
 * (frontend/lib/services/storage.ts). `localStorage` is the object
 * `LocalStore`: each of its two keys is a field that holds the saved list,
 * or nothing when the key was never written. The JSON encoding of a list
 * is taken to round-trip, so a saved list is read back as it was.
 */
module Storage {
  import opened Wrappers

  /** A favourite city, as stored (frontend/types/index.ts). */
  datatype FavoriteCity = FavoriteCity(name: string, country: string, addedAt: string)

  /** One consultation, as stored (frontend/types/index.ts). */
  datatype HistoryItem = HistoryItem(plant: string, city: string, date: string, temperature: real, humidity: real)

  /** At most this many consultations are kept. */
  const HistoryCap: nat := 10

  /** `list.slice(0, n)`: the first `n` entries, or all of them when there are fewer. */
  function Take<T>(list: seq<T>, n: nat): (r: seq<T>)
    ensures |r| == if |list| < n then |list| else n
    ensures forall i :: 0 <= i < |r| ==> r[i] == list[i]
  {
    if |list| < n then list else list[..n]
  }

  /**
   * Line 28: the new consultation first, then the most recent nine of the
   * current history, so the oldest entries are the ones dropped.
   */
  function WithHistoryItem(item: HistoryItem, current: seq<HistoryItem>): (r: seq<HistoryItem>)
    ensures |r| > 0 && r[0] == item
    ensures |r| == (if |current| < HistoryCap - 1 then |current| else HistoryCap - 1) + 1
    ensures |r| <= HistoryCap
    ensures forall i :: 1 <= i < |r| ==> r[i] == current[i - 1]
  {
    [item] + Take(current, HistoryCap - 1)
  }

  /** `list.filter((f) => f.name !== name)`. */
  function WithoutName(list: seq<FavoriteCity>, name: string): (r: seq<FavoriteCity>)
    ensures |r| <= |list|
    ensures forall i :: 0 <= i < |r| ==> r[i].name != name
  {
    if |list| == 0 then []
    else if list[0].name != name then [list[0]] + WithoutName(list[1..], name)
    else WithoutName(list[1..], name)
  }

  /** Line 35: every favourite with another name, in order, then the new city. */
  function WithFavorite(city: FavoriteCity, current: seq<FavoriteCity>): (r: seq<FavoriteCity>)
    ensures |r| > 0 && r[|r| - 1] == city
    ensures forall i :: 0 <= i < |r| - 1 ==> r[i].name != city.name
  {
    WithoutName(current, city.name) + [city]
  }

  /** No two favourites share a name. */
  predicate UniqueNames(list: seq<FavoriteCity>) {
    forall i, j :: 0 <= i < j < |list| ==> list[i].name != list[j].name
  }

  /** An entry survives the filter exactly when it was there and has another name. */
  lemma {:induction false} WithoutNameMembership(list: seq<FavoriteCity>, name: string, c: FavoriteCity)
    ensures c in WithoutName(list, name) <==> c in list && c.name != name
  {
    if |list| > 0 {
      WithoutNameMembership(list[1..], name, c);
      assert list == [list[0]] + list[1..];
    }
  }

  /** The filter works piece by piece, so it keeps the order of what it keeps. */
  lemma {:induction false} WithoutNameAppend(a: seq<FavoriteCity>, b: seq<FavoriteCity>, name: string)
    ensures WithoutName(a + b, name) == WithoutName(a, name) + WithoutName(b, name)
  {
    if |a| > 0 {
      assert (a + b)[1..] == a[1..] + b;
      WithoutNameAppend(a[1..], b, name);
    } else {
      assert a + b == b;
    }
  }

  /** Where no entry has the name, the filter keeps the list as it is. */
  lemma {:induction false} WithoutAbsentName(list: seq<FavoriteCity>, name: string)
    requires forall i :: 0 <= i < |list| ==> list[i].name != name
    ensures WithoutName(list, name) == list
  {
    if |list| > 0 {
      WithoutAbsentName(list[1..], name);
      assert list == [list[0]] + list[1..];
    }
  }

  /** Filtering a list of distinct names leaves the names distinct. */
  lemma {:induction false} WithoutNameKeepsUnique(list: seq<FavoriteCity>, name: string)
    requires UniqueNames(list)
    ensures UniqueNames(WithoutName(list, name))
  {
    if |list| > 0 {
      var tail := list[1..];
      assert UniqueNames(tail) by {
        forall i, j | 0 <= i < j < |tail|
          ensures tail[i].name != tail[j].name
        {
          assert tail[i] == list[i + 1] && tail[j] == list[j + 1];
        }
      }
      WithoutNameKeepsUnique(tail, name);
      var rest := WithoutName(tail, name);
      if list[0].name != name {
        forall c | c in rest
          ensures c.name != list[0].name
        {
          WithoutNameMembership(tail, name, c);
          var k :| 0 <= k < |tail| && tail[k] == c;
          assert list[k + 1] == c;
        }
        var r := [list[0]] + rest;
        forall i, j | 0 <= i < j < |r|
          ensures r[i].name != r[j].name
        {
          if i == 0 {
            assert r[j] == rest[j - 1] && r[j] in rest;
          } else {
            assert r[i] == rest[i - 1] && r[j] == rest[j - 1];
          }
        }
      }
    }
  }

  /** Adding a favourite to a list of distinct names keeps the names distinct. */
  lemma FavoriteKeepsNamesUnique(city: FavoriteCity, current: seq<FavoriteCity>)
    requires UniqueNames(current)
    ensures UniqueNames(WithFavorite(city, current))
  {
    var kept := WithoutName(current, city.name);
    WithoutNameKeepsUnique(current, city.name);
    var r := kept + [city];
    forall i, j | 0 <= i < j < |r|
      ensures r[i].name != r[j].name
    {
      if j == |r| - 1 {
        assert r[i] == kept[i];
      } else {
        assert r[i] == kept[i] && r[j] == kept[j];
      }
    }
  }

  /** A favourite under a new name is simply appended. */
  lemma NewFavoriteIsAppended(city: FavoriteCity, current: seq<FavoriteCity>)
    requires forall i :: 0 <= i < |current| ==> current[i].name != city.name
    ensures WithFavorite(city, current) == current + [city]
  {
    WithoutAbsentName(current, city.name);
  }

  /** Adding the same city twice stores it once. */
  lemma FavoriteIsIdempotent(city: FavoriteCity, current: seq<FavoriteCity>)
    ensures WithFavorite(city, WithFavorite(city, current)) == WithFavorite(city, current)
  {
    var kept := WithoutName(current, city.name);
    WithoutNameAppend(kept, [city], city.name);
    WithoutAbsentName(kept, city.name);
    assert WithoutName([city], city.name) == [];
    assert kept + [] == kept;
  }

  /** The most recent consultation comes first, the one before it second. */
  lemma HistoryIsMostRecentFirst(a: HistoryItem, b: HistoryItem, current: seq<HistoryItem>)
    ensures WithHistoryItem(b, WithHistoryItem(a, current))[..2] == [b, a]
  {
    var r := WithHistoryItem(b, WithHistoryItem(a, current));
    assert |r| >= 2 && r[0] == b && r[1] == a;
  }

  /**
   * `localStorage` with the two keys the store uses: `favoriteCities`
   * and `consultHistory`.
   */
  class LocalStore {
    var favorites: Option<seq<FavoriteCity>>
    var history: Option<seq<HistoryItem>>

    /** A store in which neither key was ever written. */
    constructor()
      ensures favorites == None && history == None
    {
      favorites := None;
      history := None;
    }

    /** Lines 4-8: the saved favourites, or none when the key was never written. */
    method GetFavoriteCities() returns (cities: seq<FavoriteCity>)
      ensures favorites == None ==> cities == []
      ensures favorites.Some? ==> cities == favorites.value
    {
      if favorites.Some? {
        cities := favorites.value;
      } else {
        cities := [];
      }
    }

    /** Lines 10-13: the favourites are replaced, the history is left alone. */
    method SaveFavoriteCities(cities: seq<FavoriteCity>)
      modifies this
      ensures favorites == Some(cities) && history == old(history)
    {
      favorites := Some(cities);
    }

    /** Lines 15-19: the saved history, or none when the key was never written. */
    method GetHistory() returns (items: seq<HistoryItem>)
      ensures history == None ==> items == []
      ensures history.Some? ==> items == history.value
    {
      if history.Some? {
        items := history.value;
      } else {
        items := [];
      }
    }

    /** Lines 21-24: the history is replaced, the favourites are left alone. */
    method SaveHistory(items: seq<HistoryItem>)
      modifies this
      ensures history == Some(items) && favorites == old(favorites)
    {
      history := Some(items);
    }

    /**
     * Lines 26-31: the consultation goes first in the stored history, which
     * then holds at most ten entries; the returned list is what was stored.
     */
    method AddToHistory(item: HistoryItem) returns (newHistory: seq<HistoryItem>)
      modifies this
      ensures newHistory == WithHistoryItem(item, old(history).GetOr([]))
      ensures |newHistory| <= HistoryCap && newHistory[0] == item
      ensures history == Some(newHistory) && favorites == old(favorites)
    {
      var currentHistory := GetHistory();
      newHistory := [item] + Take(currentHistory, 9);
      SaveHistory(newHistory);
    }

    /**
     * Lines 33-38: the city replaces any favourite of the same name and goes
     * last; the returned list is what was stored.
     */
    method AddFavoriteCity(city: FavoriteCity) returns (updated: seq<FavoriteCity>)
      modifies this
      ensures updated == WithFavorite(city, old(favorites).GetOr([]))
      ensures history == old(history) && favorites == Some(updated)
      ensures old(favorites).GetOr([]) == [] ==> updated == [city]
      ensures UniqueNames(old(favorites).GetOr([])) ==> UniqueNames(updated)
    {
      var currentFavorites := GetFavoriteCities();
      updated := WithoutName(currentFavorites, city.name) + [city];
      if UniqueNames(currentFavorites) {
        FavoriteKeepsNamesUnique(city, currentFavorites);
      }
      SaveFavoriteCities(updated);
    }
  }
}
