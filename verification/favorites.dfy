/** The favorites list: named snapshots of (text, count, target), kept in
    save order and keyed by their text. */
module Favorites {
  import opened Common
  import opened Lists

  /** One saved favorite; `key` is the dhikr text it was saved under. */
  datatype Favorite = Favorite(key: string, count: nat, target: Option<nat>)

  /** No two favorites share a key. */
  predicate UniqueKeys(favs: seq<Favorite>) {
    forall i, j :: 0 <= i < j < |favs| ==> favs[i].key != favs[j].key
  }

  /** `favorites.findIndex(fav => fav.dhikr === key)`: the first position
      holding `key`, or None (JavaScript's -1) when there is none. */
  function FindIndex(favs: seq<Favorite>, key: string): (r: Option<nat>)
    ensures r.Some? ==> r.value < |favs| && favs[r.value].key == key
    ensures r.Some? ==> forall j :: 0 <= j < r.value ==> favs[j].key != key
    ensures r.None? <==> forall j :: 0 <= j < |favs| ==> favs[j].key != key
  {
    if |favs| == 0 then None
    else if favs[0].key == key then Some(0)
    else match FindIndex(favs[1..], key)
      case None => None
      case Some(i) => Some(i + 1)
  }

  /** Saves `entry` under its key: an existing favorite with that key is
      replaced in place, otherwise the entry is appended. */
  function Upsert(favs: seq<Favorite>, entry: Favorite): (r: seq<Favorite>)
    ensures match FindIndex(favs, entry.key)
              case Some(k) =>
                |r| == |favs| && r[k] == entry
                && forall j :: 0 <= j < |r| && j != k ==> r[j] == favs[j]
              case None => r == favs + [entry]
    ensures FindIndex(r, entry.key).Some? && r[FindIndex(r, entry.key).value] == entry
  {
    match FindIndex(favs, entry.key)
    case Some(i) => favs[i := entry]
    case None =>
      var r := favs + [entry];
      assert r[|favs|] == entry;
      r
  }

  /** With unique keys, an upsert leaves the keys unique and the saved key at
      exactly one position, holding the new entry. */
  lemma UpsertKeepsKeysUnique(favs: seq<Favorite>, entry: Favorite)
    ensures UniqueKeys(favs) ==> UniqueKeys(Upsert(favs, entry))
    ensures UniqueKeys(favs) ==> var r := Upsert(favs, entry);
              forall i :: 0 <= i < |r| && r[i].key == entry.key ==> r[i] == entry
  {
    var r := Upsert(favs, entry);
    if !UniqueKeys(favs) {
      return;
    }
    match FindIndex(favs, entry.key)
    case Some(k) =>
      forall i, j | 0 <= i < j < |r|
        ensures r[i].key != r[j].key
      {
        if i != k && j != k {
          assert r[i] == favs[i] && r[j] == favs[j];
        }
      }
    case None =>
  }

  /** Saving the same key twice leaves one favorite with the second save's
      values, exactly as if only the second save had happened. */
  lemma SecondSaveWins(favs: seq<Favorite>, key: string, c1: nat, t1: Option<nat>, c2: nat, t2: Option<nat>)
    ensures Upsert(Upsert(favs, Favorite(key, c1, t1)), Favorite(key, c2, t2))
            == Upsert(favs, Favorite(key, c2, t2))
  {
    var first := Upsert(favs, Favorite(key, c1, t1));
    match FindIndex(favs, key)
    case Some(k) =>
      assert FindIndex(first, key) == Some(k);
    case None =>
      assert FindIndex(first, key) == Some(|favs|);
  }

  /** Deleting a favorite by position keeps the keys unique. */
  lemma RemoveKeepsKeysUnique(favs: seq<Favorite>, i: int)
    ensures UniqueKeys(favs) ==> UniqueKeys(RemoveAt(favs, i))
  {
    var r := RemoveAt(favs, i);
    if UniqueKeys(favs) && 0 <= i < |favs| {
      forall a, b | 0 <= a < b < |r|
        ensures r[a].key != r[b].key
      {
        var a' := if a < i then a else a + 1;
        var b' := if b < i then b else b + 1;
        assert r[a] == favs[a'] && r[b] == favs[b'];
      }
    }
  }
}
