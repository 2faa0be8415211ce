/** The `/playerDetail/:id` handler once `findOne` has answered: no document
    is a 404, otherwise the document comes back with its appearances sorted
    from oldest to newest. */
module PlayerDetail {
  import opened Wrappers
  import opened Records
  import History
  import Leaderboard

  /** The sorted history, by the comparator on `parseDate`. */
  function SortedApparitions(apps: seq<Appearance>): seq<Appearance>
  {
    History.Sort(Stamp, apps)
  }

  /** The handler: `found` is what `findOne({ id })` returned. */
  function Assemble(found: Option<Player>): (r: Result<Player, RouteError>)
    ensures r.Failure? <==> found.None?
    ensures r.Failure? ==> r.error == PlayerNotFound && r.error.Status() == 404
    ensures found.Some? ==> (
      && r.Success?
      && r.value.id == found.value.id
      && r.value.otherFields == found.value.otherFields
      && multiset(r.value.apparitions) == multiset(found.value.apparitions)
      && History.StableWrt(Stamp, found.value.apparitions, r.value.apparitions)
      && (AllDated(found.value.apparitions) ==> History.Ascending(Stamp, r.value.apparitions)))
  {
    match found
    case None => Failure(PlayerNotFound)
    case Some(p) =>
      History.SortStable(Stamp, p.apparitions);
      History.SortAscendingWhenKeyed(Stamp, p.apparitions);
      Success(p.(apparitions := SortedApparitions(p.apparitions)))
  }

  /** When every date parses, the returned history is the only stable
      chronological rearrangement of the stored one. */
  lemma {:induction false} AssembleIsTheStableSort(p: Player, h: seq<Appearance>)
    requires AllDated(p.apparitions)
    requires History.Ascending(Stamp, h) && History.StableWrt(Stamp, p.apparitions, h)
    ensures Assemble(Some(p)) == Success(p.(apparitions := h))
  {
    History.StableSortUnique(Stamp, p.apparitions, h);
  }

  /** Unfolds `Assemble` for a stored record; a proof step only. */
  lemma AssembleFound(p: Player)
    ensures Assemble(Some(p)) == Success(p.(apparitions := SortedApparitions(p.apparitions)))
  {
  }

  /** Assembling a record that was already assembled returns it unchanged. */
  lemma {:induction false} AssembleIdempotent(p: Player)
    requires AllDated(p.apparitions)
    ensures Assemble(Some(Assemble(Some(p)).value)) == Assemble(Some(p))
  {
    History.SortIdempotent(Stamp, p.apparitions);
  }

  /** The fold and the sort agree on the greatest key: the element the
      fold picks carries the key of the sorted sequence's last element. */
  lemma {:induction false} LatestKeyEndsSort<T>(key: T -> Option<int>, s: seq<T>)
    requires |s| > 0 && AllKeyed(key, s)
    ensures var r := History.Sort(key, s);
      |r| > 0 && Leaderboard.MostRecentBy(key, s).Success?
      && key(Leaderboard.MostRecentBy(key, s).value) == key(r[|r| - 1])
  {
    Leaderboard.MostRecentIsFirstLatest(key, s);
    var k :| Leaderboard.IsFirstLatest(key, s, k) && Leaderboard.MostRecentBy(key, s) == Success(s[k]);
    History.SortLastIsGreatest(key, s);
    var r := History.Sort(key, s);
    History.GreatestKeyAgrees(key, s, r[|r| - 1], k);
  }

  /** The two endpoints agree on dates: the appearance the leaderboard shows
      for a player carries the date of the last entry of its detailed
      history. */
  lemma {:induction false} LatestDateEndsHistory(p: Player)
    requires |p.apparitions| > 0 && AllDated(p.apparitions)
    ensures var h := Assemble(Some(p)).value.apparitions;
      |h| > 0 && Stamp(Leaderboard.MostRecent(p.apparitions).value) == Stamp(h[|h| - 1])
  {
    assert Assemble(Some(p)).value.apparitions == SortedApparitions(p.apparitions);
    LatestKeyEndsSort(Stamp, p.apparitions);
  }

  /** On a tie for the greatest key the fold and the sort part ways: the
      fold keeps the first element `s[i]` carrying it, and the stable sort
      ends with the last one `s[j]`. */
  lemma {:induction false} LatestTieEnds<T>(key: T -> Option<int>, s: seq<T>, i: int, j: int)
    requires AllKeyed(key, s)
    requires 0 <= i <= j < |s|
    requires Leaderboard.IsFirstLatest(key, s, i)
    requires key(s[j]) == key(s[i])
    requires forall m :: j < m < |s| ==> key(s[m]) != key(s[i])
    ensures Leaderboard.MostRecentBy(key, s) == Success(s[i])
    ensures History.Sort(key, s)[|s| - 1] == s[j]
  {
    Leaderboard.MostRecentIsFirstLatest(key, s);
    var k :| Leaderboard.IsFirstLatest(key, s, k) && Leaderboard.MostRecentBy(key, s) == Success(s[k]);
    Leaderboard.FirstLatestUnique(key, s, k, i);
    History.SortEndsWithLastGreatest(key, s, j);
  }

  /** The leaderboard and the detailed history part ways on a tie for the
      latest date: the leaderboard shows the first appearance carrying it,
      the sorted history ends with the last one. */
  lemma {:induction false} TiedLatestDiffers(p: Player, i: int, j: int)
    requires AllDated(p.apparitions)
    requires 0 <= i <= j < |p.apparitions|
    requires Leaderboard.IsFirstLatest(Stamp, p.apparitions, i)
    requires Stamp(p.apparitions[j]) == Stamp(p.apparitions[i])
    requires forall m :: j < m < |p.apparitions| ==> Stamp(p.apparitions[m]) != Stamp(p.apparitions[i])
    ensures Leaderboard.MostRecent(p.apparitions) == Success(p.apparitions[i])
    ensures var h := Assemble(Some(p)).value.apparitions;
      |h| == |p.apparitions| && h[|h| - 1] == p.apparitions[j]
  {
    SortedTieEnds(p.apparitions, i, j);
    AssembleEndsWith(p, p.apparitions[j]);
  }

  /** The history the route returns ends with the last element of the
      sorted appearances. */
  lemma AssembleEndsWith(p: Player, x: Appearance)
    requires |p.apparitions| > 0 && SortedApparitions(p.apparitions)[|p.apparitions| - 1] == x
    ensures var h := Assemble(Some(p)).value.apparitions;
      |h| == |p.apparitions| && h[|h| - 1] == x
  {
    AssembleFound(p);
  }

  /** `LatestTieEnds` for the dates of a player's appearances. It and
      `AssembleEndsWith` are separate steps so that no single proof mixes the
      date parser with `Assemble`'s postconditions, which keeps each proof
      small. */
  lemma {:induction false} SortedTieEnds(apps: seq<Appearance>, i: int, j: int)
    requires AllDated(apps)
    requires 0 <= i <= j < |apps|
    requires Leaderboard.IsFirstLatest(Stamp, apps, i)
    requires Stamp(apps[j]) == Stamp(apps[i])
    requires forall m :: j < m < |apps| ==> Stamp(apps[m]) != Stamp(apps[i])
    ensures Leaderboard.MostRecent(apps) == Success(apps[i])
    ensures SortedApparitions(apps)[|apps| - 1] == apps[j]
  {
    LatestTieEnds(Stamp, apps, i, j);
  }
}
