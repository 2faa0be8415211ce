/** The `/leaderboard` handler once the collection is fetched: for each
    document, the most recent appearance by a left fold without an initial
    value, then one row built from it. The fold is stated for any `key`
    standing for `parseDate` of an element (`None` is NaN); the handler
    uses the appearance's date. */
module Leaderboard {
  import opened Wrappers
  import opened Records

  /** `parseDate(current.date) > parseDate(latest.date)`; every comparison
      involving NaN is false. */
  predicate Later<T>(key: T -> Option<int>, current: T, latest: T)
  {
    key(current).Some? && key(latest).Some? && key(current).value > key(latest).value
  }

  /** The fold from accumulator `latest` over the remaining elements. */
  function FoldLatest<T>(key: T -> Option<int>, latest: T, rest: seq<T>): (r: T)
    ensures r == latest || r in rest
    decreases |rest|
  {
    if |rest| == 0 then latest
    else FoldLatest(key, if Later(key, rest[0], latest) then rest[0] else latest, rest[1..])
  }

  /** `apps.reduce((latest, current) => ...)`: an empty array throws. */
  function MostRecentBy<T>(key: T -> Option<int>, apps: seq<T>): (r: Result<T, RouteError>)
    ensures r.Failure? <==> |apps| == 0
    ensures r.Failure? ==> r.error == EmptyApparitions
    ensures r.Success? ==> r.value in apps
  {
    if |apps| == 0 then Failure(EmptyApparitions) else Success(FoldLatest(key, apps[0], apps[1..]))
  }

  /** The appearance the handler picks for a document. */
  function MostRecent(apps: seq<Appearance>): Result<Appearance, RouteError>
  {
    MostRecentBy(Stamp, apps)
  }

  /** `apps[k]` carries the greatest key, and every earlier element a
      strictly smaller one: it is the first of the latest. */
  predicate IsFirstLatest<T>(key: T -> Option<int>, apps: seq<T>, k: int)
    requires AllKeyed(key, apps)
  {
    && 0 <= k < |apps|
    && (forall j :: 0 <= j < |apps| ==> key(apps[j]).value <= key(apps[k]).value)
    && (forall j :: 0 <= j < k ==> key(apps[j]).value < key(apps[k]).value)
  }

  /** The fold from the first latest of a prefix reaches the first latest of
      the whole sequence. */
  lemma {:induction false} FoldFromPrefix<T>(key: T -> Option<int>, apps: seq<T>, k: nat, i: nat)
    requires AllKeyed(key, apps)
    requires k < i <= |apps|
    requires IsFirstLatest(key, apps[..i], k)
    ensures exists m :: IsFirstLatest(key, apps, m) && FoldLatest(key, apps[k], apps[i..]) == apps[m]
    decreases |apps| - i
  {
    var pre := apps[..i];
    assert forall j :: 0 <= j < i ==> pre[j] == apps[j];
    if i == |apps| {
      assert pre == apps;
      assert FoldLatest(key, apps[k], apps[i..]) == apps[k];
    } else {
      var rest := apps[i..];
      assert rest[0] == apps[i] && rest[1..] == apps[i + 1..];
      var pre' := apps[..i + 1];
      assert forall j :: 0 <= j <= i ==> pre'[j] == apps[j];
      if Later(key, apps[i], apps[k]) {
        assert IsFirstLatest(key, pre', i);
        FoldFromPrefix(key, apps, i, i + 1);
      } else {
        assert IsFirstLatest(key, pre', k);
        FoldFromPrefix(key, apps, k, i + 1);
      }
    }
  }

  /** Argmax with tie-break: when every key is a number, the fold returns
      the first element carrying the greatest key. */
  lemma {:induction false} MostRecentIsFirstLatest<T>(key: T -> Option<int>, apps: seq<T>)
    requires |apps| > 0 && AllKeyed(key, apps)
    ensures exists k :: IsFirstLatest(key, apps, k) && MostRecentBy(key, apps) == Success(apps[k])
  {
    assert IsFirstLatest(key, apps[..1], 0);
    FoldFromPrefix(key, apps, 0, 1);
  }

  /** There is only one first latest, so the fold's choice is determined. */
  lemma {:induction false} FirstLatestUnique<T>(key: T -> Option<int>, apps: seq<T>, k: int, m: int)
    requires AllKeyed(key, apps)
    requires IsFirstLatest(key, apps, k) && IsFirstLatest(key, apps, m)
    ensures k == m
  {
    assert key(apps[k]).value == key(apps[m]).value;
  }

  /** The row built from a document and the appearance chosen for it. */
  function MakeRow(doc: Player, latest: Appearance): Row
  {
    Row(doc.id, latest.date, latest.pseudo, latest.scoreEff, latest.scoreSpd,
        latest.scoreEff + latest.scoreSpd)
  }

  /** `row` is the summary of `doc` through appearance `latest`. */
  predicate Summarises(row: Row, doc: Player, latest: Appearance)
  {
    && row.id == doc.id
    && row.date == latest.date
    && row.pseudo == latest.pseudo
    && row.scoreEff == latest.scoreEff
    && row.scoreSpd == latest.scoreSpd
    && row.total == row.scoreEff + row.scoreSpd
  }

  /** Every document has at least one appearance. */
  predicate AllNonEmpty(docs: seq<Player>)
  {
    forall i :: 0 <= i < |docs| ==> |docs[i].apparitions| > 0
  }

  /** `data.map(...)` inside the handler's try block: the first throw
      abandons the whole leaderboard. */
  function Project(docs: seq<Player>): (r: Result<seq<Row>, RouteError>)
    ensures r.Success? <==> AllNonEmpty(docs)
    ensures r.Failure? ==> r.error == EmptyApparitions && r.error.Status() == 500
    ensures r.Success? ==> |r.value| == |docs|
    ensures r.Success? ==> forall i :: 0 <= i < |docs| ==>
      MostRecent(docs[i].apparitions).Success?
      && Summarises(r.value[i], docs[i], MostRecent(docs[i].apparitions).value)
  {
    if |docs| == 0 then Success([])
    else
      match MostRecent(docs[0].apparitions)
      case Failure(e) => Failure(e)
      case Success(latest) =>
        match Project(docs[1..])
        case Failure(e) => Failure(e)
        case Success(rows) =>
          assert forall i :: 1 <= i < |docs| ==> docs[i] == docs[1..][i - 1];
          Success([MakeRow(docs[0], latest)] + rows)
  }

  /** `row` summarises `doc` through the first appearance carrying the
      document's latest date. */
  predicate SummarisesLatest(row: Row, doc: Player)
    requires AllDated(doc.apparitions)
  {
    exists k :: 0 <= k < |doc.apparitions| && IsFirstLatest(Stamp, doc.apparitions, k)
      && Summarises(row, doc, doc.apparitions[k])
  }

  /** The leaderboard, stated without the fold: one row per document in
      input order, each row the first appearance carrying the document's
      latest date, and the total the sum of its two scores. */
  lemma {:induction false} ProjectRowsAreLatest(docs: seq<Player>)
    requires AllNonEmpty(docs)
    requires forall i :: 0 <= i < |docs| ==> AllDated(docs[i].apparitions)
    ensures Project(docs).Success? && |Project(docs).value| == |docs|
    ensures forall i :: 0 <= i < |docs| ==> SummarisesLatest(Project(docs).value[i], docs[i])
  {
    var rows := Project(docs).value;
    forall i | 0 <= i < |docs|
      ensures SummarisesLatest(rows[i], docs[i])
    {
      MostRecentIsFirstLatest(Stamp, docs[i].apparitions);
    }
  }
}
