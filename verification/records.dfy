/** The documents of the `upload-json` collection and the rows and failures
    the two handlers produce from them. */
module Records {
  import opened Wrappers
  import Dates

  /** One dated snapshot of a player. `date` is `DD-MM-YYYY` text. */
  datatype Appearance = Appearance(date: string, pseudo: string, scoreEff: int, scoreSpd: int)

  /** A player document. `otherFields` stands for every field besides `id`
      and `apparitions` (the store's own `_id` among them), carried as
      opaque text. */
  datatype Player = Player(id: string, apparitions: seq<Appearance>, otherFields: map<string, string>)

  /** One leaderboard entry. */
  datatype Row = Row(id: string, date: string, pseudo: string, scoreEff: int, scoreSpd: int, total: int)

  /** Why a handler answers with an error instead of a body. */
  datatype RouteError =
    | EmptyApparitions   // `reduce` without an initial value on an empty array throws
    | PlayerNotFound     // `findOne` found no document with the requested id
  {
    /** The HTTP status the handler answers with. */
    function Status(): int
    {
      match this
      case EmptyApparitions => 500
      case PlayerNotFound => 404
    }
  }

  /** The time value `parseDate` gives an appearance; `None` is NaN. */
  function Stamp(a: Appearance): Option<int>
  {
    Dates.ParseDate(a.date)
  }

  /** Every element has a time value that is a number, not NaN. */
  predicate AllKeyed<T>(key: T -> Option<int>, s: seq<T>)
  {
    forall i :: 0 <= i < |s| ==> key(s[i]).Some?
  }

  /** Every appearance carries a date that parses. */
  predicate AllDated(apps: seq<Appearance>)
  {
    AllKeyed(Stamp, apps)
  }
}
