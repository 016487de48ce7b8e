/** `Config`: the global bot configuration, a table meant to hold a single
    row, created with default values the first time it is asked for. The
    primary key `idx` is assigned by the database on insert; the model
    takes the value it would assign as a parameter. */
module BotConfig {
  import opened Results
  import opened Tables

  datatype Config = Config(idx: int, prefix: string, language: string, status: string)

  const DefaultPrefix: string := "!"
  const DefaultLanguage: string := "en"
  const DefaultStatus: string := "online"

  function ConfigIdx(c: Config): int { c.idx }

  /** The query `session.query(Config)` has no filter: every row matches. */
  function AnyRow(c: Config): () { () }

  /** `Config.get`: the only row, or a new row with the default values when
      the table is empty. More than one row is `MultipleResultsFound`. */
  function GetConfig(t: seq<Config>, nextIdx: int): (r: Result<Change<Config, Config>, DbError>)
    ensures r.Err? <==> |t| > 1
    ensures r.Err? ==> r.error == MultipleResultsFound
    ensures |t| == 0 ==> r == Ok(Change(Config(nextIdx, DefaultPrefix, DefaultLanguage, DefaultStatus),
                                        [Config(nextIdx, DefaultPrefix, DefaultLanguage, DefaultStatus)]))
    ensures |t| == 1 ==> r == Ok(Change(t[0], t))
    ensures r.Ok? ==> r.value.rows == [r.value.out]
  {
    WhereAll(t);
    match Get(t, AnyRow, ())
    case Err(e) => Err(e)
    case Ok(Some(c)) => Ok(Change(c, t))
    case Ok(None) =>
      var c := Config(nextIdx, DefaultPrefix, DefaultLanguage, DefaultStatus);
      assert t + [c] == [c];
      Ok(Change(c, t + [c]))
  }

  /** Without a filter, the query returns the whole table. */
  lemma {:induction false} WhereAll(t: seq<Config>)
    ensures Where(t, AnyRow, ()) == t
  {
    if |t| > 0 {
      WhereAll(t[1..]);
      assert t == [t[0]] + t[1..];
    }
  }

  /** A second `get` returns the same row and creates nothing. */
  lemma GetConfigTwice(t: seq<Config>, nextIdx: int, laterIdx: int)
    requires GetConfig(t, nextIdx).Ok?
    ensures GetConfig(GetConfig(t, nextIdx).value.rows, laterIdx) == GetConfig(t, nextIdx)
  {
  }

  /** `Config.save`: merge the row into the table by `idx`. */
  function Save(t: seq<Config>, c: Config): (s: seq<Config>)
    ensures Unique(t, ConfigIdx) ==> Unique(s, ConfigIdx) && Get(s, ConfigIdx, c.idx) == Ok(Some(c))
    ensures forall x :: x in s ==> x == c || (x in t && x.idx != c.idx)
    ensures forall x :: x in t && x.idx != c.idx ==> x in s
  {
    Merge(t, ConfigIdx, c)
  }

  /** Saving the row `get` returned (or into an empty table) makes it the
      row the next `get` returns. */
  lemma SaveThenGet(t: seq<Config>, c: Config, nextIdx: int)
    requires |t| <= 1
    requires forall x :: x in t ==> x.idx == c.idx
    ensures GetConfig(Save(t, c), nextIdx) == Ok(Change(c, [c]))
  {
    if |t| == 1 {
      assert t[0] in t;
      assert Where(t, ConfigIdx, c.idx) == t;
      assert Overwrite(t[1..], ConfigIdx, c) == [];
    } else {
      assert Where(t, ConfigIdx, c.idx) == [];
    }
  }

  /** What `dump` returns. */
  datatype ConfigDump = ConfigDump(prefix: string, language: string, status: string)

  /** `Config.dump`: the three settings, without `idx`. */
  function DumpConfig(c: Config): (d: ConfigDump)
    ensures Config(c.idx, d.prefix, d.language, d.status) == c
  {
    ConfigDump(c.prefix, c.language, c.status)
  }
}
