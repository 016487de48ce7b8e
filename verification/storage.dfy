/** `StorageData`: a per-module, per-guild key/value store. The primary
    key is (module, guild_id, key); each row also records the Python type
    name of the value it was set with. */
module Storage {
  import opened Results
  import opened Tables

  /** The values modules store, tagged by their Python type. */
  datatype Value = Str(s: string) | Int(i: int) | Bool(b: bool)

  /** `type(value).__name__`. */
  function TypeName(v: Value): (n: string)
    ensures n == "str" <==> v.Str?
    ensures n == "int" <==> v.Int?
    ensures n == "bool" <==> v.Bool?
  {
    match v
    case Str(_) => "str"
    case Int(_) => "int"
    case Bool(_) => "bool"
  }

  /** A row; `owner` is the `module` column (`module` is a keyword here). */
  datatype StorageData = StorageData(owner: string, guild: int, key: string, value: Value, typ: string)

  function StoreKey(d: StorageData): (string, int, string) { (d.owner, d.guild, d.key) }

  /** Every row's type tag names the type of its value. */
  predicate Tagged(t: seq<StorageData>)
  {
    forall d :: d in t ==> d.typ == TypeName(d.value)
  }

  /** The table's invariant: the primary key holds and every tag is right. */
  predicate Valid(t: seq<StorageData>)
  {
    Unique(t, StoreKey) && Tagged(t)
  }

  /** `StorageData.get`. */
  function GetData(t: seq<StorageData>, owner: string, guild: int, key: string)
    : (r: Result<Option<StorageData>, DbError>)
    ensures Unique(t, StoreKey) ==> r.Ok?
    ensures r.Ok? && r.value.Some? ==> r.value.value in t && StoreKey(r.value.value) == (owner, guild, key)
    ensures r == Ok(None) <==> forall d :: d in t ==> StoreKey(d) != (owner, guild, key)
  {
    UniqueWhere(t, StoreKey, (owner, guild, key));
    Get(t, StoreKey, (owner, guild, key))
  }

  /** `StorageData.set`: `None` and no change when the key is present and
      overwriting is not allowed; otherwise the row is merged by its
      primary key and returned. */
  function Set(t: seq<StorageData>, owner: string, guild: int, key: string, value: Value, allowOverwrite: bool)
    : (r: Result<Change<StorageData, Option<StorageData>>, DbError>)
    ensures r.Err? <==> GetData(t, owner, guild, key).Err?
    ensures r.Ok? && !allowOverwrite && GetData(t, owner, guild, key).value.Some? ==> r.value == Change(None, t)
    ensures r.Ok? && (allowOverwrite || GetData(t, owner, guild, key).value.None?) ==>
      r.value.out == Some(StorageData(owner, guild, key, value, TypeName(value)))
      && GetData(r.value.rows, owner, guild, key) == Ok(Some(StorageData(owner, guild, key, value, TypeName(value))))
    ensures Valid(t) ==> r.Ok? && Valid(r.value.rows)
    ensures r.Ok? ==> forall m, g, k :: (m, g, k) != (owner, guild, key) ==>
      GetData(r.value.rows, m, g, k) == GetData(t, m, g, k)
  {
    var row := StorageData(owner, guild, key, value, TypeName(value));
    match Get(t, StoreKey, (owner, guild, key))
    case Err(e) => Err(e)
    case Ok(found) =>
      if found.Some? && !allowOverwrite then Ok(Change(None, t))
      else Ok(Change(Some(row), Upsert(t, StoreKey, row).value.rows))
  }

  /** `StorageData.remove`: true exactly when one row was deleted. */
  function RemoveData(t: seq<StorageData>, owner: string, guild: int, key: string)
    : (r: Change<StorageData, bool>)
    ensures r.out <==> |Where(t, StoreKey, (owner, guild, key))| == 1
    ensures Unique(t, StoreKey) ==> (r.out <==> exists d :: d in t && StoreKey(d) == (owner, guild, key))
    ensures GetData(r.rows, owner, guild, key) == Ok(None)
    ensures Valid(t) ==> Valid(r.rows)
    ensures forall m, g, k :: (m, g, k) != (owner, guild, key) ==>
      GetData(r.rows, m, g, k) == GetData(t, m, g, k)
  {
    var c := Remove(t, StoreKey, (owner, guild, key));
    Change(c.out == 1, c.rows)
  }

  /** Setting the same value twice stores it once. */
  lemma SetTwice(t: seq<StorageData>, owner: string, guild: int, key: string, value: Value)
    requires Set(t, owner, guild, key, value, true).Ok?
    ensures Set(Set(t, owner, guild, key, value, true).value.rows, owner, guild, key, value, true)
      == Set(t, owner, guild, key, value, true)
  {
    UpsertTwice(t, StoreKey, StorageData(owner, guild, key, value, TypeName(value)));
  }

  /** What `dump` returns. */
  datatype StorageDump = StorageDump(owner: string, guild: int, key: string, value: Value)

  /** `dump`: everything but the type tag, which a valid row recovers from
      its value. */
  function DumpData(d: StorageData): (r: StorageDump)
    ensures d.typ == TypeName(d.value) ==> StorageData(r.owner, r.guild, r.key, r.value, TypeName(r.value)) == d
  {
    StorageDump(d.owner, d.guild, d.key, d.value)
  }
}
