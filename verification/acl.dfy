/** The access-control tables: a default level per (guild, command), allow
    or deny overwrites per role, user and channel, and the mapping of
    roles to levels. None of these tables has a unique constraint; each
    `add` looks its key up first and inserts only when nothing is found,
    which is what keeps keys unique. */
module Acl {
  import opened Results
  import opened Tables

  /** `ACLevel`, an integer enumeration. */
  datatype ACLevel = Everyone | Member | Submod | Mod | GuildOwner | BotOwner

  /** The integer value of each level. */
  function Rank(l: ACLevel): (n: nat)
    ensures n <= 5
  {
    match l
    case Everyone => 0
    case Member => 1
    case Submod => 2
    case Mod => 3
    case GuildOwner => 4
    case BotOwner => 5
  }

  /** `ACLevel(n)`: the level with integer value `n`, if there is one. */
  function FromRank(n: int): (l: Option<ACLevel>)
    ensures l.Some? <==> 0 <= n <= 5
    ensures l.Some? ==> Rank(l.value) == n
  {
    if n == 0 then Some(Everyone)
    else if n == 1 then Some(Member)
    else if n == 2 then Some(Submod)
    else if n == 3 then Some(Mod)
    else if n == 4 then Some(GuildOwner)
    else if n == 5 then Some(BotOwner)
    else None
  }

  /** Levels compare as their integer values. */
  predicate LevelLe(a: ACLevel, b: ACLevel)
  {
    Rank(a) <= Rank(b)
  }

  /** The levels form a chain: every level is recovered from its value,
      so two levels with the same value are the same level. */
  lemma LevelOrder(a: ACLevel, b: ACLevel)
    ensures FromRank(Rank(a)) == Some(a)
    ensures LevelLe(a, b) && LevelLe(b, a) ==> a == b
    ensures LevelLe(a, b) || LevelLe(b, a)
  {
    match a
    case Everyone =>
    case Member =>
    case Submod =>
    case Mod =>
    case GuildOwner =>
    case BotOwner =>
  }

  // ---------------------------------------------------------------------
  // ACDefault: (guild, command) -> level

  datatype Default = Default(guild: int, command: string, level: ACLevel)

  function DefaultKey(d: Default): (int, string) { (d.guild, d.command) }

  function DefaultGuild(d: Default): int { d.guild }

  /** `ACDefault.get`. */
  function GetDefault(t: seq<Default>, guild: int, command: string): (r: Result<Option<Default>, DbError>)
    ensures r.Ok? && r.value.Some? ==> r.value.value in t && r.value.value.guild == guild && r.value.value.command == command
    ensures r == Ok(None) <==> forall d :: d in t ==> d.guild != guild || d.command != command
    ensures r.Err? <==> |Where(t, DefaultKey, (guild, command))| > 1
    ensures Unique(t, DefaultKey) ==> r.Ok?
  {
    UniqueWhere(t, DefaultKey, (guild, command));
    Get(t, DefaultKey, (guild, command))
  }

  /** `ACDefault.add`: `None` and no change when the command already has a
      default in the guild, otherwise the new entry. */
  function AddDefault(t: seq<Default>, guild: int, command: string, level: ACLevel)
    : (r: Result<Change<Default, Option<Default>>, DbError>)
    ensures r.Err? <==> GetDefault(t, guild, command).Err?
    ensures r.Ok? && GetDefault(t, guild, command).value.Some? ==> r.value.out.None? && r.value.rows == t
    ensures r.Ok? && GetDefault(t, guild, command).value.None? ==>
      r.value.out == Some(Default(guild, command, level))
      && GetDefault(r.value.rows, guild, command) == Ok(Some(Default(guild, command, level)))
    ensures Unique(t, DefaultKey) ==> r.Ok? && Unique(r.value.rows, DefaultKey)
    ensures r.Ok? ==> forall g, c :: (g, c) != (guild, command) ==>
      GetDefault(r.value.rows, g, c) == GetDefault(t, g, c)
  {
    InsertIfAbsent(t, DefaultKey, Default(guild, command, level))
  }

  /** `ACDefault.get_all`. */
  function AllDefaults(t: seq<Default>, guild: int): (s: seq<Default>)
    ensures forall d :: d in s <==> d in t && d.guild == guild
  {
    Where(t, DefaultGuild, guild)
  }

  /** `ACDefault.remove`: whether anything was deleted. */
  function RemoveDefault(t: seq<Default>, guild: int, command: string): (r: Change<Default, bool>)
    ensures r.out <==> exists d :: d in t && d.guild == guild && d.command == command
    ensures GetDefault(r.rows, guild, command) == Ok(None)
    ensures Unique(t, DefaultKey) ==> Unique(r.rows, DefaultKey)
    ensures forall g, c :: (g, c) != (guild, command) ==> GetDefault(r.rows, g, c) == GetDefault(t, g, c)
  {
    var c := Remove(t, DefaultKey, (guild, command));
    Change(c.out > 0, c.rows)
  }

  // ---------------------------------------------------------------------
  // RoleOverwrite, UserOverwrite, ChannelOverwrite:
  // (guild, role | user | channel, command) -> allow

  /** A row of any of the three overwrite tables; `target` is the role,
      user or channel id, depending on the table. */
  datatype Overwrite = Overwrite(guild: int, target: int, command: string, allow: bool)

  function OverwriteKey(o: Overwrite): (int, int, string) { (o.guild, o.target, o.command) }

  function OverwriteGuild(o: Overwrite): int { o.guild }

  /** `get` of an overwrite table. */
  function GetOverwrite(t: seq<Overwrite>, guild: int, target: int, command: string)
    : (r: Result<Option<Overwrite>, DbError>)
    ensures r.Ok? && r.value.Some? ==>
      r.value.value in t && OverwriteKey(r.value.value) == (guild, target, command)
    ensures r == Ok(None) <==> forall o :: o in t ==> OverwriteKey(o) != (guild, target, command)
    ensures r.Err? <==> |Where(t, OverwriteKey, (guild, target, command))| > 1
    ensures Unique(t, OverwriteKey) ==> r.Ok?
  {
    UniqueWhere(t, OverwriteKey, (guild, target, command));
    Tables.Get(t, OverwriteKey, (guild, target, command))
  }

  /** `add` of an overwrite table: insert only if absent. */
  function AddOverwrite(t: seq<Overwrite>, guild: int, target: int, command: string, allow: bool)
    : (r: Result<Change<Overwrite, Option<Overwrite>>, DbError>)
    ensures r.Err? <==> GetOverwrite(t, guild, target, command).Err?
    ensures r.Ok? && GetOverwrite(t, guild, target, command).value.Some? ==>
      r.value.out.None? && r.value.rows == t
    ensures r.Ok? && GetOverwrite(t, guild, target, command).value.None? ==>
      r.value.out == Some(Overwrite(guild, target, command, allow))
      && GetOverwrite(r.value.rows, guild, target, command) == Ok(Some(Overwrite(guild, target, command, allow)))
    ensures Unique(t, OverwriteKey) ==> r.Ok? && Unique(r.value.rows, OverwriteKey)
    ensures r.Ok? ==> forall g, x, c :: (g, x, c) != (guild, target, command) ==>
      GetOverwrite(r.value.rows, g, x, c) == GetOverwrite(t, g, x, c)
  {
    InsertIfAbsent(t, OverwriteKey, Overwrite(guild, target, command, allow))
  }

  /** `get_all` of an overwrite table. */
  function AllOverwrites(t: seq<Overwrite>, guild: int): (s: seq<Overwrite>)
    ensures forall o :: o in s <==> o in t && o.guild == guild
  {
    Where(t, OverwriteGuild, guild)
  }

  /** `remove` of an overwrite table. */
  function RemoveOverwrite(t: seq<Overwrite>, guild: int, target: int, command: string)
    : (r: Change<Overwrite, bool>)
    ensures r.out <==> exists o :: o in t && OverwriteKey(o) == (guild, target, command)
    ensures GetOverwrite(r.rows, guild, target, command) == Ok(None)
    ensures Unique(t, OverwriteKey) ==> Unique(r.rows, OverwriteKey)
    ensures forall g, x, c :: (g, x, c) != (guild, target, command) ==>
      GetOverwrite(r.rows, g, x, c) == GetOverwrite(t, g, x, c)
  {
    var c := Remove(t, OverwriteKey, (guild, target, command));
    Change(c.out > 0, c.rows)
  }

  /** What `dump` of an overwrite returns. */
  datatype OverwriteDump = OverwriteDump(guild: int, target: int, allow: bool)

  /** `dump`: everything but the command. */
  function DumpOverwrite(o: Overwrite): (d: OverwriteDump)
    ensures Overwrite(d.guild, d.target, o.command, d.allow) == o
  {
    OverwriteDump(o.guild, o.target, o.allow)
  }

  /** Overwrites that differ only in their command dump alike. */
  lemma DumpOmitsCommand(o: Overwrite, command: string)
    ensures DumpOverwrite(o.(command := command)) == DumpOverwrite(o)
  {
  }

  // ---------------------------------------------------------------------
  // ACLevelMappping: (guild, role) -> level

  datatype Mapping = Mapping(guild: int, role: int, level: ACLevel)

  function MappingKey(m: Mapping): (int, int) { (m.guild, m.role) }

  function MappingGuild(m: Mapping): int { m.guild }

  /** `ACLevelMappping.get`. */
  function GetMapping(t: seq<Mapping>, guild: int, role: int): (r: Result<Option<Mapping>, DbError>)
    ensures r.Ok? && r.value.Some? ==> r.value.value in t && MappingKey(r.value.value) == (guild, role)
    ensures r == Ok(None) <==> forall m :: m in t ==> MappingKey(m) != (guild, role)
    ensures r.Err? <==> |Where(t, MappingKey, (guild, role))| > 1
    ensures Unique(t, MappingKey) ==> r.Ok?
  {
    UniqueWhere(t, MappingKey, (guild, role));
    Tables.Get(t, MappingKey, (guild, role))
  }

  /** `ACLevelMappping.add`: insert only if absent. */
  function AddMapping(t: seq<Mapping>, guild: int, role: int, level: ACLevel)
    : (r: Result<Change<Mapping, Option<Mapping>>, DbError>)
    ensures r.Err? <==> GetMapping(t, guild, role).Err?
    ensures r.Ok? && GetMapping(t, guild, role).value.Some? ==> r.value.out.None? && r.value.rows == t
    ensures r.Ok? && GetMapping(t, guild, role).value.None? ==>
      r.value.out == Some(Mapping(guild, role, level))
      && GetMapping(r.value.rows, guild, role) == Ok(Some(Mapping(guild, role, level)))
    ensures Unique(t, MappingKey) ==> r.Ok? && Unique(r.value.rows, MappingKey)
    ensures r.Ok? ==> forall g, x :: (g, x) != (guild, role) ==>
      GetMapping(r.value.rows, g, x) == GetMapping(t, g, x)
  {
    InsertIfAbsent(t, MappingKey, Mapping(guild, role, level))
  }

  /** `ACLevelMappping.get_all`. */
  function AllMappings(t: seq<Mapping>, guild: int): (s: seq<Mapping>)
    ensures forall m :: m in s <==> m in t && m.guild == guild
  {
    Where(t, MappingGuild, guild)
  }

  /** `ACLevelMappping.remove`. */
  function RemoveMapping(t: seq<Mapping>, guild: int, role: int): (r: Change<Mapping, bool>)
    ensures r.out <==> exists m :: m in t && MappingKey(m) == (guild, role)
    ensures GetMapping(r.rows, guild, role) == Ok(None)
    ensures Unique(t, MappingKey) ==> Unique(r.rows, MappingKey)
    ensures forall g, x :: (g, x) != (guild, role) ==> GetMapping(r.rows, g, x) == GetMapping(t, g, x)
  {
    var c := Remove(t, MappingKey, (guild, role));
    Change(c.out > 0, c.rows)
  }
}
