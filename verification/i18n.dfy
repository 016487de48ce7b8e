/** Language preferences: one per guild (`GuildLanguage`, whose `guild_id`
    column is unique) and one per member of a guild (`MemberLanguage`, no
    constraint). Each operation takes and returns only its own table, so
    neither table is ever touched by the other's operations. */
module I18n {
  import opened Results
  import opened Tables

  // ---------------------------------------------------------------------
  // GuildLanguage: guild -> language

  datatype GuildLanguage = GuildLanguage(guild: int, language: string)

  function GuildKey(p: GuildLanguage): int { p.guild }

  /** `GuildLanguage.__eq__`: preferences are equal when their guilds are. */
  function SameGuild(a: GuildLanguage, b: GuildLanguage): (r: bool)
    ensures r <==> a.(language := b.language) == b
  {
    a.guild == b.guild
  }

  /** `GuildLanguage.get`. */
  function GetGuild(t: seq<GuildLanguage>, guild: int): (r: Result<Option<GuildLanguage>, DbError>)
    ensures Unique(t, GuildKey) ==> r.Ok?
    ensures r.Ok? && r.value.Some? ==> r.value.value in t && r.value.value.guild == guild
    ensures r == Ok(None) <==> forall p :: p in t ==> p.guild != guild
  {
    UniqueWhere(t, GuildKey, guild);
    Get(t, GuildKey, guild)
  }

  /** `GuildLanguage.add`: delete the guild's preferences, then insert the
      new one. Afterwards it is the guild's only preference. */
  function AddGuild(t: seq<GuildLanguage>, guild: int, language: string): (r: Change<GuildLanguage, GuildLanguage>)
    ensures r.out == GuildLanguage(guild, language)
    ensures GetGuild(r.rows, guild) == Ok(Some(GuildLanguage(guild, language)))
    ensures |Where(r.rows, GuildKey, guild)| == 1
    ensures Unique(t, GuildKey) ==> Unique(r.rows, GuildKey)
    ensures forall g :: g != guild ==> GetGuild(r.rows, g) == GetGuild(t, g)
  {
    var row := GuildLanguage(guild, language);
    var s := DeleteInsert(t, GuildKey, row);
    assert row in Where(s, GuildKey, guild);
    Change(row, s)
  }

  /** Setting the same guild language twice leaves one preference. */
  lemma AddGuildTwice(t: seq<GuildLanguage>, guild: int, language: string)
    ensures AddGuild(AddGuild(t, guild, language).rows, guild, language) == AddGuild(t, guild, language)
  {
    DeleteInsertAgain(Without(t, GuildKey, guild), GuildKey, GuildLanguage(guild, language));
  }

  /** `GuildLanguage.remove`: the number of preferences deleted. */
  function RemoveGuild(t: seq<GuildLanguage>, guild: int): (r: Change<GuildLanguage, nat>)
    ensures r.out > 0 <==> exists p :: p in t && p.guild == guild
    ensures Unique(t, GuildKey) ==> r.out <= 1 && Unique(r.rows, GuildKey)
    ensures GetGuild(r.rows, guild) == Ok(None)
    ensures forall g :: g != guild ==> GetGuild(r.rows, g) == GetGuild(t, g)
  {
    Remove(t, GuildKey, guild)
  }

  // ---------------------------------------------------------------------
  // MemberLanguage: (guild, member) -> language

  datatype MemberLanguage = MemberLanguage(guild: int, member: int, language: string)

  function MemberKey(p: MemberLanguage): (int, int) { (p.guild, p.member) }

  /** `MemberLanguage.__eq__`: preferences are equal when guild and member
      are. */
  function SameMember(a: MemberLanguage, b: MemberLanguage): (r: bool)
    ensures r <==> a.(language := b.language) == b
  {
    a.guild == b.guild && a.member == b.member
  }

  /** `MemberLanguage.get`. */
  function GetMember(t: seq<MemberLanguage>, guild: int, member: int): (r: Result<Option<MemberLanguage>, DbError>)
    ensures Unique(t, MemberKey) ==> r.Ok?
    ensures r.Ok? && r.value.Some? ==> r.value.value in t && MemberKey(r.value.value) == (guild, member)
    ensures r == Ok(None) <==> forall p :: p in t ==> MemberKey(p) != (guild, member)
  {
    UniqueWhere(t, MemberKey, (guild, member));
    Get(t, MemberKey, (guild, member))
  }

  /** `MemberLanguage.add`: update the member's preference in place, or add
      one. */
  function AddMember(t: seq<MemberLanguage>, guild: int, member: int, language: string)
    : (r: Result<Change<MemberLanguage, MemberLanguage>, DbError>)
    ensures r.Err? <==> GetMember(t, guild, member).Err?
    ensures r.Ok? ==> r.value.out == MemberLanguage(guild, member, language)
    ensures r.Ok? ==> GetMember(r.value.rows, guild, member) == Ok(Some(MemberLanguage(guild, member, language)))
    ensures Unique(t, MemberKey) ==> r.Ok? && Unique(r.value.rows, MemberKey)
    ensures r.Ok? ==> forall g, m :: (g, m) != (guild, member) ==>
      GetMember(r.value.rows, g, m) == GetMember(t, g, m)
  {
    Upsert(t, MemberKey, MemberLanguage(guild, member, language))
  }

  /** Setting the same member language twice leaves one preference. */
  lemma AddMemberTwice(t: seq<MemberLanguage>, guild: int, member: int, language: string)
    requires AddMember(t, guild, member, language).Ok?
    ensures AddMember(AddMember(t, guild, member, language).value.rows, guild, member, language)
      == AddMember(t, guild, member, language)
  {
    UpsertTwice(t, MemberKey, MemberLanguage(guild, member, language));
  }

  /** `MemberLanguage.remove`: the number of preferences deleted. */
  function RemoveMember(t: seq<MemberLanguage>, guild: int, member: int): (r: Change<MemberLanguage, nat>)
    ensures r.out > 0 <==> exists p :: p in t && MemberKey(p) == (guild, member)
    ensures Unique(t, MemberKey) ==> r.out <= 1 && Unique(r.rows, MemberKey)
    ensures GetMember(r.rows, guild, member) == Ok(None)
    ensures forall g, m :: (g, m) != (guild, member) ==> GetMember(r.rows, g, m) == GetMember(t, g, m)
  {
    Remove(t, MemberKey, (guild, member))
  }
}
