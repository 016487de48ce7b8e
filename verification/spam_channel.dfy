/** The spam-channel registry: channels a guild has designated for spammy
    commands, at most one of them the guild's primary.

    The table has two unique constraints, (guild, channel) and
    (channel, primary). A commit or flush that would break either fails
    with `IntegrityError` and leaves the table as it was. */
module SpamChannels {
  import opened Results
  import opened Tables

  datatype SpamChannel = SpamChannel(guild: int, channel: int, primary: bool)

  function ChannelKey(s: SpamChannel): (int, int) { (s.guild, s.channel) }

  function ChannelFlag(s: SpamChannel): (int, bool) { (s.channel, s.primary) }

  function GuildFlag(s: SpamChannel): (int, bool) { (s.guild, s.primary) }

  function GuildOf(s: SpamChannel): int { s.guild }

  /** Both unique constraints hold. */
  predicate Constrained(t: seq<SpamChannel>)
  {
    Unique(t, ChannelKey) && Unique(t, ChannelFlag)
  }

  /** The invariant `set_primary` is written to keep. */
  ghost predicate OnePrimary(t: seq<SpamChannel>)
  {
    forall g :: |Where(t, GuildFlag, (g, true))| <= 1
  }

  /** `SpamChannel.get`. */
  function GetChannel(t: seq<SpamChannel>, guild: int, channel: int): (r: Result<Option<SpamChannel>, DbError>)
    ensures Constrained(t) ==> r.Ok?
    ensures r.Ok? && r.value.Some? ==> r.value.value in t && ChannelKey(r.value.value) == (guild, channel)
    ensures r == Ok(None) <==> forall s :: s in t ==> ChannelKey(s) != (guild, channel)
  {
    UniqueWhere(t, ChannelKey, (guild, channel));
    Get(t, ChannelKey, (guild, channel))
  }

  /** `SpamChannel.get_all`. */
  function AllChannels(t: seq<SpamChannel>, guild: int): (s: seq<SpamChannel>)
    ensures forall x :: x in s <==> x in t && x.guild == guild
  {
    Where(t, GuildOf, guild)
  }

  /** `SpamChannel.add`: a new, non-primary channel. The commit fails when
      the channel is already registered in the guild, or is registered as
      a non-primary channel in another guild. */
  function Add(t: seq<SpamChannel>, guild: int, channel: int): (r: Result<Change<SpamChannel, SpamChannel>, DbError>)
    ensures r.Ok? <==> Constrained(t + [SpamChannel(guild, channel, false)])
    ensures r.Ok? ==> r.value.out == SpamChannel(guild, channel, false)
    ensures r.Ok? ==> GetChannel(r.value.rows, guild, channel) == Ok(Some(SpamChannel(guild, channel, false)))
    ensures r.Err? ==> r.error == IntegrityError
    ensures Constrained(t) && (exists s :: s in t && ChannelKey(s) == (guild, channel)) ==> r.Err?
    ensures r.Ok? ==> |r.value.rows| == |t| + 1
    ensures r.Ok? ==> forall x :: x in r.value.rows <==> x in t || x == SpamChannel(guild, channel, false)
  {
    var row := SpamChannel(guild, channel, false);
    if Constrained(t + [row]) then
      UniqueGet(t + [row], ChannelKey, row);
      UniqueAppend(t, ChannelKey, row);
      Ok(Change(row, t + [row]))
    else Err(IntegrityError)
  }

  /** A new channel is never primary, so `add` keeps at most one primary
      per guild. */
  lemma AddKeepsOnePrimary(t: seq<SpamChannel>, guild: int, channel: int)
    requires OnePrimary(t)
    requires Add(t, guild, channel).Ok?
    ensures OnePrimary(Add(t, guild, channel).value.rows)
  {
    var row := SpamChannel(guild, channel, false);
    forall g
      ensures |Where(t + [row], GuildFlag, (g, true))| <= 1
    {
      WhereAppend(t, [row], GuildFlag, (g, true));
      WhereNone([row], GuildFlag, (g, true));
    }
  }

  /** The guild's current primary, if any, demoted to an ordinary channel. */
  function Demote(t: seq<SpamChannel>, current: Option<SpamChannel>): seq<SpamChannel>
  {
    if current.Some? then Overwrite(t, ChannelKey, current.value.(primary := false)) else t
  }

  /** The channel found by its key, promoted to primary. */
  function Promote(t: seq<SpamChannel>, found: SpamChannel): seq<SpamChannel>
  {
    Overwrite(t, ChannelKey, found.(primary := true))
  }

  /** `SpamChannel.set_primary`: make the channel the guild's primary.
      The old primary is demoted first; looking the channel up flushes that
      change, and the final commit writes the promotion. */
  function SetPrimary(t: seq<SpamChannel>, guild: int, channel: int)
    : (r: Result<Change<SpamChannel, Option<SpamChannel>>, DbError>)
    ensures r.Ok? ==> Constrained(t) ==> Constrained(r.value.rows)
    ensures OnePrimary(t) && Constrained(t) && r.Err? ==> r.error == IntegrityError
  {
    match Get(t, GuildFlag, (guild, true))
    case Err(e) => Err(e)
    case Ok(current) =>
      if current.Some? && current.value.channel == channel then Ok(Change(current, t))
      else
        var demoted := Demote(t, current);
        if !Constrained(demoted) then Err(IntegrityError)
        else
          UniqueWhere(demoted, ChannelKey, (guild, channel));
          match Get(demoted, ChannelKey, (guild, channel))
          case Err(e) => Err(e)
          case Ok(None) => Ok(Change(None, demoted))
          case Ok(Some(found)) =>
            var promoted := Promote(demoted, found);
            if Constrained(promoted) then Ok(Change(Some(found.(primary := true)), promoted))
            else Err(IntegrityError)
  }

  /** Demoting the current primary leaves the guild without one and every
      other guild as it was. */
  lemma DemoteSpec(t: seq<SpamChannel>, guild: int)
    requires OnePrimary(t)
    requires Get(t, GuildFlag, (guild, true)).Ok?
    ensures Where(Demote(t, Get(t, GuildFlag, (guild, true)).value), GuildFlag, (guild, true)) == []
    ensures forall g :: g != guild ==>
      Where(Demote(t, Get(t, GuildFlag, (guild, true)).value), GuildFlag, (g, true)) == Where(t, GuildFlag, (g, true))
    ensures forall g :: g != guild ==>
      Where(Demote(t, Get(t, GuildFlag, (guild, true)).value), GuildOf, g) == Where(t, GuildOf, g)
    ensures forall k :: |Where(Demote(t, Get(t, GuildFlag, (guild, true)).value), ChannelKey, k)| == |Where(t, ChannelKey, k)|
  {
    var current := Get(t, GuildFlag, (guild, true)).value;
    if current.Some? {
      var cur := current.value;
      var row := cur.(primary := false);
      var primaries := Where(t, GuildFlag, (guild, true));
      assert |primaries| <= 1;
      assert forall x :: x in t && GuildFlag(x) == (guild, true) ==> x in primaries;
      WhereOverwriteClears(t, ChannelKey, row, GuildFlag, (guild, true));
      forall g | g != guild
        ensures Where(Demote(t, current), GuildFlag, (g, true)) == Where(t, GuildFlag, (g, true))
        ensures Where(Demote(t, current), GuildOf, g) == Where(t, GuildOf, g)
      {
        WhereOverwriteOther(t, ChannelKey, row, GuildFlag, (g, true));
        WhereOverwriteOther(t, ChannelKey, row, GuildOf, g);
      }
      forall k
        ensures |Where(Demote(t, current), ChannelKey, k)| == |Where(t, ChannelKey, k)|
      {
        OverwriteKeys(t, ChannelKey, row, k);
      }
    } else {
      WhereNone(t, GuildFlag, (guild, true));
    }
  }

  /** Promoting a channel of a guild that has no primary makes it the
      guild's only primary and leaves every other guild as it was. */
  lemma PromoteSpec(d: seq<SpamChannel>, found: SpamChannel)
    requires Unique(d, ChannelKey) && found in d
    requires Where(d, GuildFlag, (found.guild, true)) == []
    ensures Get(Promote(d, found), GuildFlag, (found.guild, true)) == Ok(Some(found.(primary := true)))
    ensures found.(primary := true) in Promote(d, found)
    ensures forall g :: g != found.guild ==>
      Where(Promote(d, found), GuildFlag, (g, true)) == Where(d, GuildFlag, (g, true))
    ensures forall g :: g != found.guild ==> Where(Promote(d, found), GuildOf, g) == Where(d, GuildOf, g)
  {
    var row := found.(primary := true);
    assert forall x :: x in d ==> GuildFlag(x) != (found.guild, true);
    WhereOverwriteOnly(d, ChannelKey, row, GuildFlag);
    UniqueGet(d, ChannelKey, found);
    OverwriteUnique(d, ChannelKey, row);
    var p := Where(Promote(d, found), GuildFlag, (found.guild, true));
    assert p[0] in p;
    forall g | g != found.guild
      ensures Where(Promote(d, found), GuildFlag, (g, true)) == Where(d, GuildFlag, (g, true))
      ensures Where(Promote(d, found), GuildOf, g) == Where(d, GuildOf, g)
    {
      WhereOverwriteOther(d, ChannelKey, row, GuildFlag, (g, true));
      WhereOverwriteOther(d, ChannelKey, row, GuildOf, g);
    }
  }

  /** On the channel that is already the guild's primary, `set_primary`
      returns it and changes nothing. */
  lemma SetPrimaryAlreadyPrimary(t: seq<SpamChannel>, guild: int, channel: int)
    requires OnePrimary(t)
    requires SpamChannel(guild, channel, true) in t
    ensures SetPrimary(t, guild, channel) == Ok(Change(Some(SpamChannel(guild, channel, true)), t))
  {
    var s := Where(t, GuildFlag, (guild, true));
    assert SpamChannel(guild, channel, true) in s;
    assert |s| <= 1;
  }

  /** On a registered channel, a `set_primary` that commits returns the
      channel as the guild's primary, and it is the guild's only one. */
  lemma SetPrimaryRegistered(t: seq<SpamChannel>, guild: int, channel: int)
    requires Constrained(t) && OnePrimary(t)
    requires exists s :: s in t && ChannelKey(s) == (guild, channel)
    requires SetPrimary(t, guild, channel).Ok?
    ensures SetPrimary(t, guild, channel).value.out == Some(SpamChannel(guild, channel, true))
    ensures Get(SetPrimary(t, guild, channel).value.rows, GuildFlag, (guild, true))
      == Ok(Some(SpamChannel(guild, channel, true)))
    ensures GetChannel(SetPrimary(t, guild, channel).value.rows, guild, channel)
      == Ok(Some(SpamChannel(guild, channel, true)))
  {
    var current := Get(t, GuildFlag, (guild, true)).value;
    if current.Some? && current.value.channel == channel {
      UniqueGet(t, ChannelKey, current.value);
    } else {
      DemoteSpec(t, guild);
      var d := Demote(t, current);
      var x :| x in t && ChannelKey(x) == (guild, channel);
      assert x in Where(t, ChannelKey, (guild, channel));
      assert |Where(d, ChannelKey, (guild, channel))| > 0;
      UniqueWhere(d, ChannelKey, (guild, channel));
      var found := Get(d, ChannelKey, (guild, channel)).value.value;
      PromoteSpec(d, found);
      UniqueGet(Promote(d, found), ChannelKey, found.(primary := true));
    }
  }

  /** On a channel that is not registered, a `set_primary` that commits
      returns `None` and leaves the guild without a primary. */
  lemma SetPrimaryUnregistered(t: seq<SpamChannel>, guild: int, channel: int)
    requires OnePrimary(t)
    requires forall s :: s in t ==> ChannelKey(s) != (guild, channel)
    requires SetPrimary(t, guild, channel).Ok?
    ensures SetPrimary(t, guild, channel).value.out == None
    ensures Get(SetPrimary(t, guild, channel).value.rows, GuildFlag, (guild, true)) == Ok(None)
  {
    DemoteSpec(t, guild);
    WhereNone(t, ChannelKey, (guild, channel));
    var d := Demote(t, Get(t, GuildFlag, (guild, true)).value);
    assert |Where(d, ChannelKey, (guild, channel))| == 0;
  }

  /** Demoting the guild's current primary, when it is not the channel
      itself, clashes under (channel, primary) with a non-primary
      registration of that channel in another guild. */
  predicate DemotionClashes(t: seq<SpamChannel>, guild: int, channel: int)
  {
    exists c, y :: c in t && y in t && c.guild == guild && c.primary && c.channel != channel
      && y.guild != guild && y.channel == c.channel && !y.primary
  }

  /** Promoting the registered channel clashes under (channel, primary)
      with that channel as the primary of another guild. */
  predicate PromotionClashes(t: seq<SpamChannel>, guild: int, channel: int)
  {
    (exists s :: s in t && ChannelKey(s) == (guild, channel))
    && exists z :: z in t && z.guild != guild && z.channel == channel && z.primary
  }

  /** On a table that keeps its constraints and one primary per guild,
      `set_primary` commits exactly when neither the demotion flush nor the
      promotion commit breaks the (channel, primary) constraint. */
  lemma SetPrimaryCommits(t: seq<SpamChannel>, guild: int, channel: int)
    requires Constrained(t) && OnePrimary(t)
    ensures SetPrimary(t, guild, channel).Ok? <==>
      !DemotionClashes(t, guild, channel) && !PromotionClashes(t, guild, channel)
  {
    assert |Where(t, GuildFlag, (guild, true))| <= 1;
    var current := Get(t, GuildFlag, (guild, true)).value;
    if current.Some? && current.value.channel == channel {
      AlreadyPrimaryClashesNot(t, guild, channel);
    } else {
      DemoteCommits(t, guild, channel);
      if Constrained(Demote(t, current)) {
        PromoteCommits(t, guild, channel);
      }
    }
  }

  lemma AlreadyPrimaryClashesNot(t: seq<SpamChannel>, guild: int, channel: int)
    requires Constrained(t)
    requires Get(t, GuildFlag, (guild, true)).Ok? && Get(t, GuildFlag, (guild, true)).value.Some?
    requires Get(t, GuildFlag, (guild, true)).value.value.channel == channel
    ensures !DemotionClashes(t, guild, channel) && !PromotionClashes(t, guild, channel)
  {
    var cur := Get(t, GuildFlag, (guild, true)).value.value;
    GetOnly(t, GuildFlag, (guild, true));
    UniqueGet(t, ChannelFlag, cur);
    GetOnly(t, ChannelFlag, ChannelFlag(cur));
    forall z | z in t && z.channel == channel && z.primary
      ensures z.guild == guild
    {
      assert ChannelFlag(z) == ChannelFlag(cur);
    }
  }

  /** The demotion flush keeps the constraints exactly when it clashes with
      nothing. */
  lemma DemoteCommits(t: seq<SpamChannel>, guild: int, channel: int)
    requires Constrained(t) && OnePrimary(t)
    requires Get(t, GuildFlag, (guild, true)).Ok?
    requires !(Get(t, GuildFlag, (guild, true)).value.Some? && Get(t, GuildFlag, (guild, true)).value.value.channel == channel)
    ensures Constrained(Demote(t, Get(t, GuildFlag, (guild, true)).value)) <==> !DemotionClashes(t, guild, channel)
  {
    var current := Get(t, GuildFlag, (guild, true)).value;
    if current.Some? {
      var cur := current.value;
      var row := cur.(primary := false);
      GetOnly(t, GuildFlag, (guild, true));
      OverwriteUnique(t, ChannelKey, row);
      OverwriteUniqueOther(t, ChannelKey, row, ChannelFlag);
      if DemotionClashes(t, guild, channel) {
        var c, y :| c in t && y in t && c.guild == guild && c.primary && c.channel != channel
          && y.guild != guild && y.channel == c.channel && !y.primary;
        assert c == cur;
        assert ChannelKey(y) != ChannelKey(row) && ChannelFlag(y) == ChannelFlag(row);
      } else {
        forall x | x in t && ChannelKey(x) != ChannelKey(row)
          ensures ChannelFlag(x) != ChannelFlag(row)
        {
          assert cur in t;
        }
      }
    }
  }

  /** Once the demotion has committed, `set_primary` commits exactly when
      the promotion clashes with nothing. */
  lemma PromoteCommits(t: seq<SpamChannel>, guild: int, channel: int)
    requires Constrained(t) && OnePrimary(t)
    requires Get(t, GuildFlag, (guild, true)).Ok?
    requires !(Get(t, GuildFlag, (guild, true)).value.Some? && Get(t, GuildFlag, (guild, true)).value.value.channel == channel)
    requires Constrained(Demote(t, Get(t, GuildFlag, (guild, true)).value))
    ensures SetPrimary(t, guild, channel).Ok? <==> !PromotionClashes(t, guild, channel)
  {
    var d := Demote(t, Get(t, GuildFlag, (guild, true)).value);
    var k := (guild, channel);
    DemoteClears(t, guild, k);
    DemotedOthers(t, guild);
    UniqueWhere(d, ChannelKey, k);
    SetPrimaryAfterDemotion(t, guild, channel);
    PromotionCommits(t, d, guild, channel);
  }

  /** On the demoted table `d`, which agrees with `t` on other guilds and
      on how many rows the channel's key has, the promotion step commits
      exactly when `t` has no promotion clash. */
  lemma PromotionCommits(t: seq<SpamChannel>, d: seq<SpamChannel>, guild: int, channel: int)
    requires Constrained(d)
    requires Where(d, GuildFlag, (guild, true)) == []
    requires |Where(d, ChannelKey, (guild, channel))| == |Where(t, ChannelKey, (guild, channel))|
    requires forall x: SpamChannel :: x.guild != guild ==> (x in d <==> x in t)
    ensures Get(d, ChannelKey, (guild, channel)) == Ok(None) ==> !PromotionClashes(t, guild, channel)
    ensures Get(d, ChannelKey, (guild, channel)).Ok? && Get(d, ChannelKey, (guild, channel)).value.Some? ==>
      (Constrained(Promote(d, Get(d, ChannelKey, (guild, channel)).value.value)) <==> !PromotionClashes(t, guild, channel))
  {
    var k := (guild, channel);
    RegisteredIn(t, d, k);
    UniqueWhere(d, ChannelKey, k);
    if Get(d, ChannelKey, k).value.Some? {
      OtherPrimaryIn(t, d, guild, channel);
      PromotedConstrained(d, guild, channel);
    }
  }

  /** After a demotion that keeps the constraints, `set_primary` commits
      when the channel is not registered, and otherwise exactly when the
      promotion keeps the constraints. */
  lemma SetPrimaryAfterDemotion(t: seq<SpamChannel>, guild: int, channel: int)
    requires Get(t, GuildFlag, (guild, true)).Ok?
    requires !(Get(t, GuildFlag, (guild, true)).value.Some? && Get(t, GuildFlag, (guild, true)).value.value.channel == channel)
    requires Constrained(Demote(t, Get(t, GuildFlag, (guild, true)).value))
    requires Get(Demote(t, Get(t, GuildFlag, (guild, true)).value), ChannelKey, (guild, channel)).Ok?
    ensures var d := Demote(t, Get(t, GuildFlag, (guild, true)).value);
      var found := Get(d, ChannelKey, (guild, channel)).value;
      SetPrimary(t, guild, channel).Ok? <==> found.None? || Constrained(Promote(d, found.value))
  {
  }

  /** Rows of other guilds are the same in both tables, so both have the
      channel as another guild's primary or neither has. */
  lemma OtherPrimaryIn(t: seq<SpamChannel>, d: seq<SpamChannel>, guild: int, channel: int)
    requires forall x: SpamChannel :: x.guild != guild ==> (x in d <==> x in t)
    ensures (exists z :: z in d && z.guild != guild && z.channel == channel && z.primary) <==>
      (exists z :: z in t && z.guild != guild && z.channel == channel && z.primary)
  {
  }

  /** The two facts about the demotion that the promotion needs: the guild
      has no primary left, and the channel's key keeps its rows. */
  lemma DemoteClears(t: seq<SpamChannel>, guild: int, k: (int, int))
    requires OnePrimary(t)
    requires Get(t, GuildFlag, (guild, true)).Ok?
    ensures Where(Demote(t, Get(t, GuildFlag, (guild, true)).value), GuildFlag, (guild, true)) == []
    ensures |Where(Demote(t, Get(t, GuildFlag, (guild, true)).value), ChannelKey, k)| == |Where(t, ChannelKey, k)|
  {
    DemoteSpec(t, guild);
  }

  /** Demotion touches only the guild's own primary: a row of another guild
      is in the demoted table exactly when it is in the table. */
  lemma DemotedOthers(t: seq<SpamChannel>, guild: int)
    requires Unique(t, ChannelKey) && OnePrimary(t)
    requires Get(t, GuildFlag, (guild, true)).Ok?
    ensures forall x: SpamChannel :: x.guild != guild ==>
      (x in Demote(t, Get(t, GuildFlag, (guild, true)).value) <==> x in t)
  {
    var current := Get(t, GuildFlag, (guild, true)).value;
    if current.Some? {
      OverwriteMembers(t, ChannelKey, current.value.(primary := false));
    }
  }

  /** Two tables with the same number of rows under a key either both hold
      the key or both lack it. */
  lemma RegisteredIn(t: seq<SpamChannel>, d: seq<SpamChannel>, k: (int, int))
    requires |Where(d, ChannelKey, k)| == |Where(t, ChannelKey, k)|
    ensures (exists s :: s in t && ChannelKey(s) == k) <==> (exists s :: s in d && ChannelKey(s) == k)
  {
    var wt, wd := Where(t, ChannelKey, k), Where(d, ChannelKey, k);
    if exists s :: s in t && ChannelKey(s) == k {
      var s :| s in t && ChannelKey(s) == k;
      assert s in wt;
      assert wd[0] in wd;
    }
    if exists s :: s in d && ChannelKey(s) == k {
      var s :| s in d && ChannelKey(s) == k;
      assert s in wd;
      assert wt[0] in wt;
    }
  }

  /** On a table without a primary for the guild, promoting the channel
      keeps the constraints exactly when no other guild has the channel as
      its primary. */
  lemma PromotedConstrained(d: seq<SpamChannel>, guild: int, channel: int)
    requires Constrained(d)
    requires Where(d, GuildFlag, (guild, true)) == []
    requires Get(d, ChannelKey, (guild, channel)).Ok? && Get(d, ChannelKey, (guild, channel)).value.Some?
    ensures Constrained(Promote(d, Get(d, ChannelKey, (guild, channel)).value.value)) <==>
      !exists z :: z in d && z.guild != guild && z.channel == channel && z.primary
  {
    var found := Get(d, ChannelKey, (guild, channel)).value.value;
    var row := found.(primary := true);
    OverwriteUnique(d, ChannelKey, row);
    OverwriteUniqueOther(d, ChannelKey, row, ChannelFlag);
    forall x | x in d && x.channel == channel && x.primary
      ensures x.guild != guild
    {
      assert x !in Where(d, GuildFlag, (guild, true));
    }
  }

  /** What a `set_primary` that commits changes: the guild's old primary
      and the channel itself, and nothing else. At most one primary per
      guild is kept, every other guild's channels are as they were, every
      other row of the table is kept, and no channel is added or dropped. */
  lemma SetPrimaryFrame(t: seq<SpamChannel>, guild: int, channel: int)
    requires Constrained(t) && OnePrimary(t)
    requires SetPrimary(t, guild, channel).Ok?
    ensures OnePrimary(SetPrimary(t, guild, channel).value.rows)
    ensures forall g :: g != guild ==> Where(SetPrimary(t, guild, channel).value.rows, GuildOf, g) == Where(t, GuildOf, g)
    ensures forall x :: x in t && !(x.guild == guild && x.primary) && ChannelKey(x) != (guild, channel) ==>
      x in SetPrimary(t, guild, channel).value.rows
    ensures forall k :: |Where(SetPrimary(t, guild, channel).value.rows, ChannelKey, k)| == |Where(t, ChannelKey, k)|
  {
    SetPrimaryOtherGuilds(t, guild, channel);
    SetPrimaryKeepsRows(t, guild, channel);
    SetPrimaryKeepsKeys(t, guild, channel);
  }

  /** A `set_primary` that commits keeps at most one primary per guild and
      leaves the channels of every other guild as they were. */
  lemma SetPrimaryOtherGuilds(t: seq<SpamChannel>, guild: int, channel: int)
    requires Constrained(t) && OnePrimary(t)
    requires SetPrimary(t, guild, channel).Ok?
    ensures OnePrimary(SetPrimary(t, guild, channel).value.rows)
    ensures forall g :: g != guild ==> Where(SetPrimary(t, guild, channel).value.rows, GuildOf, g) == Where(t, GuildOf, g)
  {
    var current := Get(t, GuildFlag, (guild, true)).value;
    if !(current.Some? && current.value.channel == channel) {
      DemoteSpec(t, guild);
      var d := Demote(t, current);
      UniqueWhere(d, ChannelKey, (guild, channel));
      var rows := SetPrimary(t, guild, channel).value.rows;
      if Get(d, ChannelKey, (guild, channel)).value.Some? {
        var found := Get(d, ChannelKey, (guild, channel)).value.value;
        PromoteSpec(d, found);
      }
      forall g
        ensures |Where(rows, GuildFlag, (g, true))| <= 1
      {
        if g != guild {
          assert |Where(t, GuildFlag, (g, true))| <= 1;
        }
      }
    }
  }

  /** Only the guild's old primary and the channel itself can change:
      every other row is kept. */
  lemma SetPrimaryKeepsRows(t: seq<SpamChannel>, guild: int, channel: int)
    requires Constrained(t)
    requires SetPrimary(t, guild, channel).Ok?
    ensures forall x :: x in t && !(x.guild == guild && x.primary) && ChannelKey(x) != (guild, channel) ==>
      x in SetPrimary(t, guild, channel).value.rows
  {
    var current := Get(t, GuildFlag, (guild, true)).value;
    if !(current.Some? && current.value.channel == channel) {
      var d := Demote(t, current);
      if current.Some? {
        var cur := current.value;
        UniqueGet(t, ChannelKey, cur);
        GetOnly(t, ChannelKey, ChannelKey(cur));
        OverwriteMembers(t, ChannelKey, cur.(primary := false));
      }
      UniqueWhere(d, ChannelKey, (guild, channel));
      if Get(d, ChannelKey, (guild, channel)).value.Some? {
        var found := Get(d, ChannelKey, (guild, channel)).value.value;
        OverwriteMembers(d, ChannelKey, found.(primary := true));
      }
    }
  }

  /** `set_primary` neither adds nor drops a channel: every (guild,
      channel) key keeps its number of rows. */
  lemma SetPrimaryKeepsKeys(t: seq<SpamChannel>, guild: int, channel: int)
    requires Constrained(t)
    requires SetPrimary(t, guild, channel).Ok?
    ensures forall k :: |Where(SetPrimary(t, guild, channel).value.rows, ChannelKey, k)| == |Where(t, ChannelKey, k)|
  {
    var current := Get(t, GuildFlag, (guild, true)).value;
    if !(current.Some? && current.value.channel == channel) {
      var d := Demote(t, current);
      forall k
        ensures |Where(d, ChannelKey, k)| == |Where(t, ChannelKey, k)|
      {
        if current.Some? {
          OverwriteKeys(t, ChannelKey, current.value.(primary := false), k);
        }
      }
      UniqueWhere(d, ChannelKey, (guild, channel));
      if Get(d, ChannelKey, (guild, channel)).value.Some? {
        var found := Get(d, ChannelKey, (guild, channel)).value.value;
        forall k
          ensures |Where(Promote(d, found), ChannelKey, k)| == |Where(d, ChannelKey, k)|
        {
          OverwriteKeys(d, ChannelKey, found.(primary := true), k);
        }
      }
    }
  }

  /** `SpamChannel.remove`: the number of rows deleted. */
  function Remove(t: seq<SpamChannel>, guild: int, channel: int): (r: Change<SpamChannel, nat>)
    ensures Constrained(t) ==> r.out <= 1 && Constrained(r.rows)
    ensures r.out > 0 <==> exists s :: s in t && ChannelKey(s) == (guild, channel)
    ensures GetChannel(r.rows, guild, channel) == Ok(None)
    ensures OnePrimary(t) ==> OnePrimary(r.rows)
    ensures forall x :: x in r.rows <==> x in t && ChannelKey(x) != (guild, channel)
  {
    WithoutUnique(t, ChannelKey, (guild, channel), ChannelFlag);
    WithoutKeepsOnePrimary(t, (guild, channel));
    Tables.Remove(t, ChannelKey, (guild, channel))
  }

  lemma WithoutKeepsOnePrimary(t: seq<SpamChannel>, k: (int, int))
    ensures OnePrimary(t) ==> OnePrimary(Without(t, ChannelKey, k))
  {
    forall g
      ensures |Where(Without(t, ChannelKey, k), GuildFlag, (g, true))| <= |Where(t, GuildFlag, (g, true))|
    {
      WhereWithoutShrinks(t, ChannelKey, k, GuildFlag, (g, true));
    }
  }
}
