/** The preference tables of the `base` module: per-channel limits for
    user pins and user threads, bookmark switches, and auto-thread
    durations. A channel of `None` stands for the guild-wide setting and
    is a key like any other, since `channel_id == None` filters on
    `IS NULL`. None of these tables has a unique constraint. */
module BaseBase {
  import opened Results
  import opened Tables

  /** The value of an optional argument, or its default. */
  function Or<T>(o: Option<T>, default: T): (v: T)
    ensures o.Some? ==> v == o.value
    ensures o.None? ==> v == default
  {
    if o.Some? then o.value else default
  }

  /** The default `limit` of `UserPin.add` and `UserThread.add`. */
  const DefaultLimit: int := 0

  /** The default `enabled` of `Bookmark.add`. */
  const DefaultEnabled: bool := false

  // ---------------------------------------------------------------------
  // UserPin and UserThread: (guild, channel?) -> limit

  /** A row of `UserPin` or of `UserThread`, which have the same columns
      and the same operations. */
  datatype ChannelLimit = ChannelLimit(guild: int, channel: Option<int>, limit: int)

  function LimitKey(p: ChannelLimit): (int, Option<int>) { (p.guild, p.channel) }

  function LimitGuild(p: ChannelLimit): int { p.guild }

  /** `get` of `UserPin` or `UserThread`. */
  function GetLimit(t: seq<ChannelLimit>, guild: int, channel: Option<int>)
    : (r: Result<Option<ChannelLimit>, DbError>)
    ensures Unique(t, LimitKey) ==> r.Ok?
    ensures r.Ok? && r.value.Some? ==> r.value.value in t && LimitKey(r.value.value) == (guild, channel)
    ensures r == Ok(None) <==> forall p :: p in t ==> LimitKey(p) != (guild, channel)
  {
    UniqueWhere(t, LimitKey, (guild, channel));
    Get(t, LimitKey, (guild, channel))
  }

  /** `add` of `UserPin` or `UserThread`: remove what the key held, then
      insert the new limit (0 when omitted). */
  function AddLimit(t: seq<ChannelLimit>, guild: int, channel: Option<int>, limit: Option<int>)
    : (r: Result<Change<ChannelLimit, ChannelLimit>, DbError>)
    ensures r.Err? <==> GetLimit(t, guild, channel).Err?
    ensures r.Ok? ==> r.value.out == ChannelLimit(guild, channel, Or(limit, DefaultLimit))
    ensures r.Ok? ==> GetLimit(r.value.rows, guild, channel) == Ok(Some(r.value.out))
    ensures r.Ok? ==> |Where(r.value.rows, LimitKey, (guild, channel))| == 1
    ensures Unique(t, LimitKey) ==> r.Ok? && Unique(r.value.rows, LimitKey)
    ensures r.Ok? ==> forall g, c :: (g, c) != (guild, channel) ==>
      GetLimit(r.value.rows, g, c) == GetLimit(t, g, c)
  {
    var row := ChannelLimit(guild, channel, Or(limit, DefaultLimit));
    var r := Replace(t, LimitKey, row);
    if r.Ok? then
      assert row in Where(r.value.rows, LimitKey, (guild, channel));
      r
    else r
  }

  /** Adding the same limit twice leaves one entry. */
  lemma AddLimitTwice(t: seq<ChannelLimit>, guild: int, channel: Option<int>, limit: Option<int>)
    requires AddLimit(t, guild, channel, limit).Ok?
    ensures AddLimit(AddLimit(t, guild, channel, limit).value.rows, guild, channel, limit)
      == AddLimit(t, guild, channel, limit)
  {
    ReplaceTwice(t, LimitKey, ChannelLimit(guild, channel, Or(limit, DefaultLimit)));
  }

  /** `get_all` of `UserPin` or `UserThread`. */
  function AllLimits(t: seq<ChannelLimit>, guild: int): (s: seq<ChannelLimit>)
    ensures forall p :: p in s <==> p in t && p.guild == guild
  {
    Where(t, LimitGuild, guild)
  }

  /** `remove` of `UserPin` or `UserThread`: the number of rows deleted. */
  function RemoveLimit(t: seq<ChannelLimit>, guild: int, channel: Option<int>): (r: Change<ChannelLimit, nat>)
    ensures r.out > 0 <==> exists p :: p in t && LimitKey(p) == (guild, channel)
    ensures Unique(t, LimitKey) ==> r.out <= 1 && Unique(r.rows, LimitKey)
    ensures GetLimit(r.rows, guild, channel) == Ok(None)
    ensures forall g, c :: (g, c) != (guild, channel) ==> GetLimit(r.rows, g, c) == GetLimit(t, g, c)
  {
    Remove(t, LimitKey, (guild, channel))
  }

  // ---------------------------------------------------------------------
  // Bookmark: (guild, channel?) -> enabled

  datatype Bookmark = Bookmark(guild: int, channel: Option<int>, enabled: bool)

  function BookmarkKey(b: Bookmark): (int, Option<int>) { (b.guild, b.channel) }

  function BookmarkGuild(b: Bookmark): int { b.guild }

  /** `Bookmark.get`. */
  function GetBookmark(t: seq<Bookmark>, guild: int, channel: Option<int>)
    : (r: Result<Option<Bookmark>, DbError>)
    ensures Unique(t, BookmarkKey) ==> r.Ok?
    ensures r.Ok? && r.value.Some? ==> r.value.value in t && BookmarkKey(r.value.value) == (guild, channel)
    ensures r == Ok(None) <==> forall b :: b in t ==> BookmarkKey(b) != (guild, channel)
  {
    UniqueWhere(t, BookmarkKey, (guild, channel));
    Get(t, BookmarkKey, (guild, channel))
  }

  /** `Bookmark.add`: remove what the key held, then insert the new switch
      (off when omitted). */
  function AddBookmark(t: seq<Bookmark>, guild: int, channel: Option<int>, enabled: Option<bool>)
    : (r: Result<Change<Bookmark, Bookmark>, DbError>)
    ensures r.Err? <==> GetBookmark(t, guild, channel).Err?
    ensures r.Ok? ==> r.value.out == Bookmark(guild, channel, Or(enabled, DefaultEnabled))
    ensures r.Ok? ==> GetBookmark(r.value.rows, guild, channel) == Ok(Some(r.value.out))
    ensures r.Ok? ==> |Where(r.value.rows, BookmarkKey, (guild, channel))| == 1
    ensures Unique(t, BookmarkKey) ==> r.Ok? && Unique(r.value.rows, BookmarkKey)
    ensures r.Ok? ==> forall g, c :: (g, c) != (guild, channel) ==>
      GetBookmark(r.value.rows, g, c) == GetBookmark(t, g, c)
  {
    var row := Bookmark(guild, channel, Or(enabled, DefaultEnabled));
    var r := Replace(t, BookmarkKey, row);
    if r.Ok? then
      assert row in Where(r.value.rows, BookmarkKey, (guild, channel));
      r
    else r
  }

  /** Adding the same bookmark switch twice leaves one entry. */
  lemma AddBookmarkTwice(t: seq<Bookmark>, guild: int, channel: Option<int>, enabled: Option<bool>)
    requires AddBookmark(t, guild, channel, enabled).Ok?
    ensures AddBookmark(AddBookmark(t, guild, channel, enabled).value.rows, guild, channel, enabled)
      == AddBookmark(t, guild, channel, enabled)
  {
    ReplaceTwice(t, BookmarkKey, Bookmark(guild, channel, Or(enabled, DefaultEnabled)));
  }

  /** `Bookmark.get_all`. */
  function AllBookmarks(t: seq<Bookmark>, guild: int): (s: seq<Bookmark>)
    ensures forall b :: b in s <==> b in t && b.guild == guild
  {
    Where(t, BookmarkGuild, guild)
  }

  /** `Bookmark.remove`: the number of rows deleted. */
  function RemoveBookmark(t: seq<Bookmark>, guild: int, channel: Option<int>): (r: Change<Bookmark, nat>)
    ensures r.out > 0 <==> exists b :: b in t && BookmarkKey(b) == (guild, channel)
    ensures Unique(t, BookmarkKey) ==> r.out <= 1 && Unique(r.rows, BookmarkKey)
    ensures GetBookmark(r.rows, guild, channel) == Ok(None)
    ensures forall g, c :: (g, c) != (guild, channel) ==> GetBookmark(r.rows, g, c) == GetBookmark(t, g, c)
  {
    Remove(t, BookmarkKey, (guild, channel))
  }

  // ---------------------------------------------------------------------
  // AutoThread: (guild, channel) -> duration

  datatype AutoThread = AutoThread(guild: int, channel: int, duration: int)

  function ThreadKey(a: AutoThread): (int, int) { (a.guild, a.channel) }

  function ThreadGuild(a: AutoThread): int { a.guild }

  /** `AutoThread.get`. */
  function GetAutoThread(t: seq<AutoThread>, guild: int, channel: int)
    : (r: Result<Option<AutoThread>, DbError>)
    ensures Unique(t, ThreadKey) ==> r.Ok?
    ensures r.Ok? && r.value.Some? ==> r.value.value in t && ThreadKey(r.value.value) == (guild, channel)
    ensures r == Ok(None) <==> forall a :: a in t ==> ThreadKey(a) != (guild, channel)
  {
    UniqueWhere(t, ThreadKey, (guild, channel));
    Get(t, ThreadKey, (guild, channel))
  }

  /** `AutoThread.add`: overwrite the duration of the existing row, or add
      a row. */
  function AddAutoThread(t: seq<AutoThread>, guild: int, channel: int, duration: int)
    : (r: Result<Change<AutoThread, AutoThread>, DbError>)
    ensures r.Err? <==> GetAutoThread(t, guild, channel).Err?
    ensures r.Ok? ==> r.value.out == AutoThread(guild, channel, duration)
    ensures r.Ok? ==> GetAutoThread(r.value.rows, guild, channel) == Ok(Some(AutoThread(guild, channel, duration)))
    ensures Unique(t, ThreadKey) ==> r.Ok? && Unique(r.value.rows, ThreadKey)
    ensures r.Ok? ==> forall g, c :: (g, c) != (guild, channel) ==>
      GetAutoThread(r.value.rows, g, c) == GetAutoThread(t, g, c)
  {
    Upsert(t, ThreadKey, AutoThread(guild, channel, duration))
  }

  /** Adding the same duration twice leaves one entry. */
  lemma AddAutoThreadTwice(t: seq<AutoThread>, guild: int, channel: int, duration: int)
    requires AddAutoThread(t, guild, channel, duration).Ok?
    ensures AddAutoThread(AddAutoThread(t, guild, channel, duration).value.rows, guild, channel, duration)
      == AddAutoThread(t, guild, channel, duration)
  {
    UpsertTwice(t, ThreadKey, AutoThread(guild, channel, duration));
  }

  /** `AutoThread.get_all`. */
  function AllAutoThreads(t: seq<AutoThread>, guild: int): (s: seq<AutoThread>)
    ensures forall a :: a in s <==> a in t && a.guild == guild
  {
    Where(t, ThreadGuild, guild)
  }

  /** `AutoThread.remove`: the number of rows deleted. */
  function RemoveAutoThread(t: seq<AutoThread>, guild: int, channel: int): (r: Change<AutoThread, nat>)
    ensures r.out > 0 <==> exists a :: a in t && ThreadKey(a) == (guild, channel)
    ensures Unique(t, ThreadKey) ==> r.out <= 1 && Unique(r.rows, ThreadKey)
    ensures GetAutoThread(r.rows, guild, channel) == Ok(None)
    ensures forall g, c :: (g, c) != (guild, channel) ==> GetAutoThread(r.rows, g, c) == GetAutoThread(t, g, c)
  {
    Remove(t, ThreadKey, (guild, channel))
  }
}
