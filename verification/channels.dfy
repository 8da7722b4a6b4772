/**
 * The channel store of `src/utils/dbmsg.js`: the `channels` SQLite table
 * held in memory. Each row keeps its member list and its message log as
 * JSON text; here a column is either the list that text parses to or a
 * text that `JSON.parse` rejects. The read-only queries are functions of
 * the table contents; INSERT and the read-modify-write of the log are
 * methods of a class whose field is the table.
 */
module Channels {
  import opened Tables
  import opened JsonText

  /** One entry of a channel's log; `id` is the sender's `Date.now()`. */
  datatype Message = Message(id: int, idOfSender: int, message: string, timestamp: string)

  /** The `users` column: a parsed list of user ids, or unparseable text. */
  datatype MemberList = MemberIds(ids: seq<int>) | MembersUnparseable(text: string)

  /** The `messages` column: a parsed log, or text that does not parse to one. */
  datatype MessageLog = Entries(messages: seq<Message>) | LogUnparseable(text: string)

  datatype Channel = Channel(id: nat, users: MemberList, messages: MessageLog)

  datatype Reason =
    | ChannelNotFound     // 'Channel not found'
    | InvalidChannelData  // 'Invalid channel data response: ' followed by the parser's message

  /** The (isInChannel, reason) pair `isUserInChannel` hands its callback. */
  datatype Membership = Membership(inChannel: bool, reason: Option<Reason>)

  /** The stored text of the `users` column. */
  function UsersText(m: MemberList): string
  {
    match m
    case MemberIds(ids) => EncodeIds(ids)
    case MembersUnparseable(text) => text
  }

  /** The row's member list parses and `includes` the user id. */
  predicate Lists(c: Channel, userId: int)
  {
    c.users.MemberIds? && userId in c.users.ids
  }

  /** AUTOINCREMENT ids: ascending in rowid order, never above the last id handed out. */
  ghost predicate ChannelsTable(channels: seq<Channel>, lastId: nat)
  {
    && (forall i :: 0 <= i < |channels| ==> 1 <= channels[i].id <= lastId)
    && (forall i, j :: 0 <= i < j < |channels| ==> channels[i].id < channels[j].id)
  }

  /**
   * `isUserInChannel`: `false` with 'Channel not found' for an absent id,
   * `false` with an invalid-data reason when the member list does not
   * parse, and otherwise whether the list includes the user, with no reason.
   */
  function IsUserInChannel(channels: seq<Channel>, channelId: int, userId: int): (m: Membership)
    ensures m.reason == Some(ChannelNotFound) <==> forall i :: 0 <= i < |channels| ==> channels[i].id != channelId
    ensures m.reason == Some(ChannelNotFound) ==> !m.inChannel
    ensures m.reason == Some(InvalidChannelData) ==> (!m.inChannel
      && exists i :: 0 <= i < |channels| && channels[i].id == channelId && channels[i].users.MembersUnparseable?)
    ensures m.inChannel ==> (m.reason.None?
      && exists i :: 0 <= i < |channels| && channels[i].id == channelId && Lists(channels[i], userId))
  {
    match FirstIndex(channels, (c: Channel) => c.id == channelId)
    case None => Membership(false, Some(ChannelNotFound))
    case Some(i) =>
      match channels[i].users
      case MemberIds(ids) => Membership(userId in ids, None)
      case MembersUnparseable(_) => Membership(false, Some(InvalidChannelData))
  }

  /** In a table whose ids are distinct, the answer is about the row with that id. */
  lemma IsUserInChannelRow(channels: seq<Channel>, lastId: nat, i: nat, userId: int)
    requires ChannelsTable(channels, lastId) && i < |channels|
    ensures IsUserInChannel(channels, channels[i].id, userId)
      == match channels[i].users
         case MemberIds(ids) => Membership(userId in ids, None)
         case MembersUnparseable(_) => Membership(false, Some(InvalidChannelData))
  {
    var cid := channels[i].id;
    var f := FirstIndex(channels, (c: Channel) => c.id == cid);
    if f.value != i {
      assert false;
    }
  }

  /** A new row takes an id above every stored one, so it is the row that id finds. */
  lemma {:induction false} CreatedChannelMembership(channels: seq<Channel>, lastId: nat, userIds: seq<int>, userId: int)
    requires ChannelsTable(channels, lastId)
    ensures IsUserInChannel(channels + [Channel(lastId + 1, MemberIds(userIds), Entries([]))], lastId + 1, userId)
      == Membership(userId in userIds, None)
  {
    var t := channels + [Channel(lastId + 1, MemberIds(userIds), Entries([]))];
    assert ChannelsTable(t, lastId + 1);
    IsUserInChannelRow(t, lastId + 1, |channels|, userId);
  }

  /**
   * The answer depends only on the ids and member lists of the rows: rows
   * added after, under other ids, and changes to the logs leave it as it was.
   */
  lemma MembershipUnchanged(a: seq<Channel>, b: seq<Channel>, channelId: int, userId: int)
    requires |a| <= |b|
    requires forall i :: 0 <= i < |a| ==> b[i].id == a[i].id && b[i].users == a[i].users
    requires forall i :: |a| <= i < |b| ==> b[i].id != channelId
    ensures IsUserInChannel(b, channelId, userId) == IsUserInChannel(a, channelId, userId)
  {
    var fa := FirstIndex(a, (c: Channel) => c.id == channelId);
    var fb := FirstIndex(b, (c: Channel) => c.id == channelId);
    if fa.Some? && fb.Some? {
      if fa.value != fb.value {
        assert false;
      }
    } else if fa.Some? || fb.Some? {
      assert false;
    }
  }

  /** `SELECT * FROM channels WHERE users LIKE '%<pattern>%'` */
  function LikeChannels(channels: seq<Channel>, pattern: string): (rows: seq<Channel>)
    ensures forall c :: c in rows <==> c in channels && Contains(UsersText(c.users), pattern)
  {
    if |channels| == 0 then []
    else if Contains(UsersText(channels[0].users), pattern) then [channels[0]] + LikeChannels(channels[1..], pattern)
    else LikeChannels(channels[1..], pattern)
  }

  /** The reference: the rows, in rowid order, whose parsed member list includes the user. */
  function MemberChannels(channels: seq<Channel>, userId: int): (rows: seq<Channel>)
    ensures |rows| <= |channels|
    ensures forall c :: c in rows <==> c in channels && Lists(c, userId)
  {
    if |channels| == 0 then []
    else if Lists(channels[0], userId) then [channels[0]] + MemberChannels(channels[1..], userId)
    else MemberChannels(channels[1..], userId)
  }

  /** The LIKE pre-filter drops no row the exact membership filter keeps. */
  lemma {:induction false} PrefilterKeepsMembers(channels: seq<Channel>, userId: int)
    ensures MemberChannels(LikeChannels(channels, IntToString(userId)), userId) == MemberChannels(channels, userId)
  {
    if |channels| > 0 {
      PrefilterKeepsMembers(channels[1..], userId);
      if Lists(channels[0], userId) {
        EncodedIdsContainMember(channels[0].users.ids, userId);
      }
    }
  }

  /**
   * `getUserChannels`: the LIKE pre-filter on the stored text, then the
   * `rows.filter` that parses each member list and keeps it if it includes
   * the user; a row whose list does not parse is dropped.
   */
  function GetUserChannels(channels: seq<Channel>, userId: int): (rows: seq<Channel>)
    ensures rows == MemberChannels(channels, userId)
    ensures forall c :: c in rows <==> c in channels && c.users.MemberIds? && userId in c.users.ids
  {
    PrefilterKeepsMembers(channels, userId);
    MemberChannels(LikeChannels(channels, IntToString(userId)), userId)
  }

  /** The log `JSON.parse` yields before the push: the stored one, or `[]` if it does not parse. */
  function PriorMessages(log: MessageLog): seq<Message>
  {
    match log
    case Entries(messages) => messages
    case LogUnparseable(_) => []
  }

  /** The log after `messages.push(newMessage)` and the write-back of the whole array. */
  function Appended(log: MessageLog, m: Message): (r: MessageLog)
    ensures r.Entries? && |r.messages| >= 1 && r.messages[|r.messages| - 1] == m
    ensures log.Entries? ==> r.messages[..|r.messages| - 1] == log.messages
    ensures log.LogUnparseable? ==> r.messages == [m]
  {
    Entries(PriorMessages(log) + [m])
  }

  class ChannelStore {
    var channels: seq<Channel>
    /** The AUTOINCREMENT counter (`sqlite_sequence`) of the table. */
    var lastChannelId: nat

    ghost predicate Valid()
      reads this
    {
      ChannelsTable(channels, lastChannelId)
    }

    /** The table as `CREATE TABLE IF NOT EXISTS` leaves a new database. */
    constructor ()
      ensures Valid() && channels == [] && lastChannelId == 0
    {
      channels, lastChannelId := [], 0;
    }

    /**
     * An existing database file, which `CREATE TABLE IF NOT EXISTS` leaves as
     * it is; its rows may hold text that does not parse.
     */
    constructor Open(channels: seq<Channel>, lastChannelId: nat)
      requires ChannelsTable(channels, lastChannelId)
      ensures Valid() && this.channels == channels && this.lastChannelId == lastChannelId
    {
      this.channels, this.lastChannelId := channels, lastChannelId;
    }

    /**
     * `createChannel`: INSERT of the member list and an empty log; the new
     * row's id is returned. The list may be empty and need not contain the
     * caller.
     */
    method CreateChannel(userIds: seq<int>) returns (id: nat)
      requires Valid()
      modifies this
      ensures Valid()
      ensures id == lastChannelId == old(lastChannelId) + 1
      ensures channels == old(channels) + [Channel(id, MemberIds(userIds), Entries([]))]
      ensures forall c :: c in old(channels) ==> c.id < id
      ensures forall u :: IsUserInChannel(channels, id, u) == Membership(u in userIds, None)
      ensures forall u :: u in userIds <==> Channel(id, MemberIds(userIds), Entries([])) in GetUserChannels(channels, u)
      ensures forall cid, u :: cid != id ==> IsUserInChannel(channels, cid, u) == IsUserInChannel(old(channels), cid, u)
    {
      forall u ensures IsUserInChannel(channels + [Channel(lastChannelId + 1, MemberIds(userIds), Entries([]))],
                                       lastChannelId + 1, u) == Membership(u in userIds, None) {
        CreatedChannelMembership(channels, lastChannelId, userIds, u);
      }
      lastChannelId := lastChannelId + 1;
      channels := channels + [Channel(lastChannelId, MemberIds(userIds), Entries([]))];
      id := lastChannelId;
      forall cid, u | cid != id
        ensures IsUserInChannel(channels, cid, u) == IsUserInChannel(old(channels), cid, u)
      {
        MembershipUnchanged(old(channels), channels, cid, u);
      }
    }

    /**
     * `addMessageToChannel`: reads the log of the row with that id (or `[]`
     * if there is no row or it does not parse), appends the new message and
     * writes the whole log back to the row with that id. When no row has
     * that id the UPDATE changes nothing, and the message id is returned
     * all the same.
     */
    method AddMessageToChannel(channelId: int, senderId: int, message: string, now: nat, timestamp: string)
      returns (id: int)
      requires Valid()
      modifies this
      ensures Valid()
      ensures id == now
      ensures lastChannelId == old(lastChannelId) && |channels| == |old(channels)|
      ensures forall i :: 0 <= i < |channels| ==>
        channels[i].id == old(channels)[i].id && channels[i].users == old(channels)[i].users
      ensures forall i :: 0 <= i < |channels| && old(channels)[i].id != channelId ==> channels[i] == old(channels)[i]
      ensures forall i :: 0 <= i < |channels| && old(channels)[i].id == channelId ==>
        channels[i].messages == Appended(old(channels)[i].messages, Message(now, senderId, message, timestamp))
      ensures (forall i :: 0 <= i < |channels| ==> old(channels)[i].id != channelId) ==> channels == old(channels)
      ensures forall cid, u :: IsUserInChannel(channels, cid, u) == IsUserInChannel(old(channels), cid, u)
    {
      var newMessage := Message(now, senderId, message, timestamp);
      var row := FirstIndex(channels, (c: Channel) => c.id == channelId);
      var messages := if row.Some? then PriorMessages(channels[row.value].messages) else [];
      messages := messages + [newMessage];
      if row.Some? {
        var i := row.value;
        channels := channels[i := channels[i].(messages := Entries(messages))];
      }
      id := newMessage.id;
      forall cid, u ensures IsUserInChannel(channels, cid, u) == IsUserInChannel(old(channels), cid, u) {
        MembershipUnchanged(old(channels), channels, cid, u);
      }
    }
  }
}
