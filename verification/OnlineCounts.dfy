/** The online counters of contacts and groups: purple_buddy_update_status() of libpurple/buddy.c
    adjusts them by one when a buddy signs on or off, libpurple/buddylist.c when an account's
    connection opens or closes.

    What a status change looks like comes from libpurple/status.c and libpurple/protocols.c: a buddy
    has exclusive statuses, of which one is active, and independent ones such as tune and mood; the
    presence's active status is whichever was set last, of either kind. */
module OnlineCounts {
  import opened Basics
  import opened Counting

  datatype BuddyId = BuddyId(n: nat)
  datatype ContactId = ContactId(n: nat)
  datatype GroupId = GroupId(n: nat)
  datatype ChatId = ChatId(n: nat)

  // `online` is what its primitive says, whether it is active or not.
  datatype Status = Status(name: nat, online: bool, independent: bool)

  // The presence's active status, and the statuses whose active flag is set.
  datatype Presence = Presence(active: Status, flagged: set<Status>)

  // purple_status_set_active_with_attrs_dict() with TRUE; `changed` is whether an attribute changes
  function Activated(p: Presence, s: Status, changed: bool): Presence {
    if s in p.flagged && !changed then p
    else Presence(s, (if s.independent then p.flagged else p.flagged - {p.active}) + {s})
  }

  // A report that changes anything makes its status the active one.  Of the others only the active
  // one before loses its flag, and only for an exclusive status: so after an independent one the
  // exclusive status it hides keeps its flag for good.
  lemma ActivatedIsActive(p: Presence, s: Status, changed: bool, x: Status)
    ensures var q := Activated(p, s, changed);
            && (changed || s !in p.flagged ==> q.active == s && s in q.flagged)
            && (!changed && s in p.flagged ==> q == p)
            && (x != s ==>
                  (x in q.flagged <==>
                   x in p.flagged && (s.independent || x != p.active || (!changed && s in p.flagged))))
  {}

  // The online buddies, each with its contact.
  ghost function OnlineBuddies(contactOf: map<BuddyId, ContactId>, online: set<BuddyId>): map<BuddyId, ContactId> {
    map b | b in online && b in contactOf :: contactOf[b]
  }

  // The contacts with a count, each with its group.
  ghost function OnlineContacts(groupOf: map<ContactId, GroupId>, count: map<ContactId, int>): map<ContactId, GroupId> {
    map c | c in groupOf && Count(count, c) != 0 :: groupOf[c]
  }

  // `count` is how many of the table's keys name each value.
  ghost predicate Counts<K(!new), V(!new)>(count: map<V, int>, m: map<K, V>) {
    forall v: V {:trigger Count(count, v)} :: Count(count, v) == Named(m, v)
  }

  // A group counts its contacts with a count, and its chats of connected accounts.
  ghost predicate GroupsCount(
    count: map<GroupId, int>, contacts: map<ContactId, GroupId>, chats: map<ChatId, GroupId>)
  {
    forall g: GroupId {:trigger Count(count, g)} :: Count(count, g) == Named(contacts, g) + Named(chats, g)
  }

  lemma CountsAfterPut<K(!new), V(!new)>(
    count: map<V, int>, m: map<K, V>, count': map<V, int>, k: K, v: Option<V>, delta: int, at: V)
    requires Counts(count, m)
    requires forall x: V :: Count(count', x) == Count(count, x) + if x == at then delta else 0
    requires Get(m, k).Some? ==> Get(m, k) == Some(at)
    requires v.Some? ==> v == Some(at)
    ensures Counts(count', Put(m, k, v)) <==> delta == One(v.Some?) - One(Get(m, k).Some?)
  {
    forall x: V
      ensures Named(Put(m, k, v), x) == Named(m, x) - One(Get(m, k) == Some(x)) + One(v == Some(x))
    {
      NamedAfterPut(m, k, v, x);
    }
    assert Count(count', at) == Count(count, at) + delta;
  }

  lemma GroupsCountAfterContact(
    count: map<GroupId, int>, contacts: map<ContactId, GroupId>, chats: map<ChatId, GroupId>,
    count': map<GroupId, int>, c: ContactId, v: Option<GroupId>)
    requires GroupsCount(count, contacts, chats)
    requires forall g: GroupId :: Count(count', g) ==
               Count(count, g) - One(Get(contacts, c) == Some(g)) + One(v == Some(g))
    ensures GroupsCount(count', Put(contacts, c, v), chats)
  {
    forall g: GroupId ensures Count(count', g) == Named(Put(contacts, c, v), g) + Named(chats, g) {
      NamedAfterPut(contacts, c, v, g);
    }
  }

  lemma GroupsCountAfterChat(
    count: map<GroupId, int>, contacts: map<ContactId, GroupId>, chats: map<ChatId, GroupId>,
    count': map<GroupId, int>, c: ChatId, v: Option<GroupId>)
    requires GroupsCount(count, contacts, chats)
    requires forall g: GroupId :: Count(count', g) ==
               Count(count, g) - One(Get(chats, c) == Some(g)) + One(v == Some(g))
    ensures GroupsCount(count', contacts, Put(chats, c, v))
  {
    forall g: GroupId ensures Count(count', g) == Named(contacts, g) + Named(Put(chats, c, v), g) {
      NamedAfterPut(chats, c, v, g);
    }
  }

  // What the protocol reports, and connections that open and close.
  datatype Event =
    | Got(buddy: BuddyId, s: Status, changed: bool)
    | Deactivated(buddy: BuddyId, s: Status)
    | Opened(buddies: seq<BuddyId>, joined: seq<(ChatId, GroupId)>)
    | Closed(buddies: seq<BuddyId>, rooms: seq<ChatId>)

  class CountingNodes {
    const contactOf: map<BuddyId, ContactId>
    const groupOf: map<ContactId, GroupId>
    var presence: map<BuddyId, Presence>
    var connected: set<BuddyId>          // the buddies of connected accounts
    var chats: map<ChatId, GroupId>      // the chats of connected accounts
    var contactCount: map<ContactId, int>
    var groupCount: map<GroupId, int>

    // purple_presence_is_online()
    predicate Present(b: BuddyId)
      reads `presence
    {
      b in presence && presence[b].active.online
    }

    // PURPLE_BUDDY_IS_ONLINE
    ghost function Online(): set<BuddyId>
      reads `presence, `connected
    {
      set b | b in connected && Present(b)
    }

    // A contact counts its online buddies, and a group its contacts whose count is not zero and
    // its chats of connected accounts.
    ghost predicate Ok()
      reads this
    {
      && Counts(contactCount, OnlineBuddies(contactOf, Online()))
      && GroupsCount(groupCount, OnlineContacts(groupOf, contactCount), chats)
    }

    predicate Placed(b: BuddyId) {
      b in contactOf && contactOf[b] in groupOf
    }

    // Nobody is connected.
    constructor (contactOf: map<BuddyId, ContactId>, groupOf: map<ContactId, GroupId>, presence: map<BuddyId, Presence>)
      ensures Ok() && this.contactOf == contactOf && this.groupOf == groupOf && this.presence == presence
      ensures connected == {} && chats == map[] && contactCount == map[]
    {
      this.contactOf, this.groupOf, this.presence := contactOf, groupOf, presence;
      connected, chats, contactCount, groupCount := {}, map[], map[], map[];
      new;
      NothingNamed(OnlineBuddies(contactOf, Online()));
      NothingNamed(OnlineContacts(groupOf, contactCount));
      NothingNamed(chats);
    }

    static lemma NothingNamed<K(!new), V(!new)>(m: map<K, V>)
      ensures m == map[] ==> forall v: V :: Named(m, v) == 0
    {
      forall v: V ensures m == map[] ==> Named(m, v) == 0 {
        assert m == map[] ==> Namers(m, v) == {};
      }
    }

    // purple_counting_node_change_online_count() of a contact and, should its count come to or
    // leave zero, of its group.  That suits the group as long as no count is negative.
    method ChangeOnlineCounts(contact: ContactId, delta: int)
      requires contact in groupOf && (delta == 1 || delta == -1)
      modifies `contactCount, `groupCount
      ensures contactCount == old(contactCount)[contact := Count(old(contactCount), contact) + delta]
      ensures Count(old(contactCount), contact) >= 0 && Count(contactCount, contact) >= 0 &&
              old(GroupsCount(groupCount, OnlineContacts(groupOf, contactCount), chats)) ==>
                GroupsCount(groupCount, OnlineContacts(groupOf, contactCount), chats)
    {
      var group := groupOf[contact];
      ghost var was := OnlineContacts(groupOf, contactCount);
      contactCount := contactCount[contact := Count(contactCount, contact) + delta];
      if Count(contactCount, contact) == if delta == 1 then 1 else 0 {
        groupCount := groupCount[group := Count(groupCount, group) + delta];
      }
      ghost var now := if Count(contactCount, contact) != 0 then Some(group) else None;
      assert OnlineContacts(groupOf, contactCount) == Put(was, contact, now);
      if Count(old(contactCount), contact) >= 0 && Count(contactCount, contact) >= 0 &&
         GroupsCount(old(groupCount), was, chats)
      {
        GroupsCountAfterContact(old(groupCount), was, chats, groupCount, contact, now);
      }
    }

    // A buddy's contact, and maybe its group, are counted up or down; `was` is who was online.
    method Adjust(buddy: BuddyId, delta: int, ghost was: set<BuddyId>)
      requires Placed(buddy) && (delta == 1 || delta == -1)
      requires Counts(contactCount, OnlineBuddies(contactOf, was))
      requires GroupsCount(groupCount, OnlineContacts(groupOf, contactCount), chats)
      requires Online() == was + {buddy} || Online() == was - {buddy}
      modifies `contactCount, `groupCount
      ensures Ok() <==> delta == One(buddy in Online()) - One(buddy in was)
      ensures contactCount == old(contactCount)[contactOf[buddy] := Count(old(contactCount), contactOf[buddy]) + delta]
    {
      var contact := contactOf[buddy];
      assert Count(contactCount, contact) >= 0;
      ChangeOnlineCounts(contact, delta);
      ContactsExactly(old(contactCount), buddy, delta, was);
      assert Counts(contactCount, OnlineBuddies(contactOf, Online())) ==> Count(contactCount, contact) >= 0;
    }

    lemma ContactsExactly(before: map<ContactId, int>, buddy: BuddyId, delta: int, was: set<BuddyId>)
      requires Placed(buddy) && Counts(before, OnlineBuddies(contactOf, was))
      requires Online() == was + {buddy} || Online() == was - {buddy}
      requires forall c: ContactId ::
                 Count(contactCount, c) == Count(before, c) + if c == contactOf[buddy] then delta else 0
      ensures Counts(contactCount, OnlineBuddies(contactOf, Online())) <==>
              delta == One(buddy in Online()) - One(buddy in was)
    {
      var contact := contactOf[buddy];
      var old_table, now := OnlineBuddies(contactOf, was), if buddy in Online() then Some(contact) else None;
      assert OnlineBuddies(contactOf, Online()) == Put(old_table, buddy, now);
      CountsAfterPut(before, old_table, contactCount, buddy, now, delta, contact);
    }

    // purple_buddy_update_status(), the presence having changed to `now`: exact counts stay exact
    // exactly if the old status that the caller passes is the one the presence had before, of a
    // buddy of a connected account, or as good as the new one, of another.
    method UpdateStatus(buddy: BuddyId, now: Presence, old_status: bool)
      requires Ok() && Placed(buddy)
      modifies `presence, `contactCount, `groupCount
      ensures presence == old(presence)[buddy := now]
      ensures Ok() <==> old_status == if buddy in connected then old(Present(buddy)) else now.active.online
      ensures var c := contactOf[buddy];
              Count(contactCount, c) == old(Count(contactCount, c)) + One(now.active.online) - One(old_status)
    {
      ghost var was := Online();
      presence := presence[buddy := now];
      assert Online() == (if buddy in connected && Present(buddy) then was + {buddy} else was - {buddy});
      var status := now.active.online;
      if status && !old_status {
        Adjust(buddy, 1, was);
      } else if !status && old_status {
        Adjust(buddy, -1, was);
      } else {
        ContactsExactly(contactCount, buddy, 0, was);
      }
    }

    // purple_protocol_got_user_status(), for one buddy: the old status is what the presence had.
    method GotUserStatus(buddy: BuddyId, s: Status, changed: bool)
      requires Ok() && Placed(buddy) && buddy in presence
      modifies `presence, `contactCount, `groupCount
      ensures presence == old(presence)[buddy := Activated(old(presence)[buddy], s, changed)]
      ensures Ok() <==> buddy in connected || Present(buddy) == old(Present(buddy))
      ensures var c := contactOf[buddy];
              Count(contactCount, c) == old(Count(contactCount, c)) + One(Present(buddy)) - One(old(Present(buddy)))
      ensures changed || s !in old(presence)[buddy].flagged ==>
                presence[buddy].active == s && s in presence[buddy].flagged
      ensures !changed && s in old(presence)[buddy].flagged ==> presence == old(presence)
    {
      UpdateStatus(buddy, Activated(presence[buddy], s, changed), presence[buddy].active.online);
    }

    // purple_protocol_got_user_status_deactive(), for one buddy.  The status stays as it is, since
    // purple_status_set_active() passes no attributes and is refused for that; and it is passed
    // as the old status, whatever the presence's active one is.
    method GotUserStatusDeactive(buddy: BuddyId, s: Status)
      requires Ok() && Placed(buddy) && buddy in presence
      modifies `presence, `contactCount, `groupCount
      ensures presence == old(presence)
      ensures Ok() <==> s !in presence[buddy].flagged || s.online == Present(buddy)
      ensures s in presence[buddy].flagged ==>
                var c := contactOf[buddy];
                Count(contactCount, c) == old(Count(contactCount, c)) + One(Present(buddy)) - One(s.online)
    {
      if s in presence[buddy].flagged {
        assert presence[buddy := presence[buddy]] == presence;
        UpdateStatus(buddy, presence[buddy], s.online);
      }
    }

    // ----- connections -----

    // The chats of an account that connects, and those of one that disconnects.
    method AddChat(chat: ChatId, group: GroupId)
      requires chat !in chats
      requires GroupsCount(groupCount, OnlineContacts(groupOf, contactCount), chats)
      modifies `chats, `groupCount
      ensures chats == old(chats)[chat := group]
      ensures GroupsCount(groupCount, OnlineContacts(groupOf, contactCount), chats)
    {
      ghost var contacts := OnlineContacts(groupOf, contactCount);
      groupCount := groupCount[group := Count(groupCount, group) + 1];
      chats := chats[chat := group];
      GroupsCountAfterChat(old(groupCount), contacts, old(chats), groupCount, chat, Some(group));
    }

    method RemoveChat(chat: ChatId)
      requires Ok() && chat in chats
      modifies `chats, `groupCount
      ensures Ok() && chats == old(chats) - {chat}
    {
      ghost var contacts := OnlineContacts(groupOf, contactCount);
      var group := chats[chat];
      groupCount := groupCount[group := Count(groupCount, group) - 1];
      chats := chats - {chat};
      GroupsCountAfterChat(old(groupCount), contacts, old(chats), groupCount, chat, None);
    }

    // purple_blist_remove_account(): the online buddies are counted down.  Their presences are not
    // set offline, since purple_presence_set_status_active() is refused like the above.
    method RemoveAccount(buddies: seq<BuddyId>, rooms: seq<ChatId>)
      requires Ok() && Distinct(buddies) && Distinct(rooms)
      requires forall b :: b in buddies ==> Placed(b) && b in connected
      requires forall c :: c in rooms ==> c in chats
      modifies `connected, `chats, `contactCount, `groupCount
      ensures Ok()
      ensures connected == old(connected) - (set b | b in buddies) && chats == old(chats) - (set c | c in rooms)
    {
      for k := 0 to |buddies|
        invariant Ok() && chats == old(chats)
        invariant connected == old(connected) - (set b | b in buddies[..k])
      {
        assert buddies[..k + 1] == buddies[..k] + [buddies[k]] && buddies[k] !in buddies[..k];
        RemoveBuddy(buddies[k]);
      }
      assert buddies[..|buddies|] == buddies;
      for k := 0 to |rooms|
        invariant Ok() && connected == old(connected) - (set b | b in buddies)
        invariant chats == old(chats) - (set c | c in rooms[..k])
      {
        assert rooms[..k + 1] == rooms[..k] + [rooms[k]] && rooms[k] !in rooms[..k];
        RemoveChat(rooms[k]);
      }
      assert rooms[..|rooms|] == rooms;
    }

    method RemoveBuddy(b: BuddyId)
      requires Ok() && Placed(b) && b in connected
      modifies `connected, `contactCount, `groupCount
      ensures Ok() && connected == old(connected) - {b}
    {
      ghost var was := Online();
      connected := connected - {b};
      assert Online() == was - {b};
      if Present(b) {
        Adjust(b, -1, was);
      } else {
        ContactsExactly(contactCount, b, 0, was);
      }
    }

    // purple_blist_add_account(): the chats are counted, the buddies are left to their statuses;
    // which is right exactly if the presence of none of them is online still.
    method AddAccount(buddies: seq<BuddyId>, rooms: seq<(ChatId, GroupId)>)
      requires Ok() && forall b :: b in buddies ==> Placed(b) && b !in connected
      requires Distinct(Rooms(rooms)) && forall c :: c in Rooms(rooms) ==> c !in chats
      modifies `connected, `chats, `groupCount
      ensures connected == old(connected) + (set b | b in buddies)
      ensures forall c :: c in chats <==> c in old(chats) || c in Rooms(rooms)
      ensures Ok() <==> forall b :: b in buddies ==> !Present(b)
    {
      ghost var was := Online();
      connected := connected + (set b | b in buddies);
      NoneComes(buddies, was);
      for k := 0 to |rooms|
        invariant connected == old(connected) + (set b | b in buddies)
        invariant forall c :: c in chats <==> c in old(chats) || c in Rooms(rooms)[..k]
        invariant GroupsCount(groupCount, OnlineContacts(groupOf, contactCount), chats)
      {
        assert Rooms(rooms)[k] == rooms[k].0 && Rooms(rooms)[k] !in Rooms(rooms)[..k];
        AddChat(rooms[k].0, rooms[k].1);
      }
    }

    static function Rooms(rooms: seq<(ChatId, GroupId)>): (r: seq<ChatId>)
      ensures |r| == |rooms| && forall k :: 0 <= k < |r| ==> r[k] == rooms[k].0
    {
      seq(|rooms|, k requires 0 <= k < |rooms| => rooms[k].0)
    }

    // Buddies that are connected now are missing in the counts exactly if one of them is online.
    lemma NoneComes(buddies: seq<BuddyId>, was: set<BuddyId>)
      requires forall b :: b in buddies ==> Placed(b) && b in connected && b !in was
      requires Online() == was + (set b | b in buddies && Present(b))
      requires Counts(contactCount, OnlineBuddies(contactOf, was))
      ensures Counts(contactCount, OnlineBuddies(contactOf, Online())) <==> forall b :: b in buddies ==> !Present(b)
    {
      if b :| b in buddies && Present(b) {
        var c := contactOf[b];
        var before, after := OnlineBuddies(contactOf, was), OnlineBuddies(contactOf, Online());
        assert b in Namers(after, c) && b !in Namers(before, c);
        Fewer(Namers(before, c), Namers(after, c));
        assert Count(contactCount, c) < Named(after, c);
      } else {
        assert Online() == was;
      }
    }

    static lemma Fewer<T>(s: set<T>, t: set<T>)
      requires s < t
      ensures |s| < |t|
    {
      assert t == s + (t - s) && t - s != {};
    }

    lemma NobodyIsCounted(c: ContactId)
      requires Ok() && forall b :: b in connected ==> !Present(b)
      ensures Count(contactCount, c) == 0
    {
      assert Namers(OnlineBuddies(contactOf, Online()), c) == {};
    }

    // ----- over whole runs -----

    predicate Possible(e: Event)
      reads this
    {
      match e
      case Got(b, _, _) => Placed(b) && b in presence
      case Deactivated(b, _) => Placed(b) && b in presence
      case Opened(buddies, rooms) =>
        && (forall b :: b in buddies ==> Placed(b) && b !in connected)
        && Distinct(Rooms(rooms)) && forall c :: c in Rooms(rooms) ==> c !in chats
      case Closed(buddies, rooms) =>
        && (forall b :: b in buddies ==> Placed(b) && b in connected)
        && Distinct(buddies) && Distinct(rooms) && forall c :: c in rooms ==> c in chats
    }

    // The event leaves the counts right.
    predicate Keeps(e: Event)
      requires Possible(e)
      reads this
    {
      match e
      case Got(b, s, changed) => b in connected || Activated(presence[b], s, changed).active.online == Present(b)
      case Deactivated(b, s) => s !in presence[b].flagged || s.online == Present(b)
      case Opened(buddies, _) => forall b :: b in buddies ==> !Present(b)
      case Closed(_, _) => true
    }

    method Take(e: Event)
      requires Ok() && Possible(e)
      modifies this
      ensures Ok() <==> old(Keeps(e))
    {
      match e {
        case Got(b, s, changed) => GotUserStatus(b, s, changed);
        case Deactivated(b, s) => GotUserStatusDeactive(b, s);
        case Opened(buddies, rooms) => AddAccount(buddies, rooms);
        case Closed(buddies, rooms) => RemoveAccount(buddies, rooms);
      }
    }

    // Over any run the counts are right up to the first event that does not leave them right.
    method Run(events: seq<Event>) returns (done: nat)
      requires Ok()
      modifies this
      ensures Ok() && done <= |events|
      ensures done < |events| ==> Possible(events[done]) && !Keeps(events[done])
    {
      for k := 0 to |events|
        invariant Ok()
      {
        if Possible(events[k]) {
          if !Keeps(events[k]) {
            return k;
          }
          Take(events[k]);
        }
      }
      return |events|;
    }
  }

  // ----- what goes wrong -----

  const OFFLINE := Status(0, false, false)
  const AVAILABLE := Status(1, true, false)
  const TUNE := Status(2, true, true)
  const MOOD := Status(3, true, true)

  const HER := BuddyId(1)
  const CONTACT := ContactId(1)

  // A buddy of an account that has just connected.
  method Connected() returns (n: CountingNodes)
    ensures fresh(n) && n.Ok() && n.Placed(HER) && n.contactOf[HER] == CONTACT
    ensures n.connected == {HER} && n.presence == map[HER := Presence(OFFLINE, {OFFLINE})] && n.chats == map[]
    ensures Count(n.contactCount, CONTACT) == 0
  {
    n := new CountingNodes(map[HER := CONTACT], map[CONTACT := GroupId(1)], map[HER := Presence(OFFLINE, {OFFLINE})]);
    n.AddAccount([HER], []);
    n.NobodyIsCounted(CONTACT);
  }

  // One report about her.
  method Report(n: CountingNodes, p: Presence, s: Status)
    requires n.Ok() && n.Placed(HER) && n.contactOf[HER] == CONTACT && n.connected == {HER}
    requires n.presence == map[HER := p]
    modifies n`presence, n`contactCount, n`groupCount
    ensures n.Ok() && n.presence == map[HER := Activated(p, s, true)]
    ensures Count(n.contactCount, CONTACT) ==
            old(Count(n.contactCount, CONTACT)) + One(Activated(p, s, true).active.online) - One(p.active.online)
  {
    n.GotUserStatus(HER, s, true);
  }

  // She comes online, and reports a tune and then a mood.
  method Playing() returns (n: CountingNodes)
    ensures fresh(n) && n.Ok() && n.Placed(HER) && n.contactOf[HER] == CONTACT && n.connected == {HER}
    ensures n.presence == map[HER := Presence(MOOD, {AVAILABLE, TUNE, MOOD})] && Count(n.contactCount, CONTACT) == 1
  {
    n := Connected();
    Reports();
    Report(n, Presence(OFFLINE, {OFFLINE}), AVAILABLE);
    Report(n, Presence(AVAILABLE, {AVAILABLE}), TUNE);
    Report(n, Presence(TUNE, {AVAILABLE, TUNE}), MOOD);
  }

  lemma Reports()
    ensures Activated(Presence(OFFLINE, {OFFLINE}), AVAILABLE, true) == Presence(AVAILABLE, {AVAILABLE})
    ensures Activated(Presence(AVAILABLE, {AVAILABLE}), TUNE, true) == Presence(TUNE, {AVAILABLE, TUNE})
    ensures Activated(Presence(TUNE, {AVAILABLE, TUNE}), MOOD, true) == Presence(MOOD, {AVAILABLE, TUNE, MOOD})
    ensures Activated(Presence(MOOD, {AVAILABLE, TUNE, MOOD}), OFFLINE, true) ==
            Presence(OFFLINE, {AVAILABLE, TUNE, OFFLINE})
  {}

  // She goes offline, and then the tune is deactivated: her contact has -1 online buddies.
  method TuneExample() returns (n: CountingNodes)
    ensures fresh(n) && !n.Ok() && Count(n.contactCount, CONTACT) == -1
  {
    n := Playing();
    Reports();
    Report(n, Presence(MOOD, {AVAILABLE, TUNE, MOOD}), OFFLINE);
    n.GotUserStatusDeactive(HER, TUNE);
  }

  // She is online, and the account disconnects and connects again: she is not counted any more.
  method ReconnectExample() returns (n: CountingNodes)
    ensures fresh(n) && !n.Ok() && Count(n.contactCount, CONTACT) == 0 && n.Present(HER) && HER in n.connected
  {
    n := Connected();
    n.GotUserStatus(HER, AVAILABLE, false);
    n.RemoveAccount([HER], []);
    n.NobodyIsCounted(CONTACT);
    n.AddAccount([HER], []);
    assert HER in [HER];
  }
}
