/** The privacy half of a PurpleAccount: two lists edited in place, a mode, and the protocol calls
    that keep the server's copy of them (libpurple/account.c).  The methods are proved to follow
    module PrivacyRules and to leave the server with what the account holds. */
module AccountPrivacy {
  import opened Basics
  import opened PrivacyRules

  // What the calls of the protocol's privacy interface have left on the server.
  datatype Server = Server(permit: set<Name>, deny: set<Name>, mode: Mode)

  function AsSet(s: seq<Name>): set<Name> {
    set x | x in s
  }

  lemma RemoveIsACut(s: seq<Name>, x: Name, i: nat)
    requires i < |s| && s[i] == x && x !in s[..i]
    ensures RemoveFirst(s, x) == s[..i] + s[i + 1..]
  {
    if 0 < i {
      var t := s[1..];
      assert t[..i - 1] == s[1..i] && t[i..] == s[i + 1..] && s[..i] == [s[0]] + s[1..i];
      RemoveIsACut(t, x, i - 1);
      Associates([s[0]], t[..i - 1], t[i..]);
    } else {
      assert s[..0] + s[1..] == s[1..];
    }
  }

  // In a list without duplicates the entry found is the one the cursor is at.
  lemma RemoveAtCursor(kept: seq<Name>, person: Name, rest: seq<Name>)
    requires Distinct(kept + [person] + rest)
    ensures RemoveFirst(kept + [person] + rest, person) == kept + rest
    ensures Distinct(kept + rest)
  {
    var s := kept + [person] + rest;
    assert s[|kept|] == person && s[..|kept|] == kept && s[|kept| + 1..] == rest;
    assert forall i :: 0 <= i < |kept| ==> s[i] == kept[i];
    RemoveIsACut(s, person, |kept|);
  }

  lemma KeepStep(kept: seq<Name>, rest: seq<Name>, keep: Name -> bool)
    requires rest != []
    ensures kept + Keep(rest, keep) ==
            (if keep(rest[0]) then kept + [rest[0]] else kept) + Keep(rest[1..], keep)
  {}

  lemma EmptiedStep(w: World, kept: seq<Name>, rest: seq<Name>, norm: Name)
    requires rest != []
    ensures kept + EmptiedBut(w, rest, norm) ==
            if rest[0] == norm then kept + [rest[0]] + EmptiedBut(w, rest[1..], norm)
            else kept + EmptiedBut(w, rest[1..], w.norm(rest[0]))
  {}

  class PurpleAccount {
    const world: World
    var connected: bool
    var permit: seq<Name>
    var deny: seq<Name>
    var privacy_type: Mode
    ghost var server: Server

    ghost function Rules(): Privacy
      reads this
    {
      Privacy(privacy_type, permit, deny)
    }

    ghost predicate Ok()
      reads this
    {
      Valid(world, Rules())
    }

    ghost predicate ListsMirrored()
      reads this
    {
      connected ==> server.permit == AsSet(permit) && server.deny == AsSet(deny)
    }

    // While connected, the server holds the account's lists and mode.
    ghost predicate Mirrored()
      reads this
    {
      ListsMirrored() && (connected ==> server.mode == privacy_type)
    }

    // A new account allows everybody, and is not connected.
    constructor (world: World)
      requires Idempotent(world)
      ensures this.world == world && Rules() == Privacy(AllowAll, [], []) && !connected
      ensures Ok() && Mirrored()
    {
      this.world := world;
      connected, permit, deny, privacy_type := false, [], [], AllowAll;
      server := Server({}, {}, AllowAll);
    }

    // g_slist_find_custom()
    static method FindCustom(s: seq<Name>, x: Name) returns (i: nat)
      ensures i <= |s| && x !in s[..i]
      ensures i < |s| ==> s[i] == x
    {
      i := 0;
      while i < |s| && s[i] != x
        invariant i <= |s| && x !in s[..i]
      {
        i := i + 1;
      }
    }

    // purple_account_privacy_permit_add()
    method PermitAdd(who: Name, local_only: bool) returns (added: bool)
      requires Ok()
      modifies `permit, `server
      ensures Ok()
      ensures permit == Insert(old(permit), world.norm(who)) && added == (world.norm(who) !in old(permit))
      ensures !local_only && old(ListsMirrored()) ==> ListsMirrored()
      ensures server.mode == old(server.mode)
      ensures local_only || !connected ==> server == old(server)
    {
      var name := world.norm(who);
      var l := FindCustom(permit, name);
      if l < |permit| {
        return false;
      }
      assert permit[..l] == permit;
      permit := permit + [name];
      if !local_only && connected {
        server := server.(permit := server.permit + {world.norm(who)});
      }
      return true;
    }

    // purple_account_privacy_permit_remove()
    method PermitRemove(who: Name, local_only: bool) returns (removed: bool)
      requires Ok()
      modifies `permit, `server
      ensures Ok()
      ensures permit == RemoveFirst(old(permit), world.norm(who)) && removed == (world.norm(who) in old(permit))
      ensures !local_only && old(ListsMirrored()) ==> ListsMirrored()
      ensures server.mode == old(server.mode)
      ensures local_only || !connected ==> server == old(server)
    {
      var name := world.norm(who);
      var l := FindCustom(permit, name);
      if l == |permit| {
        assert permit[..l] == permit;
        return false;
      }
      RemoveIsACut(permit, name, l);
      assert Clean(world, RemoveFirst(permit, name));
      permit := permit[..l] + permit[l + 1..];
      if !local_only && connected {
        server := server.(permit := server.permit - {world.norm(who)});
      }
      return true;
    }

    // The cursor of a loop over the list passes `person`: the entry removed, if any, is the one
    // it has just left, never one it has ahead.
    method PassPermit(person: Name, drop: bool, local_only: bool, ghost kept: seq<Name>, ghost rest: seq<Name>)
      returns (ghost kept': seq<Name>)
      requires Ok() && rest != [] && rest[0] == person && permit == kept + rest
      modifies `permit, `server
      ensures Ok() && permit == kept' + rest[1..]
      ensures kept' == if drop then kept else kept + [person]
      ensures !local_only && old(ListsMirrored()) ==> ListsMirrored()
      ensures server.mode == old(server.mode)
      ensures local_only || !connected ==> server == old(server)
    {
      assert permit == kept + [person] + rest[1..];
      kept' := kept + [person];
      if drop {
        RemoveAtCursor(kept, person, rest[1..]);
        assert person in permit;
        var _ := PermitRemove(person, local_only);
        kept' := kept;
      }
    }

    // purple_account_privacy_deny_add()
    method DenyAdd(who: Name, local_only: bool) returns (added: bool)
      requires Ok()
      modifies `deny, `server
      ensures Ok()
      ensures deny == Insert(old(deny), world.norm(who)) && added == (world.norm(who) !in old(deny))
      ensures !local_only && old(ListsMirrored()) ==> ListsMirrored()
      ensures server.mode == old(server.mode)
      ensures local_only || !connected ==> server == old(server)
    {
      var name := world.norm(who);
      var l := FindCustom(deny, name);
      if l < |deny| {
        return false;
      }
      assert deny[..l] == deny;
      deny := deny + [name];
      if !local_only && connected {
        server := server.(deny := server.deny + {world.norm(who)});
      }
      return true;
    }

    // purple_account_privacy_deny_remove(); the server is told the stored name, not `who`.
    method DenyRemove(who: Name, local_only: bool) returns (removed: bool)
      requires Ok()
      modifies `deny, `server
      ensures Ok()
      ensures deny == RemoveFirst(old(deny), world.norm(who)) && removed == (world.norm(who) in old(deny))
      ensures !local_only && old(ListsMirrored()) ==> ListsMirrored()
      ensures server.mode == old(server.mode)
      ensures local_only || !connected ==> server == old(server)
    {
      var normalized := world.norm(who);
      var l := FindCustom(deny, normalized);
      if l == |deny| {
        assert deny[..l] == deny;
        return false;
      }
      var name := deny[l];
      RemoveIsACut(deny, normalized, l);
      assert Clean(world, RemoveFirst(deny, normalized));
      deny := deny[..l] + deny[l + 1..];
      if !local_only && connected {
        server := server.(deny := server.deny - {world.norm(name)});
      }
      return true;
    }

    // The cursor of a loop over the list passes `person`: the entry removed, if any, is the one
    // it has just left, never one it has ahead.
    method PassDeny(person: Name, drop: bool, ghost kept: seq<Name>, ghost rest: seq<Name>)
      returns (ghost kept': seq<Name>)
      requires Ok() && rest != [] && rest[0] == person && deny == kept + rest
      modifies `deny, `server
      ensures Ok() && deny == kept' + rest[1..]
      ensures kept' == if drop then kept else kept + [person]
      ensures old(ListsMirrored()) ==> ListsMirrored()
      ensures server.mode == old(server.mode)
      ensures !connected ==> server == old(server)
    {
      assert deny == kept + [person] + rest[1..];
      kept' := kept + [person];
      if drop {
        RemoveAtCursor(kept, person, rest[1..]);
        assert person in deny;
        var _ := DenyRemove(person, false);
        kept' := kept;
      }
    }

    // The loop of allow() that is to empty the permit list but for the user's entry.  Removing
    // `person` normalizes it, into the buffer that `norm` points to.
    method EmptyPermit(who: Name)
      requires Ok()
      modifies `permit, `server
      ensures Ok() && permit == EmptiedBut(world, old(permit), world.norm(who))
      ensures old(ListsMirrored()) ==> ListsMirrored()
      ensures server.mode == old(server.mode)
      ensures !connected ==> server == old(server)
    {
      var norm := world.norm(who);
      var rest := permit;
      ghost var left := EmptiedBut(world, rest, norm);
      ghost var kept: seq<Name> := [];
      while rest != []
        invariant Ok() && permit == kept + rest
        invariant kept + EmptiedBut(world, rest, norm) == left
        invariant old(ListsMirrored()) ==> ListsMirrored()
        invariant server.mode == old(server.mode) && (!connected ==> server == old(server))
        decreases |rest|
      {
        var person := rest[0];
        EmptiedStep(world, kept, rest, norm);
        kept := PassPermit(person, norm != person, false, kept, rest);
        if norm != person {
          norm := world.norm(person);
        }
        rest := rest[1..];
      }
    }

    // The same loop of deny(), over the deny list.
    method EmptyDeny(who: Name)
      requires Ok()
      modifies `deny, `server
      ensures Ok() && deny == EmptiedBut(world, old(deny), world.norm(who))
      ensures old(ListsMirrored()) ==> ListsMirrored()
      ensures server.mode == old(server.mode)
      ensures !connected ==> server == old(server)
    {
      var norm := world.norm(who);
      var rest := deny;
      ghost var left := EmptiedBut(world, rest, norm);
      ghost var kept: seq<Name> := [];
      while rest != []
        invariant Ok() && deny == kept + rest
        invariant kept + EmptiedBut(world, rest, norm) == left
        invariant old(ListsMirrored()) ==> ListsMirrored()
        invariant server.mode == old(server.mode) && (!connected ==> server == old(server))
        decreases |rest|
      {
        var person := rest[0];
        EmptiedStep(world, kept, rest, norm);
        kept := PassDeny(person, norm != person, kept, rest);
        if norm != person {
          norm := world.norm(person);
        }
        rest := rest[1..];
      }
    }

    // The first loop of add_all_buddies_to_permit_list().
    method PermitBuddiesOnly(local_only: bool)
      requires Ok()
      modifies `permit, `server
      ensures Ok() && permit == Keep(old(permit), OnList(world))
      ensures !local_only && old(ListsMirrored()) ==> ListsMirrored()
      ensures server.mode == old(server.mode)
      ensures local_only || !connected ==> server == old(server)
    {
      var rest := permit;
      ghost var kept: seq<Name> := [];
      while rest != []
        invariant Ok() && permit == kept + rest
        invariant kept + Keep(rest, OnList(world)) == Keep(old(permit), OnList(world))
        invariant !local_only && old(ListsMirrored()) ==> ListsMirrored()
        invariant server.mode == old(server.mode) && (local_only || !connected ==> server == old(server))
        decreases |rest|
      {
        KeepStep(kept, rest, OnList(world));
        var person := rest[0];
        ghost var here := rest;
        rest := rest[1..];
        kept := PassPermit(person, !FindBuddy(world, person), local_only, kept, here);
      }
    }

    // add_all_buddies_to_permit_list()
    method AddAllBuddiesToPermitList(local_only: bool)
      requires Ok()
      modifies `permit, `server
      ensures Ok() && permit == PermitBuddies(world, old(permit))
      ensures !local_only && old(ListsMirrored()) ==> ListsMirrored()
      ensures server.mode == old(server.mode)
      ensures local_only || !connected ==> server == old(server)
    {
      PermitBuddiesOnly(local_only);
      var list := world.buddies;
      while list != []
        invariant Ok()
        invariant InsertAll(world, permit, list) == PermitBuddies(world, old(permit))
        invariant !local_only && old(ListsMirrored()) ==> ListsMirrored()
        invariant server.mode == old(server.mode) && (local_only || !connected ==> server == old(server))
        decreases |list|
      {
        var name := list[0];
        // g_utf8_collate() == 0 is equality here
        var l := FindCustom(permit, name);
        if l == |permit| {
          var _ := PermitAdd(name, local_only);
        }
        list := list[1..];
      }
    }

    // purple_serv_set_permit_deny(): the protocol reads the mode off the account.
    method SetPermitDeny()
      modifies `server
      ensures server == old(server).(mode := privacy_type)
    {
      server := server.(mode := privacy_type);
    }

    // purple_account_privacy_allow()
    method Allow(who: Name)
      requires Ok()
      modifies this
      ensures Ok() && Rules() == PrivacyRules.Allow(world, old(Rules()), who)
      ensures forall x :: Check(world, Rules(), x) ==
                (world.norm(x) == world.norm(who) || old(Check(world, Rules(), x)))
      ensures old(Mirrored()) ==> Mirrored()
      ensures connected == old(connected) && (!connected ==> server == old(server))
    {
      forall x {
        AllowIsOnePoint(world, Rules(), who, x);
      }
      var type_ := privacy_type;
      match type_ {
        case AllowAll =>
          return;
        case AllowUsers =>
          var _ := PermitAdd(who, false);
        case DenyUsers =>
          var _ := DenyRemove(who, false);
        case DenyAll =>
          EmptyPermit(who);
          var _ := PermitAdd(who, false);
          privacy_type := AllowUsers;
        case AllowBuddyList =>
          if !FindBuddy(world, who) {
            AddAllBuddiesToPermitList(false);
            var _ := PermitAdd(who, false);
            privacy_type := AllowUsers;
          }
      }
      if type_ != privacy_type && connected {
        SetPermitDeny();
      }
    }

    // purple_account_privacy_deny()
    method Deny(who: Name)
      requires Ok()
      modifies this
      ensures Ok() && Rules() == PrivacyRules.Deny(world, old(Rules()), who)
      ensures forall x :: Check(world, Rules(), x) ==
                (world.norm(x) != world.norm(who) && old(Check(world, Rules(), x)))
      ensures old(Mirrored()) ==> Mirrored()
      ensures connected == old(connected) && (!connected ==> server == old(server))
    {
      forall x {
        DenyIsOnePoint(world, Rules(), who, x);
      }
      var type_ := privacy_type;
      match type_ {
        case AllowAll =>
          EmptyDeny(who);
          var _ := DenyAdd(who, false);
          privacy_type := DenyUsers;
        case AllowUsers =>
          var _ := PermitRemove(who, false);
        case DenyUsers =>
          var _ := DenyAdd(who, false);
        case DenyAll =>
        case AllowBuddyList =>
          if FindBuddy(world, who) {
            AddAllBuddiesToPermitList(false);
            var _ := PermitRemove(who, false);
            privacy_type := AllowUsers;
          }
      }
      if type_ != privacy_type && connected {
        SetPermitDeny();
      }
    }

    // purple_account_privacy_check()
    method PrivacyCheck(who: Name) returns (ok: bool)
      requires Ok()
      ensures ok == Check(world, Rules(), who)
    {
      match privacy_type {
        case AllowAll =>
          return true;
        case DenyAll =>
          return false;
        case AllowUsers =>
          var l := FindCustom(permit, world.norm(who));
          assert l == |permit| ==> permit[..l] == permit;
          return l < |permit|;
        case DenyUsers =>
          var l := FindCustom(deny, world.norm(who));
          assert l == |deny| ==> deny[..l] == deny;
          return l == |deny|;
        case AllowBuddyList =>
          return FindBuddy(world, who);
      }
    }
  }
}
