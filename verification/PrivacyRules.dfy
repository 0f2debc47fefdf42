/** What an account's privacy settings mean and what allow and deny make of them
    (libpurple/account.c).  `norm` is the protocol's name normalization; the buddy list is the
    sequence of its buddies' names. */
module PrivacyRules {
  import opened Basics

  datatype Mode = AllowAll | DenyAll | AllowUsers | DenyUsers | AllowBuddyList

  datatype Privacy = Privacy(mode: Mode, permit: seq<Name>, deny: seq<Name>)

  // What lies outside the account: names normalize, and buddies are on the list.
  datatype World = World(norm: Name -> Name, buddies: seq<Name>)

  ghost predicate Idempotent(w: World) {
    forall x :: w.norm(w.norm(x)) == w.norm(x)
  }

  // purple_blist_find_buddy() != NULL
  predicate FindBuddy(w: World, who: Name) {
    exists i :: 0 <= i < |w.buddies| && w.norm(w.buddies[i]) == w.norm(who)
  }

  // A list holds normalized names, each once.
  ghost predicate Clean(w: World, s: seq<Name>) {
    Distinct(s) && forall x :: x in s ==> w.norm(x) == x
  }

  ghost predicate Valid(w: World, p: Privacy) {
    Idempotent(w) && Clean(w, p.permit) && Clean(w, p.deny)
  }

  // purple_account_privacy_check()
  predicate Check(w: World, p: Privacy, who: Name) {
    match p.mode
    case AllowAll => true
    case DenyAll => false
    case AllowUsers => w.norm(who) in p.permit
    case DenyUsers => w.norm(who) !in p.deny
    case AllowBuddyList => FindBuddy(w, who)
  }

  // ----- the lists -----

  function Insert(s: seq<Name>, x: Name): (r: seq<Name>)
    ensures forall y :: y in r <==> y in s || y == x
    ensures Distinct(s) ==> Distinct(r)
  {
    if x in s then s else s + [x]
  }

  // The entries the caller wants to keep, in their order.
  function Keep(s: seq<Name>, keep: Name -> bool): seq<Name> {
    if s == [] then [] else (if keep(s[0]) then [s[0]] else []) + Keep(s[1..], keep)
  }

  lemma {:induction false} KeepHas(s: seq<Name>, keep: Name -> bool)
    ensures forall y :: y in Keep(s, keep) <==> y in s && keep(y)
    ensures Distinct(s) ==> Distinct(Keep(s, keep))
  {
    if s != [] {
      KeepHas(s[1..], keep);
    }
  }

  // The loop of allow() and deny() that is to empty a list but for the user's own entry: `norm`
  // lies in the buffer of purple_normalize(), where each removal leaves the name it removes.
  function EmptiedBut(w: World, s: seq<Name>, norm: Name): seq<Name> {
    if s == [] then []
    else if s[0] == norm then [s[0]] + EmptiedBut(w, s[1..], norm)
    else EmptiedBut(w, s[1..], w.norm(s[0]))
  }

  // So the user's own entry is spared exactly when it comes first.
  lemma SparedExactlyWhenFirst(w: World, s: seq<Name>, norm: Name)
    requires Clean(w, s)
    ensures EmptiedBut(w, s, norm) == if s != [] && s[0] == norm then [norm] else []
  {
    if s != [] {
      assert s[0] in s && s[0] !in s[1..];
      assert forall x :: x in s[1..] ==> x in s;
      NothingIsSpared(w, s[1..], s[0]);
    }
  }

  lemma {:induction false} NothingIsSpared(w: World, s: seq<Name>, norm: Name)
    requires Clean(w, s) && norm !in s
    ensures EmptiedBut(w, s, norm) == []
  {
    if s != [] {
      assert s[0] in s && s[0] !in s[1..];
      assert forall x :: x in s[1..] ==> x in s;
      NothingIsSpared(w, s[1..], s[0]);
    }
  }

  // Behind another entry the user's own goes as well.
  lemma NotSparedExample(w: World)
    requires w.norm(Name("a")) == Name("a") && w.norm(Name("b")) == Name("b")
    ensures EmptiedBut(w, [Name("a"), Name("b")], Name("b")) == []
  {
    assert Name("a").text[0] != Name("b").text[0];
    SparedExactlyWhenFirst(w, [Name("a"), Name("b")], Name("b"));
  }

  function OnList(w: World): Name -> bool {
    x => FindBuddy(w, x)
  }

  // The buddies that are missing, one after the other.
  function InsertAll(w: World, s: seq<Name>, names: seq<Name>): (r: seq<Name>)
    ensures forall y :: y in r <==> y in s || exists i :: 0 <= i < |names| && w.norm(names[i]) == y
    ensures Distinct(s) ==> Distinct(r)
    decreases |names|
  {
    if names == [] then s else InsertAll(w, Insert(s, w.norm(names[0])), names[1..])
  }

  // add_all_buddies_to_permit_list()
  function PermitBuddies(w: World, s: seq<Name>): seq<Name> {
    InsertAll(w, Keep(s, OnList(w)), w.buddies)
  }

  // ----- allow and deny -----

  function Allow(w: World, p: Privacy, who: Name): Privacy {
    var n := w.norm(who);
    match p.mode
    case AllowAll => p
    case AllowUsers => p.(permit := Insert(p.permit, n))
    case DenyUsers => p.(deny := RemoveFirst(p.deny, n))
    case DenyAll => p.(mode := AllowUsers, permit := Insert(EmptiedBut(w, p.permit, n), n))
    case AllowBuddyList =>
      if FindBuddy(w, who) then p
      else p.(mode := AllowUsers, permit := Insert(PermitBuddies(w, p.permit), n))
  }

  function Deny(w: World, p: Privacy, who: Name): Privacy {
    var n := w.norm(who);
    match p.mode
    case AllowAll => p.(mode := DenyUsers, deny := Insert(EmptiedBut(w, p.deny, n), n))
    case AllowUsers => p.(permit := RemoveFirst(p.permit, n))
    case DenyUsers => p.(deny := Insert(p.deny, n))
    case DenyAll => p
    case AllowBuddyList =>
      if FindBuddy(w, who) then p.(mode := AllowUsers, permit := RemoveFirst(PermitBuddies(w, p.permit), n))
      else p
  }

  // After the rebuild a normalized name is permitted exactly when its owner is a buddy.
  lemma PermitBuddiesIsTheBuddyList(w: World, s: seq<Name>, who: Name)
    requires Idempotent(w) && Clean(w, s)
    ensures Clean(w, PermitBuddies(w, s))
    ensures w.norm(who) in PermitBuddies(w, s) <==> FindBuddy(w, who)
  {
    KeepHas(s, OnList(w));
  }

  // allow() is a one-point update of the verdict, in all five modes.
  lemma AllowIsOnePoint(w: World, p: Privacy, who: Name, x: Name)
    requires Valid(w, p)
    ensures Valid(w, Allow(w, p, who))
    ensures Check(w, Allow(w, p, who), x) == (w.norm(x) == w.norm(who) || Check(w, p, x))
  {
    match p.mode
    case AllowBuddyList =>
      PermitBuddiesIsTheBuddyList(w, p.permit, who);
      PermitBuddiesIsTheBuddyList(w, p.permit, x);
    case _ =>
      SparedExactlyWhenFirst(w, p.permit, w.norm(who));
  }

  // So is deny().
  lemma DenyIsOnePoint(w: World, p: Privacy, who: Name, x: Name)
    requires Valid(w, p)
    ensures Valid(w, Deny(w, p, who))
    ensures Check(w, Deny(w, p, who), x) == (w.norm(x) != w.norm(who) && Check(w, p, x))
  {
    match p.mode
    case AllowBuddyList =>
      PermitBuddiesIsTheBuddyList(w, p.permit, who);
      PermitBuddiesIsTheBuddyList(w, p.permit, x);
    case _ =>
      SparedExactlyWhenFirst(w, p.deny, w.norm(who));
  }

  // A call that would change no verdict changes nothing at all, and any other changes something.
  lemma ChangesExactlyWhen(w: World, p: Privacy, who: Name)
    requires Valid(w, p)
    ensures Allow(w, p, who) == p <==> Check(w, p, who)
    ensures Deny(w, p, who) == p <==> !Check(w, p, who)
  {
    AllowIsOnePoint(w, p, who, who);
    DenyIsOnePoint(w, p, who, who);
    GoneOnlyIfThere(p.permit, w.norm(who));
    GoneOnlyIfThere(p.deny, w.norm(who));
  }

  lemma GoneOnlyIfThere(s: seq<Name>, x: Name)
    ensures x !in s ==> RemoveFirst(s, x) == s
  {}

  // What becomes of mode and lists: only the list that the mode asks is touched, and a new mode
  // starts from the list that it asks.
  lemma AllowLists(w: World, p: Privacy, who: Name)
    requires Valid(w, p)
    ensures var q, n := Allow(w, p, who), w.norm(who);
            match p.mode
            case AllowAll => q == p
            case AllowUsers => q.mode == AllowUsers && q.deny == p.deny && p.permit <= q.permit
                               && forall x :: x in q.permit <==> x in p.permit || x == n
            case DenyUsers => q.mode == DenyUsers && q.permit == p.permit
                              && forall x :: x in q.deny <==> x in p.deny && x != n
            case DenyAll => q == Privacy(AllowUsers, [n], p.deny)
            case AllowBuddyList =>
              if exists i :: 0 <= i < |w.buddies| && w.norm(w.buddies[i]) == n then q == p
              else q.mode == AllowUsers && q.deny == p.deny
                   && forall x :: x in q.permit <==>
                        x == n || exists i :: 0 <= i < |w.buddies| && w.norm(w.buddies[i]) == x
  {
    SparedExactlyWhenFirst(w, p.permit, w.norm(who));
    if p.mode.AllowBuddyList? {
      KeepHas(p.permit, OnList(w));
    }
  }

  lemma DenyLists(w: World, p: Privacy, who: Name)
    requires Valid(w, p)
    ensures var q, n := Deny(w, p, who), w.norm(who);
            match p.mode
            case AllowAll => q == Privacy(DenyUsers, p.permit, [n])
            case AllowUsers => q.mode == AllowUsers && q.deny == p.deny
                               && forall x :: x in q.permit <==> x in p.permit && x != n
            case DenyUsers => q.mode == DenyUsers && q.permit == p.permit && p.deny <= q.deny
                              && forall x :: x in q.deny <==> x in p.deny || x == n
            case DenyAll => q == p
            case AllowBuddyList =>
              if exists i :: 0 <= i < |w.buddies| && w.norm(w.buddies[i]) == n
              then q.mode == AllowUsers && q.deny == p.deny
                   && forall x :: x in q.permit <==>
                        x != n && exists i :: 0 <= i < |w.buddies| && w.norm(w.buddies[i]) == x
              else q == p
  {
    SparedExactlyWhenFirst(w, p.deny, w.norm(who));
    if p.mode.AllowBuddyList? {
      PermitBuddiesIsTheBuddyList(w, p.permit, who);
      KeepHas(p.permit, OnList(w));
    }
  }

  // ----- whole runs -----

  datatype Call = AllowCall(who: Name) | DenyCall(who: Name)

  function Run(w: World, p: Privacy, calls: seq<Call>): Privacy {
    if calls == [] then p
    else
      var before := Run(w, p, calls[..|calls| - 1]);
      match calls[|calls| - 1]
      case AllowCall(who) => Allow(w, before, who)
      case DenyCall(who) => Deny(w, before, who)
  }

  // The last call about x, if any, decides; else the settings the run started from do.
  function LastWord(w: World, p: Privacy, calls: seq<Call>, x: Name): bool {
    if calls == [] then Check(w, p, x)
    else
      var last := calls[|calls| - 1];
      if w.norm(last.who) == w.norm(x) then last.AllowCall?
      else LastWord(w, p, calls[..|calls| - 1], x)
  }

  lemma {:induction false} LastCallDecides(w: World, p: Privacy, calls: seq<Call>, x: Name)
    requires Valid(w, p)
    ensures Valid(w, Run(w, p, calls))
    ensures Check(w, Run(w, p, calls), x) == LastWord(w, p, calls, x)
  {
    if calls != [] {
      LastCallDecides(w, p, calls[..|calls| - 1], x);
      var before := Run(w, p, calls[..|calls| - 1]);
      AllowIsOnePoint(w, before, calls[|calls| - 1].who, x);
      DenyIsOnePoint(w, before, calls[|calls| - 1].who, x);
    }
  }
}
