/** Why redrawing the whole list shows every node it should (finch/gntblist.c): what the walk of
    populate_buddylist() has settled when it has passed a node. */
module FinchRedraw {
  import opened Basics
  import opened BuddyList
  import opened FinchRules

  // What populate_buddylist() owes to a node it has passed.
  ghost predicate Settled(b: Blist, accepted: set<Id>, shown: set<Id>, n: Id)
    requires WellFormed(b) && n in b.nodes
  {
    match b.nodes[n].kind
    case Buddy => true
    case Contact => forall c :: c in b.nodes[n].children && c in accepted ==> c in shown
    case _ => n in accepted ==> n in shown
  }

  // The first i nodes of the list are settled, and nothing that is shown lies under a contact
  // still to come.
  ghost predicate Passed(b: Blist, accepted: set<Id>, shown: set<Id>, i: nat)
    requires WellFormed(b) && i <= |WholeList(b)|
  {
    var w := WholeList(b);
    && (forall n {:trigger Settled(b, accepted, shown, n)} ::
          n in w[..i] && n in b.nodes ==> Settled(b, accepted, shown, n))
    && (forall m :: m in shown && m in b.nodes && Level(b.nodes[m].kind) == 1 ==> m in w[..i])
  }

  lemma NothingPassed(b: Blist, accepted: set<Id>)
    requires WellFormed(b)
    ensures Passed(b, accepted, {}, 0)
  {}

  lemma UpdateSettles(b: Blist, w: World, shown: set<Id>, i: nat)
    requires WellFormed(b) && UpClosed(b, shown) && shown <= Accepts(b, w)
    requires i < |WholeList(b)| && Passed(b, Accepts(b, w), shown, i)
    ensures var after := Updated(b, Accepts(b, w), shown, WholeList(b)[i]);
            after <= Accepts(b, w) && Passed(b, Accepts(b, w), after, i + 1)
  {
    var n := WholeList(b)[i];
    if n in Accepts(b, w) {
      AcceptsUp(b, w, n);
    }
    if b.nodes[n].kind.Buddy? {
      BuddyIsThere(b, w, shown, i);
    }
    OneMoreSettled(b, Accepts(b, w), shown, i);
  }

  lemma OneMoreSettled(b: Blist, accepted: set<Id>, shown: set<Id>, i: nat)
    requires WellFormed(b) && shown <= b.nodes.Keys && shown <= accepted
    requires i < |WholeList(b)| && Passed(b, accepted, shown, i)
    requires var n := WholeList(b)[i];
             && (n in accepted ==> Lineage(b, n) <= accepted)
             && (b.nodes[n].kind.Buddy? ==> Updated(b, accepted, shown, n) == shown)
    ensures var after := Updated(b, accepted, shown, WholeList(b)[i]);
            after <= accepted && Passed(b, accepted, after, i + 1)
  {
    var list := WholeList(b);
    var n := list[i];
    var after := Updated(b, accepted, shown, n);
    WholeListHasAll(b);
    assert list[..i + 1] == list[..i] + [n] && n !in list[..i];
    UpdateAdds(b, accepted, shown, n);
    forall m | m in list[..i + 1] && m in b.nodes ensures Settled(b, accepted, after, m) {
      if m in list[..i] {
        assert Settled(b, accepted, shown, m);
      }
    }
  }

  // What an update adds lies on n's lineage or, for a contact, is one of its buddies; and n is
  // settled afterwards, unless it is a contact that was shown before.
  lemma UpdateAdds(b: Blist, accepted: set<Id>, shown: set<Id>, n: Id)
    requires WellFormed(b) && shown <= b.nodes.Keys && shown <= accepted && n in b.nodes
    requires n in accepted ==> Lineage(b, n) <= accepted
    requires b.nodes[n].kind.Buddy? ==> Updated(b, accepted, shown, n) == shown
    ensures var after := Updated(b, accepted, shown, n);
            && shown <= after <= accepted
            && (forall m :: m in after && m in b.nodes && m !in shown && Level(b.nodes[m].kind) == 1 ==> m == n)
            && ((b.nodes[n].kind.Contact? && n in shown) || Settled(b, accepted, after, n))
  {
    LineageUp(b, n);
    OnlyGroupsAreOnTop(b, n);
    ParentIsAbove(b, n);
    assert NodeOk(b, n);
    if b.nodes[n].kind.Contact? || b.nodes[n].kind.Chat? {
      assert forall m :: m in Lineage(b, n) && m != n ==> Level(b.nodes[m].kind) == 0;
    }
  }

  // When the walk comes to a buddy, its contact was there before and has brought it in already.
  lemma BuddyIsThere(b: Blist, w: World, shown: set<Id>, i: nat)
    requires WellFormed(b) && UpClosed(b, shown)
    requires i < |WholeList(b)| && Passed(b, Accepts(b, w), shown, i) && b.nodes[WholeList(b)[i]].kind.Buddy?
    ensures Updated(b, Accepts(b, w), shown, WholeList(b)[i]) == shown
  {
    var n := WholeList(b)[i];
    ContactAbove(b, n);
    var c := b.nodes[n].parent.value;
    ParentsFirst(b, b.roots, None, 0, i);
    assert Settled(b, Accepts(b, w), shown, c);
    ParentIsAbove(b, n);
    AcceptedContact(b, w, c);
    assert n in shown ==> Lineage(b, n) <= shown;
    forall m | m in b.nodes[c].children && m in Accepts(b, w) ensures c in shown {
      ChildHasParent(b, c, m);
      LineageUp(b, m);
      assert Lineage(b, m) <= shown;
    }
  }

  lemma PassHidden(b: Blist, accepted: set<Id>, shown: set<Id>, i: nat, k: nat)
    requires WellFormed(b) && i + k <= |WholeList(b)| && Passed(b, accepted, shown, i)
    requires forall j :: i <= j < i + k ==> b.nodes[WholeList(b)[j]].kind.Buddy?
    ensures Passed(b, accepted, shown, i + k)
  {
    var list := WholeList(b);
    assert list[..i + k] == list[..i] + list[i..i + k];
  }

  lemma AllPassed(b: Blist, w: World, shown: set<Id>)
    requires WellFormed(b) && UpClosed(b, shown) && shown <= Accepts(b, w)
    requires Passed(b, Accepts(b, w), shown, |WholeList(b)|)
    ensures shown == Accepts(b, w)
  {
    var list := WholeList(b);
    WholeListHasAll(b);
    assert list[..|list|] == list;
    forall n | n in Accepts(b, w) ensures n in shown {
      assert Settled(b, Accepts(b, w), shown, n);
      match b.nodes[n].kind {
        case Buddy =>
          ContactAbove(b, n);
          ParentIsAbove(b, n);
          assert Settled(b, Accepts(b, w), shown, b.nodes[n].parent.value);
        case Contact =>
          AcceptedContact(b, w, n);
          var c :| c in b.nodes[n].children && c in Accepts(b, w);
          ChildHasParent(b, n, c);
          LineageUp(b, c);
          assert Lineage(b, c) <= shown;
        case _ =>
      }
    }
  }
}
