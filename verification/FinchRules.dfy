/** Which buddy-list nodes Finch is to show, and what its procedures do to the set of nodes that
    it does show (finch/gntblist.c).

    `World` is everything the visibility test asks about, `CanAdd` is that test. */
module FinchRules {
  import opened Basics
  import opened BuddyList

  datatype World = World(
    online: set<Id>,        // buddies whose presence is online
    connected: set<Id>,     // buddies and chats whose account is connected
    flagged: set<Id>,       // buddies with the "show_offline" setting
    showOffline: bool,
    emptyGroups: bool,
    signed: set<Id>,        // buddies whose signed-on/off timer runs
    newGroups: seq<Id>)

  // default_can_add_node()
  ghost predicate CanAdd(b: Blist, w: World, n: Id)
    requires WellFormed(b) && n in b.nodes
    decreases 2 - Level(b.nodes[n].kind), 1
  {
    match b.nodes[n].kind
    case Buddy =>
      && b.nodes[n].parent.Some?
      && n in w.connected
      && (n in w.online || w.showOffline || n in w.signed || n in w.flagged)
    case Contact => SomeChild(b, w, n)
    case Chat => n in w.connected
    case Group =>
      || w.emptyGroups
      || SomeChild(b, w, n)
      || n in w.newGroups
  }

  ghost predicate SomeChild(b: Blist, w: World, n: Id)
    requires WellFormed(b) && n in b.nodes && Level(b.nodes[n].kind) < 2
    decreases 2 - Level(b.nodes[n].kind), 0
  {
    assert NodeOk(b, n);
    exists c :: c in b.nodes[n].children && CanAdd(b, w, c)
  }

  ghost function Accepts(b: Blist, w: World): set<Id>
    requires WellFormed(b)
  {
    set n | n in b.nodes && CanAdd(b, w, n)
  }

  // A node and the nodes above it.
  ghost function Lineage(b: Blist, n: Id): (l: set<Id>)
    requires WellFormed(b) && n in b.nodes
    ensures n in l && forall m :: m in l ==> m in b.nodes && (m == n || Level(b.nodes[m].kind) < Level(b.nodes[n].kind))
    decreases Level(b.nodes[n].kind)
  {
    ParentIsAbove(b, n);
    {n} + if b.nodes[n].parent.Some? then Lineage(b, b.nodes[n].parent.value) else {}
  }

  // Everything above an accepted node is accepted.
  lemma {:induction false} AcceptsUp(b: Blist, w: World, n: Id)
    requires WellFormed(b) && n in Accepts(b, w)
    ensures Lineage(b, n) <= Accepts(b, w)
    decreases Level(b.nodes[n].kind)
  {
    ParentIsAbove(b, n);
    if b.nodes[n].parent.Some? {
      assert NodeOk(b, b.nodes[n].parent.value);
      assert SomeChild(b, w, b.nodes[n].parent.value);
      AcceptsUp(b, w, b.nodes[n].parent.value);
    }
  }

  // Below a node that is not accepted nothing is.
  lemma BelowUnaccepted(b: Blist, w: World, n: Id, c: Id)
    requires WellFormed(b) && n in b.nodes && n !in Accepts(b, w)
    requires c in b.nodes && b.nodes[c].parent == Some(n)
    ensures c !in Accepts(b, w) && c !in Lineage(b, n) && Lineage(b, c) == {c} + Lineage(b, n)
  {
    ParentIsAbove(b, c);
    if c in Accepts(b, w) {
      AcceptsUp(b, w, c);
    }
  }

  lemma ChildHasParent(b: Blist, n: Id, c: Id)
    requires WellFormed(b) && n in b.nodes && c in b.nodes[n].children
    ensures c in b.nodes && b.nodes[c].parent == Some(n)
  {
    assert NodeOk(b, n);
  }

  lemma LineageUp(b: Blist, n: Id)
    requires WellFormed(b) && n in b.nodes
    ensures var p := b.nodes[n].parent;
            if p.None? then Lineage(b, n) == {n}
            else && p.value in b.nodes && (b.nodes[p.value].kind.Group? || b.nodes[p.value].kind.Contact?)
                 && Lineage(b, n) == {n} + Lineage(b, p.value)
  {
    ParentIsAbove(b, n);
    if b.nodes[n].parent.Some? {
      assert NodeOk(b, b.nodes[n].parent.value);
    }
  }

  lemma OnlyGroupsAreOnTop(b: Blist, n: Id)
    requires WellFormed(b) && n in b.nodes
    ensures b.nodes[n].parent.None? <==> b.nodes[n].kind.Group?
  {
    assert NodeOk(b, n);
    ParentIsAbove(b, n);
  }

  // The timer of a node that is not accepted has no say.
  lemma {:induction false} TimerHasNoSay(b: Blist, w: World, n: Id, m: Id)
    requires WellFormed(b) && n in b.nodes && m in b.nodes && !CanAdd(b, w, n)
    ensures CanAdd(b, w.(signed := w.signed - {n}), m) == CanAdd(b, w, m)
    decreases 2 - Level(b.nodes[m].kind)
  {
    assert NodeOk(b, m);
    forall c | c in b.nodes[m].children
      ensures CanAdd(b, w.(signed := w.signed - {n}), c) == CanAdd(b, w, c)
    {
      TimerHasNoSay(b, w, n, c);
    }
  }

  // ----- what the procedures do to the set of shown nodes -----

  // add_node(): an accepted node brings in the nodes above it.
  ghost function Joined(b: Blist, accepted: set<Id>, shown: set<Id>, n: Id): set<Id>
    requires WellFormed(b) && n in b.nodes
  {
    if n in accepted then shown + Lineage(b, n) else shown
  }

  // A node and what is below it.
  ghost function Under(b: Blist, n: Id): set<Id>
    requires WellFormed(b)
  {
    set m | m in b.nodes && n in Lineage(b, m)
  }

  // node_remove() of a node that is not to be shown: what hangs on it goes, and what hangs on the
  // nodes above it that are not to be shown either.
  ghost function Removed(b: Blist, accepted: set<Id>, shown: set<Id>, n: Id): (r: set<Id>)
    requires WellFormed(b) && n in b.nodes && shown <= b.nodes.Keys
    ensures r <= shown
  {
    if n !in shown then shown else set m | m in shown && Lineage(b, m) !! Lineage(b, n) - accepted
  }

  // node_update()
  ghost function Updated(b: Blist, accepted: set<Id>, shown: set<Id>, n: Id): set<Id>
    requires WellFormed(b) && n in b.nodes && shown <= b.nodes.Keys
    decreases Level(b.nodes[n].kind)
  {
    ParentIsAbove(b, n);
    match b.nodes[n].kind
    case Group => if n in accepted then shown + {n} else Removed(b, accepted, shown, n)
    case Chat => Joined(b, accepted, shown, n)
    case Contact =>
      if n in shown then shown
      else Joined(b, accepted, shown, n) + (set c | c in b.nodes[n].children && c in accepted)
    case Buddy =>
      var s := Joined(b, accepted, shown, n);
      if b.nodes[n].parent.Some? then Updated(b, accepted, s, b.nodes[n].parent.value) else s
  }

  // An update of a contact that is not shown, or of a buddy under one that brings it in neither, adds
  // all its buddies that are to be shown.
  lemma UpdateAddsBuddies(b: Blist, w: World, shown: set<Id>, n: Id, c: Id)
    requires WellFormed(b) && n in b.nodes && shown <= b.nodes.Keys && c in Accepts(b, w)
    ensures b.nodes[n].kind.Contact? && n !in shown && c in b.nodes[n].children ==>
              c in Updated(b, Accepts(b, w), shown, n)
    ensures b.nodes[n].kind.Buddy? && n !in Accepts(b, w) && b.nodes[n].parent.Some? &&
            b.nodes[n].parent.value !in shown && b.nodes[c].parent == b.nodes[n].parent ==>
              c in Updated(b, Accepts(b, w), shown, n)
  {
    ParentIsAbove(b, n);
    ParentIsAbove(b, c);
    if b.nodes[n].kind.Buddy? {
      ContactAbove(b, n);
    }
  }

  // What the children `cs` of node n bring in.
  ghost function Brought(b: Blist, accepted: set<Id>, n: Id, cs: seq<Id>): set<Id>
    requires WellFormed(b) && n in b.nodes
  {
    (set c | c in cs && c in accepted) + (if exists c :: c in cs && c in accepted then Lineage(b, n) else {})
  }

  lemma BroughtOneMore(b: Blist, accepted: set<Id>, shown: set<Id>, n: Id, cs: seq<Id>, c: Id)
    requires WellFormed(b) && n in b.nodes && c in b.nodes && b.nodes[c].parent == Some(n)
    requires Brought(b, accepted, n, cs) <= shown
    ensures Joined(b, accepted, shown, c) == shown + Brought(b, accepted, n, cs + [c])
  {
    assert Lineage(b, c) == {c} + Lineage(b, n);
  }

  lemma AcceptedContact(b: Blist, w: World, n: Id)
    requires WellFormed(b) && n in b.nodes && b.nodes[n].kind.Contact?
    ensures n in Accepts(b, w) <==> exists c :: c in b.nodes[n].children && c in Accepts(b, w)
  {
    assert NodeOk(b, n);
    assert n in Accepts(b, w) <==> SomeChild(b, w, n);
  }

  lemma ContactAbove(b: Blist, n: Id)
    requires WellFormed(b) && n in b.nodes && b.nodes[n].kind.Buddy?
    ensures b.nodes[n].parent.Some? && b.nodes[n].parent.value in b.nodes
    ensures b.nodes[b.nodes[n].parent.value].kind.Contact?
  {
    OnlyGroupsAreOnTop(b, n);
    ParentIsAbove(b, n);
    assert NodeOk(b, b.nodes[n].parent.value);
  }

  // ----- lines of descent -----

  ghost predicate UpClosed(b: Blist, shown: set<Id>)
    requires WellFormed(b)
  {
    shown <= b.nodes.Keys && forall m {:trigger Lineage(b, m)} :: m in shown ==> Lineage(b, m) <= shown
  }

  lemma {:induction false} LineageIsUpClosed(b: Blist, n: Id, c: Id)
    requires WellFormed(b) && n in b.nodes && c in Lineage(b, n)
    ensures Lineage(b, c) <= Lineage(b, n)
    decreases Level(b.nodes[n].kind)
  {
    ParentIsAbove(b, n);
    if c != n {
      LineageIsUpClosed(b, b.nodes[n].parent.value, c);
    }
  }

  // Of two nodes above the same node, one is above the other.
  lemma {:induction false} OneLine(b: Blist, x: Id, m: Id, a: Id)
    requires WellFormed(b) && x in b.nodes && m in Lineage(b, x) && a in Lineage(b, x)
    ensures a in Lineage(b, m) || m in Lineage(b, a)
    decreases Level(b.nodes[x].kind)
  {
    ParentIsAbove(b, x);
    if m != x && a != x {
      OneLine(b, b.nodes[x].parent.value, m, a);
    }
  }

  // The nodes below one of `cs`, and those themselves.
  ghost function UnderSome(b: Blist, cs: seq<Id>): set<Id>
    requires WellFormed(b)
  {
    set m | m in b.nodes && exists c :: c in cs && c in Lineage(b, m)
  }

  lemma UnderOneMore(b: Blist, cs: seq<Id>, c: Id)
    requires WellFormed(b)
    ensures UnderSome(b, cs + [c]) == UnderSome(b, cs) + Under(b, c)
  {}

  lemma OneMoreUnder(b: Blist, cs: seq<Id>, i: nat)
    requires WellFormed(b) && i < |cs|
    ensures UnderSome(b, cs[..i + 1]) == UnderSome(b, cs[..i]) + Under(b, cs[i])
  {
    UnderOneMore(b, cs[..i], cs[i]);
    assert cs[..i + 1] == cs[..i] + [cs[i]];
  }

  lemma UnderChildren(b: Blist, n: Id)
    requires WellFormed(b) && n in b.nodes
    ensures Under(b, n) == {n} + UnderSome(b, b.nodes[n].children)
  {
    forall m | m in b.nodes ensures m in Under(b, n) <==> m in {n} + UnderSome(b, b.nodes[n].children) {
      if n in Lineage(b, m) && m != n {
        ViaChild(b, n, m);
      }
      forall c | c in b.nodes[n].children && c in Lineage(b, m) ensures n in Lineage(b, m) {
        ChildHasParent(b, n, c);
        LineageUp(b, c);
        LineageIsUpClosed(b, m, c);
      }
    }
  }

  lemma UnderLeaf(b: Blist, n: Id)
    requires WellFormed(b) && Leaf(b, n)
    ensures Under(b, n) == {n}
  {
    assert NodeOk(b, n);
    UnderChildren(b, n);
    assert b.nodes[n].children == [];
  }

  lemma {:induction false} ViaChild(b: Blist, n: Id, m: Id)
    requires WellFormed(b) && m in b.nodes && n in Lineage(b, m) && m != n
    ensures n in b.nodes && exists c :: c in b.nodes[n].children && c in Lineage(b, m)
    decreases Level(b.nodes[m].kind)
  {
    ParentIsAbove(b, m);
    var p := b.nodes[m].parent.value;
    if p != n {
      ViaChild(b, n, p);
      var c :| c in b.nodes[n].children && c in Lineage(b, p);
      assert c in Lineage(b, m);
    } else {
      assert m in b.nodes[n].children && m in Lineage(b, m);
    }
  }

  lemma {:induction false} AllUnderRoots(b: Blist, m: Id)
    requires WellFormed(b) && m in b.nodes
    ensures m in UnderSome(b, b.roots)
    decreases Level(b.nodes[m].kind)
  {
    assert NodeOk(b, m);
    ParentIsAbove(b, m);
    if b.nodes[m].parent.Some? {
      AllUnderRoots(b, b.nodes[m].parent.value);
    } else {
      assert m in Lineage(b, m);
    }
  }

  // ----- how far the rows may be from those of a rebuilt view -----

  predicate Leaf(b: Blist, n: Id) {
    n in b.nodes && (b.nodes[n].kind.Buddy? || b.nodes[n].kind.Chat?)
  }

  ghost function Leaves(b: Blist, s: set<Id>): set<Id> {
    set x | x in s && Leaf(b, x)
  }

  ghost predicate Hangs(b: Blist, s: set<Id>, m: Id)
    requires WellFormed(b)
  {
    exists x :: x in Leaves(b, s) && m in Lineage(b, x)
  }

  // A set of nodes that is there for its buddies and chats: each other node of it is above one.
  ghost predicate Rooted(b: Blist, s: set<Id>)
    requires WellFormed(b)
  {
    forall m {:trigger Hangs(b, s, m)} :: m in s ==> Hangs(b, s, m)
  }

  lemma RootedInNothing(b: Blist, s: set<Id>)
    requires WellFormed(b) && Rooted(b, s)
    ensures s == {} <==> Leaves(b, s) == {}
  {
    if s != {} {
      var m :| m in s;
      assert Hangs(b, s, m);
    }
  }

  lemma NothingMissing(b: Blist, accepted: set<Id>, shown: set<Id>)
    requires WellFormed(b) && Rooted(b, accepted - shown)
    ensures accepted <= shown <==> Leaves(b, accepted - shown) == {}
  {
    RootedInNothing(b, accepted - shown);
    if !(accepted <= shown) {
      var m :| m in accepted && m !in shown;
      assert m in accepted - shown;
    }
  }

  // Two worlds that differ at buddies and chats of `at` only, and maybe in which of `groups` are
  // fresh.
  ghost predicate SameBut(w: World, w': World, at: set<Id>, groups: set<Id>) {
    && w'.showOffline == w.showOffline && w'.emptyGroups == w.emptyGroups
    && (forall x :: x in at
          || ((x in w.online <==> x in w'.online) && (x in w.connected <==> x in w'.connected)
              && (x in w.flagged <==> x in w'.flagged) && (x in w.signed <==> x in w'.signed)))
    && (forall g :: g !in groups ==> (g in w.newGroups <==> g in w'.newGroups))
  }

  // A node is only accepted or not accepted any more because a leaf below it is, or because it is
  // a fresh group.
  lemma {:induction false} LeafBelow(b: Blist, w: World, w': World, at: set<Id>, groups: set<Id>, m: Id)
    requires WellFormed(b) && SameBut(w, w', at, groups) && m in b.nodes
    requires CanAdd(b, w, m) && !CanAdd(b, w', m) && (m !in groups || !b.nodes[m].kind.Group?)
    ensures exists x :: x in at && Leaf(b, x) && CanAdd(b, w, x) && !CanAdd(b, w', x) && m in Lineage(b, x)
    decreases 2 - Level(b.nodes[m].kind)
  {
    if Leaf(b, m) {
      assert m in Lineage(b, m);
    } else {
      assert NodeOk(b, m);
      assert SomeChild(b, w, m) && !SomeChild(b, w', m);
      var c :| c in b.nodes[m].children && CanAdd(b, w, c);
      ChildHasParent(b, m, c);
      OnlyGroupsAreOnTop(b, c);
      LeafBelow(b, w, w', at, groups, c);
      var x :| x in at && Leaf(b, x) && CanAdd(b, w, x) && !CanAdd(b, w', x) && c in Lineage(b, x);
      LineageUp(b, c);
      LineageIsUpClosed(b, x, c);
    }
  }

  lemma ChangeIsRooted(b: Blist, w: World, w': World, at: set<Id>, groups: set<Id>)
    requires WellFormed(b) && SameBut(w, w', at, groups)
    requires forall g :: g in groups ==> !Leaf(b, g)
    ensures var d := Accepts(b, w) - Accepts(b, w');
            Leaves(b, d) <= at && Rooted(b, d - groups)
  {
    var d := Accepts(b, w) - Accepts(b, w');
    forall m | m in d - groups ensures Hangs(b, d - groups, m) {
      LeafBelow(b, w, w', at, groups, m);
      var x :| x in at && Leaf(b, x) && CanAdd(b, w, x) && !CanAdd(b, w', x) && m in Lineage(b, x);
      assert x in Leaves(b, d - groups);
    }
    forall x | x in Leaves(b, d) ensures x in at {
      LeafBelow(b, w, w', at, groups, x);
    }
  }

  // The nodes shown for no reason, and those missing: when the world changes around a screen that
  // misses nothing, each still hangs on a buddy or chat; and only those of `at` come in.
  lemma ChangeKeepsRoots(b: Blist, w: World, w': World, at: set<Id>, groups: set<Id>, shown: set<Id>)
    requires WellFormed(b) && SameBut(w, w', at, groups) && UpClosed(b, shown)
    requires forall g :: g in groups ==> !Leaf(b, g)
    requires Accepts(b, w) <= shown && Rooted(b, shown - Accepts(b, w))
    ensures var a, a' := Accepts(b, w), Accepts(b, w');
            && Rooted(b, shown - a' - groups) && Rooted(b, a' - shown - groups)
            && Leaves(b, shown - a') <= Leaves(b, shown - a) + at
            && Leaves(b, a' - shown) <= at
  {
    var a, a' := Accepts(b, w), Accepts(b, w');
    ChangeIsRooted(b, w, w', at, groups);
    ChangeIsRooted(b, w', w, at, groups);
    ExtrasStayRooted(b, w, w', shown, groups);
    MissingStayRooted(b, shown, a, a', groups);
    forall x | x in Leaves(b, shown - a') ensures x in Leaves(b, shown - a) + at {
      assert x in a ==> x in Leaves(b, a - a');
    }
    forall x | x in Leaves(b, a' - shown) ensures x in at {
      assert x in Leaves(b, a' - a);
    }
  }

  lemma ExtrasStayRooted(b: Blist, w: World, w': World, shown: set<Id>, groups: set<Id>)
    requires WellFormed(b) && Accepts(b, w) <= shown
    requires forall g :: g in groups ==> !Leaf(b, g)
    requires var a, a' := Accepts(b, w), Accepts(b, w');
             Rooted(b, shown - a) && Rooted(b, a - a' - groups)
    ensures Rooted(b, shown - Accepts(b, w') - groups)
  {
    var a, a' := Accepts(b, w), Accepts(b, w');
    var d := shown - a' - groups;
    forall m | m in d ensures Hangs(b, d, m) {
      var s := if m in a then a - a' - groups else shown - a;
      assert Hangs(b, s, m);
      var x :| x in Leaves(b, s) && m in Lineage(b, x);
      if x in a' {
        AcceptsUp(b, w', x);
      }
      assert x in Leaves(b, d);
    }
  }

  lemma MissingStayRooted(b: Blist, shown: set<Id>, a: set<Id>, a': set<Id>, groups: set<Id>)
    requires WellFormed(b) && UpClosed(b, shown) && a <= shown && Rooted(b, a' - a - groups)
    ensures Rooted(b, a' - shown - groups)
  {
    FewerMissing(b, a', a, shown, groups);
  }

  // Showing more leaves fewer missing.
  lemma FewerMissing(b: Blist, accepted: set<Id>, shown: set<Id>, more: set<Id>, groups: set<Id>)
    requires WellFormed(b) && UpClosed(b, more) && shown <= more && Rooted(b, accepted - shown - groups)
    ensures Rooted(b, accepted - more - groups)
  {
    var d := accepted - more - groups;
    forall m | m in d ensures Hangs(b, d, m) {
      var s := accepted - shown - groups;
      assert Hangs(b, s, m);
      var x :| x in Leaves(b, s) && m in Lineage(b, x);
      assert x in Leaves(b, d);
    }
  }

  // ----- what removing and updating do to the difference -----

  // Removing a node that is shown for no reason takes away only nodes shown for no reason, leaves
  // none that had its reason there, and takes the node itself.
  lemma RemovedKeepsRoots(b: Blist, w: World, shown: set<Id>, n: Id)
    requires WellFormed(b) && UpClosed(b, shown) && n in b.nodes && n !in Accepts(b, w)
    requires Rooted(b, shown - Accepts(b, w)) || Rooted(b, shown - Accepts(b, w) - {n})
    ensures var a, r := Accepts(b, w), Removed(b, Accepts(b, w), shown, n);
            n !in r && r <= shown && shown * a <= r && Rooted(b, r - a)
  {
    var a, r := Accepts(b, w), Removed(b, Accepts(b, w), shown, n);
    assert n in Lineage(b, n);
    forall m | m in shown * a ensures m in r {
      AcceptsUp(b, w, m);
    }
    if n !in shown {
      assert shown - a - {n} == shown - a;
      return;
    }
    var d := if Rooted(b, shown - a) then shown - a else shown - a - {n};
    forall m | m in r - a ensures Hangs(b, r - a, m) {
      assert m in d && Hangs(b, d, m);
      var x :| x in Leaves(b, d) && m in Lineage(b, x);
      StaysWithItsLeaf(b, a, shown, n, m, x);
      assert x in Leaves(b, r - a);
    }
  }

  lemma StaysWithItsLeaf(b: Blist, accepted: set<Id>, shown: set<Id>, n: Id, m: Id, x: Id)
    requires WellFormed(b) && shown <= b.nodes.Keys && n in shown && x in shown && m in Lineage(b, x)
    requires m in Removed(b, accepted, shown, n) && m !in accepted
    ensures x in Removed(b, accepted, shown, n)
  {
    var gone := Lineage(b, n) - accepted;
    forall a | a in Lineage(b, x) ensures a !in gone {
      OneLine(b, x, m, a);
      if a in Lineage(b, n) {
        LineageIsUpClosed(b, n, a);
      }
    }
  }

  // Updating shows only what is to be shown, and removes only a group shown for no reason.
  lemma UpdatedKeepsRoots(b: Blist, w: World, shown: set<Id>, n: Id)
    requires WellFormed(b) && n in b.nodes && UpClosed(b, shown) && UpClosed(b, Updated(b, Accepts(b, w), shown, n))
    requires Rooted(b, shown - Accepts(b, w)) || (b.nodes[n].kind.Group? && Rooted(b, shown - Accepts(b, w) - {n}))
    requires Rooted(b, Accepts(b, w) - shown)
    ensures var a, r := Accepts(b, w), Updated(b, Accepts(b, w), shown, n);
            && Rooted(b, r - a) && Rooted(b, a - r)
            && r - a <= shown - a && a - r <= a - shown && (Leaf(b, n) ==> n !in a - r && shown <= r)
    ensures b.nodes[n].kind.Group? && n in Updated(b, Accepts(b, w), shown, n) ==> n in Accepts(b, w)
  {
    var a, r := Accepts(b, w), Updated(b, Accepts(b, w), shown, n);
    if b.nodes[n].kind.Group? && n !in a {
      RemovedKeepsRoots(b, w, shown, n);
      assert a - r == a - shown;
    } else {
      UpdatedAdds(b, w, shown, n);
      assert r - a == shown - a;
      assert n in a ==> shown - a - {n} == shown - a;
      assert a - r - {} == a - r && a - shown - {} == a - shown;
      FewerMissing(b, a, shown, r, {});
    }
  }

  lemma UpdatedAdds(b: Blist, w: World, shown: set<Id>, n: Id)
    requires WellFormed(b) && shown <= b.nodes.Keys && n in b.nodes
    requires b.nodes[n].kind.Group? ==> n in Accepts(b, w)
    ensures var a, r := Accepts(b, w), Updated(b, Accepts(b, w), shown, n);
            shown <= r <= shown + a && (Leaf(b, n) && n in a ==> n in r)
  {
    JoinedAdds(b, w, shown, n);
    if b.nodes[n].kind.Buddy? {
      ContactAbove(b, n);
      JoinedAdds(b, w, Joined(b, Accepts(b, w), shown, n), b.nodes[n].parent.value);
    }
  }

  lemma JoinedAdds(b: Blist, w: World, shown: set<Id>, n: Id)
    requires WellFormed(b) && shown <= b.nodes.Keys && n in b.nodes
    ensures var a, r := Accepts(b, w), Joined(b, Accepts(b, w), shown, n);
            shown <= r <= shown + a && (n in a ==> n in r)
  {
    if n in Accepts(b, w) {
      AcceptsUp(b, w, n);
    }
  }
}
