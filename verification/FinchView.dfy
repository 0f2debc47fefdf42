/** Finch's buddy list on the screen (finch/gntblist.c).

    The class holds the nodes that have ui_data, the rows of the GNT tree with the key of the row
    each sits under, the running signed-on/off timers, the list of fresh groups, and what the
    visibility test asks about.  Its methods are the mutually recursive procedures that keep the
    rows in step with the test. */
module FinchView {
  import opened Basics
  import opened BuddyList
  import opened FinchRules
  import opened FinchRedraw

  // What can happen to a buddy list on the screen.
  datatype Step =
    | Toggle(n: Id)
    | Presence(n: Id, isOnline: bool)
    | SignedAgain(n: Id)          // an update whose old status is on the other side
    | Call(n: Id)                 // a queued buddy_signed_on_off_cb()
    | Timer(n: Id)                // buddy_recent_signed_on_off()
    | NewGroup(g: Id)
    | NewGroupsOver
    | NodeChanged(n: Id)
    | Connected(account: set<Id>) // of the buddies and chats of an account
    | Disconnected(account: set<Id>)
    | Prefs(offline: bool, empty: bool)

  // What the rest of the program decides.
  datatype Outside = Outside(
    online: set<Id>, connected: set<Id>, flagged: set<Id>, showOffline: bool, emptyGroups: bool)

  predicate Possible(b: Blist, s: Step) {
    match s
    case Toggle(n) => n in b.nodes && b.nodes[n].kind.Buddy?
    case Presence(n, _) => n in b.nodes && b.nodes[n].kind.Buddy?
    case SignedAgain(n) => n in b.nodes && b.nodes[n].kind.Buddy?
    case NewGroup(g) => g in b.nodes && b.nodes[g].kind.Group?
    case NodeChanged(n) => n in b.nodes
    case Connected(account) => forall x :: x in account ==> Leaf(b, x)
    case Disconnected(account) => forall x :: x in account ==> Leaf(b, x)
    case _ => true
  }

  function After(b: Blist, o: Outside, s: Step): Outside {
    if !Possible(b, s) then o else
    match s
    case Toggle(n) => o.(flagged := if n in o.flagged then o.flagged - {n} else o.flagged + {n})
    case Presence(n, isOnline) => o.(online := if isOnline then o.online + {n} else o.online - {n})
    case Connected(account) => o.(connected := o.connected + account)
    case Disconnected(account) => o.(connected := o.connected - account)
    case Prefs(offline, empty) => o.(showOffline := offline, emptyGroups := empty)
    case _ => o
  }

  function AfterAll(b: Blist, o: Outside, steps: seq<Step>): Outside {
    if steps == [] then o else After(b, AfterAll(b, o, steps[..|steps| - 1]), steps[|steps| - 1])
  }

  // ----- the rows while node_remove() is at work -----

  // The nodes of `dead` are off the screen; what is still shown below them has lost its rows.
  ghost predicate RowRight(b: Blist, ui: set<Id>, rows: map<Id, Option<Id>>, dead: set<Id>, m: Id) {
    && m in b.nodes
    && var p := b.nodes[m].parent;
    && (p.Some? ==> p.value in ui || p.value in dead)
    && (m in rows <==> p.None? || p.value in rows)
    && (m in rows ==> rows[m] == p)
  }

  ghost predicate Screen(b: Blist, ui: set<Id>, rows: map<Id, Option<Id>>, dead: set<Id>) {
    && rows.Keys <= ui && dead !! ui
    && forall m {:trigger RowRight(b, ui, rows, dead, m)} :: m in ui ==> RowRight(b, ui, rows, dead, m)
  }

  predicate RowIsUnder(rows: map<Id, Option<Id>>, m: Id, n: Id)
    requires m in rows
  {
    && rows[m].Some?
    && (rows[m].value == n || (rows[m].value in rows && rows[rows[m].value] == Some(n)))
  }

  // gnt_tree_remove()
  function WithoutRow(rows: map<Id, Option<Id>>, n: Id): map<Id, Option<Id>> {
    map m | m in rows && m != n && !RowIsUnder(rows, m, n) :: rows[m]
  }

  lemma RowsAfterDrop(b: Blist, ui: set<Id>, rows: map<Id, Option<Id>>, dead: set<Id>, n: Id)
    requires WellFormed(b) && Screen(b, ui, rows, dead) && n in ui
    ensures Screen(b, ui - {n}, WithoutRow(rows, n), dead + {n})
  {
    forall m | m in ui - {n} ensures RowRight(b, ui - {n}, WithoutRow(rows, n), dead + {n}, m) {
      RowAfterDrop(b, ui, rows, dead, n, m);
    }
  }

  // A row goes along exactly if the row it sits under does.
  lemma RowAfterDrop(b: Blist, ui: set<Id>, rows: map<Id, Option<Id>>, dead: set<Id>, n: Id, m: Id)
    requires WellFormed(b) && Screen(b, ui, rows, dead) && n in ui && m in ui && m != n
    ensures RowRight(b, ui - {n}, WithoutRow(rows, n), dead + {n}, m)
  {
    assert RowRight(b, ui, rows, dead, m);
    ParentIsAbove(b, m);
    var p := b.nodes[m].parent;
    if m in rows && p.Some? {
      assert RowRight(b, ui, rows, dead, p.value);
      ParentIsAbove(b, p.value);
      if rows[p.value].Some? {
        var top := rows[p.value].value;
        assert RowRight(b, ui, rows, dead, top);
        ParentIsAbove(b, top);
      }
    }
  }

  lemma {:induction false} AllHaveRows(b: Blist, ui: set<Id>, rows: map<Id, Option<Id>>, m: Id)
    requires WellFormed(b) && Screen(b, ui, rows, {}) && m in ui && m in b.nodes
    ensures m in rows
    decreases Level(b.nodes[m].kind)
  {
    assert RowRight(b, ui, rows, {}, m);
    ParentIsAbove(b, m);
    if b.nodes[m].parent.Some? {
      AllHaveRows(b, ui, rows, b.nodes[m].parent.value);
    }
  }

  ghost predicate NotBelow(b: Blist, dead: set<Id>, level: nat) {
    forall d :: d in dead ==> d in b.nodes && Level(b.nodes[d].kind) <= level
  }

  // Nothing is dead, or what is lies above n.
  ghost predicate DeadAbove(b: Blist, accepted: set<Id>, dead: set<Id>, n: Id)
    requires n in b.nodes
  {
    dead == {} ||
    (&& dead !! accepted
     && b.nodes[n].parent.Some? && b.nodes[n].parent.value in dead
     && Level(b.nodes[n].kind) > 0 && NotBelow(b, dead, Level(b.nodes[n].kind) - 1))
  }

  // What is shown below a node that is not dead is shown because that node is.
  lemma {:induction false} ShownThrough(b: Blist, ui: set<Id>, rows: map<Id, Option<Id>>, dead: set<Id>, c: Id, m: Id)
    requires WellFormed(b) && Screen(b, ui, rows, dead) && m in ui && m in b.nodes && c in Lineage(b, m)
    requires c in b.nodes && Level(b.nodes[c].kind) > 0 && NotBelow(b, dead, Level(b.nodes[c].kind) - 1)
    ensures c in ui
    decreases Level(b.nodes[m].kind)
  {
    if c != m {
      assert RowRight(b, ui, rows, dead, m);
      ParentIsAbove(b, m);
      ShownThrough(b, ui, rows, dead, c, b.nodes[m].parent.value);
    }
  }

  lemma NothingShownUnder(b: Blist, ui: set<Id>, rows: map<Id, Option<Id>>, dead: set<Id>, c: Id)
    requires WellFormed(b) && Screen(b, ui, rows, dead) && ui <= b.nodes.Keys
    requires c in b.nodes && Level(b.nodes[c].kind) > 0 && NotBelow(b, dead, Level(b.nodes[c].kind) - 1)
    ensures c !in ui ==> ui - Under(b, c) == ui
  {
    if c !in ui {
      forall m | m in ui ensures m !in Under(b, c) {
        if c in Lineage(b, m) {
          ShownThrough(b, ui, rows, dead, c, m);
        }
      }
    }
  }

  // Once nothing is shown below it, a dead node is like one that never was on the screen.
  lemma Buried(b: Blist, ui: set<Id>, rows: map<Id, Option<Id>>, dead: set<Id>, n: Id)
    requires WellFormed(b) && Screen(b, ui, rows, dead + {n}) && ui !! Under(b, n) && n in b.nodes
    ensures Screen(b, ui, rows, dead)
  {
    forall m | m in ui ensures RowRight(b, ui, rows, dead, m) {
      assert RowRight(b, ui, rows, dead + {n}, m);
      LineageUp(b, m);
    }
  }

  // Only groups are fresh, and only buddies sign on and off.
  ghost predicate GroupsAndBuddies(b: Blist, groups: seq<Id>, signed: set<Id>, idle: multiset<Id>) {
    && (forall g :: g in groups ==> g in b.nodes && b.nodes[g].kind.Group?)
    && (forall x :: x in idle || x in signed ==> x in b.nodes && b.nodes[x].kind.Buddy?)
  }

  // Removing a node is removing what is under it, and then its parent if that is not to be shown.
  lemma OneByOne(b: Blist, w: World, shown: set<Id>, n: Id)
    requires WellFormed(b) && shown <= b.nodes.Keys && n in shown && n !in Accepts(b, w)
    ensures var a, p, s := Accepts(b, w), b.nodes[n].parent, shown - Under(b, n);
            if p.None? || p.value in a then Removed(b, a, shown, n) == s
            else
              && p.value in b.nodes
              && (p.value in shown ==> p.value in s && Removed(b, a, shown, n) == Removed(b, a, s, p.value))
  {
    var a, p := Accepts(b, w), b.nodes[n].parent;
    LineageUp(b, n);
    ParentIsAbove(b, n);
    if p.None? || p.value in a {
      if p.Some? {
        AcceptsUp(b, w, p.value);
      }
      assert Lineage(b, n) - a == {n};
    } else {
      assert Lineage(b, n) - a == {n} + (Lineage(b, p.value) - a);
    }
  }

  class FinchBuddyList {
    const blist: Blist
    var online: set<Id>
    var connected: set<Id>
    var flagged: set<Id>
    var showOffline: bool
    var emptyGroups: bool
    var ui: set<Id>
    var signed: set<Id>
    var rows: map<Id, Option<Id>>
    var new_group: seq<Id>
    var idle: multiset<Id>     // queued calls of buddy_signed_on_off_cb()

    ghost function Sees(): World
      reads this
    {
      World(online, connected, flagged, showOffline, emptyGroups, signed, new_group)
    }

    ghost function Accepted(): set<Id>
      reads this
      requires WellFormed(blist)
    {
      Accepts(blist, Sees())
    }

    // Every node with ui_data has its row, under the row of its own parent.
    ghost predicate Ok()
      reads this
    {
      && WellFormed(blist)
      && rows.Keys == ui && signed <= ui && ui <= blist.nodes.Keys
      && (forall n {:trigger RowOk(n)} :: n in ui ==> RowOk(n))
    }

    ghost predicate RowOk(n: Id)
      reads this
    {
      && n in rows && n in blist.nodes
      && rows[n] == blist.nodes[n].parent
      && (rows[n].Some? ==> rows[n].value in ui)
    }

    // The same in the middle of node_remove().
    ghost predicate OkBut(dead: set<Id>)
      reads this
    {
      WellFormed(blist) && signed <= ui <= blist.nodes.Keys && Screen(blist, ui, rows, dead)
    }

    lemma NoneDead()
      ensures Ok() <==> OkBut({})
    {
      if OkBut({}) {
        forall m | m in ui ensures RowOk(m) {
          AllHaveRows(blist, ui, rows, m);
          assert RowRight(blist, ui, rows, {}, m);
        }
      }
      if Ok() {
        forall m | m in ui ensures RowRight(blist, ui, rows, {}, m) {
          assert RowOk(m);
        }
      }
    }

    // The rows are those a rebuilt view would have.
    ghost predicate Faithful()
      reads this
    {
      Ok() && ui == Accepted()
    }

    method CanAddNode(n: Id) returns (yes: bool)
      requires WellFormed(blist) && n in blist.nodes
      ensures yes == CanAdd(blist, Sees(), n)
      decreases 2 - Level(blist.nodes[n].kind), 1
    {
      assert NodeOk(blist, n);
      var node := blist.nodes[n];
      match node.kind {
        case Buddy =>
          if node.parent.None? {
            return false;
          }
          if n in connected && n in online {
            return true;
          }
          if n !in connected {
            return false;
          }
          return showOffline || n in signed || n in flagged;
        case Chat =>
          return n in connected;
        case Contact =>
          yes := AnyChild(n);
        case Group =>
          if emptyGroups {
            return true;
          }
          yes := AnyChild(n);
          if !yes {
            yes := n in new_group;
          }
      }
    }

    // The sibling loops of can_add_node.
    method AnyChild(n: Id) returns (yes: bool)
      requires WellFormed(blist) && n in blist.nodes && Level(blist.nodes[n].kind) < 2
      ensures yes == SomeChild(blist, Sees(), n)
      decreases 2 - Level(blist.nodes[n].kind), 0
    {
      assert NodeOk(blist, n);
      var children := blist.nodes[n].children;
      for i := 0 to |children|
        invariant forall c :: c in children[..i] ==> !CanAdd(blist, Sees(), c)
      {
        yes := CanAddNode(children[i]);
        if yes {
          return;
        }
      }
      return false;
    }

    // add_node() with add_buddy, add_contact, add_group and add_chat.
    method AddNode(n: Id)
      requires Ok() && n in blist.nodes
      modifies `ui, `rows
      ensures Ok()
      ensures ui == Joined(blist, Accepted(), old(ui), n)
      decreases Level(blist.nodes[n].kind), 1
    {
      LineageShown(n);
      if n in ui {
        return;
      }
      var yes := CanAddNode(n);
      if !yes {
        return;
      }
      AcceptsUp(blist, Sees(), n);
      var parent := FindParent(n);
      label Placed:
      // gnt_tree_add_row_after(): at the top unless the parent has a row
      rows := rows[n := if parent.Some? && parent.value in rows then parent else None];
      ui := ui + {n};
      forall m | m in ui ensures RowOk(m) {
        assert m != n ==> old@Placed(RowOk(m));
      }
    }

    // What is shown is shown with everything above it.
    lemma LineageShown(n: Id)
      requires Ok() && n in blist.nodes
      ensures n in ui ==> Lineage(blist, n) <= ui
      decreases Level(blist.nodes[n].kind)
    {
      ParentIsAbove(blist, n);
      assert n in ui ==> RowOk(n);
      if n in ui && blist.nodes[n].parent.Some? {
        LineageShown(blist.nodes[n].parent.value);
      }
    }

    // default_find_parent()
    method FindParent(n: Id) returns (parent: Option<Id>)
      requires Ok() && n in blist.nodes
      modifies `ui, `rows
      ensures Ok()
      ensures parent == blist.nodes[n].parent && (parent.Some? ==> parent.value in blist.nodes)
      ensures ui == if parent.Some? then Joined(blist, Accepted(), old(ui), parent.value) else old(ui)
      decreases Level(blist.nodes[n].kind), 0
    {
      ParentIsAbove(blist, n);
      parent := blist.nodes[n].parent;
      if parent.Some? {
        AddNode(parent.value);
      }
    }

    // Taking a node off the screen: gnt_tree_remove(), which takes the rows below along, and
    // reset_blist_node_ui_data(), which stops the timer.
    method DropRow(n: Id, ghost dead: set<Id>)
      requires OkBut(dead) && n in ui && n !in Accepted()
      modifies `ui, `rows, `signed
      ensures OkBut(dead + {n}) && Accepted() == old(Accepted())
      ensures ui == old(ui) - {n} && signed == old(signed) - {n}
    {
      ghost var w := Sees();
      forall m | m in blist.nodes
        ensures CanAdd(blist, w.(signed := w.signed - {n}), m) == CanAdd(blist, w, m)
      {
        TimerHasNoSay(blist, w, n, m);
      }
      RowsAfterDrop(blist, ui, rows, dead, n);
      rows := WithoutRow(rows, n);
      ui := ui - {n};
      signed := signed - {n};
    }

    // node_remove(), of a node that is not to be shown.  While it is at work below another node
    // that it has taken off the screen already, that one and those above it are `dead`.
    method NodeRemove(n: Id, ghost dead: set<Id>)
      requires OkBut(dead) && n in blist.nodes && n !in Accepted()
      requires n in ui ==> DeadAbove(blist, Accepted(), dead, n)
      modifies `ui, `rows, `signed, `new_group
      ensures OkBut(dead) && Accepted() == old(Accepted())
      ensures new_group == old(new_group) && signed == old(signed) * ui
      ensures dead == {} ==> ui == Removed(blist, Accepted(), old(ui), n)
      ensures dead != {} ==> ui == if n in old(ui) then old(ui) - Under(blist, n) else old(ui)
      decreases 0, ui, 1
    {
      if n !in ui {
        return;
      }
      ghost var accepted := Accepted();
      var parent := blist.nodes[n].parent;
      assert RowRight(blist, ui, rows, dead, n);
      LineageUp(blist, n);
      ParentIsAbove(blist, n);
      OneByOne(blist, Sees(), ui, n);
      TakeDown(n, dead);
      if parent.Some? {
        SettleParent(parent.value, dead);
      }
    }

    // Its first half: the node itself and what is below it.
    method TakeDown(n: Id, ghost dead: set<Id>)
      requires OkBut(dead) && n in ui && n !in Accepted() && DeadAbove(blist, Accepted(), dead, n)
      modifies `ui, `rows, `signed, `new_group
      ensures OkBut(dead) && Accepted() == old(Accepted())
      ensures new_group == old(new_group) && signed == old(signed) * ui
      ensures ui == old(ui) - Under(blist, n)
      decreases 0, ui, 0
    {
      assert blist.nodes[n].kind.Group? ==> n !in new_group;
      if blist.nodes[n].kind.Group? && new_group != [] {
        new_group := RemoveFirst(new_group, n);
      }
      assert n in Lineage(blist, n) && n in Under(blist, n);
      DropRow(n, dead);
      RemoveChildren(n, dead + {n});
      Buried(blist, ui, rows, dead, n);
    }

    // The loop over the children of a node that is off the screen.
    method RemoveChildren(n: Id, ghost dead: set<Id>)
      requires OkBut(dead) && n in blist.nodes && n !in Accepted() && n in dead
      requires dead !! Accepted() && NotBelow(blist, dead, Level(blist.nodes[n].kind))
      modifies `ui, `rows, `signed, `new_group
      ensures OkBut(dead) && Accepted() == old(Accepted())
      ensures new_group == old(new_group) && signed == old(signed) * ui
      ensures ui == old(ui) - Under(blist, n)
      decreases 0, ui, 2
    {
      var children := blist.nodes[n].children;
      for i := 0 to |children|
        invariant OkBut(dead) && Accepted() == old(Accepted())
        invariant new_group == old(new_group) && signed == old(signed) * ui
        invariant ui == old(ui) - UnderSome(blist, children[..i])
      {
        NextChild(n, i, dead);
        NodeRemove(children[i], dead);
      }
      assert children[..|children|] == children;
      UnderChildren(blist, n);
    }

    lemma NextChild(n: Id, i: nat, dead: set<Id>)
      requires OkBut(dead) && n in blist.nodes && n !in Accepted() && n in dead
      requires dead !! Accepted() && NotBelow(blist, dead, Level(blist.nodes[n].kind))
      requires i < |blist.nodes[n].children|
      ensures var cs := blist.nodes[n].children;
              && cs[i] in blist.nodes && cs[i] !in Accepted() && DeadAbove(blist, Accepted(), dead, cs[i])
              && UnderSome(blist, cs[..i + 1]) == UnderSome(blist, cs[..i]) + Under(blist, cs[i])
              && (cs[i] !in ui ==> ui - Under(blist, cs[i]) == ui)
    {
      var c := blist.nodes[n].children[i];
      ChildHasParent(blist, n, c);
      BelowUnaccepted(blist, Sees(), n, c);
      ParentIsAbove(blist, c);
      NothingShownUnder(blist, ui, rows, dead, c);
      OneMoreUnder(blist, blist.nodes[n].children, i);
    }

    // The last step of node_remove(): the parent goes too, or is updated.
    method SettleParent(p: Id, ghost dead: set<Id>)
      requires OkBut(dead) && p in blist.nodes && (blist.nodes[p].kind.Group? || blist.nodes[p].kind.Contact?)
      requires if dead == {} then p in ui else p in dead && p !in Accepted()
      modifies `ui, `rows, `signed, `new_group
      ensures OkBut(dead) && Accepted() == old(Accepted())
      ensures new_group == old(new_group) && signed == old(signed) * ui
      ensures ui == if dead == {} && p !in Accepted() then Removed(blist, Accepted(), old(ui), p) else old(ui)
      decreases 0, ui, 4
    {
      var yes := CanAddNode(p);
      if !yes {
        NodeRemove(p, dead);
      } else {
        NoneDead();
        NodeUpdate(p);
        NoneDead();
      }
    }

    // node_update().  The row of a node that has one sits under its parent's row, so the branch
    // that takes a misplaced row off the screen is not reached.
    method NodeUpdate(n: Id)
      requires Ok() && n in blist.nodes
      modifies `ui, `rows, `signed, `new_group
      ensures Ok() && Accepted() == old(Accepted())
      ensures new_group == old(new_group) && signed == old(signed) * ui
      ensures ui == Updated(blist, Accepted(), old(ui), n)
      decreases if blist.nodes[n].kind.Buddy? then 1 else 0, ui, 3
    {
      if n in ui {
        CheckRow(n);
      }
      match blist.nodes[n].kind {
        case Buddy =>
          AddNode(n);
          ContactAbove(blist, n);
          NodeUpdate(blist.nodes[n].parent.value);
        case Chat =>
          AddNode(n);
        case Contact =>
          if n !in ui {
            AddChildren(n);
          }
        case Group =>
          UpdateGroup(n);
      }
    }

    method CheckRow(n: Id)
      requires Ok() && n in ui
      modifies `ui, `rows
      ensures Ok() && ui == old(ui)
    {
      LineageShown(n);
      LineageUp(blist, n);
      var parent := FindParent(n);
      assert RowOk(n) && rows[n] == parent;
    }

    method UpdateGroup(n: Id)
      requires Ok() && n in blist.nodes && blist.nodes[n].kind.Group?
      modifies `ui, `rows, `signed, `new_group
      ensures Ok() && Accepted() == old(Accepted())
      ensures new_group == old(new_group) && signed == old(signed) * ui
      ensures ui == if n in Accepted() then old(ui) + {n} else Removed(blist, Accepted(), old(ui), n)
      decreases 0, ui, 2
    {
      OnlyGroupsAreOnTop(blist, n);
      LineageUp(blist, n);
      var yes := CanAddNode(n);
      if !yes {
        NoneDead();
        NodeRemove(n, {});
        NoneDead();
      } else {
        AddNode(n);
      }
    }

    method AddChildren(n: Id)
      requires Ok() && n in blist.nodes && blist.nodes[n].kind.Contact?
      modifies `ui, `rows
      ensures Ok()
      ensures ui == Joined(blist, Accepted(), old(ui), n) + (set c | c in blist.nodes[n].children && c in Accepted())
    {
      var children := blist.nodes[n].children;
      for i := 0 to |children|
        invariant Ok()
        invariant online == old(online) && Sees() == old(Sees())
        invariant ui == old(ui) + Brought(blist, Accepted(), n, children[..i])
      {
        ChildHasParent(blist, n, children[i]);
        BroughtOneMore(blist, Accepted(), ui, n, children[..i], children[i]);
        AddNode(children[i]);
        assert children[..i + 1] == children[..i] + [children[i]];
      }
      assert children[..|children|] == children;
      AcceptedContact(blist, Sees(), n);
    }

    // ----- how far the screen may be from a rebuilt view -----

    // The buddies and chats that are shown for no reason.
    ghost function Strays(): set<Id>
      reads this
      requires WellFormed(blist)
    {
      Leaves(blist, ui - Accepted())
    }

    // Those that are to be shown and are not.
    ghost function Missing(): set<Id>
      reads this
      requires WellFormed(blist)
    {
      Leaves(blist, Accepted() - ui)
    }

    // The strays that no queued call and no timer will take care of.
    ghost function Untracked(): set<Id>
      reads this
      requires WellFormed(blist)
    {
      set x | x in Strays() && x !in signed && x !in idle
    }

    // Contacts and groups are shown for no reason only above strays, and missing only above
    // missing buddies and chats.
    ghost predicate Near()
      reads this
    {
      Ok() && Rooted(blist, ui - Accepted()) && Rooted(blist, Accepted() - ui)
    }

    // What holds between any two steps: nothing is missing, and each stray waits for its call.
    ghost predicate Tracked()
      reads this
    {
      && Near() && Missing() == {} && Untracked() == {}
      && GroupsAndBuddies(blist, new_group, signed, idle)
    }

    lemma NearIsFaithful()
      requires Near()
      ensures Faithful() <==> Strays() == {} && Missing() == {}
      ensures Missing() == {} ==> Accepted() <= ui
    {
      NothingMissing(blist, ui, Accepted());
      NothingMissing(blist, Accepted(), ui);
    }

    // What a right screen shows, told by the fields alone: the chats of connected accounts; their
    // buddies that are online or have another reason; a contact above a buddy that is shown; and a
    // group above anything shown, or fresh, or any if the user wants to see empty ones.
    ghost predicate Shows(n: Id)
      requires n in blist.nodes
      reads this
    {
      match blist.nodes[n].kind
      case Buddy => n in ui <==> WillBeShown(n, n in online)
      case Chat => n in ui <==> n in connected
      case Contact => n in ui <==> ShowsAChild(n)
      case Group => n in ui <==> emptyGroups || n in new_group || ShowsAChild(n)
    }

    ghost predicate ShowsAChild(n: Id)
      requires n in blist.nodes
      reads `ui
    {
      exists c :: c in blist.nodes[n].children && c in ui
    }

    ghost predicate ShowsAll()
      reads this
    {
      forall n :: n in blist.nodes ==> Shows(n)
    }

    // A buddy that is still shown until its call or its timer comes.
    ghost predicate Waits(n: Id)
      requires n in blist.nodes
      reads this
    {
      blist.nodes[n].kind.Buddy? && n in ui && (n in idle || n in signed)
    }

    lemma ChildrenDecide(n: Id)
      requires WellFormed(blist) && n in blist.nodes
      ensures blist.nodes[n].kind.Contact? ==>
                (n in Accepted() <==> exists c :: c in blist.nodes[n].children && c in Accepted())
      ensures blist.nodes[n].kind.Group? ==>
                (n in Accepted() <==> emptyGroups || n in new_group ||
                                      exists c :: c in blist.nodes[n].children && c in Accepted())
      ensures blist.nodes[n].kind.Chat? ==> (n in Accepted() <==> n in connected)
      ensures blist.nodes[n].kind.Buddy? ==> (n in Accepted() <==> WillBeShown(n, n in online))
    {
      assert NodeOk(blist, n);
      OnlyGroupsAreOnTop(blist, n);
      if Level(blist.nodes[n].kind) < 2 {
        assert SomeChild(blist, Sees(), n) <==> exists c :: c in blist.nodes[n].children && c in Accepted();
      }
    }

    lemma FaithfulShows()
      requires Ok()
      ensures Faithful() <==> ShowsAll()
    {
      forall n | n in blist.nodes ensures Faithful() ==> Shows(n) {
        ChildrenDecide(n);
      }
      if ShowsAll() {
        forall n | n in blist.nodes ensures n in ui <==> n in Accepted() {
          ShownIsAccepted(n);
        }
      }
    }

    lemma {:induction false} ShownIsAccepted(n: Id)
      requires Ok() && ShowsAll() && n in blist.nodes
      ensures n in ui <==> n in Accepted()
      decreases 2 - Level(blist.nodes[n].kind)
    {
      assert NodeOk(blist, n) && Shows(n);
      forall c | c in blist.nodes[n].children ensures c in ui <==> c in Accepted() {
        ShownIsAccepted(c);
      }
      ChildrenDecide(n);
    }

    // Between any two steps every node is shown exactly for its reasons, but for waiting buddies.
    lemma TrackedShows()
      requires Tracked()
      ensures forall n :: n in blist.nodes ==> Shows(n) || Waits(n)
    {
      NearIsFaithful();
      forall n | n in blist.nodes ensures Shows(n) || Waits(n) {
        ChildrenDecide(n);
        if n !in ui {
          assert n !in Accepted();
          NothingShownBelow(n);
        } else if n in Accepted() {
        } else if Leaf(blist, n) {
          assert n in Strays() && n !in Untracked();
        } else {
          StrayIsAboveOne(n);
        }
      }
    }

    lemma NothingShownBelow(n: Id)
      requires Ok() && n in blist.nodes
      ensures n !in ui ==> !ShowsAChild(n)
    {
      forall c | c in blist.nodes[n].children && c in ui ensures n in ui {
        ChildHasParent(blist, n, c);
        assert RowOk(c);
      }
    }

    lemma StrayIsAboveOne(n: Id)
      requires Near() && n in ui - Accepted() && !Leaf(blist, n)
      ensures ShowsAChild(n)
    {
      assert Hangs(blist, ui - Accepted(), n);
      var x :| x in Leaves(blist, ui - Accepted()) && n in Lineage(blist, x);
      ViaChild(blist, n, x);
      var c :| c in blist.nodes[n].children && c in Lineage(blist, x);
      ShownIsUpClosed();
      assert Lineage(blist, x) <= ui;
    }

    // When no call is queued and no timer runs, the rows are those of a rebuilt view.
    lemma QuietIsFaithful()
      requires Tracked() && idle == multiset{} && signed == {}
      ensures Faithful() && ShowsAll()
    {
      assert Untracked() == Strays();
      NearIsFaithful();
      FaithfulShows();
    }

    twostate lemma StillOk()
      requires old(Ok()) && ui == old(ui) && rows == old(rows) && signed <= ui
      ensures Ok()
    {
      forall m | m in ui ensures RowOk(m) {
        assert old(RowOk(m));
      }
    }

    // The world changes, at buddies and chats of `at`, around a screen that misses nothing.
    twostate lemma Rechecked(at: set<Id>)
      requires old(Near()) && old(Missing()) == {} && SameBut(old(Sees()), Sees(), at, {})
      requires ui == old(ui) && rows == old(rows) && signed <= ui
      requires forall x :: x in old(idle) ==> x in idle || x in at
      ensures Near() && Strays() <= old(Strays()) + at && Missing() <= at - ui
      ensures Untracked() <= old(Untracked()) + at
    {
      StillOk();
      ShownIsUpClosed();
      NothingMissing(blist, old(Accepted()), ui);
      ChangeKeepsRoots(blist, old(Sees()), Sees(), at, {}, ui);
      assert ui - Accepted() - {} == ui - Accepted() && Accepted() - ui - {} == Accepted() - ui;
    }

    // ----- the steps -----

    // purple_blist_update_node(): the core says that a node has changed.
    method BlistUpdate(n: Id)
      requires Near() && n in blist.nodes
      modifies `ui, `rows, `signed, `new_group
      ensures Near() && Accepted() == old(Accepted())
      ensures new_group == old(new_group) && signed <= old(signed)
      ensures Strays() <= old(Strays()) && Untracked() <= old(Untracked())
      ensures Missing() <= old(Missing()) - {n}
      ensures Leaf(blist, n) ==> old(ui) <= ui && signed == old(signed)
      ensures ui <= old(ui) + Accepted() && (blist.nodes[n].kind.Group? && n in ui ==> n in Accepted())
    {
      ghost var w, shown := Sees(), ui;
      ShownIsUpClosed();
      NodeUpdate(n);
      ShownIsUpClosed();
      UpdatedKeepsRoots(blist, w, shown, n);
      forall m | m in ui ensures m in shown + Accepted() {
        assert m !in Accepted() ==> m in ui - Accepted();
      }
    }

    // node_remove() of a buddy or chat, or of a node that is shown for no reason.
    method BlistRemove(n: Id)
      requires Near() && n in blist.nodes && n !in Accepted()
      modifies `ui, `rows, `signed, `new_group
      ensures Near() && Accepted() == old(Accepted()) && n !in ui
      ensures new_group == old(new_group) && signed <= old(signed)
      ensures Strays() <= old(Strays()) - {n} && Untracked() <= old(Untracked()) - {n}
      ensures Missing() == old(Missing())
    {
      ghost var w, shown := Sees(), ui;
      ShownIsUpClosed();
      NoneDead();
      NodeRemove(n, {});
      NoneDead();
      RemovedKeepsRoots(blist, w, shown, n);
      assert Accepted() - ui == old(Accepted() - ui);
    }

    // toggle_show_offline()
    method ToggleShowOffline(n: Id)
      requires Tracked() && n in blist.nodes && blist.nodes[n].kind.Buddy?
      modifies `flagged, `ui, `rows, `signed, `new_group
      ensures Tracked() && Strays() <= old(Strays()) - {n}
      ensures old(Strays()) <= {n} ==> Faithful()
      ensures flagged == if n in old(flagged) then old(flagged) - {n} else old(flagged) + {n}
      ensures new_group == old(new_group) && signed <= old(signed)
    {
      flagged := if n in flagged then flagged - {n} else flagged + {n};
      Rechecked({n});
      ShowOrHide(n);
      NearIsFaithful();
    }

    method ShowOrHide(n: Id)
      requires Near() && Leaf(blist, n)
      modifies `ui, `rows, `signed, `new_group
      ensures Near() && Accepted() == old(Accepted())
      ensures new_group == old(new_group) && signed <= old(signed)
      ensures Strays() <= old(Strays()) - {n} && Untracked() <= old(Untracked()) - {n}
      ensures Missing() <= old(Missing()) - {n}
    {
      var yes := CanAddNode(n);
      if !yes {
        BlistRemove(n);
      } else {
        BlistUpdate(n);
      }
    }

    // The buddy's presence changes, or the core updates it all the same: a call is queued if the
    // old status it passes is online and the active one is not, or the other way round, and it
    // asks for an update.  The old status is the one before the change, unless the change was
    // refused (libpurple/protocols.c:257).  On a right screen the rows stay right exactly if the
    // buddy is not on it, or its account is connected and it is online or has another reason to
    // be shown.
    method PresenceChanged(n: Id, isOnline: bool, wasOnline: bool)
      requires Tracked() && n in blist.nodes && blist.nodes[n].kind.Buddy?
      requires wasOnline == (n in online) || isOnline == (n in online)
      modifies `online, `idle, `ui, `rows, `signed, `new_group
      ensures Tracked() && Strays() <= old(Strays()) + {n}
      ensures old(Strays()) <= {n} ==>
                (Faithful() <==> n !in old(ui) || old(WillBeShown(n, isOnline)))
      ensures online == if isOnline then old(online) + {n} else old(online) - {n}
      ensures idle == if isOnline == wasOnline then old(idle) else old(idle) + multiset{n}
      ensures new_group == old(new_group) && signed == old(signed) && old(ui) <= ui
    {
      SetPresence(n, isOnline, wasOnline);
      BlistUpdate(n);
      NearIsFaithful();
    }

    predicate WillBeShown(n: Id, isOnline: bool)
      reads this
    {
      n in connected && (isOnline || showOffline || n in signed || n in flagged)
    }

    // The presence, and the signal that queues a call of buddy_signed_on_off_cb().
    method SetPresence(n: Id, isOnline: bool, wasOnline: bool)
      requires Tracked() && n in blist.nodes && blist.nodes[n].kind.Buddy?
      requires wasOnline == (n in online) || isOnline == (n in online)
      modifies `online, `idle
      ensures Near() && Missing() <= {n} && Strays() <= old(Strays()) + {n} && Untracked() == {}
      ensures GroupsAndBuddies(blist, new_group, signed, idle)
      ensures n in Accepted() <==> old(WillBeShown(n, isOnline))
      ensures online == if isOnline then old(online) + {n} else old(online) - {n}
      ensures idle == if isOnline == wasOnline then old(idle) else old(idle) + multiset{n}
    {
      ghost var w := Sees();
      if isOnline != wasOnline {
        idle := idle + multiset{n};
      }
      online := if isOnline then online + {n} else online - {n};
      Rechecked({n});
      OnlyGroupsAreOnTop(blist, n);
      assert isOnline == (n in w.online) ==> Sees() == w by {
        assert isOnline == (n in w.online) ==> online == w.online;
      }
    }

    // buddy_signed_on_off_cb(): a buddy that is on the screen blinks for a while.
    method SignedOnOff(n: Id)
      requires Tracked() && n in idle
      modifies `idle, `signed
      ensures Tracked() && Strays() <= if n in connected then old(Strays()) - {n} else old(Strays())
      ensures n in connected && old(Strays()) <= {n} ==> Faithful()
      ensures idle == old(idle) - multiset{n}
      ensures signed == if n in ui then old(signed) + {n} else old(signed)
    {
      idle := idle - multiset{n};
      Rechecked({n});
      assert Sees() == old(Sees());
      if n in ui {
        StartTimer(n);
      }
      NearIsFaithful();
    }

    method StartTimer(n: Id)
      requires Near() && Missing() == {} && n in ui && blist.nodes[n].kind.Buddy?
      modifies `signed
      ensures Near() && Missing() == {} && signed == old(signed) + {n}
      ensures Strays() <= if n in connected then old(Strays()) - {n} else old(Strays())
      ensures Untracked() <= old(Untracked()) - {n}
    {
      signed := signed + {n};
      Rechecked({n});
      OnlyGroupsAreOnTop(blist, n);
      assert n in connected ==> CanAdd(blist, Sees(), n);
      assert n !in connected ==> !old(CanAdd(blist, Sees(), n));
    }

    // buddy_recent_signed_on_off(): the timer runs out.
    method RecentSignedOnOff(n: Id)
      requires Tracked() && n in signed
      modifies `ui, `rows, `signed, `new_group
      ensures Tracked() && Strays() <= old(Strays()) - {n}
      ensures old(Strays()) <= {n} ==> Faithful()
      ensures n !in signed && signed <= old(signed) && new_group == old(new_group)
    {
      signed := signed - {n};
      Rechecked({n});
      HideIfOver(n);
      NearIsFaithful();
    }

    method HideIfOver(n: Id)
      requires Near() && Leaf(blist, n)
      modifies `ui, `rows, `signed, `new_group
      ensures Near() && Accepted() == old(Accepted())
      ensures new_group == old(new_group) && signed <= old(signed)
      ensures Strays() <= old(Strays()) - {n} && Untracked() <= old(Untracked()) - {n}
      ensures Missing() == old(Missing())
    {
      var yes := CanAddNode(n);
      if !yes {
        BlistRemove(n);
      }
    }

    // Group g becomes fresh, or is fresh no more.
    twostate lemma RecheckedGroup(g: Id)
      requires old(Near()) && old(Missing()) == {} && SameBut(old(Sees()), Sees(), {}, {g})
      requires g in blist.nodes && blist.nodes[g].kind.Group?
      requires ui == old(ui) && rows == old(rows) && signed <= ui
      ensures Ok() && Strays() <= old(Strays()) && Missing() == {}
      ensures Rooted(blist, ui - Accepted() - {g})
      ensures old(Accepted()) <= ui && Accepted() - {g} <= ui
    {
      StillOk();
      ShownIsUpClosed();
      NothingMissing(blist, old(Accepted()), ui);
      ChangeKeepsRoots(blist, old(Sees()), Sees(), {}, {g}, ui);
      var missing := Accepted() - ui - {g};
      assert Leaves(blist, missing) <= Missing();
      RootedInNothing(blist, missing);
      forall m | m in Accepted() - {g} ensures m in ui {
        assert m !in ui ==> m in missing;
      }
    }

    // add_group_cb(), of a group that is on the list: it is shown for a while, even empty.
    method AddGroup(g: Id)
      requires Tracked() && g in blist.nodes && blist.nodes[g].kind.Group?
      modifies `new_group, `ui, `rows
      ensures Tracked() && Strays() <= old(Strays()) && g in ui
      ensures old(Strays()) == {} ==> Faithful()
      ensures new_group == [g] + old(new_group)
    {
      new_group := [g] + new_group;
      RecheckedGroup(g);
      ShowGroup(g);
      NearIsFaithful();
    }

    method ShowGroup(g: Id)
      requires Ok() && g in blist.nodes && blist.nodes[g].kind.Group? && g in new_group
      requires Rooted(blist, ui - Accepted() - {g}) && Accepted() - {g} <= ui
      modifies `ui, `rows
      ensures Near() && Missing() == {} && g in ui
      ensures Strays() <= old(Strays()) && Untracked() <= old(Untracked())
    {
      assert CanAdd(blist, Sees(), g);
      LineageUp(blist, g);
      OnlyGroupsAreOnTop(blist, g);
      assert ui - Accepted() - {g} == ui - Accepted();
      AddNode(g);
      assert ui - Accepted() == old(ui) - Accepted() && Accepted() - ui == {};
    }

    // remove_new_empty_group(): the while is over for all fresh groups.
    method RemoveNewEmptyGroups()
      requires Tracked()
      modifies `new_group, `ui, `rows, `signed
      ensures Tracked() && Strays() <= old(Strays()) && new_group == []
      ensures old(Strays()) == {} ==> Faithful()
      ensures signed <= old(signed)
    {
      while new_group != []
        invariant Tracked() && Strays() <= old(Strays()) && signed <= old(signed)
        decreases |new_group|
      {
        RemoveOneNewGroup();
      }
      NearIsFaithful();
    }

    method RemoveOneNewGroup()
      requires Tracked() && new_group != []
      modifies `new_group, `ui, `rows, `signed
      ensures Tracked() && Strays() <= old(Strays()) && new_group == old(new_group)[1..]
      ensures signed <= old(signed)
    {
      var group := new_group[0];
      new_group := new_group[1..];
      RecheckedGroup(group);
      assert old(CanAdd(blist, Sees(), new_group[0]));
      UpdateOldGroup(group);
    }

    method UpdateOldGroup(g: Id)
      requires Ok() && g in ui && blist.nodes[g].kind.Group?
      requires Rooted(blist, ui - Accepted() - {g}) && Accepted() <= ui
      modifies `ui, `rows, `signed, `new_group
      ensures Near() && Accepted() == old(Accepted()) && Missing() == {}
      ensures new_group == old(new_group) && signed <= old(signed)
      ensures Strays() <= old(Strays()) && Untracked() <= old(Untracked())
    {
      ghost var w, shown := Sees(), ui;
      assert Accepted() - ui == {};
      ShownIsUpClosed();
      NodeUpdate(g);
      ShownIsUpClosed();
      UpdatedKeepsRoots(blist, w, shown, g);
    }

    // purple_blist_remove_account(), of a connection that is closed: the buddies and chats of the
    // account go.
    method RemoveAccount(account: set<Id>)
      requires Tracked() && forall x :: x in account ==> Leaf(blist, x)
      modifies `connected, `ui, `rows, `signed, `new_group
      ensures Tracked() && Strays() <= old(Strays()) - account
      ensures connected == old(connected) - account && ui !! account
      ensures old(Strays()) <= account ==> Faithful()
      ensures new_group == old(new_group) && signed <= old(signed)
    {
      connected := connected - account;
      Rechecked(account);
      RemoveFromGroups(account);
      NearIsFaithful();
    }

    method RemoveFromGroups(account: set<Id>)
      requires Near() && account !! Accepted() && forall x :: x in account ==> Leaf(blist, x)
      modifies `ui, `rows, `signed, `new_group
      ensures Near() && Accepted() == old(Accepted()) && Missing() <= old(Missing())
      ensures new_group == old(new_group) && signed <= old(signed)
      ensures Strays() <= old(Strays()) - account && Untracked() <= old(Untracked())
    {
      var groups := blist.roots;
      for i := 0 to |groups|
        invariant Near() && Accepted() == old(Accepted()) && Missing() <= old(Missing())
        invariant new_group == old(new_group) && signed <= old(signed)
        invariant Strays() <= old(Strays()) - account * UnderSome(blist, groups[..i])
        invariant Untracked() <= old(Untracked())
      {
        OneMoreGroup(i);
        RemoveFromGroup(groups[i], account);
      }
      assert groups[..|groups|] == groups;
      LeavesUnderRoots(account);
    }

    lemma OneMoreGroup(i: nat)
      requires WellFormed(blist) && i < |blist.roots|
      ensures var gs := blist.roots;
              && gs[i] in blist.nodes && blist.nodes[gs[i]].kind.Group?
              && UnderSome(blist, gs[..i + 1]) == UnderSome(blist, gs[..i]) + Under(blist, gs[i])
    {
      OneMoreUnder(blist, blist.roots, i);
    }

    lemma LeavesUnderRoots(account: set<Id>)
      requires WellFormed(blist) && forall x :: x in account ==> Leaf(blist, x)
      ensures account * UnderSome(blist, blist.roots) == account
    {
      forall x | x in account ensures x in UnderSome(blist, blist.roots) {
        AllUnderRoots(blist, x);
      }
    }

    method RemoveFromGroup(g: Id, account: set<Id>)
      requires Near() && g in blist.nodes && blist.nodes[g].kind.Group? && account !! Accepted()
      modifies `ui, `rows, `signed, `new_group
      ensures Near() && Accepted() == old(Accepted()) && Missing() <= old(Missing())
      ensures new_group == old(new_group) && signed <= old(signed)
      ensures Strays() <= old(Strays()) - account * Under(blist, g)
      ensures Untracked() <= old(Untracked())
    {
      var nodes := blist.nodes[g].children;
      for i := 0 to |nodes|
        invariant Near() && Accepted() == old(Accepted()) && Missing() <= old(Missing())
        invariant new_group == old(new_group) && signed <= old(signed)
        invariant Strays() <= old(Strays()) - account * UnderSome(blist, nodes[..i])
        invariant Untracked() <= old(Untracked())
      {
        OneMoreChild(g, i);
        if blist.nodes[nodes[i]].kind.Contact? {
          RemoveFromContact(nodes[i], account);
        } else if nodes[i] in account {
          BlistRemove(nodes[i]);
        }
      }
      assert nodes[..|nodes|] == nodes;
      UnderChildren(blist, g);
    }

    method RemoveFromContact(c: Id, account: set<Id>)
      requires Near() && c in blist.nodes && blist.nodes[c].kind.Contact? && account !! Accepted()
      modifies `ui, `rows, `signed, `new_group
      ensures Near() && Accepted() == old(Accepted()) && Missing() <= old(Missing())
      ensures new_group == old(new_group) && signed <= old(signed)
      ensures Strays() <= old(Strays()) - account * Under(blist, c)
      ensures Untracked() <= old(Untracked())
    {
      var buddies := blist.nodes[c].children;
      for i := 0 to |buddies|
        invariant Near() && Accepted() == old(Accepted()) && Missing() <= old(Missing())
        invariant new_group == old(new_group) && signed <= old(signed)
        invariant Strays() <= old(Strays()) - account * UnderSome(blist, buddies[..i])
        invariant Untracked() <= old(Untracked())
      {
        OneMoreChild(c, i);
        if buddies[i] in account {
          BlistRemove(buddies[i]);
        }
      }
      assert buddies[..|buddies|] == buddies;
      UnderChildren(blist, c);
      MaybeUpdate(c, false);
    }

    lemma OneMoreChild(c: Id, i: nat)
      requires WellFormed(blist) && c in blist.nodes && i < |blist.nodes[c].children|
      ensures var cs := blist.nodes[c].children;
              && cs[i] in blist.nodes && Level(blist.nodes[cs[i]].kind) == Level(blist.nodes[c].kind) + 1
              && UnderSome(blist, cs[..i + 1]) == UnderSome(blist, cs[..i]) + Under(blist, cs[i])
              && (Leaf(blist, cs[i]) ==> Under(blist, cs[i]) == {cs[i]})
    {
      var cs := blist.nodes[c].children;
      ChildHasParent(blist, c, cs[i]);
      ParentIsAbove(blist, cs[i]);
      OneMoreUnder(blist, cs, i);
      if Leaf(blist, cs[i]) {
        UnderLeaf(blist, cs[i]);
      }
    }

    // A contact is updated if it must be, or for reasons that are not modelled: another buddy may
    // have priority now, or the contact have the "show_offline" setting itself.
    method MaybeUpdate(c: Id, must: bool)
      requires Near() && c in blist.nodes
      modifies `ui, `rows, `signed, `new_group
      ensures Near() && Accepted() == old(Accepted()) && Missing() <= old(Missing())
      ensures new_group == old(new_group) && signed <= old(signed)
      ensures Strays() <= old(Strays()) && Untracked() <= old(Untracked())
      ensures ui <= old(ui) + Accepted()
    {
      var recompute: bool := *;
      if must || recompute {
        BlistUpdate(c);
      }
    }

    // purple_blist_add_account(), of a connection that is open: its buddies and chats are brought
    // up to date, and then each group.
    method AddAccount(account: set<Id>)
      requires Tracked() && forall x :: x in account ==> Leaf(blist, x)
      modifies `connected, `ui, `rows, `signed, `new_group
      ensures Tracked() && Strays() <= old(Strays())
      ensures connected == old(connected) + account
      ensures forall x :: x in account ==>
                x in blist.nodes && (blist.nodes[x].kind.Chat? || WillBeShown(x, x in online) ==> x in ui)
      // each group is updated: none is left that nothing, or only a waiting buddy, is a reason for
      ensures forall g :: g in blist.roots ==> (g in ui <==> g in Accepted())
      ensures old(Strays()) == {} ==> Faithful()
      ensures new_group == old(new_group) && signed <= old(signed)
    {
      connected := connected + account;
      Rechecked(account);
      ConnectedAreNoStrays(account);
      AddToGroups(account);
      NearIsFaithful();
      AccountIsShown(account);
    }

    lemma AccountIsShown(account: set<Id>)
      requires Tracked() && account <= connected && forall x :: x in account ==> Leaf(blist, x)
      ensures forall x :: x in account ==>
                x in blist.nodes && (blist.nodes[x].kind.Chat? || WillBeShown(x, x in online) ==> x in ui)
    {
      NearIsFaithful();
      forall x | x in account
        ensures x in blist.nodes && (blist.nodes[x].kind.Chat? || WillBeShown(x, x in online) ==> x in ui)
      {
        ChildrenDecide(x);
      }
    }

    method AddToGroups(account: set<Id>)
      requires Near() && forall x :: x in account ==> Leaf(blist, x)
      modifies `ui, `rows, `signed, `new_group
      ensures Near() && Accepted() == old(Accepted())
      ensures new_group == old(new_group) && signed <= old(signed)
      ensures Missing() <= old(Missing()) - account
      ensures Strays() <= old(Strays()) && Untracked() <= old(Untracked())
      ensures forall g :: g in blist.roots && g in ui ==> g in Accepted()
    {
      var groups := blist.roots;
      for i := 0 to |groups|
        invariant Near() && Accepted() == old(Accepted())
        invariant new_group == old(new_group) && signed <= old(signed)
        invariant Missing() <= old(Missing()) - account * UnderSome(blist, groups[..i])
        invariant Strays() <= old(Strays()) && Untracked() <= old(Untracked())
        invariant forall g :: g in groups[..i] && g in ui ==> g in Accepted()
      {
        OneMoreGroup(i);
        AddToGroup(groups[i], account);
      }
      assert groups[..|groups|] == groups;
      LeavesUnderRoots(account);
    }

    twostate lemma ConnectedAreNoStrays(account: set<Id>)
      requires WellFormed(blist) && ui == old(ui) && Sees() == old(Sees()).(connected := old(connected) + account)
      requires Strays() <= old(Strays()) + account
      ensures Strays() <= old(Strays())
    {
      forall x | x in Strays() ensures x in old(Strays()) {
        assert !old(CanAdd(blist, Sees(), x));
      }
    }

    method AddToGroup(g: Id, account: set<Id>)
      requires Near() && g in blist.nodes && blist.nodes[g].kind.Group?
      modifies `ui, `rows, `signed, `new_group
      ensures Near() && Accepted() == old(Accepted())
      ensures new_group == old(new_group) && signed <= old(signed)
      ensures Missing() <= old(Missing()) - account * Under(blist, g)
      ensures Strays() <= old(Strays()) && Untracked() <= old(Untracked())
      ensures ui <= old(ui) + Accepted() && (g in ui ==> g in Accepted())
    {
      var nodes := blist.nodes[g].children;
      for i := 0 to |nodes|
        invariant Near() && Accepted() == old(Accepted())
        invariant new_group == old(new_group) && signed <= old(signed)
        invariant Missing() <= old(Missing()) - account * UnderSome(blist, nodes[..i])
        invariant Strays() <= old(Strays()) && Untracked() <= old(Untracked())
        invariant ui <= old(ui) + Accepted()
      {
        OneMoreChild(g, i);
        if blist.nodes[nodes[i]].kind.Contact? {
          AddToContact(nodes[i], account);
        } else if nodes[i] in account {
          BlistUpdate(nodes[i]);
        }
      }
      assert nodes[..|nodes|] == nodes;
      UnderChildren(blist, g);
      BlistUpdate(g);
    }

    method AddToContact(c: Id, account: set<Id>)
      requires Near() && c in blist.nodes && blist.nodes[c].kind.Contact?
      modifies `ui, `rows, `signed, `new_group
      ensures Near() && Accepted() == old(Accepted())
      ensures new_group == old(new_group) && signed <= old(signed)
      ensures Missing() <= old(Missing()) - account * Under(blist, c)
      ensures Strays() <= old(Strays()) && Untracked() <= old(Untracked())
      ensures ui <= old(ui) + Accepted()
    {
      var recompute := false;
      var buddies := blist.nodes[c].children;
      for i := 0 to |buddies|
        invariant Near() && Accepted() == old(Accepted())
        invariant new_group == old(new_group) && signed <= old(signed)
        invariant Missing() <= old(Missing()) - account * UnderSome(blist, buddies[..i])
        invariant Strays() <= old(Strays()) && Untracked() <= old(Untracked())
        invariant ui <= old(ui) + Accepted()
      {
        OneMoreChild(c, i);
        if buddies[i] in account {
          recompute := true;
          BlistUpdate(buddies[i]);
        }
      }
      assert buddies[..|buddies|] == buddies;
      UnderChildren(blist, c);
      MaybeUpdate(c, recompute);
    }

    // ----- redrawing everything -----

    // The first loop of redraw_blist(), after gnt_tree_remove_all(): no node keeps its ui_data.
    method ResetAll()
      requires WellFormed(blist) && ui <= blist.nodes.Keys && signed <= ui
      modifies `ui, `signed, `rows
      ensures ui == {} && signed == {} && rows == map[]
    {
      rows := map[];
      ghost var w := WholeList(blist);
      ghost var i := 0;
      WholeListHasAll(blist);
      PreorderStarts(blist, blist.roots, 0);
      var node := First(blist.roots);
      while node.Some?
        invariant i <= |w| && node == First(w[i..]) && rows == map[]
        invariant signed <= ui <= blist.nodes.Keys && forall j :: 0 <= j < i ==> w[j] !in ui
        decreases |w| - i
      {
        ui := ui - {node.value};
        signed := signed - {node.value};
        node := NextNode(blist, node.value, true, {}, i);
        i := i + 1;
      }
      assert forall n :: n in ui ==> n in w;
    }

    // One round of populate_buddylist().
    method PopulateOne(n: Id, ghost i: nat)
      requires Ok() && ui <= Accepted() && i < |WholeList(blist)| && n == WholeList(blist)[i]
      requires Passed(blist, Accepted(), ui, i)
      modifies `ui, `rows, `signed, `new_group
      ensures Ok() && ui <= Accepted() && Passed(blist, Accepted(), ui, i + 1)
      ensures Accepted() == old(Accepted()) && new_group == old(new_group) && signed == old(signed) * ui
    {
      ShownIsUpClosed();
      UpdateSettles(blist, Sees(), ui, i);
      NodeUpdate(n);
    }

    // populate_buddylist(), on an empty screen: the walk skips the buddies of disconnected
    // accounts, and still every node that is to be shown is.
    method Populate()
      requires Ok() && ui == {}
      modifies `ui, `rows, `signed, `new_group
      ensures Faithful()
      ensures new_group == old(new_group) && signed == old(signed)
    {
      var hidden := set n | n in blist.nodes && blist.nodes[n].kind.Buddy? && n !in connected;
      PopulateAll(hidden);
      ShownIsUpClosed();
      AllPassed(blist, Sees(), ui);
    }

    // The walk that skips the hidden buddies.
    method PopulateAll(hidden: set<Id>)
      requires Ok() && ui == {}
      requires forall n :: n in hidden ==> n in blist.nodes && blist.nodes[n].kind.Buddy?
      modifies `ui, `rows, `signed, `new_group
      ensures Ok() && ui <= Accepted() && Passed(blist, Accepted(), ui, |WholeList(blist)|)
      ensures Accepted() == old(Accepted()) && new_group == old(new_group) && signed == old(signed) * ui
    {
      ghost var i := 0;
      PreorderStarts(blist, blist.roots, 0);
      NothingPassed(blist, Accepted());
      var node := First(blist.roots);
      while node.Some?
        invariant i <= |WholeList(blist)| && node == First(WholeList(blist)[i..])
        invariant Ok() && ui <= Accepted() && Passed(blist, Accepted(), ui, i)
        invariant Accepted() == old(Accepted()) && new_group == old(new_group) && signed == old(signed) * ui
        decreases |WholeList(blist)| - i
      {
        PopulateOne(node.value, i);
        node, i := Advance(node.value, hidden, i);
      }
    }

    lemma ShownIsUpClosed()
      requires Ok()
      ensures UpClosed(blist, ui)
    {
      forall m | m in ui ensures Lineage(blist, m) <= ui {
        LineageShown(m);
      }
    }

    // The step of the walk: what it skips are buddies.
    method Advance(n: Id, hidden: set<Id>, ghost i: nat) returns (node: Option<Id>, ghost j: nat)
      requires Ok() && i < |WholeList(blist)| && n == WholeList(blist)[i]
      requires Passed(blist, Accepted(), ui, i + 1)
      requires forall m :: m in hidden ==> m in blist.nodes && blist.nodes[m].kind.Buddy?
      ensures i < j <= |WholeList(blist)| && node == First(WholeList(blist)[j..])
      ensures Passed(blist, Accepted(), ui, j)
    {
      ghost var w := WholeList(blist);
      ghost var rest := w[i + 1..];
      ghost var k := FirstShown(rest, hidden);
      node := NextNode(blist, n, false, hidden, i);
      j := i + 1 + k;
      forall m | i + 1 <= m < j ensures blist.nodes[w[m]].kind.Buddy? {
        assert w[m] == rest[m - i - 1];
      }
      PassHidden(blist, Accepted(), ui, i + 1, k);
    }

    // redraw_blist(): whatever was on the screen, the rows are now exactly the nodes to be shown,
    // each under its parent's row.
    method RedrawBlist()
      requires WellFormed(blist) && ui <= blist.nodes.Keys && signed <= ui
      modifies `ui, `rows, `signed, `new_group
      ensures Faithful() && ShowsAll() && signed == {} && new_group == old(new_group)
    {
      ResetAll();
      Populate();
      FaithfulShows();
    }

    // The preferences for offline buddies and empty groups change: redraw_blist() is called.
    method ChangePrefs(offline: bool, empty: bool)
      requires Tracked()
      modifies `showOffline, `emptyGroups, `ui, `rows, `signed, `new_group
      ensures Tracked() && Faithful() && ShowsAll() && signed == {}
      ensures showOffline == offline && emptyGroups == empty && new_group == old(new_group)
    {
      showOffline := offline;
      emptyGroups := empty;
      RedrawBlist();
      FaithfulIsTracked();
    }

    lemma FaithfulIsTracked()
      requires Faithful() && GroupsAndBuddies(blist, new_group, signed, idle)
      ensures Tracked() && Strays() == {}
    {
      assert ui - Accepted() == {} && Accepted() - ui == {};
    }

    // finch_blist_show(), of a list that is not shown yet.
    constructor (list: Blist, online: set<Id>, connected: set<Id>, flagged: set<Id>, offline: bool, empty: bool)
      requires WellFormed(list)
      ensures blist == list && Tracked() && Faithful() && ShowsAll()
      ensures Sees() == World(online, connected, flagged, offline, empty, {}, [])
    {
      blist := list;
      this.online, this.connected, this.flagged := online, connected, flagged;
      showOffline, emptyGroups := offline, empty;
      ui, signed, rows, new_group, idle := {}, {}, map[], [], multiset{};
      new;
      Populate();
      FaithfulIsTracked();
      FaithfulShows();
    }

    // ----- over whole runs -----

    function Given(): Outside
      reads this
    {
      Outside(online, connected, flagged, showOffline, emptyGroups)
    }

    // A call must be queued, and a timer run, to happen.
    predicate Enabled(s: Step)
      reads this
    {
      Possible(blist, s) && (s.Call? ==> s.n in idle) && (s.Timer? ==> s.n in signed)
    }

    method Take(s: Step)
      requires Tracked() && Enabled(s)
      modifies this
      ensures Tracked() && Given() == After(blist, old(Given()), s)
    {
      match s {
        case Toggle(n) => ToggleShowOffline(n);
        case Presence(_, _) => TakePresence(s);
        case SignedAgain(_) => TakePresence(s);
        case Connected(_) => TakeAccount(s);
        case Disconnected(_) => TakeAccount(s);
        case Prefs(offline, empty) => ChangePrefs(offline, empty);
        case _ => TakeOwn(s);
      }
    }

    // Updates by the core.
    method TakePresence(s: Step)
      requires Tracked() && Enabled(s) && (s.Presence? || s.SignedAgain?)
      modifies `online, `idle, `ui, `rows, `signed, `new_group
      ensures Tracked() && Given() == After(blist, old(Given()), s)
    {
      var isOnline := if s.Presence? then s.isOnline else s.n in online;
      PresenceChanged(s.n, isOnline, if s.Presence? then s.n in online else !isOnline);
    }

    // Steps of a whole account.
    method TakeAccount(s: Step)
      requires Tracked() && Enabled(s) && (s.Connected? || s.Disconnected?)
      modifies `connected, `ui, `rows, `signed, `new_group
      ensures Tracked() && Given() == After(blist, old(Given()), s)
    {
      if s.Connected? {
        AddAccount(s.account);
      } else {
        RemoveAccount(s.account);
      }
    }

    // Steps of Finch's own, in the same world.
    method TakeOwn(s: Step)
      requires Tracked() && Enabled(s)
      requires s.Call? || s.Timer? || s.NewGroup? || s.NewGroupsOver? || s.NodeChanged?
      modifies `idle, `ui, `rows, `signed, `new_group
      ensures Tracked()
    {
      match s {
        case Call(n) => SignedOnOff(n);
        case Timer(n) => RecentSignedOnOff(n);
        case NewGroup(g) => AddGroup(g);
        case NewGroupsOver => RemoveNewEmptyGroups();
        case NodeChanged(n) => BlistUpdate(n);
      }
    }

    // Over any run, whatever steps come in between: whenever no call is queued and no timer runs,
    // the rows are those of a rebuilt view of the world as it is given then.
    method Run(steps: seq<Step>)
      requires Tracked()
      modifies this
      ensures Tracked() && Given() == AfterAll(blist, old(Given()), steps)
      ensures forall n :: n in blist.nodes ==> Shows(n) || Waits(n)
      ensures idle == multiset{} && signed == {} ==> Faithful() && ShowsAll()
    {
      for i := 0 to |steps|
        invariant Tracked() && Given() == AfterAll(blist, old(Given()), steps[..i])
      {
        assert steps[..i + 1][..i] == steps[..i];
        if Enabled(steps[i]) {
          Take(steps[i]);
        }
      }
      assert steps[..|steps|] == steps;
      TrackedShows();
      if idle == multiset{} && signed == {} {
        QuietIsFaithful();
      }
    }
  }

  // A group with a contact with a buddy.
  const ONE_BUDDY := Blist([0], map[
    0 := Node(Group, None, Some(1), None, [1]),
    1 := Node(Contact, Some(0), Some(2), None, [2]),
    2 := Node(Buddy, Some(1), None, None, [])])

  lemma OneBuddyIsWellFormed()
    ensures WellFormed(ONE_BUDDY)
  {
    var b := ONE_BUDDY;
    assert [0][1..] == [] && [1][1..] == [] && [2][1..] == [];
    assert NodeOk(b, 0) && NodeOk(b, 1) && NodeOk(b, 2);
  }

  // The only buddy that is online signs off: all three rows are shown for no reason then.
  method SignOffExample() returns (list: FinchBuddyList)
    ensures fresh(list) && list.Given() == Outside({}, {2}, {}, false, false)
    ensures list.Tracked() && list.ui == {0, 1, 2} && list.Accepted() == {}
  {
    OneBuddyIsWellFormed();
    list := new FinchBuddyList(ONE_BUDDY, {2}, {2}, {}, false, false);
    ShownWhile(list.Sees());
    assert list.ui == {0, 1, 2};
    list.PresenceChanged(2, false, true);
    assert list.online == {} && list.ui <= ONE_BUDDY.nodes.Keys;
    HiddenOtherwise(list.Sees());
  }

  lemma ShownWhile(w: World)
    requires w == World({2}, {2}, {}, false, false, {}, [])
    ensures WellFormed(ONE_BUDDY) && Accepts(ONE_BUDDY, w) == {0, 1, 2}
  {
    OneBuddyIsWellFormed();
    assert 2 in Accepts(ONE_BUDDY, w);
    AcceptsUp(ONE_BUDDY, w, 2);
    assert Lineage(ONE_BUDDY, 2) == {0, 1, 2};
  }

  lemma HiddenOtherwise(w: World)
    requires w == World({}, {2}, {}, false, false, {}, [])
    ensures WellFormed(ONE_BUDDY) && Accepts(ONE_BUDDY, w) == {}
  {
    OneBuddyIsWellFormed();
    assert !CanAdd(ONE_BUDDY, w, 2);
    assert !CanAdd(ONE_BUDDY, w, 1);
    assert !CanAdd(ONE_BUDDY, w, 0);
  }
}
