/** The buddy list as libpurple keeps it: groups, holding contacts and chats, holding buddies,
    linked by parent, first-child and next-sibling pointers, and the stackless walk over it
    (libpurple/blistnode.c). */
module BuddyList {
  import opened Basics

  type Id = nat

  datatype Kind = Group | Contact | Chat | Buddy

  // One PurpleBlistNode.  `children` lists what the child and next pointers chain up.
  datatype Node = Node(kind: Kind, parent: Option<Id>, child: Option<Id>, next: Option<Id>, children: seq<Id>)

  datatype Blist = Blist(roots: seq<Id>, nodes: map<Id, Node>)

  function Level(k: Kind): nat {
    match k
    case Group => 0
    case Contact => 1
    case Chat => 1
    case Buddy => 2
  }

  // `s` is a whole sibling list under `parent`, chained up by the next pointers.
  ghost predicate Siblings(b: Blist, s: seq<Id>, parent: Option<Id>, level: nat) {
    && Distinct(s)
    && (forall i :: 0 <= i < |s| ==>
          && s[i] in b.nodes
          && b.nodes[s[i]].parent == parent
          && Level(b.nodes[s[i]].kind) == level
          && b.nodes[s[i]].next == First(s[i + 1..]))
  }

  // What a node says about itself: its children know it, and it is among its parent's.
  ghost predicate NodeOk(b: Blist, n: Id)
    requires n in b.nodes
  {
    var d := b.nodes[n];
    && d.child == First(d.children)
    && Siblings(b, d.children, Some(n), Level(d.kind) + 1)
    && (d.kind.Chat? ==> d.children == [])
    && match d.parent
       case None => n in b.roots
       case Some(p) => p in b.nodes && n in b.nodes[p].children
  }

  ghost predicate WellFormed(b: Blist) {
    && Siblings(b, b.roots, None, 0)
    && (forall n {:trigger NodeOk(b, n)} :: n in b.nodes ==> NodeOk(b, n))
  }

  lemma NextIsNode(b: Blist, n: Id)
    requires WellFormed(b) && n in b.nodes
    ensures b.nodes[n].next.Some? ==> b.nodes[n].next.value in b.nodes
  {
    assert NodeOk(b, n);
    var parent := b.nodes[n].parent;
    if parent.Some? {
      assert NodeOk(b, parent.value);
    }
    var s := if parent.Some? then b.nodes[parent.value].children else b.roots;
    var i :| 0 <= i < |s| && s[i] == n;
    assert i + 1 < |s| ==> s[i + 1..][0] == s[i + 1];
  }

  // get_next_node()
  function GetNextNode(b: Blist, node: Option<Id>, godeep: bool): (r: Option<Id>)
    requires WellFormed(b) && (node.Some? ==> node.value in b.nodes)
    ensures r.Some? ==> r.value in b.nodes
    decreases if node.Some? then 1 + Level(b.nodes[node.value].kind) else 0
  {
    if node.None? then None
    else
      var d := b.nodes[node.value];
      assert NodeOk(b, node.value);
      if godeep && d.child.Some? then d.child
      else if d.next.Some? then NextIsNode(b, node.value); d.next
      else ParentIsAbove(b, node.value); GetNextNode(b, d.parent, false)
  }

  lemma ParentIsAbove(b: Blist, n: Id)
    requires WellFormed(b) && n in b.nodes
    ensures b.nodes[n].parent.Some? ==>
      var p := b.nodes[n].parent.value;
      p in b.nodes && n in b.nodes[p].children && Level(b.nodes[p].kind) + 1 == Level(b.nodes[n].kind)
  {
    assert NodeOk(b, n);
    if b.nodes[n].parent.Some? {
      assert NodeOk(b, b.nodes[n].parent.value);
    }
  }

  // The nodes of a stretch of siblings and below, parents first, in sibling order.
  function Preorder(b: Blist, s: seq<Id>, level: nat): (r: seq<Id>)
    requires WellFormed(b)
    requires forall x :: x in s ==> x in b.nodes && Level(b.nodes[x].kind) == level
    ensures forall x :: x in r ==> x in b.nodes
    decreases 3 - level, |s|
  {
    if s == [] then []
    else
      assert s[0] in b.nodes && NodeOk(b, s[0]);
      [s[0]] + Preorder(b, b.nodes[s[0]].children, level + 1) + Preorder(b, s[1..], level)
  }

  function WholeList(b: Blist): seq<Id>
    requires WellFormed(b)
  {
    Preorder(b, b.roots, 0)
  }

  lemma PreorderStarts(b: Blist, s: seq<Id>, level: nat)
    requires WellFormed(b)
    requires forall x :: x in s ==> x in b.nodes && Level(b.nodes[x].kind) == level
    ensures First(Preorder(b, s, level)) == First(s)
  {}

  // Leaving a node upwards leads to its next sibling, or to what follows its parent.
  lemma Onwards(b: Blist, s: seq<Id>, parent: Option<Id>, level: nat)
    requires WellFormed(b) && s != [] && Siblings(b, s, parent, level)
    requires parent.Some? ==> parent.value in b.nodes
    ensures GetNextNode(b, Some(s[0]), false) ==
            if s[1..] != [] then Some(s[1]) else GetNextNode(b, parent, false)
    ensures var kids := b.nodes[s[0]].children;
            GetNextNode(b, Some(s[0]), true) == if kids != [] then Some(kids[0]) else GetNextNode(b, Some(s[0]), false)
  {
    assert NodeOk(b, s[0]);
  }

  ghost predicate Follows(b: Blist, p: seq<Id>, i: nat, after: Option<Id>)
    requires WellFormed(b) && i < |p| && p[i] in b.nodes
  {
    GetNextNode(b, Some(p[i]), true) == if i + 1 < |p| then Some(p[i + 1]) else after
  }

  // From the first of a stretch the walk goes below it, and from there to the rest.
  lemma StepsAround(b: Blist, s: seq<Id>, parent: Option<Id>, level: nat)
    requires WellFormed(b) && s != [] && Siblings(b, s, parent, level)
    requires parent.Some? ==> parent.value in b.nodes
    ensures s[0] in b.nodes && Siblings(b, b.nodes[s[0]].children, Some(s[0]), level + 1)
    ensures Siblings(b, s[1..], parent, level)
    ensures var below := Preorder(b, b.nodes[s[0]].children, level + 1);
            var rest := Preorder(b, s[1..], level);
            var onwards := GetNextNode(b, Some(s[0]), false);
            && onwards == (if rest != [] then Some(rest[0]) else GetNextNode(b, parent, false))
            && GetNextNode(b, Some(s[0]), true) == if below != [] then Some(below[0]) else onwards
  {
    assert NodeOk(b, s[0]);
    TailSiblings(b, s, parent, level);
    Onwards(b, s, parent, level);
    PreorderStarts(b, b.nodes[s[0]].children, level + 1);
    PreorderStarts(b, s[1..], level);
  }

  // Within a stretch that ends its sibling list, the walk goes to the next node in preorder, and
  // from the last one to whatever follows the stretch's parent.
  lemma {:induction false} WalkFollowsPreorder(b: Blist, s: seq<Id>, parent: Option<Id>, level: nat, i: nat)
    requires WellFormed(b) && Siblings(b, s, parent, level)
    requires parent.Some? ==> parent.value in b.nodes
    requires i < |Preorder(b, s, level)|
    ensures Follows(b, Preorder(b, s, level), i, GetNextNode(b, parent, false))
    decreases 3 - level, |s|
  {
    var n := s[0];
    StepsAround(b, s, parent, level);
    var kids := b.nodes[n].children;
    var below := Preorder(b, kids, level + 1);
    var rest := Preorder(b, s[1..], level);
    var after := GetNextNode(b, parent, false);
    if i == 0 {
      AtHead(b, n, below, rest, after);
    } else if i <= |below| {
      WalkFollowsPreorder(b, kids, Some(n), level + 1, i - 1);
      InBelow(b, n, below, rest, i, after);
    } else {
      WalkFollowsPreorder(b, s[1..], parent, level, i - 1 - |below|);
      InRest(b, n, below, rest, i, after);
    }
  }

  // What comes next in the three parts of a preorder, and where they meet.
  lemma AtHead(b: Blist, n: Id, below: seq<Id>, rest: seq<Id>, after: Option<Id>)
    requires WellFormed(b) && n in b.nodes
    requires GetNextNode(b, Some(n), true) ==
             if below != [] then Some(below[0]) else if rest != [] then Some(rest[0]) else after
    ensures Follows(b, [n] + below + rest, 0, after)
  {}

  lemma InBelow(b: Blist, n: Id, below: seq<Id>, rest: seq<Id>, i: nat, after: Option<Id>)
    requires WellFormed(b) && 0 < i <= |below| && below[i - 1] in b.nodes
    requires Follows(b, below, i - 1, if rest != [] then Some(rest[0]) else after)
    ensures ([n] + below + rest)[i] in b.nodes && Follows(b, [n] + below + rest, i, after)
  {}

  lemma InRest(b: Blist, n: Id, below: seq<Id>, rest: seq<Id>, i: nat, after: Option<Id>)
    requires WellFormed(b) && |below| < i <= |below| + |rest| && rest[i - 1 - |below|] in b.nodes
    requires Follows(b, rest, i - 1 - |below|, after)
    ensures ([n] + below + rest)[i] in b.nodes && Follows(b, [n] + below + rest, i, after)
  {}

  lemma TailSiblings(b: Blist, s: seq<Id>, parent: Option<Id>, level: nat)
    requires Siblings(b, s, parent, level) && s != []
    ensures Siblings(b, s[1..], parent, level)
  {
    forall i | 0 <= i < |s| - 1
      ensures b.nodes[s[1..][i]].next == First(s[1..][i + 1..])
    {
      assert s[1..][i + 1..] == s[i + 1 + 1..];
    }
  }

  // ----- each node once -----

  // The node itself, or the node above it, at the given level.
  function Ancestor(b: Blist, n: Id, level: nat): (a: Id)
    requires WellFormed(b) && n in b.nodes && level <= Level(b.nodes[n].kind)
    ensures a in b.nodes && Level(b.nodes[a].kind) == level
    decreases Level(b.nodes[n].kind)
  {
    assert NodeOk(b, n);
    if Level(b.nodes[n].kind) == level then n
    else ParentIsAbove(b, n); Ancestor(b, b.nodes[n].parent.value, level)
  }

  lemma {:induction false} AncestorAbove(b: Blist, n: Id, level: nat)
    requires WellFormed(b) && n in b.nodes && level < Level(b.nodes[n].kind)
    ensures b.nodes[Ancestor(b, n, level + 1)].parent == Some(Ancestor(b, n, level))
    decreases Level(b.nodes[n].kind)
  {
    assert NodeOk(b, n);
    ParentIsAbove(b, n);
    if level + 1 < Level(b.nodes[n].kind) {
      AncestorAbove(b, b.nodes[n].parent.value, level);
    }
  }

  // A node is listed exactly when it lies under the stretch.
  lemma {:induction false} PreorderHas(b: Blist, s: seq<Id>, parent: Option<Id>, level: nat, x: Id)
    requires WellFormed(b) && Siblings(b, s, parent, level)
    ensures x in Preorder(b, s, level) <==>
            x in b.nodes && level <= Level(b.nodes[x].kind) && Ancestor(b, x, level) in s
    decreases 3 - level, |s|
  {
    if s != [] {
      var n := s[0];
      assert NodeOk(b, n);
      TailSiblings(b, s, parent, level);
      PreorderHas(b, b.nodes[n].children, Some(n), level + 1, x);
      PreorderHas(b, s[1..], parent, level, x);
      if x in b.nodes && level <= Level(b.nodes[x].kind) {
        LiesUnder(b, n, level, x);
      }
      assert s == [n] + s[1..];
    }
  }

  lemma LiesUnder(b: Blist, n: Id, level: nat, x: Id)
    requires WellFormed(b) && n in b.nodes && Level(b.nodes[n].kind) == level && x in b.nodes
    requires level <= Level(b.nodes[x].kind)
    ensures Ancestor(b, x, level) == n <==>
            x == n || (level < Level(b.nodes[x].kind) && Ancestor(b, x, level + 1) in b.nodes[n].children)
  {
    if level < Level(b.nodes[x].kind) {
      AncestorAbove(b, x, level);
      UnderOne(b, Ancestor(b, x, level + 1), n);
    }
  }

  lemma UnderOne(b: Blist, x: Id, n: Id)
    requires WellFormed(b) && x in b.nodes && n in b.nodes
    ensures x in b.nodes[n].children <==> b.nodes[x].parent == Some(n)
  {
    assert NodeOk(b, n) && NodeOk(b, x);
  }

  lemma {:induction false} PreorderDistinct(b: Blist, s: seq<Id>, parent: Option<Id>, level: nat)
    requires WellFormed(b) && Siblings(b, s, parent, level)
    ensures Distinct(Preorder(b, s, level))
    decreases 3 - level, |s|
  {
    if s != [] {
      var n := s[0];
      assert NodeOk(b, n);
      TailSiblings(b, s, parent, level);
      var below := Preorder(b, b.nodes[n].children, level + 1);
      var rest := Preorder(b, s[1..], level);
      PreorderDistinct(b, b.nodes[n].children, Some(n), level + 1);
      PreorderDistinct(b, s[1..], parent, level);
      forall x | x in below ensures x != n && x !in rest {
        PreorderHas(b, b.nodes[n].children, Some(n), level + 1, x);
        PreorderHas(b, s[1..], parent, level, x);
        AncestorAbove(b, x, level);
        UnderOne(b, Ancestor(b, x, level + 1), n);
      }
      PreorderHas(b, s[1..], parent, level, n);
      DistinctParts(n, below, rest);
    }
  }

  lemma DistinctParts(n: Id, below: seq<Id>, rest: seq<Id>)
    requires Distinct(below) && Distinct(rest) && n !in rest
    requires forall x :: x in below ==> x != n && x !in rest
    ensures Distinct([n] + below + rest)
  {
    var all := [n] + below + rest;
    forall i, j | 0 <= i < j < |all| ensures all[i] != all[j] {
      assert 0 < i <= |below| ==> all[i] in below;
      assert 0 < j <= |below| ==> all[j] in below;
      assert |below| < j ==> all[j] in rest;
    }
  }

  // In preorder a node comes after its parent.
  lemma {:induction false} ParentsFirst(b: Blist, s: seq<Id>, parent: Option<Id>, level: nat, i: nat)
    requires WellFormed(b) && Siblings(b, s, parent, level)
    requires i < |Preorder(b, s, level)|
    ensures HasParentBefore(b, Preorder(b, s, level), i, parent)
    decreases 3 - level, |s|
  {
    var n := s[0];
    assert NodeOk(b, n);
    var below := Preorder(b, b.nodes[n].children, level + 1);
    var rest := Preorder(b, s[1..], level);
    TailSiblings(b, s, parent, level);
    if 0 < i <= |below| {
      ParentsFirst(b, b.nodes[n].children, Some(n), level + 1, i - 1);
    } else if |below| < i {
      ParentsFirst(b, s[1..], parent, level, i - 1 - |below|);
    }
    BeforeInAll(b, n, below, rest, i, parent);
  }

  // The node's parent is the given one, or is listed before the node.
  ghost predicate HasParentBefore(b: Blist, p: seq<Id>, i: nat, parent: Option<Id>)
    requires i < |p| && p[i] in b.nodes
  {
    var above := b.nodes[p[i]].parent;
    above == parent || (above.Some? && above.value in p[..i])
  }

  lemma BeforeInAll(b: Blist, n: Id, below: seq<Id>, rest: seq<Id>, i: nat, parent: Option<Id>)
    requires n in b.nodes && forall x :: x in below || x in rest ==> x in b.nodes
    requires i < 1 + |below| + |rest|
    requires i == 0 ==> b.nodes[n].parent == parent
    requires 0 < i <= |below| ==> HasParentBefore(b, below, i - 1, Some(n))
    requires |below| < i ==> HasParentBefore(b, rest, i - 1 - |below|, parent)
    ensures ([n] + below + rest)[i] in b.nodes
    ensures HasParentBefore(b, [n] + below + rest, i, parent)
  {
    var all := [n] + below + rest;
    if 0 < i <= |below| {
      assert all[..i] == [n] + below[..i - 1];
    } else if |below| < i {
      assert all[..i] == [n] + below + rest[..i - 1 - |below|];
    }
  }

  // The k-th step of a walk that asks for offline buddies too.
  function Walk(b: Blist, k: nat): (r: Option<Id>)
    requires WellFormed(b)
    ensures r.Some? ==> r.value in b.nodes
  {
    if k == 0 then First(b.roots) else GetNextNode(b, Walk(b, k - 1), true)
  }

  lemma WalkOn(b: Blist, i: nat)
    requires WellFormed(b) && i < |WholeList(b)|
    ensures var w := WholeList(b);
            GetNextNode(b, Some(w[i]), true) == if i + 1 < |w| then Some(w[i + 1]) else None
  {
    WalkFollowsPreorder(b, b.roots, None, 0, i);
  }

  lemma WholeListHasAll(b: Blist)
    requires WellFormed(b)
    ensures Distinct(WholeList(b)) && forall n :: n in b.nodes <==> n in WholeList(b)
  {
    PreorderDistinct(b, b.roots, None, 0);
    forall n ensures n in b.nodes <==> n in WholeList(b) {
      PreorderHas(b, b.roots, None, 0, n);
      if n in b.nodes {
        assert NodeOk(b, Ancestor(b, n, 0));
        ParentIsAbove(b, Ancestor(b, n, 0));
      }
    }
  }

  lemma {:induction false} WalkIsPreorder(b: Blist, w: seq<Id>, k: nat)
    requires WellFormed(b) && w == WholeList(b)
    ensures Walk(b, k) == if k < |w| then Some(w[k]) else None
  {
    if k == 0 {
      PreorderStarts(b, b.roots, 0);
    } else {
      WalkIsPreorder(b, w, k - 1);
      if k - 1 < |w| {
        WalkOn(b, k - 1);
      }
    }
  }

  // The walk from the root is the preorder, and then ends: every node, each exactly once.
  lemma WalkVisitsAllOnce(b: Blist, k: nat)
    requires WellFormed(b)
    ensures var w := WholeList(b); Walk(b, k) == if k < |w| then Some(w[k]) else None
    ensures Distinct(WholeList(b)) && forall n :: n in b.nodes <==> n in WholeList(b)
  {
    WholeListHasAll(b);
    WalkIsPreorder(b, WholeList(b), k);
  }

  // ----- the walk that skips buddies of disconnected accounts -----

  // `s` without the hidden nodes.
  function Shown(s: seq<Id>, hidden: set<Id>): seq<Id>
  {
    if s == [] then [] else (if s[0] in hidden then [] else [s[0]]) + Shown(s[1..], hidden)
  }

  // purple_blist_node_next(): from the i-th node of the list, the next one, or the next one that
  // is not a buddy of a disconnected account.
  method NextNode(b: Blist, node: Id, offline: bool, hidden: set<Id>, ghost i: nat) returns (ret: Option<Id>)
    requires WellFormed(b) && i < |WholeList(b)| && WholeList(b)[i] == node
    requires forall n :: n in hidden ==> n in b.nodes && b.nodes[n].kind.Buddy?
    ensures ret == First(if offline then WholeList(b)[i + 1..] else Shown(WholeList(b)[i + 1..], hidden))
  {
    ghost var w := WholeList(b);
    WalkOn(b, i);
    ret := GetNextNode(b, Some(node), true);
    if offline {
      return;
    }
    ghost var rest := w[i + 1..];
    while ret.Some? && ret.value in hidden
      invariant |rest| < |w| - i && rest == w[|w| - |rest|..] && ret == First(rest)
      invariant First(Shown(rest, hidden)) == First(Shown(w[i + 1..], hidden))
      decreases |rest|
    {
      WalkOn(b, |w| - |rest|);
      ret := GetNextNode(b, ret, true);
      rest := rest[1..];
    }
  }

  lemma {:induction false} ShownSplits(s: seq<Id>, t: seq<Id>, hidden: set<Id>)
    ensures Shown(s + t, hidden) == Shown(s, hidden) + Shown(t, hidden)
  {
    if s == [] {
      assert s + t == t;
    } else {
      ShownSplits(s[1..], t, hidden);
      HeadAndRest(s, t);
      Associates(if s[0] in hidden then [] else [s[0]], Shown(s[1..], hidden), Shown(t, hidden));
    }
  }

  lemma HeadAndRest(s: seq<Id>, t: seq<Id>)
    requires s != []
    ensures (s + t)[0] == s[0] && (s + t)[1..] == s[1..] + t
  {}

  // Where the first node that is not hidden stands.
  lemma {:induction false} FirstShown(s: seq<Id>, hidden: set<Id>) returns (k: nat)
    ensures k <= |s| && forall j :: 0 <= j < k ==> s[j] in hidden
    ensures First(Shown(s, hidden)) == if k < |s| then Some(s[k]) else None
    ensures k < |s| ==> s[k] !in hidden
  {
    if s == [] || s[0] !in hidden {
      k := 0;
    } else {
      var k' := FirstShown(s[1..], hidden);
      k := k' + 1;
    }
  }

  lemma {:induction false} ShownOfHidden(s: seq<Id>, hidden: set<Id>)
    requires forall j :: 0 <= j < |s| ==> s[j] in hidden
    ensures Shown(s, hidden) == []
  {
    if s != [] {
      ShownOfHidden(s[1..], hidden);
    }
  }

  // From one shown node to the next: what has been visited is one longer.
  lemma ShownPrefix(w: seq<Id>, hidden: set<Id>, i: nat, rest: seq<Id>, k: nat)
    requires i < |w| && rest == w[i + 1..] && k <= |rest| && w[i] !in hidden
    requires forall j :: 0 <= j < k ==> rest[j] in hidden
    ensures Shown(w[..i + 1 + k], hidden) == Shown(w[..i], hidden) + [w[i]]
  {
    var skipped := rest[..k];
    assert w[..i + 1 + k] == w[..i] + ([w[i]] + skipped);
    ShownSplits(w[..i], [w[i]] + skipped, hidden);
    ShownOfHidden(skipped, hidden);
    assert ([w[i]] + skipped)[1..] == skipped;
  }

  lemma {:induction false} ShownHas(s: seq<Id>, hidden: set<Id>, n: Id)
    ensures n in Shown(s, hidden) <==> n in s && n !in hidden
  {
    if s != [] {
      ShownHas(s[1..], hidden, n);
    }
  }

  lemma {:induction false} ShownDistinct(s: seq<Id>, hidden: set<Id>)
    requires Distinct(s)
    ensures Distinct(Shown(s, hidden))
  {
    if s != [] {
      ShownDistinct(s[1..], hidden);
      ShownHas(s[1..], hidden, s[0]);
      assert s[0] !in s[1..];
    }
  }

  // What the walk from the root is to visit.
  lemma ShownIsWhatToVisit(b: Blist, hidden: set<Id>)
    requires WellFormed(b)
    ensures var v := Shown(WholeList(b), hidden);
            Distinct(v) && forall n :: n in v <==> n in b.nodes && n !in hidden
  {
    WholeListHasAll(b);
    var w := WholeList(b);
    ShownDistinct(w, hidden);
    forall n ensures n in Shown(w, hidden) <==> n in b.nodes && n !in hidden {
      ShownHas(w, hidden, n);
    }
  }

  // The visit of the i-th node of the list; j is where the walk is then.
  method VisitNode(b: Blist, node: Id, hidden: set<Id>, ghost i: nat) returns (next: Option<Id>, ghost j: nat)
    requires WellFormed(b) && i < |WholeList(b)| && WholeList(b)[i] == node && node !in hidden
    requires forall n :: n in hidden ==> n in b.nodes && b.nodes[n].kind.Buddy?
    ensures i < j <= |WholeList(b)| && next == First(WholeList(b)[j..])
    ensures next.Some? ==> next.value !in hidden
    ensures Shown(WholeList(b)[..j], hidden) == Shown(WholeList(b)[..i], hidden) + [node]
  {
    ghost var w := WholeList(b);
    ghost var rest := w[i + 1..];
    ghost var k := FirstShown(rest, hidden);
    ShownPrefix(w, hidden, i, rest, k);
    next := NextNode(b, node, false, hidden, i);
    j := i + 1 + k;
    assert k < |rest| ==> rest[k] == w[j];
  }

  // Going on from the root with purple_blist_node_next(node, FALSE) until it yields none: every
  // node that is no buddy of a disconnected account is visited exactly once, in preorder.
  method VisitShown(b: Blist, hidden: set<Id>) returns (visited: seq<Id>)
    requires WellFormed(b)
    requires forall n :: n in hidden ==> n in b.nodes && b.nodes[n].kind.Buddy?
    ensures visited == Shown(WholeList(b), hidden)
    ensures Distinct(visited) && forall n :: n in visited <==> n in b.nodes && n !in hidden
  {
    ShownIsWhatToVisit(b, hidden);
    visited := VisitFrom(b, hidden);
  }

  method VisitFrom(b: Blist, hidden: set<Id>) returns (visited: seq<Id>)
    requires WellFormed(b)
    requires forall n :: n in hidden ==> n in b.nodes && b.nodes[n].kind.Buddy?
    ensures visited == Shown(WholeList(b), hidden)
  {
    ghost var w := WholeList(b);
    ghost var i := 0;
    PreorderStarts(b, b.roots, 0);
    visited := [];
    var node := First(b.roots);
    while node.Some?
      invariant i <= |w| && node == First(w[i..]) && (node.Some? ==> node.value !in hidden)
      invariant visited == Shown(w[..i], hidden)
      decreases |w| - i
    {
      visited := visited + [node.value];
      node, i := VisitNode(b, node.value, hidden, i);
    }
    assert w[..i] == w;
  }
}
