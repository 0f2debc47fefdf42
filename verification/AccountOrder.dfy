/** Moving accounts up and down the list: purple_accounts_reorder() of libpurple/accounts.c and the
    '-' and '=' keys of finch/gntaccount.c. */
module AccountOrder {
  import opened Basics

  type Account = nat

  function Without(s: seq<Account>, i: nat): seq<Account>
    requires i < |s|
  {
    s[..i] + s[i + 1..]
  }

  // The list with the account of position i at position k of the others.
  function MovedTo(s: seq<Account>, i: nat, k: nat): seq<Account>
    requires i < |s| && k < |s|
  {
    Without(s, i)[..k] + [s[i]] + Without(s, i)[k..]
  }

  // g_list_index()
  function Index(s: seq<Account>, a: Account): (i: Option<nat>)
    ensures i.Some? ==> i.value < |s| && s[i.value] == a && a !in s[..i.value]
    ensures i.None? <==> a !in s
  {
    if s == [] then None
    else if s[0] == a then Some(0)
    else
      match Index(s[1..], a)
      case None => None
      case Some(i) =>
        assert s[..i + 1] == [s[0]] + s[1..][..i];
        Some(i + 1)
  }

  lemma IndexIs(s: seq<Account>, i: nat)
    requires Distinct(s) && i < |s|
    ensures Index(s, s[i]) == Some(i)
  {}

  // purple_accounts_reorder(); `new_index` counts the account itself.
  function Reorder(s: seq<Account>, a: Account, newIndex: nat): seq<Account> {
    var index := Index(s, a);
    if newIndex > |s| || index.None? then s
    else MovedTo(s, index.value, if newIndex > index.value then newIndex - 1 else newIndex)
  }

  datatype Key = Minus | Equals

  // The new index that the key handler computes.
  function Target(pos: nat, count: nat, key: Key): (to: nat)
    ensures to <= count
  {
    ((if key == Minus then -1 else 2) + pos + count + 1) % (count + 1)
  }

  // account_list_key_pressed_cb()
  function Press(s: seq<Account>, a: Account, key: Key): seq<Account> {
    if Index(s, a).None? then s
    else Reorder(s, a, Target(Index(s, a).value, |s|, key))
  }

  lemma Moved(s: seq<Account>, i: nat, at: nat)
    requires i < |s| && at < |s|
    ensures var r := MovedTo(s, i, at); |r| == |s| && r[at] == s[i] && Without(r, at) == Without(s, i)
  {
    var w, r := Without(s, i), MovedTo(s, i, at);
    assert r[..at] == w[..at] && r[at + 1..] == w[at..];
    assert w == w[..at] + w[at..];
  }

  lemma MovedBack(s: seq<Account>, i: nat, at: nat)
    requires i < |s| && at < |s|
    ensures |MovedTo(s, i, at)| == |s| && MovedTo(MovedTo(s, i, at), at, i) == s
  {
    Moved(s, i, at);
    var w := Without(s, i);
    assert w[..i] == s[..i] && w[i..] == s[i + 1..];
    assert s == s[..i] + [s[i]] + s[i + 1..];
  }

  lemma MovedIsPermutation(s: seq<Account>, i: nat, at: nat)
    requires i < |s| && at < |s|
    ensures multiset(MovedTo(s, i, at)) == multiset(s)
  {
    var w := Without(s, i);
    assert w == w[..at] + w[at..];
    assert s == s[..i] + [s[i]] + s[i + 1..];
    assert multiset(w) == multiset(w[..at] + w[at..]) == multiset(w[..at]) + multiset(w[at..]);
    assert multiset(s) == multiset(s[..i] + [s[i]] + s[i + 1..]) == multiset(w) + multiset{s[i]};
    assert MovedTo(s, i, at) == w[..at] + [s[i]] + w[at..];
  }

  // Reordering keeps the others in their order and puts the account where it was asked to go.
  lemma ReorderMovesOne(s: seq<Account>, i: nat, k: nat)
    requires Distinct(s) && i < |s| && k <= |s|
    ensures var r := Reorder(s, s[i], k);
            var at := PlaceAsked(i, k);
            && |r| == |s| && Distinct(r)
            && r[at] == s[i] && Without(r, at) == Without(s, i)
            && multiset(r) == multiset(s)
  {
    IndexIs(s, i);
    var at := PlaceAsked(i, k);
    Moved(s, i, at);
    MovedIsPermutation(s, i, at);
    MovedIsDistinct(s, i, at);
  }

  lemma MovedIsDistinct(s: seq<Account>, i: nat, at: nat)
    requires Distinct(s) && i < |s| && at < |s|
    ensures Distinct(MovedTo(s, i, at))
  {
    var w, r := Without(s, i), MovedTo(s, i, at);
    forall x | 0 <= x < |w| ensures w[x] == s[if x < i then x else x + 1] {}
    forall x | 0 <= x < |r| && x != at ensures r[x] == w[if x < at then x else x - 1] {}
  }

  // The place before or after, around the ends of the list.
  function OnePlace(i: nat, n: nat, key: Key): (at: nat)
    requires i < n
    ensures at < n
  {
    if key == Minus then (if i == 0 then n - 1 else i - 1) else (if i == n - 1 then 0 else i + 1)
  }

  // '-' moves the account one place up and '=' one place down, around the ends of the list.
  lemma PressMovesByOne(s: seq<Account>, i: nat, key: Key)
    requires Distinct(s) && i < |s|
    ensures Press(s, s[i], key) == MovedTo(s, i, OnePlace(i, |s|, key))
  {
    IndexIs(s, i);
    var n := |s| + 1;
    Wraps(i - 1, n);
    Wraps(i + 2, n);
    assert -1 + i + |s| + 1 == (i - 1) + n && 2 + i + |s| + 1 == (i + 2) + n;
  }

  lemma Wraps(x: int, n: int)
    requires 0 < n && -1 <= x <= n
    ensures (x + n) % n == if x == -1 then n - 1 else if x == n then 0 else x
  {
    var r := if x == -1 then n - 1 else if x == n then 0 else x;
    var q := if x == -1 then 0 else if x == n then 2 else 1;
    assert x + n == q * n + r;
  }

  // The two keys undo each other.
  lemma KeysUndoEachOther(s: seq<Account>, i: nat)
    requires Distinct(s) && i < |s|
    ensures Press(Press(s, s[i], Minus), s[i], Equals) == s
    ensures Press(Press(s, s[i], Equals), s[i], Minus) == s
  {
    UndoneBy(s, i, Minus, Equals);
    UndoneBy(s, i, Equals, Minus);
  }

  lemma UndoneBy(s: seq<Account>, i: nat, key: Key, back: Key)
    requires Distinct(s) && i < |s| && key != back
    ensures Press(Press(s, s[i], key), s[i], back) == s
  {
    var at := OnePlace(i, |s|, key);
    var r := MovedTo(s, i, at);
    PressMovesByOne(s, i, key);
    MovedIsDistinct(s, i, at);
    PressMovesByOne(r, at, back);
    Moved(s, i, at);
    MovedBack(s, i, at);
  }

  // The account of position i has gone to position `at`, and the others are as they were.
  ghost predicate OnlyMoved(before: seq<Account>, after: seq<Account>, i: nat, at: nat) {
    && i < |before| == |after| && at < |after|
    && after[at] == before[i] && Without(after, at) == Without(before, i)
  }

  function PlaceAsked(i: nat, k: nat): nat {
    if k > i then k - 1 else k
  }

  lemma ReorderOnlyMoves(s: seq<Account>, a: Account, k: nat)
    requires Distinct(s) && k <= |s|
    ensures forall i :: 0 <= i < |s| && s[i] == a ==> OnlyMoved(s, Reorder(s, a, k), i, PlaceAsked(i, k))
  {
    forall i | 0 <= i < |s| && s[i] == a ensures OnlyMoved(s, Reorder(s, a, k), i, PlaceAsked(i, k)) {
      ReorderMovesOne(s, i, k);
    }
  }

  lemma PressOnlyMoves(s: seq<Account>, a: Account, key: Key)
    requires Distinct(s)
    ensures forall i :: 0 <= i < |s| && s[i] == a ==> OnlyMoved(s, Press(s, a, key), i, OnePlace(i, |s|, key))
  {
    forall i | 0 <= i < |s| && s[i] == a ensures OnlyMoved(s, Press(s, a, key), i, OnePlace(i, |s|, key)) {
      PressMovesByOne(s, i, key);
      Moved(s, i, OnePlace(i, |s|, key));
    }
  }

  class Accounts {
    var accounts: seq<Account>

    // purple_accounts_reorder(): g_list_delete_link() and g_list_insert()
    method ReorderAccount(account: Account, new_index: nat)
      modifies this
      ensures accounts == Reorder(old(accounts), account, new_index)
      // the account is where it was asked to go, counting the place it leaves
      ensures Distinct(old(accounts)) && new_index <= |old(accounts)| ==>
                forall i :: 0 <= i < |old(accounts)| && old(accounts)[i] == account ==>
                  OnlyMoved(old(accounts), accounts, i, PlaceAsked(i, new_index))
      ensures account !in old(accounts) || new_index > |old(accounts)| ==> accounts == old(accounts)
    {
      if Distinct(accounts) && new_index <= |accounts| {
        ReorderOnlyMoves(accounts, account, new_index);
      }
      if new_index > |accounts| {
        return;
      }
      var index := Index(accounts, account);
      if index.None? {
        return;
      }
      var at := new_index;
      if at > index.value {
        at := at - 1;
      }
      accounts := accounts[..index.value] + accounts[index.value + 1..];
      accounts := accounts[..at] + [account] + accounts[at..];
    }

    // account_list_key_pressed_cb(): one place up or down, around the ends.
    method KeyPressed(account: Account, key: Key)
      modifies this
      ensures accounts == Press(old(accounts), account, key)
      ensures Distinct(old(accounts)) ==>
                forall i :: 0 <= i < |old(accounts)| && old(accounts)[i] == account ==>
                  OnlyMoved(old(accounts), accounts, i, OnePlace(i, |old(accounts)|, key))
      ensures account !in old(accounts) ==> accounts == old(accounts)
    {
      if Distinct(accounts) {
        PressOnlyMoves(accounts, account, key);
      }
      var index := Index(accounts, account);
      if index.None? {
        return;
      }
      var to := NewIndex(index.value, |accounts|, key);
      if to >= 0 {
        ReorderAccount(account, to);
      }
    }

    static method NewIndex(pos: nat, count: nat, key: Key) returns (to: int)
      ensures to == Target(pos, count, key)
    {
      var move := 2;
      if key == Minus {
        move := -1;
      }
      to := (move + pos + count + 1) % (count + 1);
    }
  }
}
