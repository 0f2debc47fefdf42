/** Finch's automatic reconnecting (finch/gntconn.c): a table with a delay and a timer per account
    that lost its connection.  Timers are the main loop's; `timers` holds the pending ones and the
    account each will sign on. */
module Reconnect {
  import opened Basics

  type Account = nat
  type TimerId = nat

  const INITIAL_RECON_DELAY_MIN := 8
  const INITIAL_RECON_DELAY_MAX := 60
  const MAX_RECON_DELAY := 600

  predicate Drawn(delay: int) {
    INITIAL_RECON_DELAY_MIN <= delay < INITIAL_RECON_DELAY_MAX
  }

  // FinchAutoRecon; timeout 0 is no timer
  datatype AutoRecon = AutoRecon(delay: int, timeout: TimerId)

  datatype Timer = Timer(account: Account, delay: int)

  // The delay after one more failure, and after k more.
  function NextDelay(delay: int): int {
    Min(2 * delay, MAX_RECON_DELAY)
  }

  function DelayAfter(first: int, k: nat): int {
    if k == 0 then first else NextDelay(DelayAfter(first, k - 1))
  }

  function Pow2(k: nat): nat {
    if k == 0 then 1 else 2 * Pow2(k - 1)
  }

  // The delays double from the first one on until they reach ten minutes.
  lemma {:induction false} DelayDoublesUpToTheCap(first: int, k: nat)
    requires Drawn(first)
    ensures DelayAfter(first, k) == Min(MAX_RECON_DELAY, first * Pow2(k))
  {
    if k == 0 {
      assert first * Pow2(0) == first;
    } else {
      DelayDoublesUpToTheCap(first, k - 1);
      TwiceAsMuch(first, Pow2(k - 1));
    }
  }

  lemma TwiceAsMuch(first: int, p: nat)
    ensures first * (2 * p) == 2 * (first * p)
  {}

  lemma {:induction false} Pow2Grows(j: nat, k: nat)
    requires j <= k
    ensures Pow2(j) <= Pow2(k)
    decreases k
  {
    if j < k {
      Pow2Grows(j, k - 1);
    }
  }

  // After seven failures every account waits the longest.
  lemma DelayIsCappedAfterSeven(first: int, k: nat)
    requires Drawn(first) && 7 <= k
    ensures DelayAfter(first, k) == MAX_RECON_DELAY
  {
    DelayDoublesUpToTheCap(first, k);
    Pow2Grows(7, k);
    assert Pow2(3) == 8;
    assert Pow2(7) == 128;
    AtLeast(first, Pow2(k), INITIAL_RECON_DELAY_MIN, 128);
  }

  lemma AtLeast(a: int, b: int, c: int, d: int)
    requires 0 <= c <= a && 0 <= d <= b
    ensures c * d <= a * b
  {
    assert c * d <= a * d by {
      assert (a - c) * d >= 0;
    }
    assert a * d <= a * b by {
      assert a * (b - d) >= 0;
    }
  }

  // An account's entry records its one pending timer, if it has one.
  ghost predicate EntryOk(table: map<Account, AutoRecon>, timers: map<TimerId, Timer>, a: Account) {
    a in table && table[a].timeout != 0 ==>
      table[a].timeout in timers && timers[table[a].timeout] == Timer(a, table[a].delay)
  }

  // A pending timer is the one its account's entry records.
  ghost predicate TimerOk(table: map<Account, AutoRecon>, timers: map<TimerId, Timer>, t: TimerId) {
    t in timers ==> t != 0 && timers[t].account in table && table[timers[t].account].timeout == t
  }

  // So an account has at most one, and none without an entry.
  lemma AtMostOneTimer(table: map<Account, AutoRecon>, timers: map<TimerId, Timer>, s: TimerId, t: TimerId)
    requires TimerOk(table, timers, s) && TimerOk(table, timers, t)
    requires s in timers && t in timers && timers[s].account == timers[t].account
    ensures s == t
  {}

  ghost predicate TimersOk(table: map<Account, AutoRecon>, timers: map<TimerId, Timer>, next: TimerId) {
    && 0 < next
    && (forall a: Account {:trigger EntryOk(table, timers, a)} :: EntryOk(table, timers, a))
    && (forall t: TimerId {:trigger TimerOk(table, timers, t)} :: TimerOk(table, timers, t))
    && (forall t: TimerId :: t in timers ==> t < next)
  }

  // An entry's delay is the one drawn for it, doubled for each failure since.
  ghost predicate DelayOk(
    table: map<Account, AutoRecon>, first: map<Account, int>, failures: map<Account, nat>, a: Account)
  {
    a in table ==>
      && a in failures && a in first
      && Drawn(first[a])
      && table[a].delay == DelayAfter(first[a], failures[a])
  }

  ghost predicate DelaysOk(table: map<Account, AutoRecon>, first: map<Account, int>, failures: map<Account, nat>) {
    forall a: Account {:trigger DelayOk(table, first, failures, a)} :: DelayOk(table, first, failures, a)
  }

  // What can happen to accounts: losing the connection, a timer firing, being removed, being
  // enabled by the user, going online or offline.
  datatype Event =
    | Failed(account: Account, fatal: bool, random: int)
    | Fires(timer: TimerId)
    | Removed(account: Account)
    | Enabled(account: Account)
    | StatusSet(account: Account, isOnline: bool)

  // The user does not enable the account.
  ghost predicate KeepsDisabled(events: seq<Event>, a: Account) {
    Enabled(a) !in events
  }

  // What the table remembers of an account, by the events alone: the delay drawn when its entry was
  // made, and its non-fatal disconnects since.
  datatype Entry = NoEntry | Entry(first: int, failures: nat)

  function EntryStep(entry: Entry, e: Event, a: Account): Entry {
    match e
    case Failed(account, fatal, random) =>
      if account != a || fatal || !Drawn(random) then entry
      else if entry.NoEntry? then Entry(random, 0)
      else Entry(entry.first, entry.failures + 1)
    case Removed(account) => if account == a then NoEntry else entry
    case _ => entry
  }

  function EntryAfter(entry: Entry, events: seq<Event>, a: Account): Entry {
    if events == [] then entry
    else EntryStep(EntryAfter(entry, events[..|events| - 1], a), events[|events| - 1], a)
  }

  lemma OneMoreEvent(entry: Entry, events: seq<Event>, i: nat, a: Account)
    requires i < |events|
    ensures EntryAfter(entry, events[..i + 1], a) == EntryStep(EntryAfter(entry, events[..i], a), events[i], a)
  {
    assert events[..i + 1][..i] == events[..i];
  }

  // While it is not removed, an account that has no entry gets one by its first non-fatal
  // disconnect, and the others are counted.
  lemma {:induction false} CountsFailures(events: seq<Event>, a: Account)
    requires Removed(a) !in events
    ensures var n := NonFatal(events, a);
            match EntryAfter(NoEntry, events, a)
            case NoEntry => n == 0
            case Entry(_, k) => n == k + 1
  {
    if events != [] {
      CountsFailures(events[..|events| - 1], a);
    }
  }

  // How often the account lost its connection for a reason that may pass.
  function NonFatal(events: seq<Event>, a: Account): nat {
    if events == [] then 0
    else
      var e := events[|events| - 1];
      NonFatal(events[..|events| - 1], a) + One(e.Failed? && e.account == a && !e.fatal && Drawn(e.random))
  }

  class Connections {
    var hash: map<Account, AutoRecon>
    var timers: map<TimerId, Timer>
    var nextTimer: TimerId
    // the core's side
    var enabled: set<Account>
    var online: set<Account>               // accounts whose active status is online
    var connects: seq<Account>             // accounts told to connect, in order
    ghost var failures: map<Account, nat>  // non-fatal disconnects since the one that made the entry
    ghost var first: map<Account, int>     // the delay drawn then

    ghost predicate Ok()
      reads this
    {
      TimersOk(hash, timers, nextTimer) && DelaysOk(hash, first, failures)
    }

    // What an account that lost its connection waits.
    lemma DelayOfEntry(account: Account)
      requires Ok() && account in hash
      ensures account in first && account in failures
      ensures 8 <= first[account] < 60 && hash[account].delay == Min(600, first[account] * Pow2(failures[account]))
      ensures 7 <= failures[account] ==> hash[account].delay == 600
    {
      assert DelayOk(hash, first, failures, account);
      DelayDoublesUpToTheCap(first[account], failures[account]);
      if 7 <= failures[account] {
        DelayIsCappedAfterSeven(first[account], failures[account]);
      }
    }

    ghost function EntryOf(a: Account): Entry
      requires Ok()
      reads this
    {
      assert DelayOk(hash, first, failures, a);
      if a in hash then Entry(first[a], failures[a]) else NoEntry
    }

    // What the table holds for an account that has this entry: the delay drawn first, doubled for
    // each failure up to ten minutes, or nothing, and no timer either.
    ghost predicate EntryIs(a: Account, entry: Entry)
      reads this
    {
      match entry
      case NoEntry => a !in hash && forall t :: t in timers ==> timers[t].account != a
      case Entry(f, k) => a in hash && 8 <= f < 60 && hash[a].delay == Min(600, f * Pow2(k))
    }

    lemma EntryShows(a: Account)
      requires Ok()
      ensures EntryIs(a, EntryOf(a))
    {
      if a in hash {
        DelayOfEntry(a);
        assert DelayOk(hash, first, failures, a);
      } else {
        forall t | t in timers ensures timers[t].account != a {
          assert TimerOk(hash, timers, t);
        }
      }
    }

    constructor ()
      ensures Ok() && hash == map[] && timers == map[] && connects == []
    {
      hash, timers, nextTimer, enabled, online := map[], map[], 1, {}, {};
      failures, first, connects := map[], map[], [];
    }

    // A new timer for the account, in place of the one its entry records.
    method Rearm(account: Account, delay: int)
      requires TimersOk(hash, timers, nextTimer)
      modifies `hash, `timers, `nextTimer
      ensures TimersOk(hash, timers, nextTimer)
      ensures hash == old(hash)[account := AutoRecon(delay, old(nextTimer))]
      ensures old(nextTimer) in timers && timers[old(nextTimer)] == Timer(account, delay)
    {
      assert EntryOk(hash, timers, account);
      if account in hash && hash[account].timeout != 0 {
        timers := timers - {hash[account].timeout};
      }
      timers := timers[nextTimer := Timer(account, delay)];
      hash := hash[account := AutoRecon(delay, nextTimer)];
      nextTimer := nextTimer + 1;
      forall a: Account ensures EntryOk(hash, timers, a) {
        assert EntryOk(old(hash), old(timers), a);
      }
      forall t: TimerId ensures TimerOk(hash, timers, t) {
        assert TimerOk(old(hash), old(timers), t);
      }
    }

    // finch_connection_report_disconnect(); `random` is g_random_int_range(8, 60)
    method ReportDisconnect(account: Account, fatal: bool, random: int)
      requires Ok() && 8 <= random < 60
      modifies `hash, `timers, `nextTimer, `enabled, `failures, `first
      ensures Ok()
      ensures fatal ==>
                && enabled == old(enabled) - {account} && hash == old(hash) && timers == old(timers)
                && failures == old(failures) && first == old(first)
      ensures !fatal ==>
                && enabled == old(enabled)
                && hash == old(hash)[account := AutoRecon(
                     if account in old(hash) then NextDelay(old(hash)[account].delay) else random, old(nextTimer))]
                && old(nextTimer) in timers && timers[old(nextTimer)] == Timer(account, hash[account].delay)
                && failures == old(failures)[account :=
                     if account in old(hash) && account in old(failures) then old(failures)[account] + 1 else 0]
                && first == if account in old(hash) then old(first) else old(first)[account := random]
    {
      if fatal {
        enabled := enabled - {account};
        return;
      }
      assert DelayOk(hash, first, failures, account);
      if account !in hash {
        first := first[account := random];
        failures := failures[account := 0];
        Rearm(account, random);
      } else {
        failures := failures[account := failures[account] + 1];
        Rearm(account, NextDelay(hash[account].delay));
      }
      forall a: Account ensures DelayOk(hash, first, failures, a) {
        assert DelayOk(old(hash), old(first), old(failures), a);
      }
    }

    // do_signon(), up to the call of purple_account_connect(): a timer fires, and is gone.  That
    // call may report a disconnect of its own, which then finds no timer recorded.
    method DoSignon(t: TimerId) returns (told: bool)
      requires Ok() && t in timers
      modifies `hash, `timers, `connects
      ensures Ok()
      ensures timers == old(timers) - {t}
      ensures var a := old(timers)[t].account;
              a in old(hash) && hash == old(hash)[a := old(hash)[a].(timeout := 0)]
      ensures forall s: TimerId :: s in timers ==> timers[s].account != old(timers)[t].account
      ensures told == (old(timers)[t].account in online && old(timers)[t].account in enabled)
      ensures connects == if told then old(connects) + [old(timers)[t].account] else old(connects)
    {
      var account := timers[t].account;
      assert TimerOk(hash, timers, t);
      timers := timers - {t};
      hash := hash[account := hash[account].(timeout := 0)];
      forall a: Account ensures EntryOk(hash, timers, a) {
        assert EntryOk(old(hash), old(timers), a);
      }
      forall s: TimerId
        ensures TimerOk(hash, timers, s)
        ensures s in timers ==> timers[s].account != account
      {
        assert TimerOk(old(hash), old(timers), s);
      }
      forall a: Account ensures DelayOk(hash, first, failures, a) {
        assert DelayOk(old(hash), first, failures, a);
      }
      told := false;
      if account in online {
        told := AccountConnect(account);
      }
    }

    // purple_account_connect(): an account that is not enabled is not connected.
    method AccountConnect(account: Account) returns (told: bool)
      modifies `connects
      ensures told == (account in enabled)
      ensures connects == if told then old(connects) + [account] else old(connects)
    {
      told := account in enabled;
      if told {
        connects := connects + [account];
      }
    }

    // account_removed_cb(), with free_auto_recon()
    method AccountRemoved(account: Account)
      requires Ok()
      modifies `hash, `timers
      ensures Ok()
      ensures hash == old(hash) - {account}
      ensures forall t: TimerId :: t in timers <==> t in old(timers) && old(timers)[t].account != account
      ensures forall t: TimerId :: t in timers ==> timers[t] == old(timers)[t]
    {
      assert EntryOk(hash, timers, account);
      if account in hash && hash[account].timeout != 0 {
        timers := timers - {hash[account].timeout};
      }
      hash := hash - {account};
      forall a: Account ensures EntryOk(hash, timers, a) {
        assert EntryOk(old(hash), old(timers), a);
        if a in hash && hash[a].timeout != 0 {
          assert TimerOk(old(hash), old(timers), hash[a].timeout);
        }
      }
      forall t: TimerId
        ensures TimerOk(hash, timers, t)
        ensures t in timers <==> t in old(timers) && old(timers)[t].account != account
      {
        assert TimerOk(old(hash), old(timers), t);
      }
      forall a: Account ensures DelayOk(hash, first, failures, a) {
        assert DelayOk(old(hash), first, failures, a);
      }
    }

    // purple_account_set_enabled(TRUE), as far as it matters here.
    method SetEnabled(account: Account)
      modifies `enabled, `connects
      ensures enabled == old(enabled) + {account}
      ensures connects == if account in online then old(connects) + [account] else old(connects)
    {
      enabled := enabled + {account};
      if account in online {
        var _ := AccountConnect(account);
      }
    }

    method SetStatus(account: Account, isOnline: bool)
      modifies `online
      ensures online == if isOnline then old(online) + {account} else old(online) - {account}
    {
      online := if isOnline then online + {account} else online - {account};
    }

    predicate Possible(e: Event)
      reads this
    {
      match e
      case Failed(_, _, random) => 8 <= random < 60
      case Fires(t) => t in timers
      case _ => true
    }

    method Take(e: Event) returns (ghost told: seq<Account>)
      requires Ok() && Possible(e)
      modifies this
      ensures Ok() && connects == old(connects) + told
      ensures forall a :: a !in old(enabled) && e != Enabled(a) ==> a !in enabled && a !in told
      ensures forall a :: EntryOf(a) == EntryStep(old(EntryOf(a)), e, a)
    {
      match e {
        case Failed(account, fatal, random) =>
          ReportDisconnect(account, fatal, random);
        case Fires(t) =>
          assert TimerOk(hash, timers, t);
          var _ := DoSignon(t);
        case Removed(account) =>
          AccountRemoved(account);
        case Enabled(account) =>
          SetEnabled(account);
          OkStays();
        case StatusSet(account, isOnline) =>
          SetStatus(account, isOnline);
          OkStays();
      }
      told := connects[|old(connects)|..];
      forall a ensures EntryOf(a) == EntryStep(old(EntryOf(a)), e, a) {
        assert DelayOk(old(hash), old(first), old(failures), a);
      }
    }

    twostate lemma OkStays()
      requires old(Ok()) && hash == old(hash) && timers == old(timers) && nextTimer == old(nextTimer)
      requires first == old(first) && failures == old(failures)
      ensures Ok()
    {}

    // Over any run: an account that is disabled, by a fatal error or by the user, is not connected
    // by any timer until it is enabled again; and what the table holds for an account is told by
    // the events: nothing before its first disconnect, then the delay drawn at that one, doubled
    // for each further one up to ten minutes.
    method Run(events: seq<Event>) returns (ghost told: seq<Account>)
      requires Ok()
      modifies this
      ensures Ok() && connects == old(connects) + told
      ensures forall a :: a !in old(enabled) && KeepsDisabled(events, a) ==> a !in enabled && a !in told
      ensures forall a {:trigger old(EntryOf(a))} ::
                EntryIs(a, EntryAfter(old(EntryOf(a)), events, a))
    {
      told := [];
      assert events[..0] == [];
      for i := 0 to |events|
        invariant Ok() && connects == old(connects) + told
        invariant forall a :: a !in old(enabled) && KeepsDisabled(events, a) ==> a !in enabled && a !in told
        invariant forall a {:trigger EntryOf(a)} :: EntryOf(a) == EntryAfter(old(EntryOf(a)), events[..i], a)
      {
        ghost var before := events[..i];
        if Possible(events[i]) {
          ghost var more := Take(events[i]);
          told := told + more;
        }
        forall a ensures EntryOf(a) == EntryAfter(old(EntryOf(a)), events[..i + 1], a) {
          OneMoreEvent(old(EntryOf(a)), events, i, a);
        }
      }
      assert events[..|events|] == events;
      forall a ensures EntryIs(a, EntryAfter(old(EntryOf(a)), events, a)) {
        EntryShows(a);
      }
    }
  }
}
