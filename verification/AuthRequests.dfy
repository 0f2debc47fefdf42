/** The life of authorization requests (libpurple/account.c).

    A request record is an entry of `infos`, freed by taking it out.  The calls into the UI and
    into the request's callbacks are points where anything else may run, so the functions that
    make such calls are split there: BeginRequest/EndRequest around request_authorize(),
    BeginAnswer/EndAnswer around the callback, and BeginClose/EndClose around
    close_account_request(), which the closing loops call with a cursor in the list.  The UI
    answers a request at most once, and not once it is told that the request is closed. */
module AuthRequests {
  import opened Basics

  type Id = nat

  // `handle` is what the UI gave back for the request.
  datatype Info = Info(account: nat, handle: Option<nat>, ref: int)

  // What a close call names.
  datatype Which = ByAccount(account: nat) | ByHandle(handle: nat)

  predicate Matches(which: Which, info: Info) {
    match which
    case ByAccount(a) => info.account == a
    case ByHandle(h) => info.handle == Some(h)
  }

  // Where the requests are: being handed to the UI, waiting for an answer, in their callback, or
  // off the list with the UI being told.
  datatype Phases = Phases(requesting: set<Id>, open: set<Id>, answering: set<Id>, closing: set<Id>)

  // A close call that is telling the UI: the request it closes, the saved l_next, and what was on
  // the list when the call began.
  datatype Frame = Frame(which: Which, closing: Id, next: Option<Id>, listed: seq<Id>)

  // A live record is in some phase, and its count says in how many ways it is needed.
  ghost predicate InfoOk(infos: map<Id, Info>, p: Phases, i: Id) {
    && (i in infos <==> i in p.requesting || i in p.open || i in p.answering || i in p.closing)
    && One(i in p.open) + One(i in p.answering) + One(i in p.closing) <= 1
    && !(i in p.requesting && i in p.closing)
    && (i in infos ==>
          infos[i].ref == One(i in p.requesting) + One(i in p.open || i in p.answering || i in p.closing))
  }

  // The list holds the requests that wait for an answer, once each.
  ghost predicate ListOk(handles: seq<Id>, p: Phases) {
    && Distinct(handles)
    && forall i :: i in handles <==> i in p.open && i !in p.requesting
  }

  // A request's callback has run at most once: not while it may still be answered.
  ghost predicate RanOk(ran: map<Id, nat>, p: Phases, next: Id, i: Id) {
    && (i in ran <==> i < next)
    && (i in ran ==> ran[i] <= 1)
    && (i in p.open || i in p.closing ==> i in ran && ran[i] == 0)
    && (i in p.answering ==> i in ran && ran[i] == 1)
  }

  // ----- the cursor of a closing loop -----

  // The rest of the list, from the cursor on.
  function From(s: seq<Id>, c: Option<Id>): (r: seq<Id>)
    ensures forall j :: j in r ==> j in s
  {
    if c.None? || s == [] then [] else if s[0] == c.value then s else From(s[1..], c)
  }

  // The entry behind that of request i.
  function Behind(s: seq<Id>, i: Id): Option<Id> {
    var r := From(s, Some(i));
    if |r| > 1 then Some(r[1]) else None
  }

  // The next request that the loop closes.
  function FirstMatch(infos: map<Id, Info>, rest: seq<Id>, which: Which): Option<Id>
    requires forall j :: j in rest ==> j in infos
  {
    if rest == [] then None
    else if Matches(which, infos[rest[0]]) then Some(rest[0])
    else FirstMatch(infos, rest[1..], which)
  }

  // The saved entry is still on the list, or there was none.
  predicate Alive(handles: seq<Id>, f: Frame) {
    f.next.None? || f.next.value in handles
  }

  // Of what was listed when the call began, what is still listed and matches is still ahead.
  ghost predicate StillAhead(infos: map<Id, Info>, handles: seq<Id>, f: Frame) {
    forall j :: j in f.listed && j in handles && j in infos && Matches(f.which, infos[j]) ==>
      j in From(handles, f.next)
  }

  ghost predicate FrameOk(infos: map<Id, Info>, handles: seq<Id>, p: Phases, next: Id, f: Frame) {
    && (f.next.Some? ==> f.next.value < next && f.next.value !in p.requesting)
    && (forall j :: j in f.listed ==> j < next && j !in p.requesting)
    && (Alive(handles, f) ==> StillAhead(infos, handles, f))
  }

  ghost predicate FramesOk(infos: map<Id, Info>, handles: seq<Id>, p: Phases, next: Id, frames: seq<Frame>) {
    forall f {:trigger FrameOk(infos, handles, p, next, f)} :: f in frames ==> FrameOk(infos, handles, p, next, f)
  }

  // Each request that is being closed is closed by one call.
  ghost predicate ClosingOk(frames: seq<Frame>, p: Phases) {
    && (forall j, k :: 0 <= j < k < |frames| ==> frames[j].closing != frames[k].closing)
    && (forall i :: i in p.closing <==> exists k :: 0 <= k < |frames| && frames[k].closing == i)
  }

  lemma {:induction false} FromSplit(front: seq<Id>, rest: seq<Id>)
    requires Distinct(front + rest)
    ensures From(front + rest, First(rest)) == rest
  {
    if rest != [] && front != [] {
      assert (front + rest)[|front|] == rest[0];
      assert (front + rest)[1..] == front[1..] + rest;
      FromSplit(front[1..], rest);
    } else {
      assert front == [] ==> front + rest == rest;
    }
  }

  lemma NotInRest(front: seq<Id>, rest: seq<Id>, j: Id)
    requires Distinct(front + rest) && j in front
    ensures j !in rest
  {
    var a :| 0 <= a < |front| && front[a] == j;
    assert (front + rest)[a] == j;
    forall k | 0 <= k < |rest| ensures rest[k] != j {
      assert (front + rest)[|front| + k] == rest[k];
    }
  }

  lemma {:induction false} FromIsSuffix(s: seq<Id>, c: Option<Id>) returns (front: seq<Id>)
    requires c.Some? ==> c.value in s
    ensures s == front + From(s, c) && First(From(s, c)) == c
  {
    if c.None? {
      front := s;
    } else if s[0] == c.value {
      front := [];
    } else {
      var f := FromIsSuffix(s[1..], c);
      front := [s[0]] + f;
      Associates([s[0]], f, From(s[1..], c));
      assert s == [s[0]] + s[1..];
    }
  }

  // Unlinking another entry, or appending one, leaves what is ahead ahead.
  lemma {:induction false} FromAfterUnlink(s: seq<Id>, x: Id, c: Option<Id>, j: Id)
    requires Distinct(s) && j in From(s, c) && j != x && c != Some(x)
    ensures j in From(RemoveFirst(s, x), c)
  {
    if s[0] == x {
      assert j in From(s[1..], c);
    } else if s[0] == c.value {
      assert RemoveFirst(s, x) == [s[0]] + RemoveFirst(s[1..], x);
    } else {
      FromAfterUnlink(s[1..], x, c, j);
      assert ([s[0]] + RemoveFirst(s[1..], x))[1..] == RemoveFirst(s[1..], x);
    }
  }

  lemma {:induction false} FromAfterAppend(s: seq<Id>, x: Id, c: Option<Id>, j: Id)
    requires j in From(s, c)
    ensures j in From(s + [x], c)
  {
    assert (s + [x])[1..] == s[1..] + [x];
    if s[0] != c.value {
      FromAfterAppend(s[1..], x, c, j);
    }
  }

  lemma FrameAfterUnlink(infos: map<Id, Info>, handles: seq<Id>, p: Phases, p': Phases, next: Id, f: Frame, x: Id)
    requires FrameOk(infos, handles, p, next, f) && Distinct(handles) && p'.requesting == p.requesting
    ensures FrameOk(infos, RemoveFirst(handles, x), p', next, f)
    ensures Alive(RemoveFirst(handles, x), f) <==> Alive(handles, f) && (f.next != Some(x) || x !in handles)
  {
    var after := RemoveFirst(handles, x);
    if Alive(after, f) {
      forall j | j in f.listed && j in after && j in infos && Matches(f.which, infos[j])
        ensures j in From(after, f.next)
      {
        if x in handles {
          FromAfterUnlink(handles, x, f.next, j);
        }
      }
    }
  }

  lemma FrameAfterAppend(infos: map<Id, Info>, handles: seq<Id>, p: Phases, p': Phases, next: Id, f: Frame, x: Id)
    requires FrameOk(infos, handles, p, next, f) && x in p.requesting && p'.requesting == p.requesting - {x}
    ensures FrameOk(infos, handles + [x], p', next, f)
    ensures Alive(handles + [x], f) <==> Alive(handles, f)
  {
    if Alive(handles, f) {
      forall j | j in f.listed && j in handles + [x] && j in infos && Matches(f.which, infos[j])
        ensures j in From(handles + [x], f.next)
      {
        FromAfterAppend(handles, x, f.next, j);
      }
    }
  }

  // The loop passes what does not match.
  lemma {:induction false} FirstMatchSplits(infos: map<Id, Info>, rest: seq<Id>, which: Which)
    returns (passed: seq<Id>)
    requires forall j :: j in rest ==> j in infos
    ensures forall j :: j in passed ==> j in infos && !Matches(which, infos[j])
    ensures var m := FirstMatch(infos, rest, which);
            if m.None? then passed == rest
            else m.value in infos && Matches(which, infos[m.value]) && |passed| < |rest|
                 && rest == passed + [m.value] + rest[|passed| + 1..]
  {
    if rest == [] || Matches(which, infos[rest[0]]) {
      passed := [];
    } else {
      var p := FirstMatchSplits(infos, rest[1..], which);
      passed := [rest[0]] + p;
      assert rest == [rest[0]] + rest[1..];
    }
  }

  lemma {:induction false} SameFirstMatch(infos: map<Id, Info>, infos': map<Id, Info>, rest: seq<Id>, which: Which)
    requires forall j :: j in rest ==> j in infos && j in infos' && infos[j] == infos'[j]
    ensures FirstMatch(infos, rest, which) == FirstMatch(infos', rest, which)
  {
    if rest != [] {
      SameFirstMatch(infos, infos', rest[1..], which);
    }
  }

  // With no listed request under a handle, closing that handle finds nothing: so it is when the
  // UI, told to close a request's window, reports that very window closed.
  lemma {:induction false} NestedCloseFindsNothing(infos: map<Id, Info>, handles: seq<Id>, h: nat)
    requires forall j :: j in handles ==> j in infos && infos[j].handle != Some(h)
    ensures FirstMatch(infos, handles, ByHandle(h)) == None
  {
    if handles != [] {
      NestedCloseFindsNothing(infos, handles[1..], h);
    }
  }

  // ----- what every step keeps -----

  ghost predicate RecordsOk(infos: map<Id, Info>, p: Phases, next: Id) {
    && (forall i {:trigger InfoOk(infos, p, i)} :: InfoOk(infos, p, i))
    && (forall i :: i in infos ==> i < next)
    && HandlesDiffer(infos)
  }

  // The UI has a handle of its own for each live record.
  predicate Apart(infos: map<Id, Info>, i: Id, handle: Option<nat>) {
    handle.Some? ==> forall j :: j in infos && j != i ==> infos[j].handle != handle
  }

  ghost predicate HandlesDiffer(infos: map<Id, Info>) {
    forall i {:trigger infos[i]} :: i in infos ==> Apart(infos, i, infos[i].handle)
  }

  // Steps that touch one record and its phase.
  lemma RecordsStay(
    infos: map<Id, Info>, p: Phases, next: Id, infos': map<Id, Info>, p': Phases, next': Id, i: Id)
    requires RecordsOk(infos, p, next) && next <= next' && InfoOk(infos', p', i)
    requires i in infos' ==> i < next' && Apart(infos, i, infos'[i].handle)
    requires infos' - {i} == infos - {i}
    requires forall j: Id :: j != i ==>
               && (j in p'.requesting <==> j in p.requesting) && (j in p'.open <==> j in p.open)
               && (j in p'.answering <==> j in p.answering) && (j in p'.closing <==> j in p.closing)
    ensures RecordsOk(infos', p', next')
  {
    forall j: Id ensures InfoOk(infos', p', j) && (j in infos' ==> j < next') {
      assert InfoOk(infos, p, j);
      if j != i {
        assert j in infos' <==> j in infos' - {i};
        assert j in infos <==> j in infos - {i};
        assert j in infos ==> infos'[j] == (infos' - {i})[j] && infos[j] == (infos - {i})[j];
      }
    }
    HandlesStay(infos, infos', i);
  }

  lemma HandlesStay(infos: map<Id, Info>, infos': map<Id, Info>, i: Id)
    requires HandlesDiffer(infos) && infos' - {i} == infos - {i}
    requires i in infos' ==> Apart(infos, i, infos'[i].handle)
    ensures HandlesDiffer(infos')
  {
    forall j | j in infos' ensures Apart(infos', j, infos'[j].handle) {
      forall k | k in infos' && k != j ensures infos'[j].handle.Some? ==> infos'[k].handle != infos'[j].handle {
        assert j != i ==> j in infos' - {i} && (infos' - {i})[j] == (infos - {i})[j];
        assert k != i ==> k in infos' - {i} && (infos' - {i})[k] == (infos - {i})[k];
      }
    }
  }

  ghost predicate SameListed(infos: map<Id, Info>, infos': map<Id, Info>, handles: seq<Id>) {
    forall j :: j in handles && j in infos' ==> j in infos && infos'[j] == infos[j]
  }

  lemma FrameAfterNew(infos: map<Id, Info>, info: Info, handles: seq<Id>, p: Phases, next: Id, f: Frame)
    requires FrameOk(infos, handles, p, next, f) && next !in handles
    ensures FrameOk(infos[next := info], handles,
                    p.(requesting := p.requesting + {next}, open := p.open + {next}), next + 1, f)
  {}

  lemma FrameAfterFree(
    infos: map<Id, Info>, infos': map<Id, Info>, handles: seq<Id>, p: Phases, p': Phases, next: Id, f: Frame)
    requires FrameOk(infos, handles, p, next, f) && SameListed(infos, infos', handles)
    requires p'.requesting <= p.requesting
    ensures FrameOk(infos', handles, p', next, f)
  {}

  lemma FreeKeepsFrames(
    infos: map<Id, Info>, infos': map<Id, Info>, handles: seq<Id>, p: Phases, p': Phases, next: Id, frames: seq<Frame>)
    requires FramesOk(infos, handles, p, next, frames) && SameListed(infos, infos', handles)
    requires p'.requesting <= p.requesting
    ensures FramesOk(infos', handles, p', next, frames)
  {
    forall f | f in frames ensures FrameOk(infos', handles, p', next, f) {
      FrameAfterFree(infos, infos', handles, p, p', next, f);
    }
  }

  lemma UnlinkKeepsFrames(
    infos: map<Id, Info>, handles: seq<Id>, p: Phases, p': Phases, next: Id, frames: seq<Frame>, x: Id)
    requires FramesOk(infos, handles, p, next, frames) && Distinct(handles) && p'.requesting == p.requesting
    ensures FramesOk(infos, RemoveFirst(handles, x), p', next, frames)
    ensures forall f :: f in frames ==>
              (Alive(RemoveFirst(handles, x), f) <==> Alive(handles, f) && (f.next != Some(x) || x !in handles))
  {
    forall f | f in frames
      ensures FrameOk(infos, RemoveFirst(handles, x), p', next, f)
      ensures Alive(RemoveFirst(handles, x), f) <==> Alive(handles, f) && (f.next != Some(x) || x !in handles)
    {
      FrameAfterUnlink(infos, handles, p, p', next, f, x);
    }
  }

  lemma {:induction false} ShorterWithout(s: seq<Id>, x: Id)
    requires x in s
    ensures |RemoveFirst(s, x)| < |s|
  {
    if s[0] != x {
      ShorterWithout(s[1..], x);
    }
  }

  lemma {:induction false} UnlinkAt(front: seq<Id>, rest: seq<Id>)
    requires Distinct(front + rest) && rest != []
    ensures RemoveFirst(front + rest, rest[0]) == front + rest[1..]
    ensures rest[0] in front + rest
  {
    assert (front + rest)[|front|] == rest[0];
    if front != [] {
      assert (front + rest)[1..] == front[1..] + rest;
      UnlinkAt(front[1..], rest);
    } else {
      assert front + rest == rest;
    }
  }

  lemma OneMoreClosing(frames: seq<Frame>, p: Phases, f: Frame, p': Phases)
    requires ClosingOk(frames, p) && f.closing !in p.closing && p'.closing == p.closing + {f.closing}
    ensures ClosingOk(frames + [f], p')
  {
    var more := frames + [f];
    assert more[|frames|] == f && forall k :: 0 <= k < |frames| ==> more[k] == frames[k];
    forall i ensures i in p'.closing <==> exists k :: 0 <= k < |more| && more[k].closing == i {
      if i in p.closing {
        var k :| 0 <= k < |frames| && frames[k].closing == i;
        assert more[k].closing == i;
      }
    }
  }

  lemma OneLessClosing(frames: seq<Frame>, p: Phases, p': Phases)
    requires ClosingOk(frames, p) && frames != []
    requires p'.closing == p.closing - {frames[|frames| - 1].closing}
    ensures ClosingOk(frames[..|frames| - 1], p')
  {
    var less := frames[..|frames| - 1];
    forall i ensures i in p'.closing <==> exists k :: 0 <= k < |less| && less[k].closing == i {
      if i in p'.closing {
        var k :| 0 <= k < |frames| && frames[k].closing == i;
        assert less[k].closing == i;
      }
    }
  }

  // The records that are left when those listed that match are closed.
  ghost function Unclosed(infos: map<Id, Info>, listed: seq<Id>, which: Which): map<Id, Info> {
    map i | i in infos && !(i in listed && Matches(which, infos[i])) :: infos[i]
  }

  // Between top-level calls nothing is half done: the list is exactly the live records, each
  // waiting for an answer with the list's single reference.
  lemma TopLevel(infos: map<Id, Info>, handles: seq<Id>, p: Phases)
    requires forall i {:trigger InfoOk(infos, p, i)} :: InfoOk(infos, p, i)
    requires ListOk(handles, p) && p.requesting == {} && p.answering == {} && p.closing == {}
    ensures forall i :: i in infos <==> i in handles
    ensures forall i :: i in infos ==> infos[i].ref == 1 && i in p.open
  {
    forall i ensures i in infos <==> i in handles
      ensures i in infos ==> infos[i].ref == 1 && i in p.open
    {
      assert InfoOk(infos, p, i);
    }
  }

  // The calls and returns that a run is made of.
  datatype Event =
    | Request(account: nat)
    | Handed(i: Id, handle: Option<nat>)
    | Answer(i: Id)
    | Answered(i: Id)
    | Closing(which: Which)
    | Told                    // the UI returns to the innermost closing loop

  class Requests {
    var infos: map<Id, Info>
    var handles: seq<Id>
    var next: Id
    var phases: Phases        // where the calls of the UI and of callbacks are
    var frames: seq<Frame>    // the closing loops under way, the innermost last
    var lost: bool            // a loop went on from an entry that was gone: there the model ends it
    ghost var ran: map<Id, nat>

    ghost predicate Ok()
      reads this
    {
      && RecordsOk(infos, phases, next)
      && ListOk(handles, phases)
      && (forall i {:trigger RanOk(ran, phases, next, i)} :: RanOk(ran, phases, next, i))
      && FramesOk(infos, handles, phases, next, frames)
      && ClosingOk(frames, phases)
    }

    // No closing loop under way has lost its place.
    ghost predicate AllAlive()
      reads this
    {
      forall f {:trigger Alive(handles, f)} :: f in frames ==> Alive(handles, f)
    }

    constructor ()
      ensures Ok() && infos == map[] && handles == [] && frames == [] && !lost
      ensures phases == Phases({}, {}, {}, {})
    {
      infos, handles, next, frames, lost := map[], [], 0, [], false;
      phases := Phases({}, {}, {}, {});
      ran := map[];
    }

    lemma Listed(i: Id)
      requires Ok() && i in handles
      ensures i in infos && infos[i].ref == 1 && i in phases.open && i < next
      ensures i !in phases.requesting && i !in phases.answering && i !in phases.closing
    {
      assert InfoOk(infos, phases, i);
    }

    lemma ListedStill(j: Id, before: Phases)
      requires RecordsOk(infos, before, next) && phases.requesting == before.requesting
      requires j in before.open && j !in before.requesting
      ensures j in infos && j < next && j !in phases.requesting
    {
      assert InfoOk(infos, before, j);
    }

    lemma AllListed()
      requires Ok()
      ensures forall i :: i in handles ==> i in infos
    {
      forall i | i in handles ensures i in infos {
        Listed(i);
      }
    }

    // purple_account_request_info_unref()
    method Unref(i: Id) returns (alive: bool)
      requires i in infos && infos[i].ref > 0
      modifies `infos
      ensures alive == (old(infos)[i].ref != 1)
      ensures infos == if alive then old(infos)[i := old(infos)[i].(ref := old(infos)[i].ref - 1)] else old(infos) - {i}
    {
      infos := infos[i := infos[i].(ref := infos[i].ref - 1)];
      if infos[i].ref != 0 {
        return true;
      }
      infos := infos - {i};
      return false;
    }

    // purple_account_request_authorization() up to the call of the UI: a record with an extra
    // reference, not yet on the list.
    method BeginRequest(account: nat) returns (i: Id)
      requires Ok()
      modifies `infos, `next, `phases, `ran
      ensures Ok() && i == old(next) && next == i + 1
      ensures infos == old(infos)[i := Info(account, None, 2)]
      ensures phases == old(phases).(requesting := old(phases).requesting + {i}, open := old(phases).open + {i})
      ensures ran == old(ran)[i := 0]
    {
      i := next;
      assert InfoOk(infos, phases, i) && RanOk(ran, phases, next, i);
      forall f | f in frames
        ensures FrameOk(infos[i := Info(account, None, 2)], handles,
                        phases.(requesting := phases.requesting + {i}, open := phases.open + {i}), next + 1, f)
      {
        FrameAfterNew(infos, Info(account, None, 2), handles, phases, next, f);
      }
      next := next + 1;
      infos := infos[i := Info(account, None, 2)];
      phases := phases.(requesting := phases.requesting + {i}, open := phases.open + {i});
      ran := ran[i := 0];
      RecordsStay(old(infos), old(phases), old(next), infos, phases, next, i);
      forall j ensures RanOk(ran, phases, next, j) {
        assert RanOk(old(ran), old(phases), old(next), j);
      }
    }

    // ... and after it: the UI's handle is kept, the extra reference dropped, and a request that
    // was not answered meanwhile goes on the list.
    method EndRequest(i: Id, ui_handle: Option<nat>) returns (handle: Option<nat>)
      requires Ok() && i in phases.requesting
      requires i !in phases.answering  // calls nest: a callback run by the UI has returned
      requires Apart(infos, i, ui_handle)
      modifies `infos, `handles, `phases
      ensures Ok() && phases == old(phases).(requesting := old(phases).requesting - {i})
      ensures i in old(infos) && (i in infos <==> i in phases.open)
      ensures i in infos ==> infos[i] == Info(old(infos)[i].account, ui_handle, 1)
      ensures infos - {i} == old(infos) - {i}
      ensures handles == if i in infos then old(handles) + [i] else old(handles)
      ensures handle == if i in infos then ui_handle else None
      ensures forall f :: f in frames ==> (Alive(handles, f) <==> old(Alive(handles, f)))
    {
      assert InfoOk(infos, phases, i);
      assert i !in handles;
      infos := infos[i := infos[i].(handle := ui_handle)];
      var alive := Unref(i);
      phases := phases.(requesting := phases.requesting - {i});
      if alive {
        handles := handles + [i];
        handle := ui_handle;
      } else {
        handle := None;
      }
      RecordsStay(old(infos), old(phases), next, infos, phases, next, i);
      forall j ensures RanOk(ran, phases, next, j) {
        assert RanOk(ran, old(phases), next, j);
      }
      AppendKeepsFrames(old(infos), infos, old(handles), old(phases), phases, i, alive);
    }

    lemma AppendKeepsFrames(
      infos: map<Id, Info>, infos': map<Id, Info>, handles: seq<Id>, p: Phases, p': Phases, i: Id, alive: bool)
      requires FramesOk(infos, handles, p, next, frames) && SameListed(infos, infos', handles)
      requires i in p.requesting && p'.requesting == p.requesting - {i}
      ensures FramesOk(infos', if alive then handles + [i] else handles, p', next, frames)
      ensures forall f :: f in frames ==>
                (Alive(if alive then handles + [i] else handles, f) <==> Alive(handles, f))
    {
      forall f | f in frames
        ensures FrameOk(infos', if alive then handles + [i] else handles, p', next, f)
        ensures Alive(if alive then handles + [i] else handles, f) <==> Alive(handles, f)
      {
        assert FrameOk(infos, handles, p, next, f);
        FrameAfterFree(infos, infos', handles, p, p, next, f);
        FrameAfterAppend(infos', handles, p, p', next, f, i);
        FrameAfterFree(infos', infos', handles, p, p', next, f);
      }
    }

    // request_auth_cb() and request_deny_cb() up to the callback, which runs now.
    method BeginAnswer(i: Id)
      requires Ok() && i in phases.open
      modifies `handles, `phases, `ran
      ensures Ok() && handles == RemoveFirst(old(handles), i)
      ensures phases == old(phases).(open := old(phases).open - {i}, answering := old(phases).answering + {i})
      ensures i in ran && ran == old(ran)[i := 1] && i in old(ran) && old(ran)[i] == 0
      ensures forall f :: f in frames ==>
                (Alive(handles, f) <==> old(Alive(handles, f)) && (f.next != Some(i) || i !in old(handles)))
    {
      assert RanOk(ran, phases, next, i) && InfoOk(infos, phases, i);
      handles := RemoveFirst(handles, i);
      phases := phases.(open := phases.open - {i}, answering := phases.answering + {i});
      ran := ran[i := ran[i] + 1];
      RecordsStay(infos, old(phases), next, infos, phases, next, i);
      forall j ensures RanOk(ran, phases, next, j) {
        assert RanOk(old(ran), old(phases), next, j);
      }
      UnlinkKeepsFrames(infos, old(handles), old(phases), phases, next, frames, i);
    }

    // ... and after it: the record goes, unless the request is still being handed to the UI.
    method EndAnswer(i: Id)
      requires Ok() && i in phases.answering
      modifies `infos, `phases
      ensures Ok() && phases == old(phases).(answering := old(phases).answering - {i})
      ensures i in old(infos) && (i in infos <==> i in phases.requesting)
      ensures infos - {i} == old(infos) - {i}
    {
      assert InfoOk(infos, phases, i);
      assert i !in handles;
      var _ := Unref(i);
      phases := phases.(answering := phases.answering - {i});
      RecordsStay(old(infos), old(phases), next, infos, phases, next, i);
      forall j ensures RanOk(ran, phases, next, j) {
        assert RanOk(ran, old(phases), next, j);
      }
      FreeKeepsFrames(old(infos), infos, handles, old(phases), phases, next, frames);
    }

    // purple_account_request_close() and purple_account_request_close_with_account(), up to the
    // first call of the UI.
    method BeginClose(which: Which)
      requires Ok()
      modifies `handles, `phases, `frames
      ensures Ok() && Started(which, old(handles), old(handles), old(handles), old(phases), old(frames))
      ensures if |frames| == |old(frames)| then NoneAsked(which, old(handles)) else Asked(which)
    {
      AllListed();
      GoOn(which, handles, handles, []);
      AllListed();
      StartedIsAsked(which, old(handles), old(handles), old(handles), old(phases), old(frames));
    }

    // The request whose closing the UI is told of is one that the call is about.
    ghost predicate Asked(which: Which)
      reads this
    {
      && frames != []
      && var i := frames[|frames| - 1].closing;
      && i in infos
      && (which.ByAccount? ==> infos[i].account == which.account)
      && (which.ByHandle? ==> infos[i].handle == Some(which.handle))
    }

    // Of these requests, those that are still listed are not.
    ghost predicate NoneAsked(which: Which, listed: seq<Id>)
      reads this
    {
      forall j :: j in listed && j in handles ==>
        && j in infos
        && (which.ByAccount? ==> infos[j].account != which.account)
        && (which.ByHandle? ==> infos[j].handle != Some(which.handle))
    }

    // What the loop does from `rest` on, up to the next call of the UI: it takes the first match
    // off the list, or ends with nothing left that matches of what was listed when it began.
    ghost predicate Started(
      which: Which, rest: seq<Id>, listed: seq<Id>, handles0: seq<Id>, phases0: Phases, frames0: seq<Frame>)
      reads this
    {
      && (forall j :: j in rest ==> j in infos)
      && match FirstMatch(infos, rest, which)
         case None =>
           && handles == handles0 && phases == phases0 && frames == frames0
           && forall j :: j in listed && j in handles && j in infos ==> !Matches(which, infos[j])
         case Some(m) =>
           && m in handles0 && handles == RemoveFirst(handles0, m)
           && phases == phases0.(open := phases0.open - {m}, closing := phases0.closing + {m})
           && |frames| == |frames0| + 1 && frames[..|frames0|] == frames0
           && var f := frames[|frames0|];
              && f.which == which && f.closing == m && f.listed == listed
              && f.next == Behind(handles0, m) && Alive(handles, f)
    }

    lemma StartedIsAsked(
      which: Which, rest: seq<Id>, listed: seq<Id>, handles0: seq<Id>, phases0: Phases, frames0: seq<Frame>)
      requires Started(which, rest, listed, handles0, phases0, frames0)
      ensures |frames| == |frames0| ==> frames == frames0
      ensures if |frames| == |frames0| then (forall i :: i in handles ==> i in infos) ==> NoneAsked(which, listed)
              else Asked(which)
    {
      var _ := FirstMatchSplits(infos, rest, which);
    }

    // The loop, from the cursor on.
    method GoOn(which: Which, from: seq<Id>, listed: seq<Id>, ghost front: seq<Id>)
      requires Ok() && handles == front + from
      requires forall j :: j in listed ==> j < next && j !in phases.requesting
      requires forall j :: j in handles ==> j in infos
      requires forall j :: j in front && j in listed ==> !Matches(which, infos[j])
      modifies `handles, `phases, `frames
      ensures Ok() && Started(which, from, listed, old(handles), old(phases), old(frames))
    {
      var rest := from;
      ghost var before := front;
      while rest != [] && !Matches(which, infos[rest[0]])
        invariant handles == before + rest && (forall j :: j in rest ==> j in infos)
        invariant forall j :: j in before && j in listed ==> !Matches(which, infos[j])
        invariant FirstMatch(infos, rest, which) == FirstMatch(infos, from, which)
        decreases |rest|
      {
        before := before + [rest[0]];
        rest := rest[1..];
      }
      if rest != [] {
        TakeOff(which, rest, listed, before);
      }
    }

    // g_list_delete_link() of the entry at the cursor, the next one being saved.
    method TakeOff(which: Which, rest: seq<Id>, listed: seq<Id>, ghost front: seq<Id>)
      requires Ok() && handles == front + rest && rest != []
      requires forall j :: j in listed ==> j < next && j !in phases.requesting
      requires forall j :: j in handles ==> j in infos
      requires forall j :: j in front && j in listed ==> !Matches(which, infos[j])
      modifies `handles, `phases, `frames
      ensures Ok() && rest[0] in old(handles) && handles == RemoveFirst(old(handles), rest[0])
      ensures phases == old(phases).(open := old(phases).open - {rest[0]}, closing := old(phases).closing + {rest[0]})
      ensures frames == old(frames) + [Frame(which, rest[0], First(rest[1..]), listed)]
      ensures First(rest[1..]) == Behind(old(handles), rest[0])
      ensures Alive(handles, Frame(which, rest[0], First(rest[1..]), listed))
    {
      var i, l_next := rest[0], First(rest[1..]);
      Listed(i);
      UnlinkAt(front, rest);
      FromSplit(front, rest);
      handles := RemoveFirst(handles, i);
      phases := phases.(open := phases.open - {i}, closing := phases.closing + {i});
      frames := frames + [Frame(which, i, l_next, listed)];
      RecordsStay(infos, old(phases), next, infos, phases, next, i);
      forall j ensures RanOk(ran, phases, next, j) {
        assert RanOk(ran, old(phases), next, j);
      }
      UnlinkKeepsFrames(infos, old(handles), old(phases), phases, next, old(frames), i);
      forall j | j in handles ensures j in infos && j < next && j !in phases.requesting {
        ListedStill(j, old(phases));
      }
      NewFrame(front, rest, frames[|old(frames)|], old(phases));
      OneMoreClosing(old(frames), old(phases), frames[|old(frames)|], phases);
    }

    lemma NewFrame(front: seq<Id>, rest: seq<Id>, f: Frame, before: Phases)
      requires rest != [] && Distinct(front + rest[1..]) && handles == front + rest[1..]
      requires f.next == First(rest[1..]) && phases.requesting == before.requesting
      requires forall j :: j in f.listed ==> j < next && j !in phases.requesting
      requires forall j :: j in handles ==> j in infos && j < next && j !in phases.requesting
      requires forall j :: j in front && j in f.listed ==> j in infos && !Matches(f.which, infos[j])
      ensures FrameOk(infos, handles, phases, next, f) && Alive(handles, f)
    {
      FromSplit(front, rest[1..]);
      assert f.next.Some? ==> f.next.value == rest[1..][0] && f.next.value in handles;
      assert forall j :: j in handles ==> j in front || j in rest[1..];
    }

    // The UI returns: the record goes, and the loop goes on from the entry it has saved, if that
    // is still there.
    method EndClose()
      requires Ok() && frames != []
      modifies `infos, `handles, `phases, `frames, `lost
      ensures Ok()
      ensures var f := old(frames)[|old(frames)| - 1];
              var p := old(phases).(closing := old(phases).closing - {f.closing});
              var outer := old(frames)[..|old(frames)| - 1];
              && f.closing in old(infos) && infos == old(infos) - {f.closing}
              && lost == (old(lost) || !Alive(old(handles), f))
              && if Alive(old(handles), f)
                 then Started(f.which, From(old(handles), f.next), f.listed, old(handles), p, outer)
                 else handles == old(handles) && phases == p && frames == outer
      ensures var f := old(frames)[|old(frames)| - 1];
              Alive(old(handles), f) ==>
                if |frames| == |old(frames)| then Asked(f.which) else NoneAsked(f.which, f.listed)
    {
      ghost var f, p := frames[|frames| - 1], phases;
      CloseNext();
      if Alive(old(handles), f) {
        AllListed();
        StartedIsAsked(f.which, From(old(handles), f.next), f.listed, old(handles),
                       p.(closing := p.closing - {f.closing}), old(frames)[..|old(frames)| - 1]);
      }
    }

    // ... freeing the record and going on.
    method CloseNext()
      requires Ok() && frames != []
      modifies `infos, `handles, `phases, `frames, `lost
      ensures Ok()
      ensures var f := old(frames)[|old(frames)| - 1];
              var p := old(phases).(closing := old(phases).closing - {f.closing});
              var outer := old(frames)[..|old(frames)| - 1];
              && f.closing in old(infos) && infos == old(infos) - {f.closing}
              && lost == (old(lost) || !Alive(old(handles), f))
              && if Alive(old(handles), f)
                 then Started(f.which, From(old(handles), f.next), f.listed, old(handles), p, outer)
                 else handles == old(handles) && phases == p && frames == outer
    {
      var f := frames[|frames| - 1];
      FreeClosed();
      if !Alive(handles, f) {
        lost := true;
        return;
      }
      AllListed();
      ghost var front := FromIsSuffix(handles, f.next);
      CursorFacts(f, front);
      GoOn(f.which, From(handles, f.next), f.listed, front);
    }

    lemma CursorFacts(f: Frame, front: seq<Id>)
      requires Ok() && FrameOk(infos, handles, phases, next, f) && Alive(handles, f)
      requires handles == front + From(handles, f.next)
      ensures forall j :: j in front && j in f.listed ==> j in infos && !Matches(f.which, infos[j])
    {
      forall j | j in front && j in f.listed ensures j in infos && !Matches(f.which, infos[j]) {
        assert j in handles;
        Listed(j);
        NotInRest(front, From(handles, f.next), j);
      }
    }

    method FreeClosed()
      requires Ok() && frames != []
      modifies `infos, `phases, `frames
      ensures Ok()
      ensures var f := old(frames)[|old(frames)| - 1];
              && f.closing in old(infos) && infos == old(infos) - {f.closing}
              && phases == old(phases).(closing := old(phases).closing - {f.closing})
              && frames == old(frames)[..|old(frames)| - 1]
              && FrameOk(infos, handles, phases, next, f)
    {
      var f := frames[|frames| - 1];
      var i := f.closing;
      assert frames[|frames| - 1].closing == i;
      assert InfoOk(infos, phases, i) && FrameOk(infos, handles, phases, next, f);
      assert i !in handles;
      var _ := Unref(i);
      phases := phases.(closing := phases.closing - {i});
      frames := frames[..|frames| - 1];
      RecordsStay(old(infos), old(phases), next, infos, phases, next, i);
      forall j ensures RanOk(ran, phases, next, j) {
        assert RanOk(ran, old(phases), next, j);
      }
      FreeKeepsFrames(old(infos), infos, handles, old(phases), phases, next, old(frames));
      OneLessClosing(old(frames), old(phases), phases);
    }

    // The whole loop, when the UI does nothing else meanwhile: exactly the listed requests that
    // match are closed and freed.
    method Close(which: Which)
      requires Ok()
      modifies `infos, `handles, `phases, `frames, `lost
      ensures Ok() && frames == old(frames) && lost == old(lost)
      ensures infos == Unclosed(old(infos), old(handles), which)
      ensures forall i :: i in handles <==> i in old(handles) && i in infos
      ensures phases == old(phases).(open := phases.open) && phases.open <= old(phases).open
      // with an account: the records of all others are there and listed as before, and no request of
      // that one is listed any more; and so with a handle
      ensures which.ByAccount? ==>
                && (forall i :: i in old(infos) && old(infos)[i].account != which.account ==>
                      i in infos && infos[i] == old(infos)[i] && (i in old(handles) ==> i in handles))
                && (forall i :: i in handles ==> i in infos && infos[i].account != which.account)
      ensures which.ByHandle? ==>
                && (forall i :: i in old(infos) && old(infos)[i].handle != Some(which.handle) ==>
                      i in infos && infos[i] == old(infos)[i] && (i in old(handles) ==> i in handles))
                && (forall i :: i in handles ==> i in infos && infos[i].handle != Some(which.handle))
    {
      ghost var listed, records, outer := handles, infos, frames;
      var depth := |frames|;
      FirstRound(which);
      while |frames| > depth
        invariant Ok() && lost == old(lost) && InTheLoop(which, listed, records, outer)
        invariant phases == old(phases).(open := phases.open, closing := old(phases).closing + ClosingNow(outer))
        invariant phases.open <= old(phases).open && ClosingNow(outer) !! old(phases).closing
        decreases |handles| + |frames|
      {
        LoopGoesOn(which, listed, records, outer, old(phases));
      }
      LoopIsOver(which, listed, records, outer);
    }

    lemma LoopIsOver(which: Which, listed: seq<Id>, records: map<Id, Info>, outer: seq<Frame>)
      requires InTheLoop(which, listed, records, outer) && |frames| == |outer|
      ensures frames == outer && ClosingNow(outer) == {} && infos == Unclosed(records, listed, which)
      ensures forall i :: i in handles ==> i in listed && i in infos
      ensures forall i :: i in listed && i in infos ==> i in handles
    {}

    method FirstRound(which: Which)
      requires Ok()
      modifies `handles, `phases, `frames
      ensures Ok() && InTheLoop(which, old(handles), infos, old(frames))
      ensures phases == old(phases).(open := phases.open, closing := old(phases).closing + ClosingNow(old(frames)))
      ensures phases.open <= old(phases).open && ClosingNow(old(frames)) !! old(phases).closing
    {
      AllListed();
      forall j | j in handles ensures j !in phases.closing {
        Listed(j);
      }
      BeginClose(which);
      StepOfLoop(which, old(handles), old(handles), infos, old(frames), old(handles), old(phases));
    }

    // One more round, the UI having returned.
    method LoopGoesOn(
      which: Which, ghost listed: seq<Id>, ghost records: map<Id, Info>, ghost outer: seq<Frame>, ghost start: Phases)
      requires Ok() && InTheLoop(which, listed, records, outer) && |frames| > |outer|
      requires phases == start.(open := phases.open, closing := start.closing + ClosingNow(outer))
      requires ClosingNow(outer) !! start.closing
      modifies `infos, `handles, `phases, `frames, `lost
      ensures Ok() && lost == old(lost) && InTheLoop(which, listed, records, outer)
      ensures phases == start.(open := phases.open, closing := start.closing + ClosingNow(outer))
      ensures phases.open <= old(phases).open && ClosingNow(outer) !! start.closing
      ensures |handles| + |frames| < |old(handles)| + |old(frames)|
    {
      ghost var f, before, p, infos0 := frames[|frames| - 1], handles, phases, infos;
      assert f.closing in phases.closing by {
        assert frames[|frames| - 1].closing == f.closing;
      }
      assert InfoOk(infos, phases, f.closing);
      assert frames[..|frames| - 1] == outer && p.closing - {f.closing} == start.closing;
      forall j | j in handles ensures j !in p.closing {
        Listed(j);
      }
      CloseNext();
      WithoutClosed(listed, records, before, f.closing, infos0);
      StepOfLoop(which, From(before, f.next), listed, records, outer, before,
                 p.(closing := p.closing - {f.closing}));
      RemovedIsShorter(before);
    }

    // The record that was being closed is gone.
    lemma WithoutClosed(listed: seq<Id>, records: map<Id, Info>, before: seq<Id>, closing: Id, infos0: map<Id, Info>)
      requires infos0 == map i | i in records && (i !in listed || i in before || i in {closing}) :: records[i]
      requires infos == infos0 - {closing} && closing in listed && closing !in before
      ensures infos == map i | i in records && (i !in listed || i in before) :: records[i]
    {}

    lemma RemovedIsShorter(before: seq<Id>)
      ensures forall x :: x in before ==> |RemoveFirst(before, x)| < |before|
    {
      forall x | x in before ensures |RemoveFirst(before, x)| < |before| {
        ShorterWithout(before, x);
      }
    }

    // Where the loop stands after its step, `handles0` being the list before.
    lemma StepOfLoop(
      which: Which, rest: seq<Id>, listed: seq<Id>, records: map<Id, Info>, outer: seq<Frame>,
      handles0: seq<Id>, phases0: Phases)
      requires Started(which, rest, listed, handles0, phases0, outer) && Distinct(handles0)
      requires forall j :: j in handles0 ==> j in listed && j in records
      requires forall j :: j in listed && j in records && j !in handles0 ==> Matches(which, records[j])
      requires infos == map i | i in records && (i !in listed || i in handles0) :: records[i]
      ensures InTheLoop(which, listed, records, outer)
    {
      var passed := FirstMatchSplits(infos, rest, which);
      var m := FirstMatch(infos, rest, which);
      if m.None? {
        assert ClosingNow(outer) == {} && frames == outer;
      } else {
        assert frames[|frames| - 1].closing == m.value;
        assert forall j :: j in handles0 ==> j in handles || j == m.value;
      }
    }

    // What is closed by the frames on top of `outer`: one request or none.
    ghost function ClosingNow(outer: seq<Frame>): set<Id>
      reads this
    {
      if |frames| > |outer| then {frames[|frames| - 1].closing} else {}
    }

    ghost predicate InTheLoop(which: Which, listed: seq<Id>, records: map<Id, Info>, outer: seq<Frame>)
      reads this
    {
      && |outer| <= |frames| <= |outer| + 1 && frames[..|outer|] == outer
      && (|frames| > |outer| ==>
            var f := frames[|outer|];
            f.which == which && f.listed == listed && f.closing in listed && Alive(handles, f))
      && (forall j :: j in handles ==> j in listed && j in records)
      && (forall j :: j in listed && j in records && j !in handles ==> Matches(which, records[j]))
      && (|frames| == |outer| ==> forall j :: j in handles && j in records ==> !Matches(which, records[j]))
      && infos == map i | i in records && (i !in listed || i in handles || i in ClosingNow(outer)) :: records[i]
    }

    // ----- over whole runs -----

    // The UI gives each request a handle of its own, and answers what is open; and what was called
    // returns, the inner calls first.
    predicate Possible(e: Event)
      reads this
    {
      match e
      case Handed(i, handle) => i in phases.requesting && i !in phases.answering && Apart(infos, i, handle)
      case Answer(i) => i in phases.open
      case Answered(i) => i in phases.answering
      case Told => frames != []
      case _ => true
    }

    // The entry that a step takes off the list, if any.
    ghost function Unlinks(e: Event): Option<Id>
      reads this
    {
      match e
      case Answer(i) => Some(i)
      case Closing(which) => FirstListedMatch(handles, which)
      case Told =>
        if frames == [] then None
        else
          var f := frames[|frames| - 1];
          if Alive(handles, f) then FirstListedMatch(From(handles, f.next), f.which) else None
      case _ => None
    }

    ghost function FirstListedMatch(rest: seq<Id>, which: Which): Option<Id>
      reads this
    {
      if forall j :: j in rest ==> j in infos then FirstMatch(infos, rest, which) else None
    }

    // The closing loops that are under way before and after the step.
    function Outer(e: Event): seq<Frame>
      reads this
    {
      if e.Told? && frames != [] then frames[..|frames| - 1] else frames
    }

    // The step takes away the entry that a closing loop has saved.
    ghost predicate CutsACursor(e: Event)
      reads this
    {
      Unlinks(e).Some? && exists f :: f in Outer(e) && f.next == Unlinks(e)
    }

    // Request i is done with: its record is freed.
    ghost predicate Gone(i: Id)
      reads this
    {
      i < next && i !in infos
    }

    // After the step of a loop, the outer loops have their places unless it took an entry of theirs.
    lemma OuterLoops(
      which: Which, rest: seq<Id>, listed: seq<Id>, handles0: seq<Id>, phases0: Phases, frames0: seq<Frame>)
      requires Started(which, rest, listed, handles0, phases0, frames0) && Distinct(handles0)
      requires forall f {:trigger Alive(handles0, f)} :: f in frames0 ==> Alive(handles0, f)
      ensures var m := FirstMatch(infos, rest, which);
              AllAlive() <==> !(m.Some? && exists f :: f in frames0 && f.next == m)
    {
      var m := FirstMatch(infos, rest, which);
      if m.Some? {
        assert frames == frames0 + [frames[|frames0|]];
        forall f | f in frames0 ensures Alive(handles, f) <==> f.next != m {
          assert Alive(handles0, f);
        }
        if f :| f in frames0 && f.next == m {
          assert f in frames && !Alive(handles, f);
        }
      } else {
        forall f | f in frames ensures Alive(handles, f) {
          assert Alive(handles0, f);
        }
      }
    }

    // With no closing loop out of place before, all keep their places exactly if the step does
    // not take away an entry that one of them has saved.
    method Take(e: Event)
      requires Ok() && Possible(e)
      modifies this
      ensures Ok() && next >= old(next)
      ensures old(AllAlive()) ==> lost == old(lost) && (AllAlive() <==> !old(CutsACursor(e)))
      ensures forall i :: old(Gone(i)) ==> Gone(i) && i in ran && i in old(ran) && ran[i] == old(ran)[i]
    {
      GoneHaveRun();
      match e {
        case Answer(i) => BeginAnswer(i);
        case Closing(_) => TakeClosing(e);
        case Told => TakeTold(e);
        case _ => TakeOther(e);
      }
    }

    method TakeClosing(e: Event)
      requires Ok() && Possible(e) && e.Closing?
      modifies `infos, `handles, `phases, `frames, `lost
      ensures Ok() && infos.Keys <= old(infos).Keys
      ensures old(AllAlive()) ==> lost == old(lost) && (AllAlive() <==> !old(CutsACursor(e)))
    {
      AllListed();
      BeginClose(e.which);
      if old(AllAlive()) {
        OuterLoops(e.which, old(handles), old(handles), old(handles), old(phases), old(frames));
      }
    }

    method TakeTold(e: Event)
      requires Ok() && Possible(e) && e.Told?
      modifies `infos, `handles, `phases, `frames, `lost
      ensures Ok() && infos.Keys <= old(infos).Keys
      ensures old(AllAlive()) ==> lost == old(lost) && (AllAlive() <==> !old(CutsACursor(e)))
    {
      AllListed();
      ghost var outer, f, p := Outer(e), frames[|frames| - 1], phases;
      EndClose();
      if old(AllAlive()) {
        assert Alive(old(handles), f);
        OuterLoops(f.which, From(old(handles), f.next), f.listed, old(handles),
                   p.(closing := p.closing - {f.closing}), outer);
        SameFirstMatch(old(infos), infos, From(old(handles), f.next), f.which);
      }
    }

    // Steps that take nothing off the list.
    method TakeOther(e: Event)
      requires Ok() && Possible(e) && (e.Request? || e.Handed? || e.Answered?)
      modifies `infos, `handles, `next, `phases, `ran
      ensures Ok() && next >= old(next) && (old(AllAlive()) ==> AllAlive())
      ensures forall i :: i in infos ==> i in old(infos) || i >= old(next)
      ensures forall i :: i in old(ran) && i < old(next) ==> i in ran && ran[i] == old(ran)[i]
    {
      match e {
        case Request(account) =>
          var _ := BeginRequest(account);
        case Handed(i, handle) =>
          var _ := EndRequest(i, handle);
          assert forall j :: j in infos ==> j == i || j in infos - {i};
        case Answered(i) =>
          assert InfoOk(infos, phases, i);
          EndAnswer(i);
          assert forall j :: j in infos ==> j == i || j in infos - {i};
      }
    }

    // Over any run, calls nested as they may be: a freed record stays freed and its callback does
    // not run any more, no callback runs twice, and whenever nothing is half done the list is
    // exactly the live records; and as long as no step takes away the entry that a closing loop
    // has saved, no loop goes on from an entry that is gone.
    method Run(events: seq<Event>) returns (ghost cut: bool)
      requires Ok() && AllAlive()
      modifies this
      ensures Ok() && forall i :: i in ran ==> ran[i] <= 1
      ensures !cut ==> lost == old(lost) && AllAlive()
      ensures forall i :: old(Gone(i)) ==> Gone(i) && i in ran && i in old(ran) && ran[i] == old(ran)[i]
      ensures phases.requesting == {} && phases.answering == {} && frames == [] ==>
                forall i :: i in infos <==> i in handles
    {
      cut := false;
      GoneHaveRun();
      for k := 0 to |events|
        invariant Ok() && (!cut ==> lost == old(lost) && AllAlive())
        invariant forall i :: old(Gone(i)) ==> Gone(i) && i in ran && i in old(ran) && ran[i] == old(ran)[i]
      {
        if Possible(events[k]) {
          cut := cut || CutsACursor(events[k]);
          Take(events[k]);
        }
      }
      AtTheEnd();
    }

    lemma GoneHaveRun()
      requires Ok()
      ensures forall i :: Gone(i) ==> i in ran && i !in phases.open
    {
      forall i | Gone(i) ensures i in ran && i !in phases.open {
        assert InfoOk(infos, phases, i) && RanOk(ran, phases, next, i);
      }
    }

    lemma AtTheEnd()
      requires Ok()
      ensures forall i :: i in ran ==> ran[i] <= 1
      ensures phases.requesting == {} && phases.answering == {} && frames == [] ==>
                forall i :: i in infos <==> i in handles
    {
      forall i | i in ran ensures ran[i] <= 1 {
        assert RanOk(ran, phases, next, i);
      }
      if phases.requesting == {} && phases.answering == {} && frames == [] {
        assert phases.closing == {};
        TopLevel(infos, handles, phases);
      }
    }

    // Told to close a request's window, the UI reports that very window closed, as Finch does by
    // the window's "destroy": no other live record has its handle, so the nested call finds nothing
    // and cuts no cursor.
    lemma ReportedBackIsSafe()
      requires Ok() && frames != []
      ensures var i := frames[|frames| - 1].closing;
              i in infos && i !in handles &&
              (infos[i].handle.Some? ==>
                 && Unlinks(Closing(ByHandle(infos[i].handle.value))) == None
                 && !CutsACursor(Closing(ByHandle(infos[i].handle.value))))
    {
      var i := frames[|frames| - 1].closing;
      assert i in phases.closing;
      assert InfoOk(infos, phases, i) && i !in handles;
      AllListed();
      if infos[i].handle.Some? {
        assert Apart(infos, i, infos[i].handle);
        NestedCloseFindsNothing(infos, handles, infos[i].handle.value);
      }
    }
  }

  // A UI that answers the second of two requests while it is told to close the first: the loop
  // goes on from the second's entry, which is gone.
  method LostExample() returns (r: Requests)
    ensures fresh(r) && r.Ok() && r.lost
  {
    var b: Id;
    r, b := FirstOfTwoClosed();
    r.BeginAnswer(b);
    r.EndAnswer(b);
    r.EndClose();
  }

  method FirstOfTwoClosed() returns (r: Requests, b: Id)
    ensures fresh(r) && r.Ok() && b in r.phases.open
    ensures |r.frames| == 1 && r.frames[0].next == Some(b)
  {
    r := new Requests();
    var a := ListedRequest(r, 7, 1);
    b := ListedRequest(r, 7, 2);
    assert r.handles == [a, b] && [a, b][1..] == [b];
    r.BeginClose(ByAccount(7));
  }

  // A request that the UI does not answer at once.
  method ListedRequest(r: Requests, account: nat, h: nat) returns (i: Id)
    requires r.Ok() && Apart(r.infos, r.next, Some(h))
    modifies r
    ensures r.Ok() && r.frames == old(r.frames) && r.lost == old(r.lost)
    ensures r.handles == old(r.handles) + [i] && i !in old(r.infos)
    ensures r.infos == old(r.infos)[i := Info(account, Some(h), 1)] && i in r.phases.open
  {
    assert r.next !in r.infos;
    i := r.BeginRequest(account);
    assert InfoOk(r.infos, r.phases, i);
    ghost var before := r.infos;
    var _ := r.EndRequest(i, Some(h));
    forall j | j != i ensures (j in r.infos <==> j in before) && (j in before ==> r.infos[j] == before[j]) {
      assert j in r.infos <==> j in r.infos - {i};
      assert j in before <==> j in before - {i};
      assert j in before ==> (r.infos - {i})[j] == (before - {i})[j];
    }
  }
}
