/** Account names with parts, such as user@server/resource, as the account dialog composes them
    from its entries and takes them apart again (finch/gntaccount.c). */
module UserSplits {
  import opened Basics

  // PurpleAccountUserSplit.  A constant split has no entry in the dialog.
  datatype Split = Split(separator: char, defaultValue: Option<string>, reverse: bool, isConstant: bool)

  // "%s" of a NULL pointer
  const PRINTED_NULL := "(null)"

  function DefaultText(split: Split): string {
    if split.defaultValue.Some? then split.defaultValue.value else PRINTED_NULL
  }

  // What composing writes for a split: the entry's text, or the default when it is empty.
  function Effective(split: Split, entry: string): string {
    if split.isConstant || entry == "" then DefaultText(split) else entry
  }

  // The text of the base and the first |values| parts.
  function Joined(base: string, splits: seq<Split>, values: seq<string>): string
    requires |values| <= |splits|
  {
    if values == [] then base
    else
      var n := |values| - 1;
      Joined(base, splits, values[..n]) + [splits[n].separator] + values[n]
  }

  function EffectiveAll(splits: seq<Split>, entries: seq<string>): (r: seq<string>)
    requires |splits| == |entries|
    ensures |r| == |entries|
  {
    seq(|entries|, i requires 0 <= i < |entries| => Effective(splits[i], entries[i]))
  }

  // save_account_cb(): an empty user name is refused.
  function Compose(base: string, splits: seq<Split>, entries: seq<string>): Option<string>
    requires |splits| == |entries|
  {
    if base == "" then None else Some(Joined(base, splits, EffectiveAll(splits, entries)))
  }

  // So a typed text is written as it is, and otherwise the default, or what "%s" makes of none.
  lemma WrittenFor(split: Split, entry: string)
    ensures entry != "" && !split.isConstant ==> Effective(split, entry) == entry
    ensures entry == "" || split.isConstant ==>
              Effective(split, entry) == if split.defaultValue.Some? then split.defaultValue.value else "(null)"
  {}

  // ----- strchr and strrchr -----

  function Chr(s: string, c: char): (k: Option<nat>)
    ensures k.Some? ==> k.value < |s| && s[k.value] == c && c !in s[..k.value]
    ensures k.None? <==> c !in s
  {
    if s == [] then None
    else if s[0] == c then Some(0)
    else
      var k := Chr(s[1..], c);
      if k.None? then None
      else
        assert forall i :: 0 <= i < k.value + 1 ==> s[i] != c by {
          assert forall i :: 0 < i < k.value + 1 ==> s[i] == s[1..][i - 1] && s[1..][i - 1] in s[1..][..k.value];
        }
        Some(k.value + 1)
  }

  function Rchr(s: string, c: char): (k: Option<nat>)
    ensures k.Some? ==> k.value < |s| && s[k.value] == c && c !in s[k.value + 1..]
    ensures k.None? <==> c !in s
  {
    if s == [] then None
    else if s[|s| - 1] == c then Some(|s| - 1)
    else
      var n := |s| - 1;
      var k := Rchr(s[..n], c);
      assert s == s[..n] + [s[n]];
      if k.None? then None
      else
        assert s[k.value + 1..] == s[..n][k.value + 1..] + [s[n]];
        k
  }

  function Find(s: string, split: Split): (k: Option<nat>)
    ensures k.Some? ==> k.value < |s| && s[k.value] == split.separator
    ensures k.None? <==> split.separator !in s
    ensures k.Some? && split.reverse ==> forall j :: k.value < j < |s| ==> s[j] != split.separator
    ensures k.Some? && !split.reverse ==> forall j :: 0 <= j < k.value ==> s[j] != split.separator
  {
    assert forall j, k :: 0 <= k < j < |s| ==> s[j] in s[k + 1..] && s[k] in s[..j];
    if split.reverse then Rchr(s, split.separator) else Chr(s, split.separator)
  }

  // ----- taking apart -----

  // What is left of the name and, per split, the text put into its entry.
  datatype Parts = Parts(base: string, values: seq<string>)

  // The entry of a split without a value: its default, or nothing.
  function Prefilled(split: Split): string {
    if split.defaultValue.Some? then split.defaultValue.value else ""
  }

  // What is left of the name when a split is cut off, and what was cut off.
  function FrontOf(name: string, split: Split): (front: string)
    ensures front <= name
  {
    var k := Find(name, split);
    if k.Some? then name[..k.value] else name
  }

  function ValueOf(name: string, split: Split): string {
    var k := Find(name, split);
    if k.Some? then name[k.value + 1..] else Prefilled(split)
  }

  // update_user_splits(): from the last split to the first, cut the name at the separator.
  function TakeApart(name: string, splits: seq<Split>): (p: Parts)
    ensures |p.values| == |splits|
  {
    if splits == [] then Parts(name, [])
    else
      var n := |splits| - 1;
      var p := TakeApart(FrontOf(name, splits[n]), splits[..n]);
      Parts(p.base, p.values + [ValueOf(name, splits[n])])
  }

  // What is left of the name when split i has its turn.
  function LeftFor(name: string, splits: seq<Split>, i: nat): (left: string)
    requires i < |splits|
    ensures left <= name
  {
    var n := |splits| - 1;
    if i == n then name else LeftFor(FrontOf(name, splits[n]), splits[..n], i)
  }

  lemma {:induction false} EntryIsCutFromRest(name: string, splits: seq<Split>, i: nat)
    requires i < |splits|
    ensures TakeApart(name, splits).values[i] == ValueOf(LeftFor(name, splits, i), splits[i])
  {
    var n := |splits| - 1;
    var front, rest := FrontOf(name, splits[n]), splits[..n];
    var q := TakeApart(front, rest);
    assert TakeApart(name, splits).values == q.values + [ValueOf(name, splits[n])];
    if i < n {
      EntryIsCutFromRest(front, rest, i);
      assert LeftFor(name, splits, i) == LeftFor(front, rest, i) && rest[i] == splits[i];
      assert TakeApart(name, splits).values[i] == q.values[i];
    } else {
      assert LeftFor(name, splits, i) == name;
    }
  }

  // What becomes the user name is the front of the name, and a split whose separator the name lacks
  // gets its default, or nothing.
  lemma {:induction false} FrontIsLeft(name: string, splits: seq<Split>)
    ensures TakeApart(name, splits).base <= name
  {
    if splits != [] {
      var n := |splits| - 1;
      FrontIsLeft(FrontOf(name, splits[n]), splits[..n]);
    }
  }

  lemma AllMissingGetDefaults(name: string, splits: seq<Split>)
    ensures var entries := TakeApart(name, splits).values;
            forall i :: 0 <= i < |splits| && splits[i].separator !in name ==>
              entries[i] == if splits[i].defaultValue.Some? then splits[i].defaultValue.value else ""
  {
    forall i | 0 <= i < |splits| && splits[i].separator !in name
      ensures TakeApart(name, splits).values[i] ==
              if splits[i].defaultValue.Some? then splits[i].defaultValue.value else ""
    {
      EntryIsCutFromRest(name, splits, i);
      NoneToFind(LeftFor(name, splits, i), name, splits[i]);
    }
  }

  lemma NoneToFind(left: string, name: string, split: Split)
    requires left <= name && split.separator !in name
    ensures Find(left, split).None?
  {}

  // The separator of split i, looked for from its side, is found where composing put it.
  predicate Unambiguous(base: string, splits: seq<Split>, values: seq<string>, i: nat)
    requires i < |values| == |splits|
  {
    if splits[i].reverse then splits[i].separator !in values[i]
    else splits[i].separator !in Joined(base, splits, values[..i])
  }

  // The cut at the last split is the right one exactly when that split is unambiguous.
  lemma CutIsRight(front: string, split: Split, value: string)
    ensures var name := front + [split.separator] + value;
            var k := Find(name, split);
            && k.Some?
            && (k.value == |front| <==> if split.reverse then split.separator !in value else split.separator !in front)
            && (k.value == |front| <==> name[k.value + 1..] == value)
  {
    var name := front + [split.separator] + value;
    assert name[|front|] == split.separator;
    assert forall j :: 0 <= j < |front| ==> front[j] == name[j];
    assert forall j :: 0 <= j < |value| ==> value[j] == name[|front| + 1 + j];
    var k := Find(name, split);
    assert name[|front| + 1..] == value;
    assert |name[k.value + 1..]| == |front| + |value| - k.value;
    if split.reverse {
      if k.value > |front| {
        assert name[k.value] == value[k.value - |front| - 1];
      }
    } else {
      if k.value < |front| {
        assert name[k.value] == front[k.value];
      }
    }
  }

  // The last split comes off as it was put on, or its value comes out wrong.
  lemma LastComesOff(base: string, splits: seq<Split>, values: seq<string>)
    requires |splits| == |values| && splits != []
    ensures var n := |splits| - 1;
            var p := TakeApart(Joined(base, splits, values), splits);
            var q := TakeApart(Joined(base, splits[..n], values[..n]), splits[..n]);
            if Unambiguous(base, splits, values, n) then p == Parts(q.base, q.values + [values[n]])
            else p.values[n] != values[n]
  {
    var n := |splits| - 1;
    var front := Joined(base, splits, values[..n]);
    JoinedPrefix(base, splits, values[..n], n);
    CutIsRight(front, splits[n], values[n]);
    var name := front + [splits[n].separator] + values[n];
    var k := Find(name, splits[n]);
    if k.value == |front| {
      assert name[..k.value] == front;
    }
  }

  // A split but the last is as unambiguous as without the last.
  lemma UnambiguousWithoutLast(base: string, splits: seq<Split>, values: seq<string>, i: nat)
    requires |splits| == |values| && i < |splits| - 1
    ensures var n := |splits| - 1;
            Unambiguous(base, splits, values, i) <==> Unambiguous(base, splits[..n], values[..n], i)
  {
    var n := |splits| - 1;
    assert values[..n][..i] == values[..i];
    JoinedPrefix(base, splits, values[..i], n);
  }

  ghost predicate AllUnambiguous(base: string, splits: seq<Split>, values: seq<string>)
    requires |splits| == |values|
  {
    forall i {:trigger Unambiguous(base, splits, values, i)} ::
      0 <= i < |splits| ==> Unambiguous(base, splits, values, i)
  }

  lemma AllButLast(base: string, splits: seq<Split>, values: seq<string>)
    requires |splits| == |values| && splits != []
    ensures var n := |splits| - 1;
            AllUnambiguous(base, splits, values) <==>
            AllUnambiguous(base, splits[..n], values[..n]) && Unambiguous(base, splits, values, n)
  {
    var n := |splits| - 1;
    forall i | 0 <= i < n
      ensures Unambiguous(base, splits, values, i) <==> Unambiguous(base, splits[..n], values[..n], i)
    {
      UnambiguousWithoutLast(base, splits, values, i);
    }
  }

  // Taking apart what was composed gives the parts back exactly when every split is unambiguous.
  lemma {:induction false} TakeApartInverts(base: string, splits: seq<Split>, values: seq<string>)
    requires |splits| == |values|
    ensures TakeApart(Joined(base, splits, values), splits) == Parts(base, values)
            <==> AllUnambiguous(base, splits, values)
  {
    if splits != [] {
      var n := |splits| - 1;
      TakeApartInverts(base, splits[..n], values[..n]);
      LastComesOff(base, splits, values);
      AllButLast(base, splits, values);
      OneMoreValue(TakeApart(Joined(base, splits[..n], values[..n]), splits[..n]), base, values);
    }
  }

  lemma OneMoreValue(q: Parts, base: string, values: seq<string>)
    requires values != []
    ensures var n := |values| - 1;
            Parts(q.base, q.values + [values[n]]) == Parts(base, values) <==> q == Parts(base, values[..n])
  {
    var n := |values| - 1;
    assert values == values[..n] + [values[n]];
    assert (q.values + [values[n]])[..|q.values|] == q.values;
  }

  // With a user name that contains the separator of a forward split, the wrong part comes back.
  lemma AmbiguousExample()
    ensures var splits := [Split('@', None, false, false)];
            && !AllUnambiguous("a@b", splits, ["h"])
            && Joined("a@b", splits, ["h"]) == "a@b@h"
            && TakeApart("a@b@h", splits) == Parts("a", ["b@h"])
  {
    var splits := [Split('@', None, false, false)];
    assert ["h"][..0] == [];
    assert Joined("a@b", splits, []) == "a@b" && "a@b"[1] == '@';
    assert !Unambiguous("a@b", splits, ["h"], 0);
    var name := "a@b@h";
    var k := Find(name, splits[0]);
    assert name[1] == '@' && name[0] != '@';
    assert k == Some(1) && name[..1] == "a" && name[2..] == "b@h";
    assert splits[..0] == [] && TakeApart("a", []) == Parts("a", []);
  }

  // Joining looks at as many splits as there are values.
  lemma {:induction false} JoinedPrefix(base: string, splits: seq<Split>, values: seq<string>, n: nat)
    requires |values| <= n <= |splits|
    ensures Joined(base, splits[..n], values) == Joined(base, splits, values)
  {
    if values != [] {
      JoinedPrefix(base, splits, values[..|values| - 1], n);
    }
  }

  // What the dialog shows for the account it has just saved: the user name as typed, and for each
  // split the text composing used, which is the typed one wherever something was typed.
  lemma SavedNameComesBack(base: string, splits: seq<Split>, entries: seq<string>)
    requires |splits| == |entries| && base != ""
    requires AllUnambiguous(base, splits, EffectiveAll(splits, entries))
    ensures var p := TakeApart(Compose(base, splits, entries).value, splits);
            && p.base == base
            && forall i :: 0 <= i < |splits| ==>
                 p.values[i] ==
                 if entries[i] != "" && !splits[i].isConstant then entries[i]
                 else if splits[i].defaultValue.Some? then splits[i].defaultValue.value
                 else "(null)"
  {
    TakeApartInverts(base, splits, EffectiveAll(splits, entries));
  }

  // ----- composing what was taken apart -----

  // Every separator is found and what stands behind it is what composing would write again.
  predicate FullySplit(name: string, splits: seq<Split>) {
    splits == [] ||
    (var n := |splits| - 1;
     var k := Find(name, splits[n]);
     && k.Some?
     && Effective(splits[n], name[k.value + 1..]) == name[k.value + 1..]
     && FullySplit(name[..k.value], splits[..n]))
  }

  function Recomposed(name: string, splits: seq<Split>): string {
    var p := TakeApart(name, splits);
    Joined(p.base, splits, EffectiveAll(splits, p.values))
  }

  // Recomposing goes split by split.
  lemma RecomposedLast(name: string, splits: seq<Split>)
    requires splits != []
    ensures var n := |splits| - 1;
            var k := Find(name, splits[n]);
            var front := if k.Some? then name[..k.value] else name;
            var value := if k.Some? then name[k.value + 1..] else Prefilled(splits[n]);
            Recomposed(name, splits)
              == Recomposed(front, splits[..n]) + [splits[n].separator] + Effective(splits[n], value)
  {
    var n := |splits| - 1;
    var p := TakeApart(name, splits);
    var k := Find(name, splits[n]);
    var q := TakeApart(if k.Some? then name[..k.value] else name, splits[..n]);
    assert p.values[..n] == q.values;
    assert EffectiveAll(splits, p.values)[..n] == EffectiveAll(splits[..n], q.values);
    JoinedPrefix(p.base, splits, EffectiveAll(splits[..n], q.values), n);
  }

  lemma Reassemble(s: string, k: nat)
    requires k < |s|
    ensures s[..k] + [s[k]] + s[k + 1..] == s
  {}

  // A fully split name is composed again as it was.
  lemma {:induction false} FullySplitRecomposes(name: string, splits: seq<Split>)
    requires FullySplit(name, splits)
    ensures Recomposed(name, splits) == name
  {
    if splits != [] {
      var n := |splits| - 1;
      var k := Find(name, splits[n]);
      RecomposedLast(name, splits);
      var front, tail := name[..k.value], name[k.value + 1..];
      FullySplitRecomposes(front, splits[..n]);
      Reassemble(name, k.value);
    }
  }

  // Without constant splits nothing gets shorter, and a name that is not fully split gets longer.
  lemma {:induction false} RecomposedLength(name: string, splits: seq<Split>)
    requires forall s :: s in splits ==> !s.isConstant
    ensures |Recomposed(name, splits)| >= |name|
    ensures |Recomposed(name, splits)| == |name| ==> FullySplit(name, splits)
  {
    if splits != [] {
      var n := |splits| - 1;
      var k := Find(name, splits[n]);
      RecomposedLast(name, splits);
      RecomposedLength(if k.Some? then name[..k.value] else name, splits[..n]);
    }
  }

  // A constant split is looked for from the end, and no default hides the separator looked for
  // from there.
  predicate Firm(split: Split) {
    (split.isConstant ==> split.reverse) && (split.reverse ==> split.separator !in DefaultText(split))
  }

  // Two ways to write a name around the separator of a firm split are the same.
  lemma SameCut(split: Split, front: string, tail: string, front': string)
    requires Firm(split)
    requires if split.reverse then split.separator !in tail else split.separator !in front
    requires front' + [split.separator] + Effective(split, tail) == front + [split.separator] + tail
    ensures front' == front && Effective(split, tail) == tail
  {
    var tail' := Effective(split, tail);
    var name := front + [split.separator] + tail;
    assert name[|front|] == split.separator && name[|front'|] == split.separator by {
      assert (front' + [split.separator] + tail')[|front'|] == split.separator;
    }
    assert forall j :: 0 <= j < |front| ==> name[j] == front[j];
    assert forall j :: |front| < j < |name| ==> name[j] == tail[j - |front| - 1];
    assert forall j :: |front'| < j < |name| ==> name[j] == tail'[j - |front'| - 1];
    assert front' == name[..|front'|] && front == name[..|front|];
    assert tail' == name[|front'| + 1..] && tail == name[|front| + 1..];
  }

  // With firm splits only a fully split name comes out as it was.
  lemma {:induction false} RecomposedWasFull(name: string, splits: seq<Split>)
    requires forall s :: s in splits ==> Firm(s)
    requires Recomposed(name, splits) == name
    ensures FullySplit(name, splits)
  {
    if splits != [] {
      var n := |splits| - 1;
      var k := Find(name, splits[n]);
      RecomposedLast(name, splits);
      SeparatorIsThere(name, splits);
      var front, tail := name[..k.value], name[k.value + 1..];
      Reassemble(name, k.value);
      SameCut(splits[n], front, tail, Recomposed(front, splits[..n]));
      RecomposedWasFull(front, splits[..n]);
    }
  }

  lemma SeparatorIsThere(name: string, splits: seq<Split>)
    requires splits != [] && Recomposed(name, splits) == name
    ensures Find(name, splits[|splits| - 1]).Some?
  {
    var n := |splits| - 1;
    var k := Find(name, splits[n]);
    RecomposedLast(name, splits);
    var front := if k.Some? then name[..k.value] else name;
    assert name[|Recomposed(front, splits[..n])|] == splits[n].separator;
  }

  // Without constant splits, or with firm ones, a name survives exactly when it is fully split.
  lemma RecomposesExactlyWhen(name: string, splits: seq<Split>)
    requires (forall s :: s in splits ==> !s.isConstant) || (forall s :: s in splits ==> Firm(s))
    ensures Recomposed(name, splits) == name <==> FullySplit(name, splits)
  {
    if forall s :: s in splits ==> !s.isConstant {
      RecomposedLength(name, splits);
    } else if Recomposed(name, splits) == name {
      RecomposedWasFull(name, splits);
    }
    if FullySplit(name, splits) {
      FullySplitRecomposes(name, splits);
    }
  }

  // With a constant split that is not firm, a name can come out as it was by accident: "/@@" is
  // taken apart into nothing, nothing and "@", where the defaults are "@" and nothing.
  lemma AccidentExample()
    ensures var splits := [Split('/', Some("@"), true, true), Split('@', Some(""), false, true)];
            Recomposed("/@@", splits) == "/@@" && !FullySplit("/@@", splits)
  {
    var s0, s1 := Split('/', Some("@"), true, true), Split('@', Some(""), false, true);
    var name := "/@@";
    assert [s0, s1][..1] == [s0];
    assert name[1] == '@' && name[0] != '@' && Find(name, s1) == Some(1);
    assert name[..1] == "/" && name[2..] == "@";
    AccidentInFront();
    RecomposedLast(name, [s0, s1]);
    assert "/@" + ['@'] + "" == "/@@";
  }

  lemma AccidentInFront()
    ensures Recomposed("/", [Split('/', Some("@"), true, true)]) == "/@"
  {
    var s0 := Split('/', Some("@"), true, true);
    assert "/"[0] == '/' && Find("/", s0) == Some(0) && "/"[..0] == "";
    assert [s0][..0] == [] && Recomposed("", []) == "";
    RecomposedLast("/", [s0]);
    assert "" + ['/'] + "@" == "/@";
  }

  // A name without the separator does not survive: the default is written behind it.
  lemma RecomposeExample()
    ensures var splits := [Split('@', Some("h"), false, false)];
            !FullySplit("a", splits) && Recomposed("a", splits) == "a@h"
  {
    var splits := [Split('@', Some("h"), false, false)];
    assert Find("a", splits[0]) == None && Find("a", splits[0]).None?;
    RecomposedLast("a", splits);
    assert splits[..0] == [] && Recomposed("a", []) == "a";
  }

  // ----- the dialog -----

  method SaveAccount(base: string, splits: seq<Split>, entries: seq<string>) returns (username: Option<string>)
    requires |splits| == |entries|
    ensures username == Compose(base, splits, entries) && (username.None? <==> base == "")
  {
    if base == "" {
      return None;
    }
    var text := base;
    ghost var values := EffectiveAll(splits, entries);
    for i := 0 to |splits|
      invariant text == Joined(base, splits, values[..i])
    {
      var value := if splits[i].isConstant then "" else entries[i];
      if value == "" {
        value := DefaultText(splits[i]);
      }
      text := text + [splits[i].separator] + value;
      assert values[..i + 1][..i] == values[..i];
    }
    assert values[..|splits|] == values;
    return Some(text);
  }

  // The name of the account that is edited is cut in place, from the last split backwards; for a
  // new account there is none, and the entries are prefilled.
  method UpdateUserSplits(account: Option<string>, splits: seq<Split>)
    returns (username: string, entries: seq<string>)
    ensures |entries| == |splits|
    ensures account.Some? ==> Parts(username, entries) == TakeApart(account.value, splits) && username <= account.value
    ensures account.None? ==> username == ""
    ensures forall i :: 0 <= i < |splits| && (account.None? || splits[i].separator !in account.value) ==>
              entries[i] == if splits[i].defaultValue.Some? then splits[i].defaultValue.value else ""
  {
    username, entries := if account.Some? then account.value else "", [];
    var i := |splits|;
    assert splits[..i] == splits;
    while 0 < i
      invariant 0 <= i <= |splits| && |entries| == |splits| - i
      invariant account.Some? ==> Rejoined(username, splits[..i], entries) == TakeApart(account.value, splits)
      invariant account.None? ==>
                  username == "" && forall j :: i <= j < |splits| ==> entries[j - i] == Prefilled(splits[j])
    {
      i := i - 1;
      CutOneMore(username, splits, i, entries);
      var value;
      username, value := CutOff(account.Some?, username, splits[i]);
      entries := [value] + entries;
    }
    if account.Some? {
      FrontIsLeft(account.value, splits);
      AllMissingGetDefaults(account.value, splits);
    }
  }

  method CutOff(edited: bool, name: string, split: Split) returns (username: string, value: string)
    ensures edited ==> username == FrontOf(name, split) && value == ValueOf(name, split)
    ensures !edited ==> username == name && value == Prefilled(split)
  {
    username, value := name, Prefilled(split);
    if edited {
      var s := Find(username, split);
      if s.Some? {
        value := username[s.value + 1..];
        username := username[..s.value];
      }
    }
  }

  // What is still to take apart, and the entries that are done.
  function Rejoined(username: string, splits: seq<Split>, entries: seq<string>): Parts {
    var p := TakeApart(username, splits);
    Parts(p.base, p.values + entries)
  }

  lemma CutOneMore(username: string, splits: seq<Split>, i: nat, entries: seq<string>)
    requires i < |splits|
    ensures Rejoined(username, splits[..i + 1], entries) ==
            Rejoined(FrontOf(username, splits[i]), splits[..i], [ValueOf(username, splits[i])] + entries)
  {
    assert splits[..i + 1][..i] == splits[..i];
    var q := TakeApart(FrontOf(username, splits[i]), splits[..i]);
    Associates(q.values, [ValueOf(username, splits[i])], entries);
  }
}
