/** The settings and proxy parts of accounts.xml: printed by libpurple/account.c, parsed by
    libpurple/accounts.c.  The XML text between the two is taken to carry every tree over, but for
    one thing: empty text is no text (`Reread`). */
module AccountXml {
  import opened Basics
  import opened Decimal

  datatype Setting = IntValue(n: int32) | StringValue(text: Option<string>) | BoolValue(b: bool)

  type Table = map<Name, Setting>

  // <setting name=... type=...>data</setting>
  datatype SettingNode = SettingNode(name: Option<Name>, kind: Option<string>, data: Option<string>)

  // <settings ui=...>
  datatype SettingsNode = SettingsNode(ui: Option<Name>, children: seq<SettingNode>)

  datatype Account = Account(protocol: Name, core: Table, ui: map<Name, Table>)

  function NonEmpty(data: Option<string>): Option<string> {
    if data == Some("") then None else data
  }

  function Reread(node: SettingNode): SettingNode {
    node.(data := NonEmpty(node.data))
  }

  function RereadAll(nodes: seq<SettingNode>): (r: seq<SettingNode>)
    ensures |r| == |nodes| && forall i :: 0 <= i < |r| ==> r[i] == Reread(nodes[i])
  {
    seq(|nodes|, i requires 0 <= i < |nodes| => Reread(nodes[i]))
  }

  // ----- printing settings -----

  // setting_to_xmlnode()
  function PrintSetting(name: Name, v: Setting): SettingNode {
    match v
    case IntValue(n) => SettingNode(Some(name), Some("int"), Some(Print(n)))
    case StringValue(Some(text)) => SettingNode(Some(name), Some("string"), Some(text))
    case StringValue(None) => SettingNode(Some(name), None, None)
    case BoolValue(b) => SettingNode(Some(name), Some("bool"), Some(if b then "1" else "0"))
  }

  // A hash table is walked in any order.
  ghost predicate Enumerates(order: seq<Name>, keys: set<Name>) {
    Distinct(order) && forall k :: k in order <==> k in keys
  }

  function PrintTable(t: Table, order: seq<Name>): (r: seq<SettingNode>)
    requires forall n :: n in order ==> n in t
    ensures |r| == |order|
  {
    seq(|order|, i requires 0 <= i < |order| => PrintSetting(order[i], t[order[i]]))
  }

  // What the file says of the three kinds of settings.
  lemma PrintedForms()
    ensures PrintSetting(Name("port"), IntValue(-45)) == SettingNode(Some(Name("port")), Some("int"), Some("-45"))
    ensures PrintSetting(Name("server"), StringValue(Some("a.org"))) ==
            SettingNode(Some(Name("server")), Some("string"), Some("a.org"))
    ensures PrintSetting(Name("old_ssl"), BoolValue(true)) ==
            SettingNode(Some(Name("old_ssl")), Some("bool"), Some("1"))
    ensures PrintSetting(Name("old_ssl"), BoolValue(false)) ==
            SettingNode(Some(Name("old_ssl")), Some("bool"), Some("0"))
  {
    PrintExample();
  }

  // ----- parsing settings -----

  function BoolOf(data: string): bool {
    !(data != "" && data[0] == '0')
  }

  // One round of parse_settings(), on the table it fills.
  function ParseSetting(t: Table, node: SettingNode): Table {
    if node.name.None? || node.kind.None? || node.data.None? then t
    else
      var data := node.data.value;
      if node.kind.value == "string" then t[node.name.value := StringValue(Some(data))]
      else if node.kind.value == "int" then t[node.name.value := IntValue(Atoi(data))]
      else if node.kind.value == "bool" then t[node.name.value := BoolValue(BoolOf(data))]
      else t
  }

  function ParseAll(t: Table, nodes: seq<SettingNode>): Table {
    if nodes == [] then t else ParseSetting(ParseAll(t, nodes[..|nodes| - 1]), nodes[|nodes| - 1])
  }

  // What other files may hold: a truth value is false if its text starts with a 0, and a setting
  // without name, data or a type that is known is passed over.
  lemma OtherTexts(t: Table, name: Name, data: string, node: SettingNode)
    ensures var b := ParseSetting(t, SettingNode(Some(name), Some("bool"), Some(data)));
            b == t[name := BoolValue(data == "" || data[0] != '0')]
    ensures node.name.None? || node.data.None? || node.kind !in [Some("string"), Some("int"), Some("bool")] ==>
              ParseSetting(t, node) == t
  {
    assert "bool"[0] != "string"[0] && "bool"[0] != "int"[0];
  }

  // A string that is NULL or empty does not come back; everything else does.
  predicate Storable(v: Setting) {
    v.StringValue? ==> v.text.Some? && v.text.value != ""
  }

  function Survivors(t: Table): Table {
    map n | n in t && Storable(t[n]) :: t[n]
  }

  lemma ParsePrinted(t: Table, name: Name, v: Setting)
    ensures ParseSetting(t, Reread(PrintSetting(name, v))) == if Storable(v) then t[name := v] else t
  {
    match v
    case IntValue(n) => AtoiReadsPrint(n);
    case _ =>
  }

  // Whatever the order of printing, what is parsed is the table without its empty strings.
  lemma {:induction false} TableComesBack(t: Table, order: seq<Name>)
    requires Enumerates(order, t.Keys)
    ensures ParseAll(map[], RereadAll(PrintTable(t, order))) == Survivors(t)
  {
    PrefixComesBack(t, order, |order|);
    var nodes := RereadAll(PrintTable(t, order));
    assert order[..|order|] == order && nodes[..|order|] == nodes;
    assert Only(t, order) == t;
  }

  function Only(t: Table, names: seq<Name>): Table {
    map n | n in t && n in names :: t[n]
  }

  lemma {:induction false} PrefixComesBack(t: Table, order: seq<Name>, k: nat)
    requires k <= |order| && forall n :: n in order ==> n in t
    ensures ParseAll(map[], RereadAll(PrintTable(t, order))[..k]) == Survivors(Only(t, order[..k]))
  {
    if k > 0 {
      var nodes := RereadAll(PrintTable(t, order));
      PrefixComesBack(t, order, k - 1);
      assert nodes[..k][..k - 1] == nodes[..k - 1];
      assert order[..k] == order[..k - 1] + [order[k - 1]];
      ParsePrinted(Survivors(Only(t, order[..k - 1])), order[k - 1], t[order[k - 1]]);
    }
  }

  // ----- the two migrations -----

  const SERVER := Name("server")
  const CONNECTION_SECURITY := Name("connection_security")
  const OLD_SSL := Name("old_ssl")
  const REQUIRE_TLS := Name("require_tls")

  const ICQ := Name("prpl-icq")
  const JABBER := Name("prpl-jabber")

  // purple_account_get_string(); a setting of another type counts as none
  function GetString(t: Table, name: Name, otherwise: Option<string>): Option<string> {
    if name in t && t[name].StringValue? then t[name].text else otherwise
  }

  function GetBool(t: Table, name: Name, otherwise: bool): bool {
    if name in t && t[name].BoolValue? then t[name].b else otherwise
  }

  function SetString(t: Table, name: Name, text: string): Table {
    t[name := StringValue(Some(text))]
  }

  function MigrateIcqServer(protocol: Name, t: Table): Table {
    if protocol != ICQ then t
    else
      var server := GetString(t, SERVER, None);
      if server == Some("login.messaging.aol.com") || server == Some("login.oscar.aol.com") then
        SetString(t, SERVER, "login.icq.com")
      else if server == Some("slogin.oscar.aol.com") then SetString(t, SERVER, "slogin.icq.com")
      else t
  }

  function MigrateXmppEncryption(protocol: Name, t: Table): Table {
    if protocol == JABBER && GetString(t, CONNECTION_SECURITY, Some("")) == Some("") then
      SetString(t, CONNECTION_SECURITY,
                if GetBool(t, OLD_SSL, false) then "old_ssl"
                else if !GetBool(t, REQUIRE_TLS, true) then "opportunistic_tls"
                else "require_tls")
    else t
  }

  function Migrate(protocol: Name, t: Table): Table {
    MigrateXmppEncryption(protocol, MigrateIcqServer(protocol, t))
  }

  // Running the migrations again, as happens after every <settings> element, changes nothing.
  lemma MigrateIsIdempotent(protocol: Name, t: Table)
    ensures Migrate(protocol, Migrate(protocol, t)) == Migrate(protocol, t)
  {
    assert ICQ != JABBER by {
      assert |ICQ.text| != |JABBER.text|;
    }
    if protocol == ICQ {
      var t' := MigrateIcqServer(protocol, t);
      assert |"login.icq.com"| == 13 && |"slogin.icq.com"| == 14;
      assert |"login.messaging.aol.com"| == 23 && |"login.oscar.aol.com"| == 19 && |"slogin.oscar.aol.com"| == 20;
    }
  }

  const OLD_HOSTS := {"login.messaging.aol.com", "login.oscar.aol.com", "slogin.oscar.aol.com"}

  // An ICQ account leaves the old servers, a secure one for a secure one; an XMPP account gets a
  // connection security; every other setting, and every other account, is left alone.
  lemma MigrationsSettle(protocol: Name, t: Table, n: Name)
    ensures var m := Migrate(protocol, t);
            && (protocol == ICQ ==> forall h :: h in OLD_HOSTS ==> GetString(m, SERVER, None) != Some(h))
            && (protocol == ICQ && GetString(t, SERVER, None) == Some("slogin.oscar.aol.com") ==>
                  GetString(m, SERVER, None) == Some("slogin.icq.com"))
            && (protocol == JABBER ==> GetString(m, CONNECTION_SECURITY, Some("")) != Some(""))
            && ((protocol == ICQ && n == SERVER) || (protocol == JABBER && n == CONNECTION_SECURITY) ||
                ((n in m <==> n in t) && (n in t ==> m[n] == t[n])))
  {
    assert ICQ != JABBER by {
      assert |ICQ.text| != |JABBER.text|;
    }
    assert |"login.icq.com"| == 13 && |"slogin.icq.com"| == 14;
    assert |"login.messaging.aol.com"| == 23 && |"login.oscar.aol.com"| == 19 && |"slogin.oscar.aol.com"| == 20;
    assert |"old_ssl"| == 7 && |"opportunistic_tls"| == 17 && |"require_tls"| == 11;
  }

  // Where ICQ accounts go: from the two servers without encryption to the new one, from the secure
  // one to the new secure one.
  lemma IcqMigration(t: Table)
    ensures var m := Migrate(ICQ, t);
            if SERVER in t && (t[SERVER] == StringValue(Some("login.messaging.aol.com")) ||
                               t[SERVER] == StringValue(Some("login.oscar.aol.com")))
            then m == t[SERVER := StringValue(Some("login.icq.com"))]
            else if SERVER in t && t[SERVER] == StringValue(Some("slogin.oscar.aol.com"))
            then m == t[SERVER := StringValue(Some("slogin.icq.com"))]
            else m == t
  {
    assert |ICQ.text| != |JABBER.text|;
    assert |"login.oscar.aol.com"| == 19 && |"login.messaging.aol.com"| == 23 && |"slogin.oscar.aol.com"| == 20;
  }

  // What XMPP accounts get that say nothing of their security: those that used the old SSL keep
  // it, those that had switched TLS off go on without if they must, and all others require it.
  lemma XmppMigration(t: Table)
    ensures var m := Migrate(JABBER, t);
            var text := if CONNECTION_SECURITY in t && t[CONNECTION_SECURITY].StringValue?
                        then t[CONNECTION_SECURITY].text else Some("");
            var ssl := OLD_SSL in t && t[OLD_SSL] == BoolValue(true);
            var tlsOff := REQUIRE_TLS in t && t[REQUIRE_TLS] == BoolValue(false);
            && (text != Some("") ==> m == t)
            && (text == Some("") && ssl ==> m == t[CONNECTION_SECURITY := StringValue(Some("old_ssl"))])
            && (text == Some("") && !ssl && !tlsOff ==>
                  m == t[CONNECTION_SECURITY := StringValue(Some("require_tls"))])
            && (text == Some("") && !ssl && tlsOff ==>
                  m == t[CONNECTION_SECURITY := StringValue(Some("opportunistic_tls"))])
  {
    assert |ICQ.text| != |JABBER.text|;
  }

  // No account comes to do without required encryption but one whose user said so.
  lemma NeverWeakened(protocol: Name, t: Table)
    requires HasText(Migrate(protocol, t), CONNECTION_SECURITY, "opportunistic_tls")
    ensures || HasText(t, CONNECTION_SECURITY, "opportunistic_tls")
            || (protocol == JABBER && REQUIRE_TLS in t && t[REQUIRE_TLS] == BoolValue(false))
  {
    if protocol == JABBER {
      XmppMigration(t);
      assert |"old_ssl"| == 7 && |"opportunistic_tls"| == 17 && |"require_tls"| == 11;
    } else {
      MigrationsSettle(protocol, t, CONNECTION_SECURITY);
      assert |SERVER.text| != |CONNECTION_SECURITY.text|;
    }
  }

  ghost predicate HasText(t: Table, n: Name, text: string) {
    n in t && t[n] == StringValue(Some(text))
  }

  // ----- whole accounts -----

  // What parse_settings() makes of an account.
  function WithSettings(a: Account, node: SettingsNode): Account {
    match node.ui
    case None =>
      a.(core := Migrate(a.protocol, ParseAll(a.core, node.children)))
    case Some(ui) =>
      var table := ParseAll(if ui in a.ui then a.ui[ui] else map[], node.children);
      a.(core := Migrate(a.protocol, a.core),
         ui := if table == map[] && ui !in a.ui then a.ui else a.ui[ui := table])
  }

  // What is read back of an element that was written.
  function Written(node: SettingsNode): SettingsNode {
    node.(children := RereadAll(node.children))
  }

  // parse_account() goes through the <settings> elements of the file.
  function ParseFile(a: Account, nodes: seq<SettingsNode>): Account {
    if nodes == [] then a else WithSettings(ParseFile(a, nodes[..|nodes| - 1]), Written(nodes[|nodes| - 1]))
  }

  // In which order the tables of an account are walked.
  datatype Order = Order(core: seq<Name>, uis: seq<Name>, ui: map<Name, seq<Name>>)

  ghost predicate Orders(o: Order, a: Account) {
    && Enumerates(o.core, a.core.Keys)
    && Enumerates(o.uis, a.ui.Keys)
    && (forall u :: u in a.ui ==> u in o.ui && Enumerates(o.ui[u], a.ui[u].Keys))
  }

  // ui_setting_to_xmlnode(): a UI without settings is not written.
  function PrintUis(a: Account, o: Order, uis: seq<Name>): seq<SettingsNode>
    requires forall u :: u in uis ==> u in a.ui && u in o.ui && forall n :: n in o.ui[u] ==> n in a.ui[u]
  {
    if uis == [] then []
    else
      var u := uis[|uis| - 1];
      PrintUis(a, o, uis[..|uis| - 1]) +
      if a.ui[u] == map[] then [] else [SettingsNode(Some(u), PrintTable(a.ui[u], o.ui[u]))]
  }

  // The <settings> elements of _purple_account_to_xmlnode().
  ghost function PrintAccount(a: Account, o: Order): seq<SettingsNode>
    requires Orders(o, a)
  {
    (if a.core == map[] then [] else [SettingsNode(None, PrintTable(a.core, o.core))])
    + PrintUis(a, o, o.uis)
  }

  // What a saved account looks like when it is loaded.
  ghost function Reloaded(a: Account): Account {
    var untouched := a.core == map[] && forall u :: u in a.ui ==> a.ui[u] == map[];
    Account(a.protocol,
            if untouched then map[] else Migrate(a.protocol, Survivors(a.core)),
            map u | u in a.ui && Survivors(a.ui[u]) != map[] :: Survivors(a.ui[u]))
  }

  ghost function UisOf(a: Account, uis: seq<Name>): map<Name, Table> {
    map u | u in a.ui && u in uis && Survivors(a.ui[u]) != map[] :: Survivors(a.ui[u])
  }

  lemma UisOfOneMore(a: Account, uis: seq<Name>, u: Name)
    requires u in a.ui
    ensures UisOf(a, uis + [u]) ==
            if Survivors(a.ui[u]) == map[] then UisOf(a, uis) else UisOf(a, uis)[u := Survivors(a.ui[u])]
  {}

  // One more UI element.
  lemma UiComesBack(a: Account, uis: seq<Name>, u: Name, order: seq<Name>, before: Account)
    requires u in a.ui && u !in uis && Enumerates(order, a.ui[u].Keys)
    requires before.protocol == a.protocol && before.ui == UisOf(a, uis)
    ensures WithSettings(before, Written(SettingsNode(Some(u), PrintTable(a.ui[u], order)))) ==
            Account(a.protocol, Migrate(a.protocol, before.core), UisOf(a, uis + [u]))
  {
    TableComesBack(a.ui[u], order);
    UisOfOneMore(a, uis, u);
    assert u !in before.ui;
  }

  ghost predicate NoneWritten(a: Account, uis: seq<Name>) {
    forall u :: u in uis && u in a.ui ==> a.ui[u] == map[]
  }

  lemma NoneWrittenLast(a: Account, uis: seq<Name>)
    requires uis != [] && uis[|uis| - 1] in a.ui
    ensures NoneWritten(a, uis) <==> NoneWritten(a, uis[..|uis| - 1]) && a.ui[uis[|uis| - 1]] == map[]
  {
    assert uis == uis[..|uis| - 1] + [uis[|uis| - 1]];
  }

  lemma LastIsNew<T>(s: seq<T>)
    requires Distinct(s) && s != []
    ensures Distinct(s[..|s| - 1]) && s[|s| - 1] !in s[..|s| - 1] && s == s[..|s| - 1] + [s[|s| - 1]]
  {}

  // The account with the tables of these UIs, on top of the core settings of `base`.
  ghost function WithUis(a: Account, uis: seq<Name>, base: Account): Account {
    Account(a.protocol, if NoneWritten(a, uis) then base.core else Migrate(a.protocol, base.core), UisOf(a, uis))
  }

  lemma EmptyUiIsSkipped(a: Account, uis: seq<Name>, base: Account)
    requires uis != [] && uis[|uis| - 1] in a.ui && a.ui[uis[|uis| - 1]] == map[] && Distinct(uis)
    ensures WithUis(a, uis, base) == WithUis(a, uis[..|uis| - 1], base)
  {
    var u := uis[|uis| - 1];
    LastIsNew(uis);
    NoneWrittenLast(a, uis);
    UisOfOneMore(a, uis[..|uis| - 1], u);
    assert Survivors(a.ui[u]) == map[];
  }

  lemma UiIsAdded(a: Account, uis: seq<Name>, order: seq<Name>, base: Account)
    requires uis != [] && uis[|uis| - 1] in a.ui && a.ui[uis[|uis| - 1]] != map[] && Distinct(uis)
    requires Enumerates(order, a.ui[uis[|uis| - 1]].Keys)
    ensures var u := uis[|uis| - 1];
            var node := SettingsNode(Some(u), PrintTable(a.ui[u], order));
            WithSettings(WithUis(a, uis[..|uis| - 1], base), Written(node)) == WithUis(a, uis, base)
  {
    var n := |uis| - 1;
    LastIsNew(uis);
    NoneWrittenLast(a, uis);
    MigrateIsIdempotent(a.protocol, base.core);
    UiComesBack(a, uis[..n], uis[n], order, WithUis(a, uis[..n], base));
  }

  // Parsing the printed UI tables on top of the core settings.
  lemma {:induction false} UisComeBack(a: Account, o: Order, uis: seq<Name>, base: Account)
    requires Orders(o, a) && base.protocol == a.protocol && base.ui == map[]
    requires forall u :: u in uis ==> u in a.ui
    requires Distinct(uis)
    ensures ParseFile(base, PrintUis(a, o, uis)) == WithUis(a, uis, base)
  {
    if uis != [] {
      var n := |uis| - 1;
      UisComeBack(a, o, uis[..n], base);
      UisLast(a, o, uis, base);
      if a.ui[uis[n]] == map[] {
        EmptyUiIsSkipped(a, uis, base);
      } else {
        UiIsAdded(a, uis, o.ui[uis[n]], base);
      }
    }
  }

  lemma UisLast(a: Account, o: Order, uis: seq<Name>, base: Account)
    requires Orders(o, a) && uis != [] && forall u :: u in uis ==> u in a.ui
    ensures var n := |uis| - 1;
            var before := ParseFile(base, PrintUis(a, o, uis[..n]));
            ParseFile(base, PrintUis(a, o, uis)) ==
            if a.ui[uis[n]] == map[] then before
            else WithSettings(before, Written(SettingsNode(Some(uis[n]), PrintTable(a.ui[uis[n]], o.ui[uis[n]]))))
  {
    var u := uis[|uis| - 1];
    var front := PrintUis(a, o, uis[..|uis| - 1]);
    if a.ui[u] == map[] {
      assert front + [] == front;
    } else {
      var node := SettingsNode(Some(u), PrintTable(a.ui[u], o.ui[u]));
      assert (front + [node])[..|front|] == front;
    }
  }

  // parse_account() after the <settings> element of the core settings, or from nothing.
  lemma CoreFirst(a: Account, nodes: seq<SettingsNode>, first: SettingsNode)
    ensures ParseFile(a, [first] + nodes) == ParseFile(WithSettings(a, Written(first)), nodes)
  {
    if nodes == [] {
      assert [first] + nodes == [first];
      assert [first][..0] == [];
    } else {
      var n := |nodes| - 1;
      assert ([first] + nodes)[..n + 1] == [first] + nodes[..n];
      CoreFirst(a, nodes[..n], first);
    }
  }

  // Nothing but UI settings is written.
  lemma UisAloneComeBack(a: Account, o: Order)
    requires Orders(o, a) && a.core == map[]
    ensures ParseFile(Account(a.protocol, map[], map[]), PrintAccount(a, o)) ==
            Account(a.protocol, if NoneWritten(a, o.uis) then map[] else Migrate(a.protocol, map[]), UisOf(a, o.uis))
  {
    assert PrintAccount(a, o) == PrintUis(a, o, o.uis);
    UisComeBack(a, o, o.uis, Account(a.protocol, map[], map[]));
  }

  lemma CoreAndUisComeBack(a: Account, o: Order)
    requires Orders(o, a) && a.core != map[]
    ensures ParseFile(Account(a.protocol, map[], map[]), PrintAccount(a, o)) ==
            Account(a.protocol, Migrate(a.protocol, Survivors(a.core)), UisOf(a, o.uis))
  {
    var blank := Account(a.protocol, map[], map[]);
    var first := SettingsNode(None, PrintTable(a.core, o.core));
    TableComesBack(a.core, o.core);
    CoreFirst(blank, PrintUis(a, o, o.uis), first);
    MigrateIsIdempotent(a.protocol, Survivors(a.core));
    UisComeBack(a, o, o.uis, WithSettings(blank, Written(first)));
  }

  // A saved account is loaded with all its settings, whatever order they were written in, up to
  // empty strings and the migrations.
  lemma AccountComesBack(a: Account, o: Order)
    requires Orders(o, a)
    ensures ParseFile(Account(a.protocol, map[], map[]), PrintAccount(a, o)) == Reloaded(a)
  {
    assert UisOf(a, o.uis) == Reloaded(a).ui;
    assert NoneWritten(a, o.uis) <==> forall u :: u in a.ui ==> a.ui[u] == map[];
    if a.core == map[] {
      UisAloneComeBack(a, o);
      assert Survivors(a.core) == map[];
    } else {
      CoreAndUisComeBack(a, o);
    }
  }

  ghost predicate AllStorable(t: Table) {
    forall n :: n in t ==> Storable(t[n])
  }

  lemma SurvivorsOfStorable(t: Table)
    ensures AllStorable(Survivors(t))
    ensures Survivors(t) == t <==> AllStorable(t)
  {
    if Survivors(t) == t {
      forall n | n in t ensures Storable(t[n]) {
        assert n in Survivors(t);
      }
    }
  }

  lemma MigrateKeepsStorable(protocol: Name, t: Table)
    requires AllStorable(t)
    ensures AllStorable(Migrate(protocol, t))
  {}

  // The guards of the two migrations.
  predicate Migrates(protocol: Name, t: Table) {
    || (protocol == ICQ && exists h :: h in OLD_HOSTS && GetString(t, SERVER, None) == Some(h))
    || (protocol == JABBER && GetString(t, CONNECTION_SECURITY, Some("")) == Some(""))
  }

  lemma MigratesExactlyWhen(protocol: Name, t: Table)
    ensures Migrate(protocol, t) != t <==> Migrates(protocol, t)
  {
    MigrationsSettle(protocol, t, SERVER);
    if Migrate(protocol, t) != t {
      var n: Name :| (n in t <==> n !in Migrate(protocol, t)) || (n in t && t[n] != Migrate(protocol, t)[n]);
      MigrationsSettle(protocol, t, n);
    }
  }

  ghost predicate AllUisKept(a: Account) {
    forall u :: u in a.ui ==> a.ui[u] != map[] && AllStorable(a.ui[u])
  }

  lemma UisKeptExactlyWhen(a: Account)
    ensures Reloaded(a).ui == a.ui <==> AllUisKept(a)
  {
    forall u | u in a.ui ensures Survivors(a.ui[u]) == a.ui[u] <==> AllStorable(a.ui[u]) {
      SurvivorsOfStorable(a.ui[u]);
    }
    if Reloaded(a).ui == a.ui {
      forall u | u in a.ui ensures a.ui[u] != map[] && AllStorable(a.ui[u]) {
        assert u in Reloaded(a).ui;
      }
    }
  }

  lemma CoreKeptExactlyWhen(a: Account)
    requires AllUisKept(a)
    ensures Reloaded(a).core == a.core <==>
            AllStorable(a.core) && ((a.core == map[] && a.ui == map[]) || !Migrates(a.protocol, a.core))
  {
    SurvivorsOfStorable(a.core);
    MigrateKeepsStorable(a.protocol, Survivors(a.core));
    MigratesExactlyWhen(a.protocol, a.core);
    assert a.ui != map[] ==> exists u :: u in a.ui;
  }

  // A saved account is loaded as it was, in whatever order it was written, exactly when no string
  // is empty, no UI has an empty table, and no guard of a migration holds.
  lemma ComesBackExactlyWhen(a: Account, o: Order)
    requires Orders(o, a)
    ensures ParseFile(Account(a.protocol, map[], map[]), PrintAccount(a, o)) == a <==>
            && AllStorable(a.core) && AllUisKept(a)
            && ((a.core == map[] && a.ui == map[]) || !Migrates(a.protocol, a.core))
  {
    AccountComesBack(a, o);
    UisKeptExactlyWhen(a);
    if AllUisKept(a) {
      CoreKeptExactlyWhen(a);
    }
  }

  // An account with an empty string loses it.
  lemma EmptyStringExample(o: Order)
    requires Orders(o, Account(Name("prpl-irc"), map[SERVER := StringValue(Some(""))], map[]))
    ensures var a := Account(Name("prpl-irc"), map[SERVER := StringValue(Some(""))], map[]);
            ParseFile(Account(a.protocol, map[], map[]), PrintAccount(a, o)) == Account(a.protocol, map[], map[])
  {
    var a := Account(Name("prpl-irc"), map[SERVER := StringValue(Some(""))], map[]);
    AccountComesBack(a, o);
    assert SERVER in a.core && Survivors(a.core) == map[];
    assert |"prpl-irc"| == |ICQ.text| && "prpl-irc"[7] != ICQ.text[7] && |"prpl-irc"| != |JABBER.text|;
  }

  // A UI with an empty table loses it.
  lemma EmptyTableExample(o: Order)
    requires Orders(o, Account(ICQ, map[], map[Name("gtk-gaim") := map[]]))
    ensures var a := Account(ICQ, map[], map[Name("gtk-gaim") := map[]]);
            ParseFile(Account(ICQ, map[], map[]), PrintAccount(a, o)) == Account(ICQ, map[], map[])
  {
    AccountComesBack(Account(ICQ, map[], map[Name("gtk-gaim") := map[]]), o);
  }

  // An ICQ account on an old server is loaded with the new one.
  lemma MigrationExample(o: Order)
    requires Orders(o, Account(ICQ, map[SERVER := StringValue(Some("login.oscar.aol.com"))], map[]))
    ensures var a := Account(ICQ, map[SERVER := StringValue(Some("login.oscar.aol.com"))], map[]);
            ParseFile(Account(ICQ, map[], map[]), PrintAccount(a, o)) ==
            Account(ICQ, map[SERVER := StringValue(Some("login.icq.com"))], map[])
  {
    var a := Account(ICQ, map[SERVER := StringValue(Some("login.oscar.aol.com"))], map[]);
    AccountComesBack(a, o);
    assert SERVER in a.core && Survivors(a.core) == a.core;
    assert |ICQ.text| != |JABBER.text|;
  }

  // ----- the loops -----

  // g_hash_table_foreach(setting_to_xmlnode)
  method TableToXmlnode(t: Table, order: seq<Name>) returns (children: seq<SettingNode>)
    requires forall n :: n in order ==> n in t
    ensures children == PrintTable(t, order)
  {
    children := [];
    for i := 0 to |order|
      invariant children == PrintTable(t, order)[..i]
    {
      children := children + [PrintSetting(order[i], t[order[i]])];
    }
  }

  class PurpleAccount {
    const protocol: Name
    var settings: Table
    var ui_settings: map<Name, Table>

    ghost function Contents(): Account
      reads this
    {
      Account(protocol, settings, ui_settings)
    }

    // get_ui_settings_table() and a setter
    method Store(ui: Option<Name>, name: Name, value: Setting)
      modifies `settings, `ui_settings
      ensures ui.None? ==> settings == old(settings)[name := value] && ui_settings == old(ui_settings)
      ensures ui.Some? ==>
                && settings == old(settings)
                && ui_settings == old(ui_settings)[ui.value :=
                     (if ui.value in old(ui_settings) then old(ui_settings)[ui.value] else map[])[name := value]]
    {
      match ui {
        case None =>
          settings := settings[name := value];
        case Some(u) =>
          var table := if u in ui_settings then ui_settings[u] else map[];
          ui_settings := ui_settings[u := table[name := value]];
      }
    }

    ghost function TableOf(ui: Option<Name>): Table
      reads this
    {
      match ui
      case None => settings
      case Some(u) => if u in ui_settings then ui_settings[u] else map[]
    }

    ghost predicate OnlyChanged(ui: Option<Name>, before: Account)
      reads this
    {
      match ui
      case None => ui_settings == before.ui
      case Some(u) =>
        && settings == before.core
        && ui_settings == if TableOf(ui) == map[] && u !in before.ui then before.ui else before.ui[u := TableOf(ui)]
    }

    // parse_settings()
    method ParseSettings(node: SettingsNode)
      modifies this
      ensures Contents() == WithSettings(old(Contents()), node)
    {
      var children := node.children;
      ghost var start := TableOf(node.ui);
      assert children[..0] == [];
      for i := 0 to |children|
        invariant TableOf(node.ui) == ParseAll(start, children[..i])
        invariant OnlyChanged(node.ui, old(Contents()))
      {
        assert children[..i + 1][..i] == children[..i];
        ParseOne(node.ui, children[i], old(Contents()));
      }
      assert children[..|children|] == children;
      settings := MigrateIcqServer(protocol, settings);
      settings := MigrateXmppEncryption(protocol, settings);
    }

    // One child of the element: without a name, a known type or data it is ignored.
    method ParseOne(ui: Option<Name>, child: SettingNode, ghost before: Account)
      requires OnlyChanged(ui, before)
      modifies `settings, `ui_settings
      ensures TableOf(ui) == ParseSetting(old(TableOf(ui)), child)
      ensures OnlyChanged(ui, before)
    {
      if child.name.None? || child.kind.None? {
        return;
      }
      if child.kind.value != "string" && child.kind.value != "int" && child.kind.value != "bool" {
        return;
      }
      if child.data.None? {
        return;
      }
      var data := child.data.value;
      if child.kind.value == "string" {
        Store(ui, child.name.value, StringValue(Some(data)));
      } else if child.kind.value == "int" {
        Store(ui, child.name.value, IntValue(Atoi(data)));
      } else {
        Store(ui, child.name.value, BoolValue(BoolOf(data)));
      }
      assert child.name.value in TableOf(ui);
      assert ui.Some? ==> ui_settings == before.ui[ui.value := TableOf(ui)];
    }
  }
}
