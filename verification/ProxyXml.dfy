/** The <proxy> element of an account: proxy_settings_to_xmlnode() of libpurple/account.c and
    parse_proxy_info() of libpurple/accounts.c. */
module ProxyXml {
  import opened Basics
  import opened Decimal
  import opened AccountXml

  datatype ProxyType = UseGlobal | NoProxy | Http | Socks4 | Socks5 | Tor | UseEnvvar | OtherType

  datatype ProxyInfo = ProxyInfo(
    kind: ProxyType, host: Option<string>, port: int32, username: Option<string>, password: Option<string>)

  // The data of the element's children, where there are such children.
  datatype ProxyNode = ProxyNode(
    kind: Option<string>, host: Option<string>, port: Option<string>,
    username: Option<string>, password: Option<string>)

  function TypeText(t: ProxyType): string {
    match t
    case UseGlobal => "global"
    case NoProxy => "none"
    case Http => "http"
    case Socks4 => "socks4"
    case Socks5 => "socks5"
    case Tor => "tor"
    case UseEnvvar => "envvar"
    case OtherType => "unknown"
  }

  function PrintProxy(p: ProxyInfo): ProxyNode {
    ProxyNode(Some(TypeText(p.kind)), p.host,
              if p.port != 0 then Some(Print(p.port)) else None,
              p.username, p.password)
  }

  function RereadProxy(n: ProxyNode): ProxyNode {
    ProxyNode(NonEmpty(n.kind), NonEmpty(n.host), NonEmpty(n.port), NonEmpty(n.username), NonEmpty(n.password))
  }

  const DEFAULT_PROXY := ProxyInfo(UseGlobal, None, 0, None, None)

  // Starting from the global settings; an unknown type leaves them, nothing set is no proxy info.
  function ParseProxy(n: ProxyNode): Option<ProxyInfo> {
    var kind :=
      if n.kind == Some("none") then NoProxy
      else if n.kind == Some("http") then Http
      else if n.kind == Some("socks4") then Socks4
      else if n.kind == Some("socks5") then Socks5
      else if n.kind == Some("tor") then Tor
      else if n.kind == Some("envvar") then UseEnvvar
      else UseGlobal;
    var p := ProxyInfo(kind, n.host, if n.port.Some? then Atoi(n.port.value) else 0, n.username, n.password);
    if p == DEFAULT_PROXY then None else Some(p)
  }

  lemma TypesDiffer()
    ensures "none" != "http" && "none" != "socks4" && "none" != "socks5" && "none" != "tor" && "none" != "envvar"
    ensures "http" != "socks4" && "http" != "socks5" && "http" != "tor" && "http" != "envvar"
    ensures "socks4" != "socks5" && "socks4" != "tor" && "socks4" != "envvar"
    ensures "socks5" != "tor" && "socks5" != "envvar" && "tor" != "envvar"
    ensures forall t: ProxyType {:trigger TypeText(t)} :: t.UseGlobal? || t.OtherType? ==>
              TypeText(t) != "none" && TypeText(t) != "http" && TypeText(t) != "socks4" &&
              TypeText(t) != "socks5" && TypeText(t) != "tor" && TypeText(t) != "envvar"
  {
    assert "none"[0] != "http"[0] && "socks4"[5] != "socks5"[5];
    assert "socks4"[0] != "envvar"[0] && "socks5"[0] != "envvar"[0];
    assert "global"[0] == 'g' && "unknown"[0] == 'u';
  }

  // The names of the types in the file, and what a file without the element's parts means.
  lemma TypeNames(host: string)
    ensures forall t: ProxyType :: t in NAMES ==>
              ParseProxy(ProxyNode(Some(NAMES[t]), Some(host), None, None, None)) ==
              Some(ProxyInfo(t, Some(host), 0, None, None))
    ensures ParseProxy(ProxyNode(None, None, None, None, None)) == None
  {
    TypesDiffer();
  }

  const NAMES: map<ProxyType, string> := map[
    UseGlobal := "global", NoProxy := "none", Http := "http", Socks4 := "socks4", Socks5 := "socks5",
    Tor := "tor", UseEnvvar := "envvar"]

  predicate Text(data: Option<string>) {
    data != Some("")
  }

  lemma ProxyFields(p: ProxyInfo)
    ensures var n := RereadProxy(PrintProxy(p));
            && (if n.port.Some? then Atoi(n.port.value) else 0) == p.port
            && (n.host == p.host <==> Text(p.host))
            && (n.username == p.username <==> Text(p.username))
            && (n.password == p.password <==> Text(p.password))
  {
    AtoiReadsPrint(p.port);
  }

  // Proxy settings are loaded as they were saved exactly when their type has a name, no text is
  // empty, and something is set at all.
  lemma ProxyComesBackExactlyWhen(p: ProxyInfo)
    ensures ParseProxy(RereadProxy(PrintProxy(p))) == Some(p) <==>
            !p.kind.OtherType? && Text(p.host) && Text(p.username) && Text(p.password) && p != DEFAULT_PROXY
    ensures ParseProxy(RereadProxy(PrintProxy(DEFAULT_PROXY))) == None
  {
    TypesDiffer();
    ProxyFields(p);
    assert TypeText(p.kind) != "";
  }

  // A proxy of a type without a name comes back as the global one, with its host.
  lemma UnnamedTypeExample()
    ensures var p := ProxyInfo(OtherType, Some("h"), 0, None, None);
            ParseProxy(RereadProxy(PrintProxy(p))) == Some(p.(kind := UseGlobal))
  {
    TypesDiffer();
    assert TypeText(OtherType) == "unknown";
  }
}
