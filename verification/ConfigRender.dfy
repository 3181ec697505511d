/** From a saved node configuration and the DNS keys to the text an agent runs. */
module ConfigRender {

  import opened Prelude

  datatype DnsKey = DnsKey(provider: string, id: string, secret: string)

  /** How one address family of a card obtains its address. */
  datatype Family = Family(enable: bool, getType: string, url: string, netInterface: string,
                           cmd: string, reg: string, domains: seq<string>)

  datatype Card = Card(dnsKey: string, ipv4: Family, ipv6: Family, ttl: string)

  /** The saved request; keyName and provider are the legacy top-level references. */
  datatype NodeConfig = NodeConfig(keyName: string, provider: string, cards: seq<Card>)

  datatype Item = Item(provider: string, id: string, secret: string, ipv4: Family, ipv6: Family, ttl: string)

  /** The generated text, determined by its list of items. */
  datatype Rendering = Rendering(items: seq<Item>)

  /** A config hash: absent, or SHA-256 of a rendering, idealised as collision free. */
  datatype Digest = NoHash | Sha256(of: Rendering)

  datatype RenderError = KeyMissing(name: string) | ProviderEmpty(name: string) | NoCards

  type Keys = map<string, DnsKey>

  const URLS4 := "http://ipv4.icanhazip.com,http://checkip.amazonaws.com,http://api.ipify.org"
  const URLS6 := "http://api6.ipify.org"

  function Lower(c: char): char {
    if 'A' <= c <= 'Z' then ((c as int) + 32) as char else c
  }

  function LowerAll(s: string): (r: string)
  {
    if s == "" then "" else [Lower(s[0])] + LowerAll(s[1..])
  }

  function NormGetType(s: string): string {
    var l := LowerAll(s);
    if l == "netinterface" then "netInterface" else l
  }

  /** Domain entries without a name are dropped. */
  function Named(ds: seq<string>): (r: seq<string>)
    ensures forall d :: d in r <==> d in ds && d != ""
  {
    if ds == [] then []
    else if ds[0] == "" then Named(ds[1..])
    else [ds[0]] + Named(ds[1..])
  }

  function NormFamily(f: Family, defaultUrl: string): (r: Family) {
    var gt := NormGetType(f.getType);
    var gt' := if f.enable && gt == "" then "url" else gt;
    var url' := if f.enable && gt' == "url" && f.url == "" then defaultUrl else f.url;
    var domains := Named(f.domains);
    f.(enable := f.enable && domains != [], getType := gt', url := url', domains := domains)
  }

  function RenderCard(c: Card, keys: Keys): Result<Item, RenderError> {
    if c.dnsKey !in keys then Failure(KeyMissing(c.dnsKey))
    else
      var k := keys[c.dnsKey];
      if k.provider == "" then Failure(ProviderEmpty(c.dnsKey))
      else Success(Item(k.provider, k.id, k.secret, NormFamily(c.ipv4, URLS4), NormFamily(c.ipv6, URLS6),
                        if c.ttl == "" then "300" else c.ttl))
  }

  /** The cards rendered in order; the first card that fails decides the error. */
  function RenderCards(cards: seq<Card>, keys: Keys): Result<seq<Item>, RenderError> {
    if cards == [] then Success([])
    else
      var init := RenderCards(cards[..|cards| - 1], keys);
      if init.Failure? then init
      else
        match RenderCard(cards[|cards| - 1], keys)
        case Failure(e) => Failure(e)
        case Success(item) => Success(init.value + [item])
  }

  function Render(cfg: NodeConfig, keys: Keys): Result<Rendering, RenderError> {
    if cfg.cards == [] then Failure(NoCards)
    else
      match RenderCards(cfg.cards, keys)
      case Failure(e) => Failure(e)
      case Success(items) => Success(Rendering(items))
  }

  /** renderDDNSConfig: the loop over the cards. */
  method RenderConfig(cfg: NodeConfig, keys: Keys) returns (r: Result<Rendering, RenderError>)
    ensures r == Render(cfg, keys)
  {
    if cfg.cards == [] { return Failure(NoCards); }
    var items := [];
    var i := 0;
    while i < |cfg.cards|
      invariant 0 <= i <= |cfg.cards|
      invariant RenderCards(cfg.cards[..i], keys) == Success(items)
    {
      ghost var next := cfg.cards[..i + 1];
      assert next[..|next| - 1] == cfg.cards[..i] && next[|next| - 1] == cfg.cards[i];
      var item := RenderCard(cfg.cards[i], keys);
      if item.Failure? {
        FailurePropagates(cfg.cards, keys, i + 1);
        return Failure(item.error);
      }
      items := items + [item.value];
      i := i + 1;
    }
    assert cfg.cards[..|cfg.cards|] == cfg.cards;
    r := Success(Rendering(items));
  }

  predicate Renderable(c: Card, keys: Keys) {
    c.dnsKey in keys && keys[c.dnsKey].provider != ""
  }

  predicate AllRenderable(cards: seq<Card>, keys: Keys) {
    forall i :: 0 <= i < |cards| ==> Renderable(cards[i], keys)
  }

  /** A configuration renders exactly when it has cards and each names a usable key. */
  lemma RendersIff(cfg: NodeConfig, keys: Keys)
    ensures Render(cfg, keys).Success? <==> cfg.cards != [] && AllRenderable(cfg.cards, keys)
  {
    CardsRenderIff(cfg.cards, keys);
  }

  lemma {:induction false} CardsRenderIff(cards: seq<Card>, keys: Keys)
    ensures RenderCards(cards, keys).Success? <==> AllRenderable(cards, keys)
  {
    if cards != [] {
      var n := |cards| - 1;
      var init := cards[..n];
      CardsRenderIff(init, keys);
      assert cards == init + [cards[n]];
      assert AllRenderable(cards, keys) <==> AllRenderable(init, keys) && Renderable(cards[n], keys);
    }
  }

  /** Every card of a rendered configuration yields its own item, in order. */
  lemma {:induction false} ItemsInOrder(cards: seq<Card>, keys: Keys, i: nat)
    requires i < |cards| && RenderCards(cards, keys).Success?
    ensures |RenderCards(cards, keys).value| == |cards|
    ensures RenderCard(cards[i], keys) == Success(RenderCards(cards, keys).value[i])
  {
    hide RenderCard;
    var n := |cards| - 1;
    var init := cards[..n];
    var items := RenderCards(init, keys).value;
    if n > 0 {
      ItemsInOrder(init, keys, if i < n then i else 0);
    }
    assert RenderCards(cards, keys).value == items + [RenderCard(cards[n], keys).value];
  }

  // ---------------------------------------------------------------- what an item says

  lemma {:induction false} NamedOfConcat(a: seq<string>, b: seq<string>)
    ensures Named(a + b) == Named(a) + Named(b)
  {
    if a == [] {
      assert a + b == b;
    } else {
      assert (a + b)[1..] == a[1..] + b;
      NamedOfConcat(a[1..], b);
    }
  }

  /** The named entries are what is left after dropping the empty ones: nothing else is dropped, and the order
      stays. */
  lemma NamedExactly(a: seq<string>, d: string, b: seq<string>)
    ensures Named([]) == []
    ensures Named(a + [d] + b) == Named(a) + (if d == "" then [] else [d]) + Named(b)
  {
    NamedOfConcat(a + [d], b);
    NamedOfConcat(a, [d]);
    assert Named([d]) == if d == "" then [] else [d];
  }

  lemma {:induction false} LowerAllAt(s: string)
    ensures |LowerAll(s)| == |s|
    ensures forall i :: 0 <= i < |s| ==>
              LowerAll(s)[i] == if 'A' <= s[i] <= 'Z' then ((s[i] as int) + 32) as char else s[i]
  {
    if s != "" { LowerAllAt(s[1..]); }
  }

  /** What becomes of one address family of a card. */
  predicate FamilySays(r: Family, f: Family, defaultUrl: string) {
    var gt := if LowerAll(f.getType) == "netinterface" then "netInterface" else LowerAll(f.getType);
    (r.enable <==> f.enable && exists d :: d in f.domains && d != "")
    && r.domains == Named(f.domains)
    && r.getType == (if gt == "" && f.enable then "url" else gt)
    && r.url == (if f.url == "" && f.enable && (gt == "" || gt == "url") then defaultUrl else f.url)
    && r.netInterface == f.netInterface && r.cmd == f.cmd && r.reg == f.reg
  }

  lemma NormFamilySays(f: Family, defaultUrl: string)
    ensures FamilySays(NormFamily(f, defaultUrl), f, defaultUrl)
  {
    var named := Named(f.domains);
    if named != [] { assert named[0] in named; }
  }

  /** Every item of a rendered configuration, by its card and the key the card names: the credentials of that
      key, the card's TTL or 300 seconds, and each family with the services of its own kind to ask. */
  lemma ItemsSay(cfg: NodeConfig, keys: Keys, i: nat)
    requires Render(cfg, keys).Success? && i < |cfg.cards|
    ensures |Render(cfg, keys).value.items| == |cfg.cards| && cfg.cards[i].dnsKey in keys
    ensures var c, k, item := cfg.cards[i], keys[cfg.cards[i].dnsKey], Render(cfg, keys).value.items[i];
            item.provider == k.provider != "" && item.id == k.id && item.secret == k.secret
            && item.ttl == (if c.ttl == "" then "300" else c.ttl)
            && FamilySays(item.ipv4, c.ipv4,
                          "http://ipv4.icanhazip.com,http://checkip.amazonaws.com,http://api.ipify.org")
            && FamilySays(item.ipv6, c.ipv6, "http://api6.ipify.org")
  {
    hide FamilySays, NormFamily;
    ItemsInOrder(cfg.cards, keys, i);
    NormFamilySays(cfg.cards[i].ipv4, URLS4);
    NormFamilySays(cfg.cards[i].ipv6, URLS6);
  }

  /** And the error, when there is one: that of the first card that cannot be rendered. */
  lemma FirstFailureDecides(cards: seq<Card>, keys: Keys, i: nat)
    requires i < |cards| && AllRenderable(cards[..i], keys) && !Renderable(cards[i], keys)
    ensures RenderCards(cards, keys)
            == Failure(if cards[i].dnsKey in keys then ProviderEmpty(cards[i].dnsKey) else KeyMissing(cards[i].dnsKey))
  {
    CardsRenderIff(cards[..i], keys);
    var next := cards[..i + 1];
    assert next[..i] == cards[..i];
    FailurePropagates(cards, keys, i + 1);
  }

  /** A failing prefix fails the whole list, with the same error. */
  lemma {:induction false} FailurePropagates(cards: seq<Card>, keys: Keys, n: nat)
    requires n <= |cards| && RenderCards(cards[..n], keys).Failure?
    ensures RenderCards(cards, keys) == RenderCards(cards[..n], keys)
    decreases |cards| - n
  {
    if n == |cards| {
      assert cards[..n] == cards;
    } else {
      assert cards[..n + 1][..n] == cards[..n];
      FailurePropagates(cards, keys, n + 1);
    }
  }

  /** nodeUsesDNSKey: the test that decides which nodes a key edit invalidates. */
  predicate UsesKey(cfg: NodeConfig, name: string, provider: string) {
    cfg.keyName == name || (provider != "" && cfg.provider == provider)
    || exists c :: c in cfg.cards && c.dnsKey == name
  }

  function WithKey(keys: Keys, name: string, k: Option<DnsKey>): Keys {
    match k
    case Some(v) => keys[name := v]
    case None => keys - {name}
  }

  /** Frame: changing a key that no card names cannot change what the cards render to. */
  lemma {:induction false} CardsFrame(cards: seq<Card>, keys: Keys, name: string, k: Option<DnsKey>)
    requires forall c :: c in cards ==> c.dnsKey != name
    ensures RenderCards(cards, WithKey(keys, name, k)) == RenderCards(cards, keys)
  {
    if cards != [] {
      CardsFrame(cards[..|cards| - 1], keys, name, k);
      assert cards[|cards| - 1] in cards;
    }
  }

  lemma RenderFrame(cfg: NodeConfig, keys: Keys, name: string, provider: string, k: Option<DnsKey>)
    requires !UsesKey(cfg, name, provider)
    ensures Render(cfg, WithKey(keys, name, k)) == Render(cfg, keys)
  {
    CardsFrame(cfg.cards, keys, name, k);
  }

  /** What the agent should be running: the hash of the current rendering, if there is one. */
  function Current(cfg: Option<NodeConfig>, keys: Keys): Digest {
    if cfg.Some? && Render(cfg.value, keys).Success? then Sha256(Render(cfg.value, keys).value) else NoHash
  }
}
