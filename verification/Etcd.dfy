/** The etcd config store: one key per resource under a prefix, read back as a gateway configuration. */
module Etcd {
  import opened Wrappers
  import opened Bytes
  import opened Splitting
  import opened Policy
  import opened GatewayState
  import Ascii
  import Utf8

  const SLASH: Byte := 0x2F
  const ROUTES: Str := [0x72, 0x6F, 0x75, 0x74, 0x65, 0x73]
  const POLICIES: Str := [0x70, 0x6F, 0x6C, 0x69, 0x63, 0x69, 0x65, 0x73]
  const CONSUMERS: Str := [0x63, 0x6F, 0x6E, 0x73, 0x75, 0x6D, 0x65, 0x72, 0x73]

  type Entry = (Str, Str)
  /** How one kind of resource is named and written. */
  datatype Kind<!R> = Kind(category: Str, name: R -> string, encode: R -> Str, decode: Str -> Option<R>)

  /** Resource serialization, seen only as something that reads back what it wrote. */
  datatype Codec = Codec(
    encodeRoute: RouteConfig -> Str, decodeRoute: Str -> Option<RouteConfig>,
    encodePolicy: PolicyConfig -> Str, decodePolicy: Str -> Option<PolicyConfig>,
    encodeConsumer: ConsumerConfig -> Str, decodeConsumer: Str -> Option<ConsumerConfig>)
  {
    function Routes(): Kind<RouteConfig> {
      Kind(ROUTES, (r: RouteConfig) => r.name, encodeRoute, decodeRoute)
    }

    function Policies(): Kind<PolicyConfig> {
      Kind(POLICIES, (p: PolicyConfig) => p.name, encodePolicy, decodePolicy)
    }

    function Consumers(): Kind<ConsumerConfig> {
      Kind(CONSUMERS, (c: ConsumerConfig) => c.name, encodeConsumer, decodeConsumer)
    }

    ghost predicate ReadsBack() {
      && (forall r :: decodeRoute(encodeRoute(r)) == Some(r))
      && (forall p :: decodePolicy(encodePolicy(p)) == Some(p))
      && (forall c :: decodeConsumer(encodeConsumer(c)) == Some(c))
    }
  }

  // ---- Keys ----

  /** Everything the store owns starts with this. */
  function Dir(prefix: Str): Str { prefix + [SLASH] }

  function KeyOf(prefix: Str, category: Str, name: string): Str {
    Dir(prefix) + (category + [SLASH] + Utf8.OfString(name))
  }

  /** The category of a key of the store, if it has the shape of one. */
  function Category(prefix: Str, key: Str): Option<Str> {
    if Dir(prefix) <= key then
      match SplitOnce(key[|Dir(prefix)|..], SLASH)
      case None => None
      case Some(p) => Some(p.0)
    else None
  }

  lemma KeyCategory(prefix: Str, category: Str, name: string)
    requires SLASH !in category
    ensures var key := KeyOf(prefix, category, name);
            Dir(prefix) <= key && Category(prefix, key) == Some(category)
  {
    var key, rest := KeyOf(prefix, category, name), category + [SLASH] + Utf8.OfString(name);
    assert key[|Dir(prefix)|..] == rest;
    SplitOnceAtFirst(category, Utf8.OfString(name), SLASH);
  }

  lemma CategoriesSpelled()
    ensures ROUTES == Ascii.Codes("routes") && POLICIES == Ascii.Codes("policies")
    ensures CONSUMERS == Ascii.Codes("consumers")
  {
  }

  /** The key layout: `<prefix>/routes/<name>`, `<prefix>/policies/<name>` and `<prefix>/consumers/<name>`. */
  lemma KeysSpelled(prefix: Str, name: string, codec: Codec)
    ensures KeyOf(prefix, codec.Routes().category, name)
         == prefix + Ascii.Codes("/routes/") + Utf8.OfString(name)
    ensures KeyOf(prefix, codec.Policies().category, name)
         == prefix + Ascii.Codes("/policies/") + Utf8.OfString(name)
    ensures KeyOf(prefix, codec.Consumers().category, name)
         == prefix + Ascii.Codes("/consumers/") + Utf8.OfString(name)
  {
    CategoriesSpelled();
    var n := Utf8.OfString(name);
    SlashedKey(prefix, "routes", "/routes/", n);
    SlashedKey(prefix, "policies", "/policies/", n);
    SlashedKey(prefix, "consumers", "/consumers/", n);
  }

  lemma SlashedKey(prefix: Str, word: string, slashed: string, rest: Str)
    requires slashed == "/" + word + "/" && forall i | 0 <= i < |word| :: word[i] as int < 128
    ensures forall i | 0 <= i < |slashed| :: slashed[i] as int < 128
    ensures Dir(prefix) + (Ascii.Codes(word) + [SLASH] + rest) == prefix + Ascii.Codes(slashed) + rest
  {
    assert Ascii.Codes(slashed) == [SLASH] + Ascii.Codes(word) + [SLASH];
  }

  /** A key belongs to a category iff it continues the prefix with a slash, the category and another slash. */
  lemma CategoryIff(prefix: Str, key: Str, category: Str)
    ensures Category(prefix, key) == Some(category) <==>
              0x2F !in category && prefix + [0x2F] + category + [0x2F] <= key
  {
    var dir := Dir(prefix);
    if dir <= key {
      var rest := key[|dir|..];
      SplitOnceParts(rest, SLASH);
      if Category(prefix, key) == Some(category) {
        assert key == dir + rest;
      } else if 0x2F !in category && dir + category + [0x2F] <= key {
        var name := key[|dir| + |category| + 1..];
        assert rest == category + [SLASH] + name;
        SplitOnceAtFirst(category, name, SLASH);
      }
    }
  }

  /** Keys of one category sort as their names, and tell names apart. */
  lemma KeyOrder(prefix: Str, category: Str, a: string, b: string)
    ensures LexLess(KeyOf(prefix, category, a), KeyOf(prefix, category, b))
         == LexLess(Utf8.OfString(a), Utf8.OfString(b))
    ensures KeyOf(prefix, category, a) == KeyOf(prefix, category, b) ==> a == b
  {
    var p := Dir(prefix) + (category + [SLASH]);
    var x, y := Utf8.OfString(a), Utf8.OfString(b);
    LexPrefix(p, x, y);
    assert KeyOf(prefix, category, a) == p + x && KeyOf(prefix, category, b) == p + y;
    if p + x == p + y {
      assert x == (p + x)[|p|..] && y == (p + y)[|p|..];
      Utf8.OfStringInjective(a, b);
    }
  }

  // ---- Listing a range ----

  lemma LeqTransitive(a: Str, b: Str, c: Str)
    requires LexLeq(a, b) && LexLeq(b, c)
    ensures LexLeq(a, c)
  {
    if a != b && b != c {
      LexTransitive(a, b, c);
    }
  }

  lemma {:induction false} HasLeast(ks: set<Str>) returns (least: Str)
    requires ks != {}
    ensures least in ks && forall k | k in ks :: LexLeq(least, k)
    decreases ks
  {
    var x :| x in ks;
    least := x;
    var rest := ks - {x};
    if rest != {} {
      var other := HasLeast(rest);
      LexTotal(x, other);
      if LexLess(other, x) {
        least := other;
      } else {
        forall k | k in rest ensures LexLeq(x, k) {
          LeqTransitive(x, other, k);
        }
      }
    }
    assert forall k | k in ks :: k == x || k in rest;
  }

  predicate StrictlySorted(s: seq<Str>) {
    forall i, j | 0 <= i < j < |s| :: LexLess(s[i], s[j])
  }

  /** The keys of a set in the store's order. */
  ghost predicate Lists(s: seq<Str>, ks: set<Str>) {
    StrictlySorted(s) && forall k :: k in s <==> k in ks
  }

  ghost function SortedKeys(ks: set<Str>): (r: seq<Str>)
    decreases ks
  {
    if ks == {} then []
    else
      var k := Least(ks);
      [k] + SortedKeys(ks - {k})
  }

  ghost function Least(ks: set<Str>): (k: Str)
    requires ks != {}
    ensures k in ks && forall j | j in ks :: LexLeq(k, j)
  {
    assert exists k :: k in ks && forall j | j in ks :: LexLeq(k, j) by {
      var k := HasLeast(ks);
    }
    var k :| k in ks && forall j | j in ks :: LexLeq(k, j);
    k
  }

  lemma {:induction false} SortedKeysLists(ks: set<Str>)
    ensures Lists(SortedKeys(ks), ks)
    decreases ks
  {
    if ks != {} {
      var k := Least(ks);
      var rest := SortedKeys(ks - {k});
      SortedKeysLists(ks - {k});
      forall i | 0 <= i < |rest| ensures LexLess(k, rest[i]) {
        assert rest[i] in rest;
      }
    }
  }

  /** A set has one strictly sorted listing. */
  lemma {:induction false} ListsUnique(a: seq<Str>, b: seq<Str>, ks: set<Str>)
    requires Lists(a, ks) && Lists(b, ks)
    ensures a == b
    decreases |a|
  {
    EmptyList(a, ks);
    EmptyList(b, ks);
    if a != [] {
      assert a[0] in a && b[0] in b;
      HeadsAgree(a, b);
      TailOf(a, ks);
      TailOf(b, ks);
      ListsUnique(a[1..], b[1..], ks - {a[0]});
      assert a == [a[0]] + a[1..] && b == [b[0]] + b[1..];
    }
  }

  lemma EmptyList(a: seq<Str>, ks: set<Str>)
    requires Lists(a, ks)
    ensures a == [] <==> ks == {}
  {
    if a != [] {
      assert a[0] in a;
    }
  }

  lemma HeadsAgree(a: seq<Str>, b: seq<Str>)
    requires a != [] && b != [] && a[0] in b && b[0] in a && StrictlySorted(a) && StrictlySorted(b)
    ensures a[0] == b[0]
  {
    if a[0] != b[0] {
      LexAsymmetric(a[0], b[0]);
    }
  }

  lemma TailOf(a: seq<Str>, ks: set<Str>)
    requires a != [] && Lists(a, ks)
    ensures Lists(a[1..], ks - {a[0]})
  {
    LexIrreflexive(a[0]);
    assert forall k :: k in a <==> k == a[0] || k in a[1..];
  }

  function Under(kv: Keyspace, dir: Str): set<Str> { set k | k in kv && dir <= k }

  function Pairs(ks: seq<Str>, kv: Keyspace): (r: seq<Entry>)
    requires forall k | k in ks :: k in kv
    ensures |r| == |ks|
    ensures forall i | 0 <= i < |ks| :: ks[i] in kv && r[i] == (ks[i], kv[ks[i]])
  {
    if ks == [] then [] else
      assert ks[0] in kv;
      [(ks[0], kv[ks[0]])] + Pairs(ks[1..], kv)
  }

  /** What the server answers for a prefix: the pairs under it, in key order. */
  ghost function Listing(kv: Keyspace, dir: Str): seq<Entry> {
    SortedKeysLists(Under(kv, dir));
    Pairs(SortedKeys(Under(kv, dir)), kv)
  }

  // ---- Reading a gateway from a listing ----

  datatype LoadError = BadKey | BadRoute(key: Str) | BadPolicy(key: Str) | BadConsumer(key: Str)

  const EMPTY_GATEWAY := GatewayConfig([], [], [])

  /** One key-value pair: resources go to their list, unknown shapes are skipped, bad values are errors. */
  function AddEntry(prefix: Str, gw: GatewayConfig, kv: Entry, codec: Codec): Result<GatewayConfig, LoadError> {
    var category := Category(prefix, kv.0);
    if category == Some(ROUTES) then
      match codec.decodeRoute(kv.1)
      case None => Err(BadRoute(kv.0))
      case Some(r) => Ok(gw.(routes := gw.routes + [r]))
    else if category == Some(POLICIES) then
      match codec.decodePolicy(kv.1)
      case None => Err(BadPolicy(kv.0))
      case Some(p) => Ok(gw.(policies := gw.policies + [p]))
    else if category == Some(CONSUMERS) then
      match codec.decodeConsumer(kv.1)
      case None => Err(BadConsumer(kv.0))
      case Some(c) => Ok(gw.(consumers := gw.consumers + [c]))
    else Ok(gw)
  }

  function Assemble(prefix: Str, kvs: seq<Entry>, codec: Codec): Result<GatewayConfig, LoadError> {
    if kvs == [] then Ok(EMPTY_GATEWAY)
    else match Assemble(prefix, kvs[..|kvs| - 1], codec)
      case Err(e) => Err(e)
      case Ok(gw) => AddEntry(prefix, gw, kvs[|kvs| - 1], codec)
  }

  /** What is wrong with one pair: its key is that of a resource that its value does not decode to. */
  ghost predicate Blames(prefix: Str, kv: Entry, codec: Codec, e: LoadError) {
    match e
    case BadKey => false
    case BadRoute(key) => key == kv.0 && Category(prefix, key) == Some(ROUTES) && codec.decodeRoute(kv.1) == None
    case BadPolicy(key) => key == kv.0 && Category(prefix, key) == Some(POLICIES) && codec.decodePolicy(kv.1) == None
    case BadConsumer(key) =>
      key == kv.0 && Category(prefix, key) == Some(CONSUMERS) && codec.decodeConsumer(kv.1) == None
  }

  /** A failed load names the first pair that does not decode, and what kind of resource it should have been. */
  lemma {:induction false} AssembleBlames(prefix: Str, kvs: seq<Entry>, codec: Codec)
    requires Assemble(prefix, kvs, codec).Err?
    ensures exists i | 0 <= i < |kvs| ::
              Assemble(prefix, kvs[..i], codec).Ok? && Blames(prefix, kvs[i], codec, Assemble(prefix, kvs, codec).error)
  {
    var n := |kvs| - 1;
    if Assemble(prefix, kvs[..n], codec).Err? {
      AssembleBlames(prefix, kvs[..n], codec);
      var i :| 0 <= i < n && Assemble(prefix, kvs[..n][..i], codec).Ok?
               && Blames(prefix, kvs[..n][i], codec, Assemble(prefix, kvs[..n], codec).error);
      assert kvs[..n][..i] == kvs[..i];
    } else {
      assert Assemble(prefix, kvs[..n], codec).Ok?;
    }
  }

  lemma {:induction false} AssembleErrorIsFirst(prefix: Str, kvs: seq<Entry>, k: nat, codec: Codec)
    requires k <= |kvs| && Assemble(prefix, kvs[..k], codec).Err?
    ensures Assemble(prefix, kvs, codec) == Assemble(prefix, kvs[..k], codec)
    decreases |kvs|
  {
    if k == |kvs| {
      assert kvs[..k] == kvs;
    } else {
      assert kvs[..|kvs| - 1][..k] == kvs[..k];
      AssembleErrorIsFirst(prefix, kvs[..|kvs| - 1], k, codec);
    }
  }

  method GatewayFromKvs(prefix: Str, kvs: seq<Entry>, codec: Codec) returns (r: Result<GatewayConfig, LoadError>)
    ensures r == Assemble(prefix, kvs, codec)
  {
    var gw := EMPTY_GATEWAY;
    assert kvs[..|kvs|] == kvs;
    for i := 0 to |kvs|
      invariant Assemble(prefix, kvs[..i], codec) == Ok(gw)
    {
      assert kvs[..i + 1][..i] == kvs[..i];
      var next := AddEntry(prefix, gw, kvs[i], codec);
      if next.Err? {
        AssembleErrorIsFirst(prefix, kvs, i + 1, codec);
        return next;
      }
      gw := next.value;
    }
    r := Ok(gw);
  }

  predicate KeysAreUtf8(kvs: seq<Entry>) {
    forall i | 0 <= i < |kvs| :: Utf8.IsUtf8(kvs[i].0)
  }

  /** `load_all`: range the prefix, then assemble. */
  ghost function Loaded(kv: Keyspace, prefix: Str, codec: Codec): Result<GatewayConfig, LoadError> {
    var kvs := Listing(kv, Dir(prefix));
    if !KeysAreUtf8(kvs) then Err(BadKey) else Assemble(prefix, kvs, codec)
  }

  // ---- Writing a gateway ----

  function KindEntries<R>(prefix: Str, kind: Kind<R>, rs: seq<R>): (es: seq<Entry>)
    ensures |es| == |rs|
    ensures forall i | 0 <= i < |rs| :: es[i] == (KeyOf(prefix, kind.category, kind.name(rs[i])), kind.encode(rs[i]))
  {
    if rs == [] then []
    else [(KeyOf(prefix, kind.category, kind.name(rs[0])), kind.encode(rs[0]))] + KindEntries(prefix, kind, rs[1..])
  }

  /** Everything `write_all` and `commit` put, in order. */
  function Entries(prefix: Str, gw: GatewayConfig, codec: Codec): seq<Entry> {
    KindEntries(prefix, codec.Routes(), gw.routes)
    + KindEntries(prefix, codec.Policies(), gw.policies)
    + KindEntries(prefix, codec.Consumers(), gw.consumers)
  }

  /** The puts in full: routes, then policies, then consumers, each list in its order. */
  lemma EntriesSpelled(prefix: Str, gw: GatewayConfig, codec: Codec)
    ensures var es, r, p := Entries(prefix, gw, codec), |gw.routes|, |gw.policies|;
            && |es| == r + p + |gw.consumers|
            && (forall i | 0 <= i < r ::
                  es[i] == (prefix + Ascii.Codes("/routes/") + Utf8.OfString(gw.routes[i].name),
                            codec.encodeRoute(gw.routes[i])))
            && (forall i | 0 <= i < p ::
                  es[r + i] == (prefix + Ascii.Codes("/policies/") + Utf8.OfString(gw.policies[i].name),
                                codec.encodePolicy(gw.policies[i])))
            && (forall i | 0 <= i < |gw.consumers| ::
                  es[r + p + i] == (prefix + Ascii.Codes("/consumers/") + Utf8.OfString(gw.consumers[i].name),
                                    codec.encodeConsumer(gw.consumers[i])))
  {
    forall name: string { KeysSpelled(prefix, name, codec); }
  }

  /** A list of puts as a map: the last put of a key wins. */
  function MapOf(es: seq<Entry>): Keyspace {
    if es == [] then map[] else MapOf(es[..|es| - 1])[es[|es| - 1].0 := es[|es| - 1].1]
  }

  ghost predicate Puts(es: seq<Entry>, k: Str) {
    exists i :: 0 <= i < |es| && es[i].0 == k
  }

  lemma {:induction false} MapOfKeys(es: seq<Entry>, k: Str)
    ensures k in MapOf(es) <==> Puts(es, k)
  {
    if es != [] {
      var init, last := es[..|es| - 1], es[|es| - 1];
      MapOfKeys(init, k);
      assert forall i :: 0 <= i < |init| ==> init[i] == es[i];
      if Puts(es, k) && last.0 != k {
        var i :| 0 <= i < |es| && es[i].0 == k;
        assert init[i].0 == k;
      }
    }
  }

  /** The keyspace a completed commit leaves: outside the prefix as it was, under it exactly the puts. */
  function Reconciled(kv: Keyspace, dir: Str, es: seq<Entry>): Keyspace {
    (kv - Under(kv, dir)) + MapOf(es)
  }

  lemma {:induction false} MapOfConcat(a: seq<Entry>, b: seq<Entry>)
    ensures MapOf(a + b) == MapOf(a) + MapOf(b)
    decreases |b|
  {
    if b == [] {
      assert a + b == a;
    } else {
      assert (a + b)[..|a + b| - 1] == a + b[..|b| - 1];
      MapOfConcat(a, b[..|b| - 1]);
    }
  }

  lemma {:induction false} MapOfValue(es: seq<Entry>, k: Str)
    requires k in MapOf(es)
    ensures (k, MapOf(es)[k]) in es
    decreases |es|
  {
    var last := es[|es| - 1];
    if last.0 != k {
      MapOfValue(es[..|es| - 1], k);
    } else {
      assert (k, MapOf(es)[k]) == last;
    }
  }

  // ---- What one kind of resource leaves in the keyspace ----

  /** The last resource of a name: its put is the one that stays. */
  function LastOf<R>(kind: Kind<R>, rs: seq<R>, name: string): Option<R> {
    if rs == [] then None
    else if kind.name(rs[|rs| - 1]) == name then Some(rs[|rs| - 1])
    else LastOf(kind, rs[..|rs| - 1], name)
  }

  ghost predicate HoldsKind<R>(prefix: Str, kind: Kind<R>, rs: seq<R>, m: Keyspace) {
    && (forall name: string :: KeyOf(prefix, kind.category, name) in m <==> LastOf(kind, rs, name).Some?)
    && (forall name: string | LastOf(kind, rs, name).Some? ::
          m[KeyOf(prefix, kind.category, name)] == kind.encode(LastOf(kind, rs, name).value))
    && (forall k | k in m && Category(prefix, k) == Some(kind.category) ::
          exists name: string :: k == KeyOf(prefix, kind.category, name))
  }

  /** One more put of a kind: its own key changes, and no other name's. */
  lemma PutHoldsKind<R>(prefix: Str, kind: Kind<R>, init: seq<R>, last: R, m: Keyspace)
    requires HoldsKind(prefix, kind, init, m)
    ensures HoldsKind(prefix, kind, init + [last],
                      m[KeyOf(prefix, kind.category, kind.name(last)) := kind.encode(last)])
  {
    assert (init + [last])[..|init|] == init;
    forall name: string
      ensures KeyOf(prefix, kind.category, name) == KeyOf(prefix, kind.category, kind.name(last)) ==>
                name == kind.name(last)
    {
      KeyOrder(prefix, kind.category, name, kind.name(last));
    }
  }

  lemma {:induction false} PutsHoldKind<R>(prefix: Str, kind: Kind<R>, rs: seq<R>)
    ensures HoldsKind(prefix, kind, rs, MapOf(KindEntries(prefix, kind, rs)))
    decreases |rs|
  {
    if rs != [] {
      var init, last := rs[..|rs| - 1], rs[|rs| - 1];
      var es := KindEntries(prefix, kind, rs);
      assert es[..|es| - 1] == KindEntries(prefix, kind, init);
      assert rs == init + [last];
      PutsHoldKind(prefix, kind, init);
      PutHoldsKind(prefix, kind, init, last, MapOf(KindEntries(prefix, kind, init)));
    }
  }

  lemma KindKeysUnder<R>(prefix: Str, kind: Kind<R>, rs: seq<R>)
    requires SLASH !in kind.category
    ensures forall k | k in MapOf(KindEntries(prefix, kind, rs)) ::
              Dir(prefix) <= k && Category(prefix, k) == Some(kind.category)
    ensures forall k | k in MapOf(KindEntries(prefix, kind, rs)) ::
              exists name :: k == KeyOf(prefix, kind.category, name)
  {
    var es := KindEntries(prefix, kind, rs);
    forall k | k in MapOf(es)
      ensures Dir(prefix) <= k && Category(prefix, k) == Some(kind.category)
      ensures exists name :: k == KeyOf(prefix, kind.category, name)
    {
      MapOfKeys(es, k);
      var i :| 0 <= i < |es| && es[i].0 == k;
      KeyCategory(prefix, kind.category, kind.name(rs[i]));
    }
  }

  /** Keys of other categories do not disturb a kind. */
  lemma HoldsKindIn<R>(prefix: Str, kind: Kind<R>, rs: seq<R>, own: Keyspace, m: Keyspace)
    requires SLASH !in kind.category && HoldsKind(prefix, kind, rs, own)
    requires forall k | Category(prefix, k) == Some(kind.category) ::
               (k in m <==> k in own) && (k in m ==> m[k] == own[k])
    ensures HoldsKind(prefix, kind, rs, m)
  {
    forall name: string ensures Category(prefix, KeyOf(prefix, kind.category, name)) == Some(kind.category) {
      KeyCategory(prefix, kind.category, name);
    }
  }

  // ---- Reading one kind back ----

  /** The resources of one kind among the pairs of a listing, in its order. */
  function DecodeKind<R>(prefix: Str, kind: Kind<R>, kvs: seq<Entry>): Option<seq<R>> {
    if kvs == [] then Some([])
    else match DecodeKind(prefix, kind, kvs[..|kvs| - 1])
      case None => None
      case Some(rs) =>
        var last := kvs[|kvs| - 1];
        if Category(prefix, last.0) != Some(kind.category) then Some(rs)
        else match kind.decode(last.1)
          case None => None
          case Some(r) => Some(rs + [r])
  }

  /** Assembling a gateway is decoding the three kinds, each on its own. */
  lemma {:induction false} AssembleByKind(prefix: Str, kvs: seq<Entry>, codec: Codec)
    ensures var r, p, c := DecodeKind(prefix, codec.Routes(), kvs), DecodeKind(prefix, codec.Policies(), kvs),
                           DecodeKind(prefix, codec.Consumers(), kvs);
            && (Assemble(prefix, kvs, codec).Ok? <==> r.Some? && p.Some? && c.Some?)
            && (r.Some? && p.Some? && c.Some? ==>
                Assemble(prefix, kvs, codec) == Ok(GatewayConfig(r.value, p.value, c.value)))
    decreases |kvs|
  {
    if kvs != [] {
      AssembleByKind(prefix, kvs[..|kvs| - 1], codec);
    }
  }

  ghost predicate SortedByName<R>(kind: Kind<R>, rs: seq<R>) {
    forall i, j | 0 <= i < j < |rs| :: LexLess(Utf8.OfString(kind.name(rs[i])), Utf8.OfString(kind.name(rs[j])))
  }

  ghost predicate KeysSorted(kvs: seq<Entry>) {
    forall i, j | 0 <= i < j < |kvs| :: LexLess(kvs[i].0, kvs[j].0)
  }

  /** A pair of this kind as the store writes it. */
  ghost predicate Written<R>(prefix: Str, kind: Kind<R>, kv: Entry) {
    Category(prefix, kv.0) == Some(kind.category) ==>
      kind.decode(kv.1).Some? && kv.0 == KeyOf(prefix, kind.category, kind.name(kind.decode(kv.1).value))
  }

  ghost predicate Appears<R>(prefix: Str, kind: Kind<R>, kvs: seq<Entry>, r: R) {
    exists i :: 0 <= i < |kvs| && Category(prefix, kvs[i].0) == Some(kind.category) && kind.decode(kvs[i].1) == Some(r)
  }

  lemma AppearsSnoc<R(!new)>(prefix: Str, kind: Kind<R>, init: seq<Entry>, last: Entry)
    ensures forall r ::
              Appears(prefix, kind, init + [last], r) <==>
              (Appears(prefix, kind, init, r)
               || (Category(prefix, last.0) == Some(kind.category) && kind.decode(last.1) == Some(r)))
  {
    var kvs := init + [last];
    forall r
      ensures Appears(prefix, kind, kvs, r) <==>
              (Appears(prefix, kind, init, r)
               || (Category(prefix, last.0) == Some(kind.category) && kind.decode(last.1) == Some(r)))
    {
      if Appears(prefix, kind, init, r) {
        var i :| 0 <= i < |init| && Category(prefix, init[i].0) == Some(kind.category)
              && kind.decode(init[i].1) == Some(r);
        assert kvs[i] == init[i];
      }
      assert kvs[|init|] == last;
    }
  }

  ghost predicate DecodesTo<R(!new)>(prefix: Str, kind: Kind<R>, kvs: seq<Entry>, rs: seq<R>) {
    (forall r :: r in rs <==> Appears(prefix, kind, kvs, r)) && SortedByName(kind, rs)
  }

  lemma LaterKeyLaterName<R>(prefix: Str, kind: Kind<R>, init: seq<Entry>, last: Entry, s: R, r: R)
    requires KeysSorted(init + [last]) && forall i | 0 <= i < |init| :: Written(prefix, kind, init[i])
    requires Appears(prefix, kind, init, s) && last.0 == KeyOf(prefix, kind.category, kind.name(r))
    ensures LexLess(Utf8.OfString(kind.name(s)), Utf8.OfString(kind.name(r)))
  {
    var j :| 0 <= j < |init| && Category(prefix, init[j].0) == Some(kind.category) && kind.decode(init[j].1) == Some(s);
    assert Written(prefix, kind, init[j]) && LexLess((init + [last])[j].0, (init + [last])[|init|].0);
    KeyOrder(prefix, kind.category, kind.name(s), kind.name(r));
  }

  lemma DecodesNext<R(!new)>(prefix: Str, kind: Kind<R>, init: seq<Entry>, last: Entry, rs: seq<R>, r: R)
    requires KeysSorted(init + [last]) && forall i | 0 <= i < |init| :: Written(prefix, kind, init[i])
    requires Category(prefix, last.0) == Some(kind.category) && kind.decode(last.1) == Some(r)
    requires Written(prefix, kind, last) && DecodesTo(prefix, kind, init, rs)
    ensures DecodesTo(prefix, kind, init + [last], rs + [r])
  {
    AppearsSnoc(prefix, kind, init, last);
    forall i | 0 <= i < |rs| ensures LexLess(Utf8.OfString(kind.name(rs[i])), Utf8.OfString(kind.name(r))) {
      LaterKeyLaterName(prefix, kind, init, last, rs[i], r);
    }
  }

  lemma {:induction false} DecodeKindInOrder<R(!new)>(prefix: Str, kind: Kind<R>, kvs: seq<Entry>)
    requires KeysSorted(kvs) && forall i | 0 <= i < |kvs| :: Written(prefix, kind, kvs[i])
    ensures DecodeKind(prefix, kind, kvs).Some?
    ensures DecodesTo(prefix, kind, kvs, DecodeKind(prefix, kind, kvs).value)
    decreases |kvs|
  {
    if kvs != [] {
      var init, last := kvs[..|kvs| - 1], kvs[|kvs| - 1];
      DecodeKindInOrder(prefix, kind, init);
      AppearsSnoc(prefix, kind, init, last);
      assert kvs == init + [last];
      if Category(prefix, last.0) == Some(kind.category) {
        assert Written(prefix, kind, last);
        DecodesNext(prefix, kind, init, last, DecodeKind(prefix, kind, init).value, kind.decode(last.1).value);
      }
    }
  }

  /** The pairs of a keyspace, each once, by key. */
  ghost predicate ListsPairs(kvs: seq<Entry>, m: Keyspace) {
    && KeysSorted(kvs)
    && (forall i | 0 <= i < |kvs| :: kvs[i].0 in m && m[kvs[i].0] == kvs[i].1)
    && (forall k | k in m :: (k, m[k]) in kvs)
  }

  /** Listing what a kind wrote gives, sorted by name, the last resource of every name. */
  lemma KindReadsBack<R(!new)>(prefix: Str, kind: Kind<R>, rs: seq<R>, m: Keyspace, kvs: seq<Entry>)
    requires SLASH !in kind.category && HoldsKind(prefix, kind, rs, m) && ListsPairs(kvs, m)
    requires forall r :: kind.decode(kind.encode(r)) == Some(r)
    ensures DecodeKind(prefix, kind, kvs).Some?
    ensures SortedByName(kind, DecodeKind(prefix, kind, kvs).value)
    ensures forall r :: r in DecodeKind(prefix, kind, kvs).value <==> LastOf(kind, rs, kind.name(r)) == Some(r)
  {
    forall i | 0 <= i < |kvs| ensures Written(prefix, kind, kvs[i]) {
      if Category(prefix, kvs[i].0) == Some(kind.category) {
        var name: string :| kvs[i].0 == KeyOf(prefix, kind.category, name);
        LastOfNamed(kind, rs, name);
      }
    }
    DecodeKindInOrder(prefix, kind, kvs);
    forall r ensures Appears(prefix, kind, kvs, r) <==> LastOf(kind, rs, kind.name(r)) == Some(r) {
      AppearsIffLast(prefix, kind, rs, m, kvs, r);
    }
  }

  lemma {:induction false} LastOfNamed<R>(kind: Kind<R>, rs: seq<R>, name: string)
    ensures var r := LastOf(kind, rs, name); r.Some? ==> kind.name(r.value) == name && r.value in rs
  {
    if rs != [] {
      LastOfNamed(kind, rs[..|rs| - 1], name);
    }
  }

  lemma AppearsIffLast<R(!new)>(prefix: Str, kind: Kind<R>, rs: seq<R>, m: Keyspace, kvs: seq<Entry>, r: R)
    requires SLASH !in kind.category && HoldsKind(prefix, kind, rs, m) && ListsPairs(kvs, m)
    requires forall r :: kind.decode(kind.encode(r)) == Some(r)
    ensures Appears(prefix, kind, kvs, r) <==> LastOf(kind, rs, kind.name(r)) == Some(r)
  {
    var key := KeyOf(prefix, kind.category, kind.name(r));
    KeyCategory(prefix, kind.category, kind.name(r));
    if LastOf(kind, rs, kind.name(r)) == Some(r) {
      assert (key, m[key]) in kvs;
    }
    if Appears(prefix, kind, kvs, r) {
      var i :| 0 <= i < |kvs| && Category(prefix, kvs[i].0) == Some(kind.category) && kind.decode(kvs[i].1) == Some(r);
      var name: string :| kvs[i].0 == KeyOf(prefix, kind.category, name);
      LastOfNamed(kind, rs, name);
    }
  }

  // ---- What a committed gateway loads as ----

  lemma KindsAreApart()
    ensures SLASH !in ROUTES && SLASH !in POLICIES && SLASH !in CONSUMERS
    ensures ROUTES != POLICIES && ROUTES != CONSUMERS && POLICIES != CONSUMERS
  {
    assert |ROUTES| == 6 && |POLICIES| == 8 && |CONSUMERS| == 9;
  }

  /** Maps whose keys lie in three categories: merged, each category is still its own map. */
  lemma MergeKeeps(prefix: Str, a: Keyspace, b: Keyspace, c: Keyspace, ca: Str, cb: Str, cc: Str)
    requires ca != cb && ca != cc && cb != cc
    requires forall k | k in a :: Category(prefix, k) == Some(ca)
    requires forall k | k in b :: Category(prefix, k) == Some(cb)
    requires forall k | k in c :: Category(prefix, k) == Some(cc)
    ensures forall k | Category(prefix, k) == Some(ca) ::
              (k in a + b + c <==> k in a) && (k in a ==> (a + b + c)[k] == a[k])
    ensures forall k | Category(prefix, k) == Some(cb) ::
              (k in a + b + c <==> k in b) && (k in b ==> (a + b + c)[k] == b[k])
    ensures forall k | Category(prefix, k) == Some(cc) ::
              (k in a + b + c <==> k in c) && (k in c ==> (a + b + c)[k] == c[k])
  {
  }

  lemma EntriesMap(prefix: Str, gw: GatewayConfig, codec: Codec)
    ensures MapOf(Entries(prefix, gw, codec))
         == MapOf(KindEntries(prefix, codec.Routes(), gw.routes))
            + MapOf(KindEntries(prefix, codec.Policies(), gw.policies))
            + MapOf(KindEntries(prefix, codec.Consumers(), gw.consumers))
  {
    var er, ep := KindEntries(prefix, codec.Routes(), gw.routes), KindEntries(prefix, codec.Policies(), gw.policies);
    MapOfConcat(er, ep);
    MapOfConcat(er + ep, KindEntries(prefix, codec.Consumers(), gw.consumers));
  }

  /** Three kinds merged: each is held as if alone. */
  lemma KindsHeld<R, P, C>(
    prefix: Str, r: Kind<R>, p: Kind<P>, c: Kind<C>, rs: seq<R>, ps: seq<P>, cs: seq<C>, m: Keyspace)
    requires SLASH !in r.category && SLASH !in p.category && SLASH !in c.category
    requires r.category != p.category && r.category != c.category && p.category != c.category
    requires m == MapOf(KindEntries(prefix, r, rs)) + MapOf(KindEntries(prefix, p, ps))
                  + MapOf(KindEntries(prefix, c, cs))
    ensures HoldsKind(prefix, r, rs, m) && HoldsKind(prefix, p, ps, m) && HoldsKind(prefix, c, cs, m)
    ensures forall k | k in m :: Dir(prefix) <= k
  {
    var a, b := MapOf(KindEntries(prefix, r, rs)), MapOf(KindEntries(prefix, p, ps));
    var d := MapOf(KindEntries(prefix, c, cs));
    KindKeysUnder(prefix, r, rs);
    KindKeysUnder(prefix, p, ps);
    KindKeysUnder(prefix, c, cs);
    MergeKeeps(prefix, a, b, d, r.category, p.category, c.category);
    HoldsOne(prefix, r, rs, m);
    HoldsOne(prefix, p, ps, m);
    HoldsOne(prefix, c, cs, m);
  }

  lemma HoldsOne<R>(prefix: Str, kind: Kind<R>, rs: seq<R>, m: Keyspace)
    requires SLASH !in kind.category
    requires var own := MapOf(KindEntries(prefix, kind, rs));
             forall k | Category(prefix, k) == Some(kind.category) ::
               (k in m <==> k in own) && (k in m ==> m[k] == own[k])
    ensures HoldsKind(prefix, kind, rs, m)
  {
    PutsHoldKind(prefix, kind, rs);
    HoldsKindIn(prefix, kind, rs, MapOf(KindEntries(prefix, kind, rs)), m);
  }

  lemma EntriesHoldKinds(prefix: Str, gw: GatewayConfig, codec: Codec)
    ensures var m := MapOf(Entries(prefix, gw, codec));
            && (forall k | k in m :: Dir(prefix) <= k)
            && HoldsKind(prefix, codec.Routes(), gw.routes, m)
            && HoldsKind(prefix, codec.Policies(), gw.policies, m)
            && HoldsKind(prefix, codec.Consumers(), gw.consumers, m)
  {
    KindsAreApart();
    EntriesMap(prefix, gw, codec);
    KindsHeld(prefix, codec.Routes(), codec.Policies(), codec.Consumers(), gw.routes, gw.policies, gw.consumers,
              MapOf(Entries(prefix, gw, codec)));
  }

  // ---- Keys are text ----

  predicate IsAscii(s: Str) {
    forall i | 0 <= i < |s| :: s[i] < 0x80
  }

  lemma {:induction false} AsciiIsUtf8(s: Str)
    requires IsAscii(s)
    ensures Utf8.IsUtf8(s)
  {
    if s != [] {
      assert Utf8.ScanFirst(s) == Utf8.Char(1);
      AsciiIsUtf8(s[1..]);
    }
  }

  lemma KeyIsUtf8(prefix: Str, category: Str, name: string)
    requires Utf8.IsUtf8(prefix) && IsAscii(category)
    ensures Utf8.IsUtf8(KeyOf(prefix, category, name))
  {
    var slash := [SLASH];
    AsciiIsUtf8(slash);
    AsciiIsUtf8(category);
    Utf8.OfStringIsUtf8(name);
    Utf8.Utf8Concat(prefix, slash);
    Utf8.Utf8Concat(category, slash);
    Utf8.Utf8Concat(category + slash, Utf8.OfString(name));
    Utf8.Utf8Concat(Dir(prefix), category + slash + Utf8.OfString(name));
  }

  lemma KindEntryKeysUtf8<R>(prefix: Str, kind: Kind<R>, rs: seq<R>)
    requires Utf8.IsUtf8(prefix) && IsAscii(kind.category)
    ensures KeysAreUtf8(KindEntries(prefix, kind, rs))
  {
    forall i | 0 <= i < |rs| ensures Utf8.IsUtf8(KindEntries(prefix, kind, rs)[i].0) {
      KeyIsUtf8(prefix, kind.category, kind.name(rs[i]));
    }
  }

  lemma EntryKeysUtf8(prefix: Str, gw: GatewayConfig, codec: Codec)
    requires Utf8.IsUtf8(prefix)
    ensures KeysAreUtf8(Entries(prefix, gw, codec))
  {
    KindEntryKeysUtf8(prefix, codec.Routes(), gw.routes);
    KindEntryKeysUtf8(prefix, codec.Policies(), gw.policies);
    KindEntryKeysUtf8(prefix, codec.Consumers(), gw.consumers);
    var er, ep := KindEntries(prefix, codec.Routes(), gw.routes), KindEntries(prefix, codec.Policies(), gw.policies);
    var ec := KindEntries(prefix, codec.Consumers(), gw.consumers);
    KeysUtf8Concat(er, ep);
    KeysUtf8Concat(er + ep, ec);
  }

  lemma KeysUtf8Concat(a: seq<Entry>, b: seq<Entry>)
    requires KeysAreUtf8(a) && KeysAreUtf8(b)
    ensures KeysAreUtf8(a + b)
  {
  }

  // ---- The round trip ----

  lemma ListingListsPairs(kv: Keyspace, dir: Str, m: Keyspace)
    requires forall k :: k in m <==> k in kv && dir <= k
    requires forall k | k in m :: m[k] == kv[k]
    ensures ListsPairs(Listing(kv, dir), m)
  {
    var ks := SortedKeys(Under(kv, dir));
    SortedKeysLists(Under(kv, dir));
    var kvs := Listing(kv, dir);
    forall k | k in m ensures (k, m[k]) in kvs {
      assert k in ks;
      var i :| 0 <= i < |ks| && ks[i] == k;
      assert kvs[i] == (k, m[k]);
    }
    forall i | 0 <= i < |kvs| ensures kvs[i].0 in m && m[kvs[i].0] == kvs[i].1 {
      assert ks[i] in ks;
    }
  }

  /** Under the prefix a reconciled keyspace holds exactly the puts; outside it nothing changed. */
  lemma ReconciledKeys(kv: Keyspace, prefix: Str, gw: GatewayConfig, codec: Codec)
    ensures var dir, m := Dir(prefix), MapOf(Entries(prefix, gw, codec));
            var after := Reconciled(kv, dir, Entries(prefix, gw, codec));
            && (forall k :: k in m <==> k in after && dir <= k) && (forall k | k in m :: m[k] == after[k])
            && (forall k | !(dir <= k) :: (k in after <==> k in kv) && (k in kv ==> after[k] == kv[k]))
  {
    EntriesHoldKinds(prefix, gw, codec);
  }

  /** What one kind loads as: sorted by name, and of every name the last resource. */
  ghost predicate LoadsAs<R(!new)>(kind: Kind<R>, written: seq<R>, read: seq<R>) {
    SortedByName(kind, read) && forall r :: r in read <==> LastOf(kind, written, kind.name(r)) == Some(r)
  }

  /** After a commit, `load_all` succeeds and gives the candidate back, kind by kind. */
  lemma CommitThenLoad(kv: Keyspace, prefix: Str, gw: GatewayConfig, codec: Codec)
    requires Utf8.IsUtf8(prefix) && codec.ReadsBack()
    ensures var r := Loaded(Reconciled(kv, Dir(prefix), Entries(prefix, gw, codec)), prefix, codec);
            && r.Ok? && LoadsAs(codec.Routes(), gw.routes, r.value.routes)
            && LoadsAs(codec.Policies(), gw.policies, r.value.policies)
            && LoadsAs(codec.Consumers(), gw.consumers, r.value.consumers)
  {
    var es := Entries(prefix, gw, codec);
    var m, after := MapOf(es), Reconciled(kv, Dir(prefix), es);
    var kvs := Listing(after, Dir(prefix));
    ReconciledKeys(kv, prefix, gw, codec);
    ListingListsPairs(after, Dir(prefix), m);
    ListingIsUtf8(prefix, gw, codec, kvs);
    EntriesHoldKinds(prefix, gw, codec);
    AllKindsReadBack(prefix, gw, codec, m, kvs);
    AssembleByKind(prefix, kvs, codec);
  }

  lemma ListingIsUtf8(prefix: Str, gw: GatewayConfig, codec: Codec, kvs: seq<Entry>)
    requires Utf8.IsUtf8(prefix) && ListsPairs(kvs, MapOf(Entries(prefix, gw, codec)))
    ensures KeysAreUtf8(kvs)
  {
    var es := Entries(prefix, gw, codec);
    EntryKeysUtf8(prefix, gw, codec);
    forall i | 0 <= i < |kvs| ensures Utf8.IsUtf8(kvs[i].0) {
      MapOfKeys(es, kvs[i].0);
      var j :| 0 <= j < |es| && es[j].0 == kvs[i].0;
    }
  }

  lemma AllKindsReadBack(prefix: Str, gw: GatewayConfig, codec: Codec, m: Keyspace, kvs: seq<Entry>)
    requires codec.ReadsBack() && ListsPairs(kvs, m)
    requires HoldsKind(prefix, codec.Routes(), gw.routes, m)
    requires HoldsKind(prefix, codec.Policies(), gw.policies, m)
    requires HoldsKind(prefix, codec.Consumers(), gw.consumers, m)
    ensures DecodeKind(prefix, codec.Routes(), kvs).Some?
         && LoadsAs(codec.Routes(), gw.routes, DecodeKind(prefix, codec.Routes(), kvs).value)
    ensures DecodeKind(prefix, codec.Policies(), kvs).Some?
         && LoadsAs(codec.Policies(), gw.policies, DecodeKind(prefix, codec.Policies(), kvs).value)
    ensures DecodeKind(prefix, codec.Consumers(), kvs).Some?
         && LoadsAs(codec.Consumers(), gw.consumers, DecodeKind(prefix, codec.Consumers(), kvs).value)
  {
    KindsAreApart();
    KindReadsBack(prefix, codec.Routes(), gw.routes, m, kvs);
    KindReadsBack(prefix, codec.Policies(), gw.policies, m, kvs);
    KindReadsBack(prefix, codec.Consumers(), gw.consumers, m, kvs);
  }

  // ---- Nothing lost, exactly when names are distinct ----

  predicate DistinctNames<R>(kind: Kind<R>, rs: seq<R>) {
    forall i, j | 0 <= i < j < |rs| :: kind.name(rs[i]) != kind.name(rs[j])
  }

  lemma {:induction false} NoRepeats<R>(s: seq<R>)
    requires forall i, j | 0 <= i < j < |s| :: s[i] != s[j]
    ensures forall x :: multiset(s)[x] == if x in s then 1 else 0
  {
    if s != [] {
      NoRepeats(s[1..]);
      assert s == [s[0]] + s[1..];
      assert s[0] !in s[1..];
    }
  }

  lemma {:induction false} LastOfDistinct<R>(kind: Kind<R>, rs: seq<R>, i: nat)
    requires DistinctNames(kind, rs) && i < |rs|
    ensures LastOf(kind, rs, kind.name(rs[i])) == Some(rs[i])
  {
    if i < |rs| - 1 {
      LastOfDistinct(kind, rs[..|rs| - 1], i);
    }
  }

  /** A sorted reading has every name once. */
  lemma SortedNamesDistinct<R>(kind: Kind<R>, rs: seq<R>)
    requires SortedByName(kind, rs)
    ensures DistinctNames(kind, rs)
  {
    forall i, j | 0 <= i < j < |rs| ensures kind.name(rs[i]) != kind.name(rs[j]) {
      LexAsymmetric(Utf8.OfString(kind.name(rs[i])), Utf8.OfString(kind.name(rs[j])));
    }
  }

  lemma NoRepeatsIf<R>(s: seq<R>, i: nat, j: nat)
    requires i < j < |s| && multiset(s)[s[i]] <= 1
    ensures s[i] != s[j]
  {
    assert s == s[..j] + [s[j]] + s[j + 1..];
    assert s[..j][i] in multiset(s[..j]);
  }

  lemma SameNameSame<R>(kind: Kind<R>, rs: seq<R>, a: R, b: R)
    requires DistinctNames(kind, rs) && a in rs && b in rs && kind.name(a) == kind.name(b)
    ensures a == b
  {
  }

  lemma DistinctTransfers<R>(kind: Kind<R>, a: seq<R>, b: seq<R>)
    requires DistinctNames(kind, a) && multiset(a) == multiset(b)
    ensures DistinctNames(kind, b)
  {
    NoRepeats(a);
    forall i, j | 0 <= i < j < |b| ensures kind.name(b[i]) != kind.name(b[j]) {
      assert b[i] in multiset(a) && b[j] in multiset(a);
      NoRepeatsIf(b, i, j);
      if kind.name(b[i]) == kind.name(b[j]) {
        SameNameSame(kind, a, b[i], b[j]);
      }
    }
  }

  /** Exact: reading back rearranges what was written, and loses nothing, iff all names are distinct. */
  lemma PermutationIffDistinct<R(!new)>(kind: Kind<R>, written: seq<R>, read: seq<R>)
    requires LoadsAs(kind, written, read)
    ensures multiset(read) == multiset(written) <==> DistinctNames(kind, written)
  {
    SortedNamesDistinct(kind, read);
    NoRepeats(read);
    if DistinctNames(kind, written) {
      NoRepeats(written);
      forall r ensures r in read <==> r in written {
        LastOfNamed(kind, written, kind.name(r));
        if r in written {
          var i :| 0 <= i < |written| && written[i] == r;
          LastOfDistinct(kind, written, i);
        }
      }
      assert forall r :: multiset(read)[r] == multiset(written)[r];
    } else if multiset(read) == multiset(written) {
      DistinctTransfers(kind, read, written);
    }
  }

  predicate AllNamesDistinct(gw: GatewayConfig, codec: Codec) {
    && DistinctNames(codec.Routes(), gw.routes) && DistinctNames(codec.Policies(), gw.policies)
    && DistinctNames(codec.Consumers(), gw.consumers)
  }

  ghost predicate SameResources(a: GatewayConfig, b: GatewayConfig) {
    && multiset(a.routes) == multiset(b.routes) && multiset(a.policies) == multiset(b.policies)
    && multiset(a.consumers) == multiset(b.consumers)
  }

  /** Commit, then load: the same resources come back exactly when names are distinct within every kind. */
  lemma CommitKeepsResourcesIff(kv: Keyspace, prefix: Str, gw: GatewayConfig, codec: Codec)
    requires Utf8.IsUtf8(prefix) && codec.ReadsBack()
    ensures var r := Loaded(Reconciled(kv, Dir(prefix), Entries(prefix, gw, codec)), prefix, codec);
            r.Ok? && (SameResources(r.value, gw) <==> AllNamesDistinct(gw, codec))
  {
    CommitThenLoad(kv, prefix, gw, codec);
    var r := Loaded(Reconciled(kv, Dir(prefix), Entries(prefix, gw, codec)), prefix, codec).value;
    PermutationIffDistinct(codec.Routes(), gw.routes, r.routes);
    PermutationIffDistinct(codec.Policies(), gw.policies, r.policies);
    PermutationIffDistinct(codec.Consumers(), gw.consumers, r.consumers);
  }

  // ---- The very same configuration, exactly when it is in name order ----

  lemma {:induction false} SortedReadingUnique<R(!new)>(kind: Kind<R>, a: seq<R>, b: seq<R>)
    requires SortedByName(kind, a) && SortedByName(kind, b) && forall r :: r in a <==> r in b
    ensures a == b
    decreases |a|
  {
    SameEmptiness(a, b);
    if a != [] {
      assert a[0] in b && b[0] in a;
      SortedHeads(kind, a, b);
      SortedTail(kind, a);
      SortedTail(kind, b);
      SortedReadingUnique(kind, a[1..], b[1..]);
      assert a == [a[0]] + a[1..] && b == [b[0]] + b[1..];
    }
  }

  lemma SameEmptiness<R(!new)>(a: seq<R>, b: seq<R>)
    requires forall r :: r in a <==> r in b
    ensures a == [] <==> b == []
  {
    if a != [] {
      assert a[0] in b;
    }
    if b != [] {
      assert b[0] in a;
    }
  }

  lemma SortedHeads<R>(kind: Kind<R>, a: seq<R>, b: seq<R>)
    requires SortedByName(kind, a) && SortedByName(kind, b) && a != [] && b != [] && a[0] in b && b[0] in a
    ensures a[0] == b[0]
  {
    if a[0] != b[0] {
      LexAsymmetric(Utf8.OfString(kind.name(a[0])), Utf8.OfString(kind.name(b[0])));
    }
  }

  /** The head of a sorted reading does not come again. */
  lemma SortedTail<R>(kind: Kind<R>, a: seq<R>)
    requires SortedByName(kind, a) && a != []
    ensures SortedByName(kind, a[1..]) && forall r :: r in a[1..] <==> r in a && r != a[0]
  {
    LexIrreflexive(Utf8.OfString(kind.name(a[0])));
    assert a == [a[0]] + a[1..];
  }

  lemma LoadsItselfIff<R(!new)>(kind: Kind<R>, written: seq<R>, read: seq<R>)
    requires LoadsAs(kind, written, read)
    ensures read == written <==> SortedByName(kind, written)
  {
    if SortedByName(kind, written) {
      SortedNamesDistinct(kind, written);
      PermutationIffDistinct(kind, written, read);
      assert forall r :: r in read <==> r in multiset(read);
      SortedReadingUnique(kind, read, written);
    }
  }

  /** Every list is sorted by name, bytewise. */
  ghost predicate InNameOrder(gw: GatewayConfig, codec: Codec) {
    && SortedByName(codec.Routes(), gw.routes) && SortedByName(codec.Policies(), gw.policies)
    && SortedByName(codec.Consumers(), gw.consumers)
  }

  /** Commit, then load: the very candidate comes back exactly when its lists are in name order. */
  lemma CommitLoadsItselfIff(kv: Keyspace, prefix: Str, gw: GatewayConfig, codec: Codec)
    requires Utf8.IsUtf8(prefix) && codec.ReadsBack()
    ensures Loaded(Reconciled(kv, Dir(prefix), Entries(prefix, gw, codec)), prefix, codec) == Ok(gw)
       <==> InNameOrder(gw, codec)
  {
    CommitThenLoad(kv, prefix, gw, codec);
    var r := Loaded(Reconciled(kv, Dir(prefix), Entries(prefix, gw, codec)), prefix, codec).value;
    LoadsItselfIff(codec.Routes(), gw.routes, r.routes);
    LoadsItselfIff(codec.Policies(), gw.policies, r.policies);
    LoadsItselfIff(codec.Consumers(), gw.consumers, r.consumers);
  }
}
