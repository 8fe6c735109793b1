/** Seeding the etcd prefix from the local file at start: when it happens, and how it differs from a commit. */
module EtcdSeed {
  import opened Wrappers
  import opened Bytes
  import opened GatewayState
  import opened Etcd
  import opened EtcdStore
  import Utf8

  /** A key that no resource has. */
  predicate UnknownShape(prefix: Str, key: Str) {
    var category := Category(prefix, key);
    category != Some(ROUTES) && category != Some(POLICIES) && category != Some(CONSUMERS)
  }

  // ---- When the code seeds ----

  lemma {:induction false} AssemblesEmptyIff(prefix: Str, kvs: seq<Entry>, codec: Codec)
    ensures Assemble(prefix, kvs, codec) == Ok(EMPTY_GATEWAY)
       <==> forall i | 0 <= i < |kvs| :: UnknownShape(prefix, kvs[i].0)
    decreases |kvs|
  {
    if kvs != [] {
      AssemblesEmptyIff(prefix, kvs[..|kvs| - 1], codec);
      var before := Assemble(prefix, kvs[..|kvs| - 1], codec);
      if before.Ok? {
        EmptyAfterEntryIff(prefix, before.value, kvs[|kvs| - 1], codec);
      }
    }
  }

  lemma EmptyAfterEntryIff(prefix: Str, gw: GatewayConfig, kv: Entry, codec: Codec)
    ensures AddEntry(prefix, gw, kv, codec) == Ok(EMPTY_GATEWAY)
       <==> gw == EMPTY_GATEWAY && UnknownShape(prefix, kv.0)
  {
  }

  /** The prefix loads as an empty gateway iff all its keys are text of an unknown shape. */
  lemma LoadsEmptyIff(kv: Keyspace, prefix: Str, codec: Codec)
    ensures Loaded(kv, prefix, codec) == Ok(EMPTY_GATEWAY)
       <==> forall k | k in Under(kv, Dir(prefix)) :: Utf8.IsUtf8(k) && UnknownShape(prefix, k)
  {
    var kvs, m := Listing(kv, Dir(prefix)), map k | k in Under(kv, Dir(prefix)) :: kv[k];
    ListingListsPairs(kv, Dir(prefix), m);
    AssemblesEmptyIff(prefix, kvs, codec);
    forall k | k in Under(kv, Dir(prefix)) ensures exists i :: 0 <= i < |kvs| && kvs[i].0 == k {
      assert (k, m[k]) in kvs;
    }
  }

  // ---- What it leaves ----

  /** Exact: seeding with `write_all` leaves what a commit would leave iff the prefix holds no key but those
      that the seed writes. */
  lemma SeedIsCommitIff(kv: Keyspace, dir: Str, es: seq<Entry>)
    ensures kv + MapOf(es) == Reconciled(kv, dir, es) <==> Under(kv, dir) <= MapOf(es).Keys
  {
    var seeded, committed := kv + MapOf(es), Reconciled(kv, dir, es);
    if k :| k in Under(kv, dir) && k !in MapOf(es) {
      assert k in seeded && k !in committed;
    } else {
      assert seeded.Keys == committed.Keys;
    }
  }

  lemma EntriesHaveShape(prefix: Str, gw: GatewayConfig, codec: Codec)
    ensures forall k | k in MapOf(Entries(prefix, gw, codec)) :: !UnknownShape(prefix, k)
  {
    KindsAreApart();
    EntriesMap(prefix, gw, codec);
    KindKeysUnder(prefix, codec.Routes(), gw.routes);
    KindKeysUnder(prefix, codec.Policies(), gw.policies);
    KindKeysUnder(prefix, codec.Consumers(), gw.consumers);
  }

  /** Exact, where the code does seed: the result is a commit's iff the prefix held no key at all. That it loads
      as empty is not enough: what it held stays beside the seed, and no commit would leave it. */
  lemma SeedAfterEmptyLoadIff(kv: Keyspace, prefix: Str, gw: GatewayConfig, codec: Codec)
    requires Loaded(kv, prefix, codec) == Ok(EMPTY_GATEWAY)
    ensures var es := Entries(prefix, gw, codec);
            kv + MapOf(es) == Reconciled(kv, Dir(prefix), es) <==> Under(kv, Dir(prefix)) == {}
  {
    LoadsEmptyIff(kv, prefix, codec);
    EntriesHaveShape(prefix, gw, codec);
    SeedIsCommitIff(kv, Dir(prefix), Entries(prefix, gw, codec));
    if k :| k in Under(kv, Dir(prefix)) {
      assert k !in MapOf(Entries(prefix, gw, codec));
    }
  }

  /** The least such keyspace: one key, the prefix with its slash and nothing after it. It loads as empty, so the
      code seeds, and the seed is not what a commit leaves. */
  lemma LoneDirOutlivesSeed(prefix: Str, v: Str, gw: GatewayConfig, codec: Codec)
    requires Utf8.IsUtf8(prefix)
    ensures var kv, es := map[Dir(prefix) := v], Entries(prefix, gw, codec);
            && Loaded(kv, prefix, codec) == Ok(EMPTY_GATEWAY)
            && kv + MapOf(es) != Reconciled(kv, Dir(prefix), es)
  {
    var kv := map[Dir(prefix) := v];
    AsciiIsUtf8([SLASH]);
    Utf8.Utf8Concat(prefix, [SLASH]);
    assert Dir(prefix)[|Dir(prefix)|..] == [];
    LoadsEmptyIff(kv, prefix, codec);
    SeedAfterEmptyLoadIff(kv, prefix, gw, codec);
    assert Dir(prefix) in Under(kv, Dir(prefix));
  }

  // ---- What it loads as ----

  lemma SeededKinds(kv: Keyspace, prefix: Str, gw: GatewayConfig, codec: Codec, m: Keyspace)
    requires Loaded(kv, prefix, codec) == Ok(EMPTY_GATEWAY)
    requires forall k :: k in m <==> k in MapOf(Entries(prefix, gw, codec)) || k in Under(kv, Dir(prefix))
    requires forall k | k in MapOf(Entries(prefix, gw, codec)) :: m[k] == MapOf(Entries(prefix, gw, codec))[k]
    ensures HoldsKind(prefix, codec.Routes(), gw.routes, m)
    ensures HoldsKind(prefix, codec.Policies(), gw.policies, m)
    ensures HoldsKind(prefix, codec.Consumers(), gw.consumers, m)
  {
    var own := MapOf(Entries(prefix, gw, codec));
    KindsAreApart();
    LoadsEmptyIff(kv, prefix, codec);
    EntriesHoldKinds(prefix, gw, codec);
    HoldsKindIn(prefix, codec.Routes(), gw.routes, own, m);
    HoldsKindIn(prefix, codec.Policies(), gw.policies, own, m);
    HoldsKindIn(prefix, codec.Consumers(), gw.consumers, own, m);
  }

  lemma SeededIsUtf8(kv: Keyspace, prefix: Str, gw: GatewayConfig, codec: Codec, kvs: seq<Entry>)
    requires Utf8.IsUtf8(prefix) && Loaded(kv, prefix, codec) == Ok(EMPTY_GATEWAY)
    requires forall i | 0 <= i < |kvs| ::
               kvs[i].0 in MapOf(Entries(prefix, gw, codec)) || kvs[i].0 in Under(kv, Dir(prefix))
    ensures KeysAreUtf8(kvs)
  {
    var es := Entries(prefix, gw, codec);
    LoadsEmptyIff(kv, prefix, codec);
    EntryKeysUtf8(prefix, gw, codec);
    forall i | 0 <= i < |kvs| ensures Utf8.IsUtf8(kvs[i].0) {
      if kvs[i].0 in MapOf(es) {
        MapOfKeys(es, kvs[i].0);
        var j :| 0 <= j < |es| && es[j].0 == kvs[i].0;
      }
    }
  }

  lemma LoadsAsUnique<R(!new)>(kind: Kind<R>, written: seq<R>, a: seq<R>, b: seq<R>)
    requires LoadsAs(kind, written, a) && LoadsAs(kind, written, b)
    ensures a == b
  {
    SortedReadingUnique(kind, a, b);
  }

  lemma SeedThenLoad(kv: Keyspace, prefix: Str, gw: GatewayConfig, codec: Codec)
    requires Utf8.IsUtf8(prefix) && codec.ReadsBack() && Loaded(kv, prefix, codec) == Ok(EMPTY_GATEWAY)
    ensures var r := Loaded(kv + MapOf(Entries(prefix, gw, codec)), prefix, codec);
            && r.Ok? && LoadsAs(codec.Routes(), gw.routes, r.value.routes)
            && LoadsAs(codec.Policies(), gw.policies, r.value.policies)
            && LoadsAs(codec.Consumers(), gw.consumers, r.value.consumers)
  {
    var own := MapOf(Entries(prefix, gw, codec));
    var kvs, m := Listing(kv + own, Dir(prefix)), map k | k in Under(kv + own, Dir(prefix)) :: (kv + own)[k];
    EntriesHoldKinds(prefix, gw, codec);
    ListingListsPairs(kv + own, Dir(prefix), m);
    SeededIsUtf8(kv, prefix, gw, codec, kvs);
    SeededKinds(kv, prefix, gw, codec, m);
    AllKindsReadBack(prefix, gw, codec, m, kvs);
    AssembleByKind(prefix, kvs, codec);
  }

  /** The keys that stay beside the seed do no harm: what loads afterwards is what loads after a commit. */
  lemma SeedLoadsAsCommit(kv: Keyspace, prefix: Str, gw: GatewayConfig, codec: Codec)
    requires Utf8.IsUtf8(prefix) && codec.ReadsBack() && Loaded(kv, prefix, codec) == Ok(EMPTY_GATEWAY)
    ensures var es := Entries(prefix, gw, codec);
            Loaded(kv + MapOf(es), prefix, codec) == Loaded(Reconciled(kv, Dir(prefix), es), prefix, codec)
  {
    var es := Entries(prefix, gw, codec);
    SeedThenLoad(kv, prefix, gw, codec);
    CommitThenLoad(kv, prefix, gw, codec);
    var a := Loaded(kv + MapOf(es), prefix, codec).value;
    var b := Loaded(Reconciled(kv, Dir(prefix), es), prefix, codec).value;
    LoadsAsUnique(codec.Routes(), gw.routes, a.routes, b.routes);
    LoadsAsUnique(codec.Policies(), gw.policies, a.policies, b.policies);
    LoadsAsUnique(codec.Consumers(), gw.consumers, a.consumers, b.consumers);
  }

  // ---- At start ----

  /** The prefix loads as empty and the local file does not. */
  ghost predicate Seeds(kv: Keyspace, prefix: Str, codec: Codec, local: Option<GatewayConfig>) {
    Loaded(kv, prefix, codec) == Ok(EMPTY_GATEWAY) && local.Some? && local.value != EMPTY_GATEWAY
  }

  method SeedAndLoad(store: EtcdConfigStore, gw: GatewayConfig) returns (r: Result<GatewayConfig, StoreError>)
    requires Utf8.IsUtf8(store.prefix) && store.codec.ReadsBack()
    requires Loaded(store.kv, store.prefix, store.codec) == Ok(EMPTY_GATEWAY)
    modifies store
    ensures r.Ok? <==> old(store.answers) > |Entries(store.prefix, gw, store.codec)|
    ensures r.Ok? ==>
              var es := Entries(store.prefix, gw, store.codec);
              && store.kv == old(store.kv) + MapOf(es)
              && Loaded(Reconciled(old(store.kv), Dir(store.prefix), es), store.prefix, store.codec) == Ok(r.value)
  {
    ghost var before := store.kv;
    var written := store.WriteAll(gw);
    if !written {
      return Err(Unreachable);
    }
    SeedThenLoad(before, store.prefix, gw, store.codec);
    SeedLoadsAsCommit(before, store.prefix, gw, store.codec);
    r := store.LoadAll();
  }

  /** The gateway that a node starts with: what the prefix holds; when that is nothing and the local file holds
      something, what a commit of the local file would leave to be loaded. */
  method BuildSource(store: EtcdConfigStore, local: Option<GatewayConfig>)
    returns (r: Result<GatewayConfig, StoreError>)
    requires Utf8.IsUtf8(store.prefix) && store.codec.ReadsBack()
    modifies store
    ensures !old(Seeds(store.kv, store.prefix, store.codec, local)) ==>
              && store.kv == old(store.kv)
              && (r.Ok? <==> old(store.answers) >= 1 && old(Loaded(store.kv, store.prefix, store.codec)).Ok?)
              && (r.Ok? ==> old(Loaded(store.kv, store.prefix, store.codec)) == Ok(r.value))
    ensures old(Seeds(store.kv, store.prefix, store.codec, local)) ==>
              var es := Entries(store.prefix, local.value, store.codec);
              && (r.Ok? <==> old(store.answers) >= 2 + |es|)
              && (r.Ok? ==>
                  && store.kv == old(store.kv) + MapOf(es)
                  && Loaded(Reconciled(old(store.kv), Dir(store.prefix), es), store.prefix, store.codec) == Ok(r.value))
  {
    r := store.LoadAll();
    if r.Err? || r.value != EMPTY_GATEWAY || local.None? || local.value == EMPTY_GATEWAY {
      return;
    }
    r := SeedAndLoad(store, local.value);
  }
}
