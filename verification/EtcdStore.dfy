/** The etcd store's operations as calls to a server that may stop answering at any point, with the call that
    was not answered applied or not. */
module EtcdStore {
  import opened Wrappers
  import opened Bytes
  import opened PrefixRange
  import opened GatewayState
  import opened Etcd
  import Utf8

  datatype StoreError = Rejected(error: ApplyError) | Load(reason: LoadError) | Unreachable

  // ---- How far a commit may have come ----

  /** Keys under the directory that the candidate dropped. */
  function Stale(kv: Keyspace, dir: Str, es: seq<Entry>): set<Str> {
    Under(kv, dir) - MapOf(es).Keys
  }

  /** A keyspace between the start and the end of a commit: outside the directory nothing moves, inside every
      value is an old one or one of the puts, and no key that the candidate wants is ever missing if it was there. */
  ghost predicate Between(before: Keyspace, now: Keyspace, dir: Str, es: seq<Entry>) {
    && (forall k | !(dir <= k) :: (k in now <==> k in before) && (k in before ==> now[k] == before[k]))
    && (forall k | k in now && dir <= k :: (k in before && now[k] == before[k]) || (k, now[k]) in es)
    && (forall k | k in before && k in MapOf(es) :: k in now)
  }

  lemma PutsAreBetween(before: Keyspace, dir: Str, es: seq<Entry>, i: nat)
    requires i <= |es| && forall k | k in MapOf(es) :: dir <= k
    ensures Between(before, before + MapOf(es[..i]), dir, es)
  {
    var m := MapOf(es[..i]);
    assert forall k | k in m :: k in MapOf(es) by {
      forall k | k in m ensures k in MapOf(es) {
        MapOfKeys(es[..i], k);
        MapOfKeys(es, k);
        var j :| 0 <= j < i && es[..i][j].0 == k;
        assert es[j].0 == k;
      }
    }
    forall k | k in m ensures (k, m[k]) in es {
      MapOfValue(es[..i], k);
    }
  }

  lemma NothingIsBetween(before: Keyspace, dir: Str, es: seq<Entry>)
    requires forall k | k in MapOf(es) :: dir <= k
    ensures Between(before, before, dir, es)
  {
    PutsAreBetween(before, dir, es, 0);
    assert before + MapOf(es[..0]) == before;
  }

  lemma BrokenOffPuts(before: Keyspace, now: Keyspace, dir: Str, es: seq<Entry>, n: nat)
    requires n < |es| && forall k | k in MapOf(es) :: dir <= k
    requires now == before + MapOf(es[..n]) || now == before + MapOf(es[..n + 1])
    ensures Between(before, now, dir, es)
  {
    PutsAreBetween(before, dir, es, n);
    PutsAreBetween(before, dir, es, n + 1);
  }

  lemma DeletesAreBetween(before: Keyspace, dir: Str, es: seq<Entry>, gone: set<Str>)
    requires gone <= Stale(before, dir, es) && forall k | k in MapOf(es) :: dir <= k
    ensures Between(before, (before + MapOf(es)) - gone, dir, es)
  {
    assert es[..|es|] == es;
    PutsAreBetween(before, dir, es, |es|);
  }

  lemma LeastIsBelow(ks: set<Str>, k: Str)
    requires k in ks && forall j | j in ks :: LexLeq(k, j)
    ensures forall j | j in ks - {k} :: LexLess(k, j)
  {
    forall j | j in ks - {k} ensures LexLess(k, j) {
      assert LexLeq(k, j);
    }
  }

  lemma EntriesUnder(prefix: Str, gw: GatewayConfig, codec: Codec)
    ensures forall k | k in MapOf(Entries(prefix, gw, codec)) :: Dir(prefix) <= k
  {
    EntriesHoldKinds(prefix, gw, codec);
  }

  lemma NoPuts(before: Keyspace, es: seq<Entry>)
    ensures before + MapOf(es[..0]) == before && es[..|es|] == es
  {
  }

  lemma NextPut(before: Keyspace, es: seq<Entry>, i: nat)
    requires i < |es|
    ensures before + MapOf(es[..i + 1]) == (before + MapOf(es[..i]))[es[i].0 := es[i].1]
  {
    assert es[..i + 1][..i] == es[..i];
  }

  lemma CommitReconciles(before: Keyspace, dir: Str, es: seq<Entry>)
    ensures (before + MapOf(es)) - Stale(before, dir, es) == Reconciled(before, dir, es)
  {
  }

  class EtcdConfigStore {
    const prefix: Str
    const codec: Codec
    /** The server's keyspace. */
    var kv: Keyspace
    /** How many more calls the server answers. */
    var answers: nat

    constructor (prefix: Str, codec: Codec, kv: Keyspace, answers: nat)
      ensures this.prefix == prefix && this.codec == codec && this.kv == kv && this.answers == answers
    {
      this.prefix, this.codec, this.kv, this.answers := prefix, codec, kv, answers;
    }

    /** The server's side of a range request: the selected pairs in key order. */
    method Range(start: Str, end: Str) returns (r: Option<seq<Entry>>)
      modifies this`answers
      ensures r.Some? <==> old(answers) > 0
      ensures answers == if old(answers) > 0 then old(answers) - 1 else 0
      ensures r.Some? ==> ListsPairs(r.value, map k | k in kv && InRange(k, start, end) :: kv[k])
    {
      if answers == 0 {
        return None;
      }
      answers := answers - 1;
      var selected := map k | k in kv && InRange(k, start, end) :: kv[k];
      var left := selected.Keys;
      var out: seq<Entry> := [];
      while left != {}
        invariant left <= selected.Keys && KeysSorted(out) && answers == old(answers) - 1
        invariant forall i | 0 <= i < |out| :: out[i].0 in selected && selected[out[i].0] == out[i].1
        invariant forall i, k | 0 <= i < |out| && k in left :: LexLess(out[i].0, k)
        invariant forall k | k in selected && k !in left :: (k, selected[k]) in out
        decreases left
      {
        ghost var least := HasLeast(left);
        var k :| k in left && forall j | j in left :: LexLeq(k, j);
        LeastIsBelow(left, k);
        out := out + [(k, selected[k])];
        left := left - {k};
      }
      r := Some(out);
    }

    /** All pairs under the prefix; a key that is not text is an error. */
    method RangePrefix() returns (r: Result<seq<Entry>, StoreError>)
      modifies this`answers
      ensures answers == if old(answers) > 0 then old(answers) - 1 else 0
      ensures var kvs := Listing(kv, Dir(prefix));
              r == if old(answers) == 0 then Err(Unreachable)
                   else if !KeysAreUtf8(kvs) then Err(Load(BadKey)) else Ok(kvs)
    {
      var key := Dir(prefix);
      var end := PrefixRangeEnd(key);
      var answer := Range(key, end);
      if answer.None? {
        return Err(Unreachable);
      }
      RangeIsListing(kv, key, answer.value);
      for i := 0 to |answer.value|
        invariant forall j | 0 <= j < i :: Utf8.IsUtf8(answer.value[j].0)
      {
        if !Utf8.IsUtf8(answer.value[i].0) {
          return Err(Load(BadKey));
        }
      }
      r := Ok(answer.value);
    }

    method LoadAll() returns (r: Result<GatewayConfig, StoreError>)
      modifies this`answers
      ensures answers == if old(answers) > 0 then old(answers) - 1 else 0
      ensures old(answers) == 0 ==> r == Err(Unreachable)
      ensures old(answers) > 0 ==>
                r == (match Loaded(kv, prefix, codec) case Ok(gw) => Ok(gw) case Err(e) => Err(Load(e)))
    {
      var kvs := RangePrefix();
      if kvs.Err? {
        return Err(kvs.error);
      }
      var gw := GatewayFromKvs(prefix, kvs.value, codec);
      r := match gw case Ok(g) => Ok(g) case Err(e) => Err(Load(e));
    }

    /** A put that is not answered may have been applied all the same: it timed out, or the reply was lost. */
    method Put(key: Str, value: Str) returns (ok: bool)
      modifies this
      ensures ok == (old(answers) > 0)
      ensures answers == if ok then old(answers) - 1 else 0
      ensures kv == old(kv)[key := value] || (!ok && kv == old(kv))
    {
      ok := answers > 0;
      if ok {
        kv := kv[key := value];
        answers := answers - 1;
      } else if * {
        kv := kv[key := value];
      }
    }

    /** A delete, likewise. */
    method Delete(key: Str) returns (ok: bool)
      modifies this
      ensures ok == (old(answers) > 0)
      ensures answers == if ok then old(answers) - 1 else 0
      ensures kv == old(kv) - {key} || (!ok && kv == old(kv))
    {
      ok := answers > 0;
      if ok {
        kv := kv - {key};
        answers := answers - 1;
      } else if * {
        kv := kv - {key};
      }
    }

    /** The put loops of `write_all` and `commit`, over the resources of all kinds in order. A loop that breaks
        off has applied the answered puts, in order, and perhaps the one without an answer. */
    method PutAll(es: seq<Entry>) returns (ok: bool)
      modifies this
      ensures ok <==> old(answers) >= |es|
      ensures ok ==> kv == old(kv) + MapOf(es) && answers == old(answers) - |es|
      ensures !ok ==> old(answers) < |es|
      ensures !ok ==> kv == old(kv) + MapOf(es[..old(answers)]) || kv == old(kv) + MapOf(es[..old(answers) + 1])
    {
      ghost var before := kv;
      NoPuts(before, es);
      for i := 0 to |es|
        invariant old(answers) == answers + i && kv == before + MapOf(es[..i])
      {
        NextPut(before, es, i);
        ok := Put(es[i].0, es[i].1);
        if !ok {
          assert old(answers) == i;
          return;
        }
      }
      ok := true;
    }

    method WriteAll(gw: GatewayConfig) returns (ok: bool)
      modifies this
      ensures ok <==> old(answers) >= |Entries(prefix, gw, codec)|
      ensures ok ==> kv == old(kv) + MapOf(Entries(prefix, gw, codec))
      ensures ok ==> answers == old(answers) - |Entries(prefix, gw, codec)|
      ensures !ok ==> exists i | 0 <= i <= |Entries(prefix, gw, codec)| ::
                kv == old(kv) + MapOf(Entries(prefix, gw, codec)[..i])
    {
      ok := PutAll(Entries(prefix, gw, codec));
    }

    /** Deletes a set of keys, in any order; `gone` are those deleted, answered or not. */
    method DeleteAll(keys: set<Str>) returns (ok: bool, ghost gone: set<Str>)
      modifies this
      ensures gone <= keys && kv == old(kv) - gone
      ensures ok <==> old(answers) >= |keys|
      ensures ok ==> gone == keys
    {
      var left := keys;
      gone := {};
      while left != {}
        invariant left <= keys && gone == keys - left && kv == old(kv) - gone
        invariant old(answers) == answers + |keys| - |left|
        decreases left
      {
        var k :| k in left;
        ok := Delete(k);
        if !ok {
          assert |left| > 0;
          gone := if k in kv then gone else gone + {k};
          return;
        }
        left := left - {k};
        gone := gone + {k};
      }
      ok := true;
    }

    /** The remote half of a commit: list what is there, put what is wanted, delete what is stale. */
    method Reconcile(es: seq<Entry>) returns (r: Result<(), StoreError>)
      requires forall k | k in MapOf(es) :: Dir(prefix) <= k
      modifies this
      ensures r.Ok? <==>
              && KeysAreUtf8(old(Listing(kv, Dir(prefix))))
              && old(answers) >= 1 + |es| + |Stale(old(kv), Dir(prefix), es)|
      ensures r.Ok? ==> kv == Reconciled(old(kv), Dir(prefix), es)
      ensures r.Err? ==> Between(old(kv), kv, Dir(prefix), es)
    {
      NothingIsBetween(kv, Dir(prefix), es);
      var current := RangePrefix();
      if current.Err? {
        return Err(current.error);
      }
      ListedKeys(kv, Dir(prefix));
      var currentKeys := set e | e in current.value :: e.0;
      var ok := PutAll(es);
      if !ok {
        BrokenOffPuts(old(kv), kv, Dir(prefix), es, old(answers) - 1);
        return Err(Unreachable);
      }
      var stale := currentKeys - MapOf(es).Keys;
      ghost var gone;
      ok, gone := DeleteAll(stale);
      if !ok {
        DeletesAreBetween(old(kv), Dir(prefix), es, gone);
        return Err(Unreachable);
      }
      CommitReconciles(old(kv), Dir(prefix), es);
      r := Ok(());
    }

    /** Validate, reconcile the server, apply locally. The running state changes only when every call was
        answered; a rejected candidate does not reach the server; a commit that breaks off leaves a keyspace on
        the way from the old one to the new one. */
    method Commit<P, W, S>(state: SharedState<P, W, S>, candidate: GatewayConfig) returns (r: Result<(), StoreError>)
      requires state.Valid()
      modifies this, state
      ensures state.Valid()
      ensures var rejection := Rejection(candidate, state.services);
              rejection.Some? ==> r == Err(Rejected(rejection.value)) && kv == old(kv)
      ensures var es := Entries(prefix, candidate, codec);
              r.Ok? <==>
              && Rejection(candidate, state.services).None?
              && KeysAreUtf8(old(Listing(kv, Dir(prefix))))
              && old(answers) >= 1 + |es| + |Stale(old(kv), Dir(prefix), es)|
      ensures r.Ok? ==> kv == Reconciled(old(kv), Dir(prefix), Entries(prefix, candidate, codec))
      ensures r.Ok? ==> state.gateway == candidate
      ensures r.Err? ==> Between(old(kv), kv, Dir(prefix), Entries(prefix, candidate, codec))
      ensures r.Err? ==> state.gateway == old(state.gateway) && state.routes == old(state.routes)
      ensures r.Err? ==> state.consumers == old(state.consumers)
    {
      var es := Entries(prefix, candidate, codec);
      EntriesUnder(prefix, candidate, codec);
      var valid := state.ValidateGateway(candidate);
      if valid.Err? {
        return Err(Rejected(valid.error));
      }
      var written := Reconcile(es);
      if written.Err? {
        return Err(written.error);
      }
      var applied := state.ApplyGateway(candidate);
      r := match applied case Ok(_) => Ok(()) case Err(e) => Err(Rejected(e));
    }
  }

  lemma RangeIsListing(kv: Keyspace, dir: Str, kvs: seq<Entry>)
    requires ListsPairs(kvs, map k | k in kv && InRange(k, dir, RangeEnd(dir)) :: kv[k])
    ensures kvs == Listing(kv, dir)
  {
    var m := map k | k in kv && InRange(k, dir, RangeEnd(dir)) :: kv[k];
    forall k | k in kv ensures k in m <==> dir <= k {
      RangeIsPrefix(k, dir);
    }
    ListingListsPairs(kv, dir, m);
    ListedUniquely(kvs, Listing(kv, dir), m);
  }

  function KeysOf(kvs: seq<Entry>): (ks: seq<Str>)
    ensures |ks| == |kvs| && forall i | 0 <= i < |kvs| :: ks[i] == kvs[i].0
  {
    seq(|kvs|, i requires 0 <= i < |kvs| => kvs[i].0)
  }

  lemma ListedUniquely(a: seq<Entry>, b: seq<Entry>, m: Keyspace)
    requires ListsPairs(a, m) && ListsPairs(b, m)
    ensures a == b
  {
    KeysListed(a, m);
    KeysListed(b, m);
    ListsUnique(KeysOf(a), KeysOf(b), m.Keys);
    assert |a| == |b|;
    forall i | 0 <= i < |a| ensures a[i] == b[i] {
      assert KeysOf(a)[i] == KeysOf(b)[i];
    }
  }

  lemma KeysListed(kvs: seq<Entry>, m: Keyspace)
    requires ListsPairs(kvs, m)
    ensures Lists(KeysOf(kvs), m.Keys)
  {
    forall k ensures k in KeysOf(kvs) <==> k in m.Keys {
      if k in m {
        assert (k, m[k]) in kvs;
        var i :| 0 <= i < |kvs| && kvs[i] == (k, m[k]);
        assert KeysOf(kvs)[i] == k;
      }
    }
  }

  lemma ListedKeys(kv: Keyspace, dir: Str)
    ensures (set e | e in Listing(kv, dir) :: e.0) == Under(kv, dir)
  {
    var m := map k | k in kv && dir <= k :: kv[k];
    ListingListsPairs(kv, dir, m);
    forall k | k in Under(kv, dir) ensures k in set e | e in Listing(kv, dir) :: e.0 {
      assert (k, m[k]) in Listing(kv, dir);
    }
  }
}
