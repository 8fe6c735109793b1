/** Consumer identities: the store built from the declared consumers, and the lookup of a presented credential. */
module Consumers {
  import opened Wrappers
  import Text

  /** A JSON value, as far as credentials look into it. */
  datatype Json = String(text: string) | Object(fields: map<string, Json>) | Other(raw: string)

  datatype ConsumerConfig = ConsumerConfig(
    name: string,
    group: Option<string>,
    labels: map<string, string>,
    credentials: map<string, Json>)

  datatype Consumer = Consumer(
    name: string,
    group: Option<string>,
    labels: map<string, string>,
    credentials: map<string, Json>)

  datatype ConsumerStore = ConsumerStore(
    byName: map<string, Consumer>,
    byCredential: map<string, map<string, Consumer>>)

  datatype ConsumerError =
    | EmptyName
    | DuplicateName(name: string)
    | MissingField(name: string, authType: string, field: string)
    | SharedCredential(first: string, second: string, authType: string)

  function Resolved(c: ConsumerConfig): Consumer {
    Consumer(c.name, c.group, c.labels, c.credentials)
  }

  function PrimaryField(authType: string): string {
    if authType == "basic-auth" then "username"
    else if authType == "hmac-auth" then "access_key"
    else "key"
  }

  /** The string that a credential is indexed by, if it has one. */
  function Primary(authType: string, credential: Json): Option<string> {
    match credential
    case Object(fields) =>
      var field := PrimaryField(authType);
      if field in fields && fields[field].String? then Some(fields[field].text) else None
    case _ => None
  }

  /** What a credential of each type is indexed by. */
  lemma PrimarySpelled(authType: string, credential: Json)
    ensures PrimaryField("basic-auth") == "username" && PrimaryField("hmac-auth") == "access_key"
    ensures authType != "basic-auth" && authType != "hmac-auth" ==> PrimaryField(authType) == "key"
    ensures forall v :: Primary(authType, credential) == Some(v) <==>
              credential.Object? && PrimaryField(authType) in credential.fields
              && credential.fields[PrimaryField(authType)] == String(v)
  {
  }

  function FindByCredential(store: ConsumerStore, authType: string, value: string): Option<Consumer> {
    if authType in store.byCredential && value in store.byCredential[authType]
    then Some(store.byCredential[authType][value])
    else None
  }

  function Get(store: ConsumerStore, name: string): Option<Consumer> {
    if name in store.byName then Some(store.byName[name]) else None
  }

  // ---- What is accepted, and what the store then holds ----

  predicate Declares(c: ConsumerConfig, authType: string, value: string) {
    authType in c.credentials && Primary(authType, c.credentials[authType]) == Some(value)
  }

  predicate WellFormed(c: ConsumerConfig) {
    !Text.IsBlank(c.name) && forall t | t in c.credentials :: Primary(t, c.credentials[t]).Some?
  }

  /** Different names, and no credential in common. */
  ghost predicate Apart(c: ConsumerConfig, d: ConsumerConfig) {
    c.name != d.name && forall t, v | Declares(c, t, v) :: !Declares(d, t, v)
  }

  ghost predicate Acceptable(cs: seq<ConsumerConfig>) {
    && (forall i | 0 <= i < |cs| :: WellFormed(cs[i]))
    && (forall i, j | 0 <= i < j < |cs| :: Apart(cs[i], cs[j]))
  }

  /** Names and credentials lead to the consumers that declare them, and nothing else is found. */
  ghost predicate Indexes(store: ConsumerStore, cs: seq<ConsumerConfig>) {
    && (forall n | n in store.byName :: exists i :: 0 <= i < |cs| && cs[i].name == n)
    && (forall i | 0 <= i < |cs| :: Get(store, cs[i].name) == Some(Resolved(cs[i])))
    && (forall t, v | FindByCredential(store, t, v).Some? :: exists i :: 0 <= i < |cs| && Declares(cs[i], t, v))
    && (forall i, t, v | 0 <= i < |cs| && Declares(cs[i], t, v) ::
          FindByCredential(store, t, v) == Some(Resolved(cs[i])))
  }

  /** The error names something that is wrong with consumer `i`, given the ones before it. */
  ghost predicate Blames(cs: seq<ConsumerConfig>, i: nat, e: ConsumerError)
    requires i < |cs|
  {
    match e
    case EmptyName => Text.IsBlank(cs[i].name)
    case DuplicateName(n) => n == cs[i].name && exists j :: 0 <= j < i && cs[j].name == n
    case MissingField(n, t, f) =>
      n == cs[i].name && t in cs[i].credentials && Primary(t, cs[i].credentials[t]).None? && f == PrimaryField(t)
    case SharedCredential(a, b, t) =>
      b == cs[i].name && exists j, v :: 0 <= j < i && cs[j].name == a && Declares(cs[j], t, v) && Declares(cs[i], t, v)
  }

  // ---- Building it ----

  /** The credentials of `c` can all be indexed beside what the store holds. */
  predicate Fits(store: ConsumerStore, c: ConsumerConfig, t: string)
    requires t in c.credentials
  {
    var value := Primary(t, c.credentials[t]);
    value.Some? && FindByCredential(store, t, value.value).None?
  }

  /** The lookups after the credentials of the types `done` were added. */
  ghost predicate Extends(store: ConsumerStore, start: ConsumerStore, c: ConsumerConfig, done: set<string>) {
    && store.byName == start.byName
    && forall t, v :: FindByCredential(store, t, v)
         == if t in done && Declares(c, t, v) then Some(Resolved(c)) else FindByCredential(start, t, v)
  }

  function Indexed(store: ConsumerStore, t: string, v: string, consumer: Consumer): ConsumerStore {
    var index := if t in store.byCredential then store.byCredential[t] else map[];
    store.(byCredential := store.byCredential[t := index[v := consumer]])
  }

  lemma IndexedFinds(store: ConsumerStore, t: string, v: string, consumer: Consumer)
    ensures forall t', v' :: FindByCredential(Indexed(store, t, v, consumer), t', v')
              == if t' == t && v' == v then Some(consumer) else FindByCredential(store, t', v')
  {
  }

  /** The inner loop: the credentials of one consumer, in any order. */
  method AddCredentials(start: ConsumerStore, c: ConsumerConfig) returns (r: Result<ConsumerStore, ConsumerError>)
    ensures r.Ok? <==> forall t | t in c.credentials :: Fits(start, c, t)
    ensures r.Ok? ==> Extends(r.value, start, c, c.credentials.Keys)
    ensures r.Err? ==> exists t | t in c.credentials && !Fits(start, c, t) ::
              match Primary(t, c.credentials[t])
              case None => r.error == MissingField(c.name, t, PrimaryField(t))
              case Some(v) => r.error == SharedCredential(FindByCredential(start, t, v).value.name, c.name, t)
  {
    var store := start;
    var left := c.credentials.Keys;
    while left != {}
      invariant left <= c.credentials.Keys
      invariant Extends(store, start, c, c.credentials.Keys - left)
      invariant forall t | t in c.credentials && t !in left :: Fits(start, c, t)
      decreases left
    {
      var t :| t in left;
      var value := Primary(t, c.credentials[t]);
      if value.None? {
        assert !Fits(start, c, t);
        return Err(MissingField(c.name, t, PrimaryField(t)));
      }
      var existing := FindByCredential(store, t, value.value);
      assert existing == FindByCredential(start, t, value.value);
      if existing.Some? {
        assert !Fits(start, c, t);
        return Err(SharedCredential(existing.value.name, c.name, t));
      }
      IndexedFinds(store, t, value.value, Resolved(c));
      store := Indexed(store, t, value.value, Resolved(c));
      left := left - {t};
    }
    r := Ok(store);
  }

  /** A list with an unacceptable front is unacceptable. */
  lemma FrontFails(cs: seq<ConsumerConfig>, k: nat)
    requires k <= |cs| && !Acceptable(cs[..k])
    ensures !Acceptable(cs)
  {
    if Acceptable(cs) {
      assert forall i | 0 <= i < k :: cs[..k][i] == cs[i];
    }
  }

  lemma BlankName(cs: seq<ConsumerConfig>, i: nat)
    requires i < |cs| && Text.IsBlank(cs[i].name)
    ensures !Acceptable(cs[..i + 1]) && !Acceptable(cs) && Blames(cs, i, EmptyName)
  {
    assert cs[..i + 1][i] == cs[i];
    FrontFails(cs, i + 1);
  }

  lemma NameTaken(store: ConsumerStore, cs: seq<ConsumerConfig>, i: nat)
    requires i < |cs| && Indexes(store, cs[..i]) && cs[i].name in store.byName
    ensures !Acceptable(cs[..i + 1]) && !Acceptable(cs) && Blames(cs, i, DuplicateName(cs[i].name))
  {
    var j :| 0 <= j < |cs[..i]| && cs[..i][j].name == cs[i].name;
    NotApart(cs, j, i);
  }

  lemma NotApart(cs: seq<ConsumerConfig>, j: nat, i: nat)
    requires j < i < |cs| && !Apart(cs[j], cs[i])
    ensures !Acceptable(cs[..i + 1]) && !Acceptable(cs)
  {
    assert cs[..i + 1][j] == cs[j] && cs[..i + 1][i] == cs[i];
    FrontFails(cs, i + 1);
  }

  /** A credential that does not fit: it has no primary value, or an earlier consumer has the same. */
  lemma Refused(store: ConsumerStore, cs: seq<ConsumerConfig>, i: nat, t: string, e: ConsumerError)
    requires i < |cs| && Indexes(store, cs[..i]) && t in cs[i].credentials && !Fits(store, cs[i], t)
    requires match Primary(t, cs[i].credentials[t])
             case None => e == MissingField(cs[i].name, t, PrimaryField(t))
             case Some(v) => e == SharedCredential(FindByCredential(store, t, v).value.name, cs[i].name, t)
    ensures !Acceptable(cs[..i + 1]) && !Acceptable(cs) && Blames(cs, i, e)
  {
    match Primary(t, cs[i].credentials[t])
    case None =>
      assert cs[..i + 1][i] == cs[i] && !WellFormed(cs[i]);
      FrontFails(cs, i + 1);
    case Some(v) =>
      var j :| 0 <= j < |cs[..i]| && Declares(cs[..i][j], t, v);
      assert cs[..i][j] == cs[j] && Declares(cs[i], t, v);
      NotApart(cs, j, i);
  }

  lemma AddedIsApart(store: ConsumerStore, init: seq<ConsumerConfig>, c: ConsumerConfig)
    requires Acceptable(init) && Indexes(store, init) && !Text.IsBlank(c.name) && c.name !in store.byName
    requires forall t | t in c.credentials :: Fits(store, c, t)
    ensures Acceptable(init + [c])
  {
    var all := init + [c];
    forall i | 0 <= i < |init| ensures Apart(init[i], c) {
      assert Get(store, init[i].name).Some?;
      forall t, v | Declares(init[i], t, v) ensures !Declares(c, t, v) {
        assert FindByCredential(store, t, v).Some?;
      }
    }
    forall i, j | 0 <= i < j < |all| ensures Apart(all[i], all[j]) {
      assert all[i] == init[i] && (j < |init| ==> all[j] == init[j]);
    }
  }

  lemma AddedIsIndexed(
    store: ConsumerStore, added: ConsumerStore, init: seq<ConsumerConfig>, c: ConsumerConfig)
    requires Acceptable(init + [c]) && Indexes(store, init)
    requires added.byName == store.byName[c.name := Resolved(c)]
    requires forall t, v :: FindByCredential(added, t, v)
               == if Declares(c, t, v) then Some(Resolved(c)) else FindByCredential(store, t, v)
    ensures Indexes(added, init + [c])
  {
    var all := init + [c];
    assert all[|init|] == c;
    forall n | n in added.byName ensures exists i :: 0 <= i < |all| && all[i].name == n {
      if n != c.name {
        var i :| 0 <= i < |init| && init[i].name == n;
        assert all[i].name == n;
      }
    }
    forall i | 0 <= i < |all| ensures Get(added, all[i].name) == Some(Resolved(all[i])) {
      if i < |init| {
        assert Apart(all[i], all[|init|]) && all[i] == init[i];
      }
    }
    forall t, v | FindByCredential(added, t, v).Some? ensures exists i :: 0 <= i < |all| && Declares(all[i], t, v) {
      if !Declares(c, t, v) {
        var i :| 0 <= i < |init| && Declares(init[i], t, v);
        assert Declares(all[i], t, v);
      }
    }
    forall i, t, v | 0 <= i < |all| && Declares(all[i], t, v)
      ensures FindByCredential(added, t, v) == Some(Resolved(all[i]))
    {
      if i < |init| {
        assert Apart(all[i], all[|init|]) && all[i] == init[i];
      }
    }
  }

  lemma ConsumerAdded(store: ConsumerStore, added: ConsumerStore, cs: seq<ConsumerConfig>, i: nat)
    requires i < |cs| && Acceptable(cs[..i]) && Indexes(store, cs[..i])
    requires !Text.IsBlank(cs[i].name) && cs[i].name !in store.byName
    requires forall t | t in cs[i].credentials :: Fits(store, cs[i], t)
    requires added.byName == store.byName[cs[i].name := Resolved(cs[i])]
    requires forall t, v :: FindByCredential(added, t, v)
               == if Declares(cs[i], t, v) then Some(Resolved(cs[i])) else FindByCredential(store, t, v)
    ensures Acceptable(cs[..i + 1]) && Indexes(added, cs[..i + 1])
  {
    assert cs[..i + 1] == cs[..i] + [cs[i]];
    AddedIsApart(store, cs[..i], cs[i]);
    AddedIsIndexed(store, added, cs[..i], cs[i]);
  }

  /** `from_config`: accepts exactly the acceptable lists, whatever order it visits credentials in, and otherwise
      blames the first consumer that cannot be added. */
  method FromConfig(cs: seq<ConsumerConfig>) returns (r: Result<ConsumerStore, ConsumerError>)
    ensures r.Ok? <==> Acceptable(cs)
    ensures r.Ok? ==> Indexes(r.value, cs)
    ensures r.Err? ==> exists i | 0 <= i < |cs| ::
              Acceptable(cs[..i]) && !Acceptable(cs[..i + 1]) && Blames(cs, i, r.error)
  {
    var store := ConsumerStore(map[], map[]);
    for i := 0 to |cs|
      invariant Acceptable(cs[..i]) && Indexes(store, cs[..i])
    {
      var c := cs[i];
      if Text.IsBlank(c.name) {
        BlankName(cs, i);
        return Err(EmptyName);
      }
      if c.name in store.byName {
        NameTaken(store, cs, i);
        return Err(DuplicateName(c.name));
      }
      var named := store.(byName := store.byName[c.name := Resolved(c)]);
      assert forall t, v :: FindByCredential(named, t, v) == FindByCredential(store, t, v);
      var added := AddCredentials(named, c);
      if added.Err? {
        ghost var t :| t in c.credentials && !Fits(named, c, t) &&
          match Primary(t, c.credentials[t])
          case None => added.error == MissingField(c.name, t, PrimaryField(t))
          case Some(v) => added.error == SharedCredential(FindByCredential(named, t, v).value.name, c.name, t);
        Refused(store, cs, i, t, added.error);
        return Err(added.error);
      }
      ConsumerAdded(store, added.value, cs, i);
      store := added.value;
    }
    assert cs[..|cs|] == cs;
    r := Ok(store);
  }

  // ---- What follows ----

  /** A presented credential resolves to the consumer that declares it, and to no other. */
  lemma FoundIffDeclared(store: ConsumerStore, cs: seq<ConsumerConfig>, t: string, v: string, c: Consumer)
    requires Indexes(store, cs)
    ensures FindByCredential(store, t, v) == Some(c) <==>
              exists d :: d in cs && Declares(d, t, v) && c == Consumer(d.name, d.group, d.labels, d.credentials)
  {
    if FindByCredential(store, t, v) == Some(c) {
      var i :| 0 <= i < |cs| && Declares(cs[i], t, v);
      assert cs[i] in cs;
    }
    if d :| d in cs && Declares(d, t, v) && c == Consumer(d.name, d.group, d.labels, d.credentials) {
      var i :| 0 <= i < |cs| && cs[i] == d;
    }
  }

  lemma TwiceInAny(s: seq<ConsumerConfig>, i: nat, j: nat)
    requires i < j < |s| && s[i] == s[j]
    ensures multiset(s)[s[i]] >= 2
  {
    assert s == s[..j] + [s[j]] + s[j + 1..];
    assert s[..j][i] in multiset(s[..j]);
  }

  lemma {:induction false} TwicePlaces(s: seq<ConsumerConfig>, x: ConsumerConfig) returns (i: nat, j: nat)
    requires multiset(s)[x] >= 2
    ensures i < j < |s| && s[i] == s[j] == x
  {
    assert s == [s[0]] + s[1..];
    if s[0] == x {
      assert x in multiset(s[1..]);
      var k :| 0 <= k < |s[1..]| && s[1..][k] == x;
      i, j := 0, k + 1;
    } else {
      i, j := TwicePlaces(s[1..], x);
      i, j := i + 1, j + 1;
    }
  }

  lemma ApartSymmetric(c: ConsumerConfig, d: ConsumerConfig)
    ensures Apart(c, d) <==> Apart(d, c)
  {
  }

  lemma ApartAnywhere(a: seq<ConsumerConfig>, b: seq<ConsumerConfig>, i: nat, j: nat)
    requires Acceptable(a) && multiset(a) == multiset(b) && i < j < |b|
    ensures Apart(b[i], b[j])
  {
    assert b[i] in multiset(a) && b[j] in multiset(a);
    var p :| 0 <= p < |a| && a[p] == b[i];
    var q :| 0 <= q < |a| && a[q] == b[j];
    if b[i] == b[j] {
      TwiceInAny(b, i, j);
      p, q := TwicePlaces(a, b[i]);
    }
    ApartSymmetric(a[p], a[q]);
  }

  /** The order of the declarations does not matter to whether they are accepted. */
  lemma AcceptableInAnyOrder(a: seq<ConsumerConfig>, b: seq<ConsumerConfig>)
    requires multiset(a) == multiset(b)
    ensures Acceptable(a) <==> Acceptable(b)
  {
    if Acceptable(a) {
      AcceptableReordered(a, b);
    }
    if Acceptable(b) {
      AcceptableReordered(b, a);
    }
  }

  lemma AcceptableReordered(a: seq<ConsumerConfig>, b: seq<ConsumerConfig>)
    requires multiset(a) == multiset(b) && Acceptable(a)
    ensures Acceptable(b)
  {
    forall i | 0 <= i < |b| ensures WellFormed(b[i]) {
      assert b[i] in multiset(a);
    }
    forall i, j | 0 <= i < j < |b| ensures Apart(b[i], b[j]) {
      ApartAnywhere(a, b, i, j);
    }
  }

  /** Nor to what any lookup answers. */
  lemma SameLookupsInAnyOrder(
    s: ConsumerStore, t: ConsumerStore, a: seq<ConsumerConfig>, b: seq<ConsumerConfig>, authType: string, value: string)
    requires multiset(a) == multiset(b) && Indexes(s, a) && Indexes(t, b)
    ensures FindByCredential(s, authType, value) == FindByCredential(t, authType, value)
  {
    forall d ensures d in a <==> d in b {
      assert d in a <==> d in multiset(a);
    }
    forall c
      ensures FindByCredential(s, authType, value) == Some(c) <==> FindByCredential(t, authType, value) == Some(c)
    {
      FoundIffDeclared(s, a, authType, value, c);
      FoundIffDeclared(t, b, authType, value, c);
    }
  }
}
