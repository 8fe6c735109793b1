/** `str::split` on a one-element separator, and joining back. */
module Splitting {
  import opened Wrappers

  /** The parts after one more element in front: a separator opens a part, others extend the first. */
  function Prepend<T(==)>(c: T, parts: seq<seq<T>>, d: T): seq<seq<T>>
    requires parts != []
  {
    if c == d then [[]] + parts else [[c] + parts[0]] + parts[1..]
  }

  function Split<T(==)>(s: seq<T>, d: T): (r: seq<seq<T>>)
    ensures r != []
  {
    if s == [] then [[]] else Prepend(s[0], Split(s[1..], d), d)
  }

  function Join<T>(parts: seq<seq<T>>, d: T): seq<T>
    requires parts != []
  {
    if |parts| == 1 then parts[0] else parts[0] + [d] + Join(parts[1..], d)
  }

  lemma {:induction false} SplitWhole<T>(s: seq<T>, d: T)
    requires d !in s
    ensures Split(s, d) == [s]
  {
    if s != [] {
      SplitWhole(s[1..], d);
      assert [s[0]] + s[1..] == s;
    }
  }

  lemma PrependConcat<T>(c: T, r: seq<seq<T>>, t: seq<seq<T>>, d: T)
    requires r != []
    ensures Prepend(c, r + t, d) == Prepend(c, r, d) + t
  {
    assert (r + t)[1..] == r[1..] + t;
  }

  /** A separator splits independently of what stands around it. */
  lemma {:induction false} SplitConcat<T>(a: seq<T>, b: seq<T>, d: T)
    ensures Split(a + [d] + b, d) == Split(a, d) + Split(b, d)
  {
    if a == [] {
      assert [] + [d] + b == [d] + b;
      assert ([d] + b)[1..] == b;
    } else {
      SplitConcat(a[1..], b, d);
      assert (a + [d] + b)[1..] == a[1..] + [d] + b;
      PrependConcat(a[0], Split(a[1..], d), Split(b, d), d);
    }
  }

  lemma {:induction false} JoinSplit<T>(s: seq<T>, d: T)
    ensures Join(Split(s, d), d) == s
  {
    if s != [] {
      JoinSplit(s[1..], d);
      var rest := Split(s[1..], d);
      if s[0] == d {
        assert ([[]] + rest)[1..] == rest;
      } else {
        assert ([[s[0]] + rest[0]] + rest[1..])[1..] == rest[1..];
      }
    }
  }

  lemma {:induction false} JoinConcat<T>(a: seq<seq<T>>, b: seq<seq<T>>, d: T)
    requires a != [] && b != []
    ensures Join(a + b, d) == Join(a, d) + [d] + Join(b, d)
  {
    if |a| == 1 {
      assert (a + b)[1..] == b;
    } else {
      assert (a + b)[1..] == a[1..] + b;
      JoinConcat(a[1..], b, d);
    }
  }

  /** The separator occurs in no part. */
  lemma {:induction false} SplitParts<T>(s: seq<T>, d: T)
    ensures forall p | p in Split(s, d) :: d !in p
  {
    if s != [] {
      SplitParts(s[1..], d);
      var rest := Split(s[1..], d);
      assert rest[0] in rest && forall p :: p in rest[1..] ==> p in rest;
    }
  }

  /** Joining parts that do not hold the separator, and splitting, gives the parts. */
  lemma {:induction false} SplitJoin<T>(parts: seq<seq<T>>, d: T)
    requires parts != [] && forall p | p in parts :: d !in p
    ensures Split(Join(parts, d), d) == parts
  {
    assert parts[0] in parts;
    SplitWhole(parts[0], d);
    if |parts| > 1 {
      assert forall p :: p in parts[1..] ==> p in parts;
      SplitJoin(parts[1..], d);
      SplitConcat(parts[0], Join(parts[1..], d), d);
      assert parts == [parts[0]] + parts[1..];
    }
  }

  /** `split_once`: at the first occurrence. */
  function SplitOnce<T(==)>(s: seq<T>, d: T): Option<(seq<T>, seq<T>)> {
    if s == [] then None
    else if s[0] == d then Some(([], s[1..]))
    else match SplitOnce(s[1..], d)
      case None => None
      case Some(p) => Some(([s[0]] + p.0, p.1))
  }

  lemma {:induction false} SplitOnceParts<T>(s: seq<T>, d: T)
    ensures match SplitOnce(s, d)
            case None => d !in s
            case Some(p) => d !in p.0 && s == p.0 + [d] + p.1
  {
    if s != [] && s[0] != d {
      SplitOnceParts(s[1..], d);
      assert s == [s[0]] + s[1..];
    }
  }

  lemma {:induction false} SplitOnceAtFirst<T>(a: seq<T>, b: seq<T>, d: T)
    requires d !in a
    ensures SplitOnce(a + [d] + b, d) == Some((a, b))
  {
    var s := a + [d] + b;
    if a == [] {
      assert s[1..] == b;
    } else {
      assert s[1..] == a[1..] + [d] + b;
      SplitOnceAtFirst(a[1..], b, d);
      assert [a[0]] + a[1..] == a;
    }
  }
}
