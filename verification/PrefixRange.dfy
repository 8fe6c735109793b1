/** etcd prefix ranges: which keys lie between a prefix and its computed range end. */
module PrefixRange {
  import opened Bytes

  /** "To the end of the keyspace". */
  const END_OF_KEYS: Str := [0]

  function RangeEnd(prefix: Str): (end: Str)
    ensures end != []
  {
    if prefix == [] then END_OF_KEYS
    else if prefix[|prefix| - 1] < 0xFF then prefix[..|prefix| - 1] + [(prefix[|prefix| - 1] as int) + 1]
    else RangeEnd(prefix[..|prefix| - 1])
  }

  method PrefixRangeEnd(prefix: Str) returns (end: Str)
    ensures end == RangeEnd(prefix)
  {
    end := prefix;
    while end != []
      invariant RangeEnd(end) == RangeEnd(prefix)
      decreases |end|
    {
      var last: int := end[|end| - 1];
      if last < 0xFF {
        end := end[..|end| - 1] + [last + 1];
        return;
      }
      end := end[..|end| - 1];
    }
    end := END_OF_KEYS;
  }

  /** What an etcd range request selects. */
  predicate InRange(k: Str, start: Str, end: Str) {
    LexLeq(start, k) && (end == END_OF_KEYS || LexLess(k, end))
  }

  /** The range end seen from the front of the prefix. */
  lemma {:induction false} RangeEndFront(c: Byte, rest: Str)
    ensures RangeEnd([c] + rest)
         == if RangeEnd(rest) != END_OF_KEYS then [c] + RangeEnd(rest)
            else if c < 0xFF then [(c as int) + 1] else END_OF_KEYS
    decreases |rest|
  {
    var s := [c] + rest;
    if rest == [] {
      assert s[..0] == [];
      assert RangeEnd([]) == END_OF_KEYS;
    } else {
      var init := rest[..|rest| - 1];
      assert s[..|s| - 1] == [c] + init && s[|s| - 1] == rest[|rest| - 1];
      if rest[|rest| - 1] == 0xFF {
        RangeEndFront(c, init);
      } else {
        var e := init + [(rest[|rest| - 1] as int) + 1];
        assert e != END_OF_KEYS by {
          assert e[|e| - 1] != 0;
        }
      }
    }
  }

  /** The range of a prefix selects exactly the keys that start with it, whatever run of 0xff it ends in. */
  lemma {:induction false} RangeIsPrefix(k: Str, prefix: Str)
    ensures InRange(k, prefix, RangeEnd(prefix)) <==> prefix <= k
  {
    if prefix == [] {
    } else if k == [] {
    } else {
      var c, rest := prefix[0], prefix[1..];
      assert prefix == [c] + rest;
      RangeEndFront(c, rest);
      if k[0] == c {
        RangeIsPrefix(k[1..], rest);
        SameHead(k, prefix);
        assert k == [c] + k[1..];
        if RangeEnd(rest) != END_OF_KEYS {
          assert ([c] + RangeEnd(rest))[1..] == RangeEnd(rest);
        }
      } else {
        OtherHead(k, c, RangeEnd(rest));
        assert !(prefix <= k);
      }
    }
  }

  /** A key that starts with another byte falls outside. */
  lemma OtherHead(k: Str, c: Byte, end: Str)
    requires k != [] && end != []
    ensures k[0] > c ==> !LexLess(k, [c] + end) && !LexLess(k, [(c as int) + 1])
    ensures [c] + end != END_OF_KEYS
  {
    assert |[c] + end| > 1;
  }

  lemma SameHead(k: Str, p: Str)
    requires k != [] && p != [] && k[0] == p[0]
    ensures LexLeq(p, k) == LexLeq(p[1..], k[1..])
    ensures p <= k <==> p[1..] <= k[1..]
  {
    assert k == [k[0]] + k[1..] && p == [p[0]] + p[1..];
  }
}
