/** Lexicographic order of byte strings, and the upper bound of the keys with a given prefix. */
module Order {
  import opened Bytes

  predicate Less(a: bytes, b: bytes)
    decreases |a|
  {
    b != [] && (a == [] || a[0] < b[0] || (a[0] == b[0] && Less(a[1..], b[1..])))
  }

  /** Where two byte strings first differ, the one that ends there or has the smaller byte comes first. */
  predicate DiffersAt(a: bytes, b: bytes, i: nat) {
    && i <= |a| && i < |b| && a[..i] == b[..i]
    && (i == |a| || a[i] < b[i])
  }

  lemma SameFirst(a: bytes, b: bytes, i: nat)
    requires i <= |a| && i <= |b| && a[..i] == b[..i]
    ensures i > 0 ==> a[0] == b[0]
  {
    if i > 0 {
      assert a[..i][0] == b[..i][0];
    }
  }

  lemma {:induction false} LessIff(a: bytes, b: bytes)
    ensures Less(a, b) <==> exists i: nat :: DiffersAt(a, b, i)
    decreases |a|
  {
    if a != [] && b != [] && a[0] == b[0] {
      LessIff(a[1..], b[1..]);
      if exists i: nat :: DiffersAt(a[1..], b[1..], i) {
        var i: nat :| DiffersAt(a[1..], b[1..], i);
        assert a[..i + 1] == [a[0]] + a[1..][..i] && b[..i + 1] == [b[0]] + b[1..][..i];
        assert DiffersAt(a, b, i + 1);
      }
      if exists i: nat :: DiffersAt(a, b, i) {
        var i: nat :| DiffersAt(a, b, i);
        assert a[1..][..i - 1] == a[..i][1..] && b[1..][..i - 1] == b[..i][1..];
        assert DiffersAt(a[1..], b[1..], i - 1);
      }
    } else {
      if Less(a, b) {
        assert DiffersAt(a, b, 0);
      }
      forall i: nat | DiffersAt(a, b, i)
        ensures i == 0
      {
        SameFirst(a, b, i);
      }
    }
  }

  predicate AtMost(a: bytes, b: bytes) {
    !Less(b, a)
  }

  lemma {:induction false} LessIsTransitive(a: bytes, b: bytes, c: bytes)
    requires Less(a, b) && Less(b, c)
    ensures Less(a, c)
    decreases |a|
  {
    if a != [] && a[0] == b[0] && b[0] == c[0] {
      LessIsTransitive(a[1..], b[1..], c[1..]);
    }
  }

  lemma {:induction false} LessIsTotal(a: bytes, b: bytes)
    ensures Less(a, b) || a == b || Less(b, a)
    ensures !(Less(a, b) && Less(b, a))
    ensures !Less(a, a)
    decreases |a| + |b|
  {
    if a != [] && b != [] && a[0] == b[0] {
      LessIsTotal(a[1..], b[1..]);
      assert a == [a[0]] + a[1..] && b == [b[0]] + b[1..];
    }
    Irreflexive(a);
  }

  lemma {:induction false} Irreflexive(a: bytes)
    ensures !Less(a, a)
    decreases |a|
  {
    if a != [] {
      Irreflexive(a[1..]);
    }
  }

  lemma AtMostThenLess(a: bytes, b: bytes, c: bytes)
    requires AtMost(a, b) && Less(b, c)
    ensures Less(a, c)
  {
    LessIsTotal(a, b);
    if Less(a, b) {
      LessIsTransitive(a, b, c);
    }
  }

  lemma LessThenAtMost(a: bytes, b: bytes, c: bytes)
    requires Less(a, b) && AtMost(b, c)
    ensures Less(a, c)
  {
    LessIsTotal(b, c);
    if Less(b, c) {
      LessIsTransitive(a, b, c);
    }
  }

  /** Appending a zero byte gives the very next key. */
  lemma {:induction false} ZeroByteIsSuccessor(k: bytes, x: bytes)
    ensures Less(k, x) <==> AtMost(k + [0], x)
    decreases |k|
  {
    if k == [] && x != [] {
      assert k + [0] == [0] && !Less(x[1..], [0][1..]);
    }
    if k != [] {
      assert (k + [0])[1..] == k[1..] + [0];
    }
    if k != [] && x != [] && k[0] == x[0] {
      ZeroByteIsSuccessor(k[1..], x[1..]);
    }
  }

  predicate StartsWith(key: bytes, prefix: bytes) {
    |prefix| <= |key| && key[..|prefix|] == prefix
  }

  /** The last byte below 255 is raised and everything behind it dropped. */
  function Upper(prefix: bytes): Option<bytes>
    decreases |prefix|
  {
    if prefix == [] then None
    else
      var front, last := prefix[..|prefix| - 1], prefix[|prefix| - 1];
      if last != 255 then Some(front + [last + 1]) else Upper(front)
  }

  /** The same bound computed from the first byte. */
  lemma {:induction false} UpperFromFront(x: byte, rest: bytes)
    ensures Upper([x] + rest) ==
            match Upper(rest)
            case Some(bound) => Some([x] + bound)
            case None => if x != 255 then Some([x + 1]) else None
    decreases |rest|
  {
    var prefix := [x] + rest;
    if rest == [] {
      assert prefix[..0] == [] && [] + [x + 1] == [x + 1];
    } else {
      var front := rest[..|rest| - 1];
      assert prefix[..|prefix| - 1] == [x] + front;
      if rest[|rest| - 1] == 255 {
        UpperFromFront(x, front);
      } else {
        Assoc([x], front, [rest[|rest| - 1] + 1]);
      }
    }
  }

  predicate Below(key: bytes, upper: Option<bytes>) {
    upper.None? || Less(key, upper.value)
  }

  /** The keys with a prefix are exactly the keys between the prefix and its upper bound. */
  lemma {:induction false} PrefixIsRange(prefix: bytes, key: bytes)
    ensures StartsWith(key, prefix) <==> AtMost(prefix, key) && Below(key, Upper(prefix))
    decreases |prefix|
  {
    if prefix != [] {
      var x, rest := prefix[0], prefix[1..];
      assert prefix == [x] + rest;
      UpperFromFront(x, rest);
      if key != [] {
        PrefixIsRange(rest, key[1..]);
        assert key[0] == x ==> (StartsWith(key, prefix) <==> StartsWith(key[1..], rest)) by {
          if |prefix| <= |key| {
            assert key[..|prefix|] == [key[0]] + key[1..][..|rest|];
          }
        }
        if Upper(rest).Some? {
          assert ([x] + Upper(rest).value)[1..] == Upper(rest).value;
        } else if x != 255 {
          assert Upper(prefix) == Some([x + 1]) && !Less(key[1..], [x + 1][1..]);
        }
      }
    }
  }

  method PrefixExclusiveUpperBound(prefix: bytes) returns (r: Option<bytes>)
    ensures r == Upper(prefix)
    ensures forall key :: StartsWith(key, prefix) <==> AtMost(prefix, key) && Below(key, r)
  {
    forall key ensures StartsWith(key, prefix) <==> AtMost(prefix, key) && Below(key, Upper(prefix)) {
      PrefixIsRange(prefix, key);
    }
    var bound := prefix;
    var idx := |bound|;
    assert prefix[..idx] == prefix;
    while idx > 0
      invariant 0 <= idx <= |prefix| && bound == prefix
      invariant Upper(prefix) == Upper(prefix[..idx])
    {
      idx := idx - 1;
      assert prefix[..idx + 1][..idx] == prefix[..idx];
      if bound[idx] != 255 {
        bound := bound[idx := bound[idx] + 1];
        bound := bound[..idx + 1];
        assert bound == prefix[..idx] + [prefix[idx] + 1];
        return Some(bound);
      }
    }
    return None;
  }
}
