/** Byte strings in the order the key-value store keeps them, and the bounds of the keys under a prefix. */
module ByteStrings {
  import opened Wrappers

  type byte = x: int | 0 <= x < 256
  type Bytes = seq<byte>

  /** Lexicographic order; a proper prefix comes first. */
  predicate Less(a: Bytes, b: Bytes) {
    b != [] && (a == [] || a[0] < b[0] || (a[0] == b[0] && Less(a[1..], b[1..])))
  }

  lemma {:induction false} LessIsTotal(a: Bytes, b: Bytes)
    ensures Less(a, b) || a == b || Less(b, a)
    ensures !(Less(a, b) && Less(b, a)) && !Less(a, a)
  {
    if a != [] && b != [] {
      LessIsTotal(a[1..], b[1..]);
      assert a == [a[0]] + a[1..] && b == [b[0]] + b[1..];
    }
    if a != [] {
      LessIsTotal(a[1..], a[1..]);
    }
  }

  lemma {:induction false} LessIsTransitive(a: Bytes, b: Bytes, c: Bytes)
    requires Less(a, b) && Less(b, c)
    ensures Less(a, c)
  {
    if a != [] && a[0] == b[0] == c[0] {
      LessIsTransitive(a[1..], b[1..], c[1..]);
    }
  }

  /** A common prefix does not matter. */
  lemma {:induction false} LessUnderPrefix(p: Bytes, a: Bytes, b: Bytes)
    ensures Less(p + a, p + b) <==> Less(a, b)
  {
    if p == [] {
      assert p + a == a && p + b == b;
    } else {
      LessUnderPrefix(p[1..], a, b);
      assert (p + a)[1..] == p[1..] + a && (p + b)[1..] == p[1..] + b;
    }
  }

  // ---------------------------------------------------------------- the end of a prefix

  /** The least string above everything that starts with `p`; none when there is nothing above. */
  function NextPrefix(p: Bytes): Option<Bytes> {
    if p == [] then None
    else
      var last, front := p[|p| - 1], p[..|p| - 1];
      if last != 255 then Some(front + [last + 1]) else NextPrefix(front)
  }

  predicate Below(k: Bytes, end: Option<Bytes>) {
    end.None? || Less(k, end.value)
  }

  lemma {:induction false} NextPrefixFromFront(x: byte, p: Bytes)
    ensures NextPrefix([x] + p) ==
            if NextPrefix(p).Some? then Some([x] + NextPrefix(p).value) else if x < 255 then Some([x + 1]) else None
  {
    var s := [x] + p;
    if p == [] {
      assert s == [x] && s[..0] == [] && NextPrefix(s[..0]) == None;
      assert x < 255 ==> s[..0] + [x + 1] == [x + 1];
    } else {
      var front := p[..|p| - 1];
      assert s[..|s| - 1] == [x] + front && s[|s| - 1] == p[|p| - 1];
      NextPrefixFromFront(x, front);
      assert p[|p| - 1] != 255 ==> [x] + front + [p[|p| - 1] + 1] == [x] + (front + [p[|p| - 1] + 1]);
    }
  }

  /** The keys that start with `p` are exactly those from `p` up to the end of the prefix. */
  lemma {:induction false} PrefixIsRange(p: Bytes, k: Bytes)
    ensures p <= k <==> !Less(k, p) && Below(k, NextPrefix(p))
  {
    if p != [] {
      assert p == [p[0]] + p[1..];
      NextPrefixFromFront(p[0], p[1..]);
      if k != [] {
        PrefixIsRange(p[1..], k[1..]);
        var next := NextPrefix(p[1..]);
        if next.Some? {
          assert ([p[0]] + next.value)[1..] == next.value;
        } else if p[0] < 255 {
          var end: Bytes := [p[0] + 1];
          assert end[1..] == [] && !Less(k[1..], []);
        }
        assert k == [k[0]] + k[1..];
        assert p <= k <==> p[0] == k[0] && p[1..] <= k[1..];
      }
    }
  }

  /** Nothing lies between a key and the key followed by a zero byte. */
  lemma {:induction false} NextKeyIsNext(k: Bytes, x: Bytes)
    ensures Less(x, k + [0]) <==> Less(x, k) || x == k
  {
    if k != [] && x != [] {
      NextKeyIsNext(k[1..], x[1..]);
      assert (k + [0])[1..] == k[1..] + [0];
      assert x == [x[0]] + x[1..] && k == [k[0]] + k[1..];
    }
  }

  /** The end of a prefix, found by dropping trailing 255s from a copy and raising the byte before them. */
  method NextBytesPrefixKey(prefix: Bytes) returns (r: Option<Bytes>)
    ensures r == NextPrefix(prefix)
    ensures forall k :: prefix <= k <==> !Less(k, prefix) && Below(k, r)
  {
    forall k
      ensures prefix <= k <==> !Less(k, prefix) && Below(k, NextPrefix(prefix))
    {
      PrefixIsRange(prefix, k);
    }
    if |prefix| == 0 {
      return None;
    }
    var end := new byte[|prefix|](i requires 0 <= i < |prefix| => prefix[i]);
    var n := |prefix|;
    assert end[..n] == prefix;
    while end[n - 1] == 255
      invariant 1 <= n <= end.Length && end[..n] == prefix[..n]
      invariant NextPrefix(prefix[..n]) == NextPrefix(prefix)
      decreases n
    {
      assert prefix[..n][..n - 1] == prefix[..n - 1] == end[..n - 1];
      n := n - 1;
      if n == 0 {
        return None;
      }
    }
    assert prefix[..n][..n - 1] == prefix[..n - 1] == end[..n - 1];
    end[n - 1] := end[n - 1] + 1;
    assert end[..n] == prefix[..n - 1] + [prefix[n - 1] + 1];
    return Some(end[..n]);
  }
}
