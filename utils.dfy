/** The comparator: position-wise mismatch count between two strings. */
module Utils {

  function Min(a: int, b: int): int
  {
    if a <= b then a else b
  }

  /** Number of positions at which `a` and `b` differ. Like Python's `zip`,
      only the common prefix of length Min(|a|, |b|) is compared; the tail of
      the longer argument is ignored rather than rejected. */
  function HammingDistance(a: string, b: string): (d: nat)
    ensures d <= Min(|a|, |b|)
  {
    if |a| == 0 || |b| == 0 then 0
    else (if a[0] != b[0] then 1 else 0) + HammingDistance(a[1..], b[1..])
  }

  /** Indices inside the common prefix where the two strings disagree. */
  ghost function MismatchIndices(a: string, b: string): set<nat>
  {
    set i: nat | i < |a| && i < |b| && a[i] != b[i]
  }

  lemma {:induction false} HammingSelf(s: string)
    ensures HammingDistance(s, s) == 0
  {
    if |s| > 0 {
      HammingSelf(s[1..]);
    }
  }

  lemma {:induction false} HammingSymmetric(a: string, b: string)
    ensures HammingDistance(a, b) == HammingDistance(b, a)
  {
    if |a| > 0 && |b| > 0 {
      HammingSymmetric(a[1..], b[1..]);
    }
  }

  /** Characters beyond the shorter argument never count: extending the
      longer argument leaves the distance unchanged, on either side. */
  lemma {:induction false} HammingIgnoresTail(a: string, b: string, t: string)
    requires |a| <= |b|
    ensures HammingDistance(a, b + t) == HammingDistance(a, b)
    ensures HammingDistance(b + t, a) == HammingDistance(b, a)
  {
    if |a| > 0 {
      assert (b + t)[1..] == b[1..] + t;
      HammingIgnoresTail(a[1..], b[1..], t);
    }
    HammingSymmetric(a, b + t);
    HammingSymmetric(a, b);
  }

  /** The distance of two strings equals that of their common prefixes. */
  lemma {:induction false} HammingCommonPrefix(a: string, b: string)
    ensures HammingDistance(a, b) == HammingDistance(a[..Min(|a|, |b|)], b[..Min(|a|, |b|)])
  {
    var n := Min(|a|, |b|);
    if |a| <= |b| {
      assert a[..n] == a;
      assert b == b[..n] + b[n..];
      HammingIgnoresTail(a, b[..n], b[n..]);
    } else {
      assert b[..n] == b;
      assert a == a[..n] + a[n..];
      HammingIgnoresTail(b, a[..n], a[n..]);
    }
  }

  /** For equal-length strings, distance zero means equality, and back. */
  lemma {:induction false} HammingZeroIff(a: string, b: string)
    requires |a| == |b|
    ensures HammingDistance(a, b) == 0 <==> a == b
  {
    if |a| > 0 {
      HammingZeroIff(a[1..], b[1..]);
      assert a == [a[0]] + a[1..];
      assert b == [b[0]] + b[1..];
      if a == b {
        HammingSelf(a);
      }
    }
  }

  /** Appending one aligned pair adds one exactly when the pair differs. */
  lemma {:induction false} HammingSnoc(a: string, b: string, x: char, y: char)
    requires |a| == |b|
    ensures HammingDistance(a + [x], b + [y])
         == HammingDistance(a, b) + (if x != y then 1 else 0)
  {
    if |a| > 0 {
      assert (a + [x])[1..] == a[1..] + [x];
      assert (b + [y])[1..] == b[1..] + [y];
      HammingSnoc(a[1..], b[1..], x, y);
    } else {
      assert a + [x] == [x];
      assert b + [y] == [y];
    }
  }

  lemma {:induction false} HammingCountsBelow(a: string, b: string, n: nat)
    requires n <= |a| && n <= |b|
    ensures HammingDistance(a[..n], b[..n])
         == |set i: nat | i < n && a[i] != b[i]|
  {
    if n > 0 {
      var m := n - 1;
      HammingCountsBelow(a, b, m);
      assert a[..n] == a[..m] + [a[m]];
      assert b[..n] == b[..m] + [b[m]];
      HammingSnoc(a[..m], b[..m], a[m], b[m]);
      var below := set i: nat | i < m && a[i] != b[i];
      var upTo := set i: nat | i < n && a[i] != b[i];
      if a[m] != b[m] {
        assert upTo == below + {m};
      } else {
        assert upTo == below;
      }
    }
  }

  /** The recursive comparator agrees with the direct reading "the number of
      indices in the common prefix where the characters differ". */
  lemma {:induction false} HammingCountsMismatches(a: string, b: string)
    ensures HammingDistance(a, b) == |MismatchIndices(a, b)|
  {
    var n := Min(|a|, |b|);
    HammingCommonPrefix(a, b);
    HammingCountsBelow(a, b, n);
    assert MismatchIndices(a, b) == set i: nat | i < n && a[i] != b[i];
  }
}
