/** Notions every subsystem shares. */
module Common {

  const WORD32: nat := 0x1_0000_0000
  const WORD64: nat := 0x1_0000_0000_0000_0000
  const UINT64_MAX: nat := WORD64 - 1

  datatype Option<T> = None | Some(value: T)

  function Min(a: nat, b: nat): (m: nat)
    ensures m <= a && m <= b && (m == a || m == b)
  {
    if a > b then b else a
  }

  function RoundUp4(n: nat): (r: nat)
    ensures n <= r < n + 4 && r % 4 == 0
  {
    (n + 3) / 4 * 4
  }

  /** No element occurs twice. */
  predicate Distinct<T(==)>(s: seq<T>) {
    forall i, j :: 0 <= i < j < |s| ==> s[i] != s[j]
  }

  lemma DistinctNone<T>()
    ensures Distinct<T>([])
  {
  }

  lemma DistinctMore<T>(s: seq<T>, x: T)
    requires Distinct(s) && x !in s
    ensures Distinct(s + [x])
  {
  }

  lemma DivideExactly(q: nat, p: nat, r: nat)
    requires r < p
    ensures (q * p + r) / p == q
  {
    var d := (q * p + r) / p;
    assert d * p <= q * p + r < d * p + p;
    assert d < q ==> (d + 1) * p <= q * p;
    assert d > q ==> (q + 1) * p <= d * p;
  }

  /** A piece of what stands somewhere stands there too. */
  lemma PieceStands<T>(whole: seq<T>, at: nat, part: seq<T>, o: nat, n: nat)
    requires at + |part| <= |whole| && whole[at..at + |part|] == part && o + n <= |part|
    ensures whole[at + o..at + o + n] == part[o..o + n]
  {
    var a, b := whole[at + o..at + o + n], part[o..o + n];
    forall i | 0 <= i < n ensures a[i] == b[i] {
      assert whole[at..at + |part|][o + i] == whole[at + (o + i)];
    }
  }

  /** Dividing by one number and then another is dividing by their product. */
  lemma DivideTwice(v: nat, k: nat, p: nat)
    requires k > 0 && p > 0
    ensures k * p > 0 && v / k / p == v / (k * p)
  {
    var q, r, s := v / k / p, v / k % p, v % k;
    assert v / k == q * p + r && v == k * (v / k) + s;
    assert k * (q * p + r) == q * (k * p) + k * r;
    assert k * (r + 1) <= k * p;
    assert k * (r + 1) == k * r + k;
    DivideExactly(q, k * p, k * r + s);
  }
}
