/** What the other modules share: an optional value, counting the entries of a map, and scans that wrap
    around a table. */
module Common {

  datatype Option<+T> = None | Some(value: T)

  /** The keys whose value satisfies `p`. */
  ghost function Where<K, V>(m: map<K, V>, p: V -> bool): set<K> {
    set k <- m | p(m[k])
  }

  function One(b: bool): nat {
    if b then 1 else 0
  }

  function Min(a: nat, b: nat): nat {
    if a < b then a else b
  }

  lemma WhereUpdate<K, V>(m: map<K, V>, k: K, v: V, p: V -> bool)
    requires k in m
    ensures |Where(m[k := v], p)| == |Where(m, p)| + One(p(v)) - One(p(m[k]))
  {
    var rest := Where(m, p) - {k};
    assert Where(m, p) == if p(m[k]) then rest + {k} else rest;
    assert Where(m[k := v], p) == if p(v) then rest + {k} else rest;
  }

  // ---------------------------------------------------------------- scans that wrap around

  lemma OnlyZeroFits(d: int, n: int)
    requires -n < d * n < n
    ensures d == 0
  {
    assert d >= 1 ==> d * n >= n;
    assert d <= -1 ==> d * n <= -n;
  }

  lemma ModUnique(x: int, n: nat, q: int, r: int)
    requires n > 0 && x == q * n + r && 0 <= r < n
    ensures x % n == r && x / n == q
  {
    var d := x / n - q;
    assert d * n == r - x % n;
    OnlyZeroFits(d, n);
  }

  /** Step i of a scan from `start` looks at j exactly when j is i places after `start`. */
  lemma ScanPosition(n: nat, start: nat, i: nat, j: nat)
    requires i < n && j < n
    ensures (i + start) % n == j <==> (j - start) % n == i
  {
    if (i + start) % n == j {
      ModUnique(j - start, n, -((i + start) / n), i);
    } else if (j - start) % n == i {
      ModUnique(i + start, n, -((j - start) / n), j);
    }
  }
}
