/** Small datatypes and helpers shared by the components. */
module Common {
  datatype Option<+T> = None | Some(value: T)

  function Min(a: int, b: int): int { if a < b then a else b }

  function Max(a: int, b: int): int { if a < b then b else a }

  /** Decimal digits without leading zeros. */
  function Decimal(n: nat): string {
    if n < 10 then [DigitChar(n)] else Decimal(n / 10) + [DigitChar(n % 10)]
  }

  function DigitChar(d: int): char
    requires 0 <= d < 10
  {
    '0' + d as char
  }

  function Without<T>(s: seq<T>, k: nat): seq<T>
    requires k < |s|
  {
    s[..k] + s[k + 1..]
  }

  /** In a rearrangement of `es` the first element of `es` can be found and taken out. */
  lemma FindFirst<T>(ds: seq<T>, es: seq<T>) returns (k: nat)
    requires es != [] && multiset(ds) == multiset(es)
    ensures k < |ds| && ds[k] == es[0] && multiset(Without(ds, k)) == multiset(es[1..])
  {
    assert es[0] in multiset(ds);
    k :| 0 <= k < |ds| && ds[k] == es[0];
    assert ds == ds[..k] + [ds[k]] + ds[k + 1..];
    assert es == [es[0]] + es[1..];
    calc {
      multiset(Without(ds, k));
      multiset(ds[..k]) + multiset(ds[k + 1..]);
      multiset(ds) - multiset{ds[k]};
      multiset(es) - multiset{es[0]};
      multiset(es[1..]);
    }
  }
}
