/** Small vocabulary shared by the models. */
module Common {
  datatype Option<+T> = None | Some(value: T)

  /** No value occurs at two positions. */
  ghost predicate NoDup<T>(s: seq<T>) {
    forall i, j :: 0 <= i < j < |s| ==> s[i] != s[j]
  }

  function Min(a: int, b: int): int { if a < b then a else b }

  function Max(a: int, b: int): int { if a > b then a else b }

  lemma MulLe(a: int, b: int, w: int)
    requires a <= b && 0 <= w
    ensures a * w <= b * w
  {
    assert (b - a) * w >= 0;
  }

  lemma MulNext(a: int, w: int)
    ensures (a + 1) * w == a * w + w
  {
  }

  lemma InConcat<T>(x: T, s: seq<T>, t: seq<T>)
    ensures x in s + t <==> x in s || x in t
  {
  }

  /** Quotient and remainder are determined by their equation. */
  lemma QuotientUnique(x: int, q: int, r: int, size: nat)
    requires x == q * size + r && 0 <= r < size
    ensures x % size == r && x / size == q
  {
    var p := x / size;
    assert x == p * size + x % size;
    if p < q {
      MulLe(p + 1, q, size);
      MulNext(p, size);
    } else if q < p {
      MulLe(q + 1, p, size);
      MulNext(q, size);
    }
  }

  /** A list without its k-th item. */
  function Without<T>(s: seq<T>, k: nat): seq<T>
    requires k < |s|
  {
    s[..k] + s[k + 1..]
  }
}
