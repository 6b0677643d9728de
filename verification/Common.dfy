/** Vocabulary shared by the models: optional results, bytes and some facts about division. */
module Common {

  datatype Option<+T> = None | Some(value: T)

  datatype Result<+T, +E> = Success(value: T) | Failure(error: E)

  type byte = x: int | 0 <= x < 256

  /** No element occurs at two positions. */
  ghost predicate Distinct<T>(s: seq<T>) {
    forall i, j :: 0 <= i < j < |s| ==> s[i] != s[j]
  }

  function Zeros(n: nat): (r: seq<byte>)
    ensures |r| == n && forall i :: 0 <= i < n ==> r[i] == 0
  {
    seq(n, _ => 0)
  }

  // ----- division -----

  lemma DivModUnique(n: int, b: int, q: int, r: int)
    requires b > 0 && n == q * b + r && 0 <= r < b
    ensures n / b == q && n % b == r
  {
    var q', r' := n / b, n % b;
    assert q' * b + r' == n;
    assert (q - q') * b == q * b - q' * b == r' - r;
    SmallMultiple(q - q', b);
  }

  lemma SmallMultiple(x: int, b: int)
    requires b > 0 && -b < x * b < b
    ensures x == 0
  {
  }
}
