module Numbers {
  function Max(a: int, b: int): int { if b > a then b else a }

  function Min(a: int, b: int): int { if b < a then b else a }

  predicate Distinct(s: seq<int>) {
    forall i, j | 0 <= i < j < |s| :: s[i] != s[j]
  }
}
