/** Messages cut into blocks, of which the last is held back until it is known to be the last. */
module HeldBack {
  import opened Arith
  import opened ByteStrings

  /** Where the last block of n bytes begins; it has 1 to b bytes, and none when there are none. */
  function LastAt(n: nat, b: nat): (at: nat)
    requires b > 0
    ensures at <= n <= at + b && at % b == 0 && (n > 0 ==> at < n)
  {
    if n == 0 then 0 else
      var q := (n - 1) / b;
      ModOfMultiple(q, b);
      q * b
  }

  /** A whole number of blocks and the 1 to b bytes after them. */
  lemma LastAtIs(m: Bytes, done: Bytes, held: Bytes, b: nat)
    requires b > 0 && m == done + held && |done| % b == 0 && |held| <= b && (m != [] ==> held != [])
    ensures LastAt(|m|, b) == |done| && m[LastAt(|m|, b)..] == held && m[..LastAt(|m|, b)] == done
  {
    hide LastAt;
    if m == [] {
      assert LastAt(0, b) == 0;
    } else if LastAt(|m|, b) <= |done| {
      MultipleGap(LastAt(|m|, b), |done|, b);
    } else {
      MultipleGap(|done|, LastAt(|m|, b), b);
    }
  }
}
