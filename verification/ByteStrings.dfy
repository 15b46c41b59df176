/** Byte strings: the 8-bit additive checksum and first-occurrence search. */
module ByteStrings {
  type byte = x: int | 0 <= x < 256
  type Bytes = seq<byte>

  function Sum(s: Bytes): nat {
    if s == [] then 0 else s[0] + Sum(s[1..])
  }

  function Checksum(s: Bytes): byte {
    Sum(s) % 256
  }

  lemma {:induction false} SumConcat(a: Bytes, b: Bytes)
    ensures Sum(a + b) == Sum(a) + Sum(b)
  {
    if a == [] {
      assert a + b == b;
    } else {
      assert (a + b)[1..] == a[1..] + b;
      SumConcat(a[1..], b);
    }
  }

  lemma SumOfThree(a: byte, b: byte, c: byte)
    ensures Sum([a, b, c]) == a as int + b as int + c as int
  {
    SumConcat([a], [b, c]);
    SumConcat([b], [c]);
    assert [a] + [b, c] == [a, b, c] && [b] + [c] == [b, c];
  }

  lemma SumOfFour(a: byte, b: byte, c: byte, d: byte)
    ensures Sum([a, b, c, d]) == a as int + b as int + c as int + d as int
  {
    SumConcat([a], [b, c, d]);
    SumOfThree(b, c, d);
    assert [a] + [b, c, d] == [a, b, c, d];
  }

  lemma {:induction false} SumUpdate(s: Bytes, i: nat, v: byte)
    requires i < |s|
    ensures Sum(s[i := v]) == Sum(s) - s[i] + v
  {
    if i == 0 {
      assert s[0 := v][1..] == s[1..];
    } else {
      assert s[i := v][1..] == s[1..][i - 1 := v];
      SumUpdate(s[1..], i - 1, v);
    }
  }

  /** `pat` occurs in `s` at `i`. */
  predicate OccursAt(s: Bytes, pat: Bytes, i: int) {
    0 <= i <= i + |pat| <= |s| && s[i..i + |pat|] == pat
  }

  /** `bytes.find` from index `from`: the least index at which `pat` occurs, or -1. */
  function FindFrom(s: Bytes, pat: Bytes, from: nat): (i: int)
    requires from <= |s|
    ensures i == -1 || from <= i <= |s|
    ensures i >= 0 ==> OccursAt(s, pat, i)
    ensures forall j :: from <= j <= |s| && (i < 0 || j < i) ==> !OccursAt(s, pat, j)
    decreases |s| - from
  {
    if OccursAt(s, pat, from) then from
    else if from == |s| then -1
    else FindFrom(s, pat, from + 1)
  }

  function Find(s: Bytes, pat: Bytes): (i: int)
    ensures i == -1 || (0 <= i <= |s| && OccursAt(s, pat, i))
    ensures forall j :: 0 <= j <= |s| && (i < 0 || j < i) ==> !OccursAt(s, pat, j)
  {
    FindFrom(s, pat, 0)
  }

  const POWERS: seq<nat> := [1, 2, 4, 8, 16, 32, 64, 128]

  /** `(b >> bit) & 1` */
  function BitOf(b: byte, bit: nat): (v: nat)
    requires bit < 8
    ensures v <= 1
  {
    b / POWERS[bit] % 2
  }

  lemma LowNibble(n: nat)
    ensures n == n % 2 + 2 * (n / 2 % 2) + 4 * (n / 4 % 2) + 8 * (n / 8 % 2) + 16 * (n / 16)
  {
    var half, quarter, eighth := n / 2, n / 4, n / 8;
    assert n == 2 * half + n % 2 && half == 2 * quarter + half % 2;
    assert quarter == 2 * eighth + quarter % 2 && eighth == 2 * (n / 16) + eighth % 2;
  }

  lemma BitsAre(b: byte)
    ensures BitOf(b, 0) == b % 2 && BitOf(b, 1) == b / 2 % 2 && BitOf(b, 2) == b / 4 % 2 && BitOf(b, 3) == b / 8 % 2
    ensures BitOf(b, 4) == b / 16 % 2 && BitOf(b, 5) == b / 32 % 2
    ensures BitOf(b, 6) == b / 64 % 2 && BitOf(b, 7) == b / 128 % 2
  {
  }

  lemma HighNibble(b: byte)
    ensures b / 32 == b / 16 / 2 && b / 64 == b / 16 / 4 && b / 128 == b / 16 / 8 && b / 16 / 16 == 0
  {
  }

  /** The eight bits, weighted, make up the byte. */
  lemma BitsMakeByte(b: byte)
    ensures b == BitOf(b, 0) + 2 * BitOf(b, 1) + 4 * BitOf(b, 2) + 8 * BitOf(b, 3)
                 + 16 * BitOf(b, 4) + 32 * BitOf(b, 5) + 64 * BitOf(b, 6) + 128 * BitOf(b, 7)
  {
    hide BitOf;
    BitsAre(b);
    LowNibble(b);
    LowNibble(b / 16);
    HighNibble(b);
  }
}
