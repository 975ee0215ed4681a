/** Big-endian words, as the tunnel envelope and the edge frame store them. */
module BigEndian {
  import opened Machine

  function Store32(n: U32): (r: seq<Byte>)
    ensures |r| == 4
  {
    [n / 0x100_0000 % 256, n / 0x1_0000 % 256, n / 256 % 256, n % 256]
  }

  function Load32(b: seq<Byte>): U32
    requires |b| >= 4
  {
    (b[0] as int) * 0x100_0000 + (b[1] as int) * 0x1_0000 + (b[2] as int) * 256 + (b[3] as int)
  }

  lemma {:induction false} LoadStore32(n: U32)
    ensures Load32(Store32(n)) == n
  {
    var q1, q2, q3 := n / 256, n / 0x1_0000, n / 0x100_0000;
    assert q2 == q1 / 256 && q3 == q2 / 256;
    assert n == q1 * 256 + n % 256 && q1 == q2 * 256 + q1 % 256 && q2 == q3 * 256 + q2 % 256 && q3 % 256 == q3;
  }

  lemma {:induction false} Digit(x: nat, y: Byte)
    ensures (x * 256 + y) / 256 == x && (x * 256 + y) % 256 == y
  {
  }

  lemma {:induction false} StoreLoad32(b: seq<Byte>)
    requires |b| == 4
    ensures Store32(Load32(b)) == b
  {
    var hi := (b[0] as int) * 256 + b[1] as int;
    var mid := hi * 256 + b[2] as int;
    var n := Load32(b);
    assert n as int == mid * 256 + b[3] as int;
    Digit(mid, b[3]);
    Digit(hi, b[2]);
    Digit(b[0], b[1]);
    assert n / 0x1_0000 == mid / 256 && n / 0x100_0000 == hi / 256;
  }

  /** The most significant byte comes first. */
  lemma {:induction false} BigEndianValue(n: U32)
    ensures var b := Store32(n);
      n == (b[0] as int) * 0x100_0000 + (b[1] as int) * 0x1_0000 + (b[2] as int) * 0x100 + b[3] as int
  {
    LoadStore32(n);
  }
}
