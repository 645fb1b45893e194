/** Byte-addressed memories, block copies and pointer-sized loads and stores. */
module Memory {

  type Byte = x: int | 0 <= x < 256

  type Mem = int -> Byte

  /** sizeof(void *) on the 64-bit hosts the runtime is built for. */
  const PTR_SIZE := 8

  ghost predicate SameBytes(m: Mem, m': Mem) {
    forall a :: m(a) == m'(a)
  }

  /** The effect of memcpy and of the plugins' data_submit and data_retrieve. */
  function Copy(dst: Mem, to: int, src: Mem, from: int, n: nat): Mem {
    a => if to <= a < to + n then src(from + (a - to)) else dst(a)
  }

  /** Writes bs to the addresses from a on. */
  function Write(m: Mem, a: int, bs: seq<Byte>): Mem {
    b => if a <= b < a + |bs| then bs[b - a] else m(b)
  }

  /** The n bytes from address a on. */
  function Read(m: Mem, a: int, n: nat): (bs: seq<Byte>)
    ensures |bs| == n
    ensures forall b :: a <= b < a + n ==> bs[b - a] == m(b)
  {
    seq<Byte>(n, i requires 0 <= i => m(a + i))
  }

  // -------------------------------------------------------------- pointers

  /** The memory image of a pointer. */
  type Word = w: seq<Byte> | |w| == PTR_SIZE witness seq(PTR_SIZE, _ => 0)

  function LoadWord(m: Mem, a: int): Word {
    Read(m, a, PTR_SIZE)
  }

  function StoreWord(m: Mem, a: int, w: Word): Mem {
    Write(m, a, w)
  }

  /** The address a little-endian image stands for. */
  function Value(w: seq<Byte>): nat {
    if |w| == 0 then 0 else w[0] + 256 * Value(w[1..])
  }

  /** Byte i of v; negative values and values of more than 64 bits wrap around. */
  function Digit(v: int, i: nat): Byte
    decreases i
  {
    if i == 0 then v % 256 else Digit(v / 256, i - 1)
  }

  function Image(v: int): Word {
    seq<Byte>(PTR_SIZE, i requires 0 <= i => Digit(v, i))
  }

  /** Storing back a pointer that was loaded from m0 reinstates m0's bytes there, and no others. */
  lemma StoreOfLoad(m: Mem, m0: Mem, a: int, b: int)
    ensures StoreWord(m, a, LoadWord(m0, a))(b) == if a <= b < a + PTR_SIZE then m0(b) else m(b)
  {
  }

  lemma ReadCongruence(m: Mem, m': Mem, a: int, n: nat)
    requires SameBytes(m, m')
    ensures Read(m, a, n) == Read(m', a, n)
  {
    forall i | 0 <= i < n
      ensures Read(m, a, n)[i] == Read(m', a, n)[i]
    {
      assert m(a + i) == m'(a + i);
    }
  }

  // -------------------------------------------------------------- numbers

  function Pow256(n: nat): nat {
    if n == 0 then 1 else 256 * Pow256(n - 1)
  }

  function LittleEndian(v: nat, n: nat): (bs: seq<Byte>)
    ensures |bs| == n
    decreases n
  {
    if n == 0 then [] else [v % 256] + LittleEndian(v / 256, n - 1)
  }

  lemma {:induction false} ValueOfLittleEndian(v: nat, n: nat)
    requires v < Pow256(n)
    ensures Value(LittleEndian(v, n)) == v
    decreases n
  {
    if n > 0 {
      ValueOfLittleEndian(v / 256, n - 1);
      assert LittleEndian(v, n)[1..] == LittleEndian(v / 256, n - 1);
    }
  }

  lemma {:induction false} ValueIsZero(bs: seq<Byte>)
    ensures Value(bs) == 0 <==> forall i :: 0 <= i < |bs| ==> bs[i] == 0
    decreases |bs|
  {
    if |bs| > 0 {
      ValueIsZero(bs[1..]);
      assert forall i :: 1 <= i < |bs| ==> bs[i] == bs[1..][i - 1];
      assert forall i :: 0 <= i < |bs| - 1 ==> bs[1..][i] == bs[i + 1];
    }
  }

  lemma FourBytes()
    ensures Pow256(4) == 0x1_0000_0000
  {
    assert Pow256(1) == 256 && Pow256(2) == 256 * 256 && Pow256(3) == 256 * 256 * 256;
  }

  lemma EightBytes()
    ensures Pow256(8) == 0x1_0000_0000_0000_0000
  {
    FourBytes();
    assert Pow256(5) == 256 * Pow256(4) && Pow256(6) == 256 * Pow256(5) && Pow256(7) == 256 * Pow256(6);
  }

  // ------------------------------------------------------- pointer images

  /** The first n bytes of v. */
  function Digits(v: int, n: nat): (bs: seq<Byte>)
    ensures |bs| == n && forall i :: 0 <= i < n ==> bs[i] == Digit(v, i)
  {
    seq<Byte>(n, i requires 0 <= i => Digit(v, i))
  }

  lemma {:induction false} ValueOfDigits(v: int, n: nat)
    ensures Pow256(n) >= 1 && Value(Digits(v, n)) == v % Pow256(n)
    decreases n
  {
    if n > 0 {
      ValueOfDigits(v / 256, n - 1);
      assert Digits(v, n)[1..] == Digits(v / 256, n - 1);
      SplitModulo(v, Pow256(n - 1));
    }
  }

  lemma SplitModulo(v: int, p: int)
    requires p >= 1
    ensures v % (256 * p) == v % 256 + 256 * (v / 256 % p)
  {
    var q, r := v / 256 / p, v / 256 % p;
    assert v / 256 == q * p + r;
    assert v == 256 * (v / 256) + v % 256;
    assert v == (256 * p) * q + (v % 256 + 256 * r);
    QuotientIs(v, 256 * p, q, v % 256 + 256 * r);
  }

  lemma QuotientIs(v: int, m: int, q: int, r: int)
    requires m >= 1 && v == m * q + r && 0 <= r < m
    ensures v % m == r
  {
    var d, e := v / m, v % m;
    assert v == m * d + e;
    Distribute(m, d, q);
    if d > q {
      AtLeastOnce(m, d - q);
    } else if d < q {
      Distribute(m, q, d);
      AtLeastOnce(m, q - d);
    }
  }

  lemma Distribute(m: int, d: int, q: int)
    ensures m * (d - q) == m * d - m * q
  {
  }

  lemma AtLeastOnce(m: int, k: int)
    requires m >= 1 && k >= 1
    ensures m * k >= m
  {
  }

  /** A stored pointer has the value of the address, modulo the width of a pointer. */
  lemma ValueOfImage(v: int)
    ensures Value(Image(v)) == v % 0x1_0000_0000_0000_0000
  {
    EightBytes();
    ValueOfDigits(v, PTR_SIZE);
    assert Image(v) == Digits(v, PTR_SIZE);
  }
}
