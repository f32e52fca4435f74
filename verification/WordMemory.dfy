/** Memory as 32-bit words.  Addresses are byte offsets; byte a is byte a%4 of the word at
    a - a%4, counted from the least significant one. */
module WordMemory {
  const WORD_LIMIT := 0x1_0000_0000

  type Word = w: int | 0 <= w < WORD_LIMIT

  type Byte = b: int | 0 <= b < 256

  /** Word addresses (multiples of 4) to the words stored there. */
  type Memory = map<int, Word>

  /** The word at p; total, so that predicates about memory need no bounds. */
  function Get(m: Memory, p: int): Word
  {
    if p in m then m[p] else 0
  }

  function ByteOf(w: Word, k: int): Byte
    requires 0 <= k < 4
  {
    if k == 0 then w % 256
    else if k == 1 then w / 0x100 % 256
    else if k == 2 then w / 0x1_0000 % 256
    else w / 0x100_0000
  }

  function Pack4(b0: Byte, b1: Byte, b2: Byte, b3: Byte): Word
  {
    b0 + 0x100 * b1 + 0x1_0000 * b2 + 0x100_0000 * b3
  }

  lemma BytesOfPack4(b0: Byte, b1: Byte, b2: Byte, b3: Byte)
    ensures ByteOf(Pack4(b0, b1, b2, b3), 0) == b0
    ensures ByteOf(Pack4(b0, b1, b2, b3), 1) == b1
    ensures ByteOf(Pack4(b0, b1, b2, b3), 2) == b2
    ensures ByteOf(Pack4(b0, b1, b2, b3), 3) == b3
  {
    var w := Pack4(b0, b1, b2, b3);
    assert w % 256 == b0;
    assert w / 0x100 == b1 + 0x100 * (b2 + 0x100 * b3);
    assert w / 0x1_0000 == b2 + 0x100 * b3;
  }

  /** w with byte k replaced by v. */
  function WithByte(w: Word, k: int, v: Byte): (r: Word)
    requires 0 <= k < 4
    ensures forall j :: 0 <= j < 4 ==> ByteOf(r, j) == if j == k then v else ByteOf(w, j)
  {
    var b0 := if k == 0 then v else ByteOf(w, 0);
    var b1 := if k == 1 then v else ByteOf(w, 1);
    var b2 := if k == 2 then v else ByteOf(w, 2);
    var b3 := if k == 3 then v else ByteOf(w, 3);
    BytesOfPack4(b0, b1, b2, b3);
    Pack4(b0, b1, b2, b3)
  }

  /** The byte at address a. */
  function Load(m: Memory, a: int): Byte
  {
    ByteOf(Get(m, a - a % 4), a % 4)
  }

  /** The n bytes from address a on. */
  function LoadBytes(m: Memory, a: int, n: nat): (r: seq<Byte>)
    ensures |r| == n
    ensures forall k :: 0 <= k < n ==> r[k] == Load(m, a + k)
  {
    seq<Byte>(n, k => Load(m, a + k))
  }

  /** Bytes are unchanged where the words holding them are. */
  lemma LoadBytesKept(m1: Memory, m2: Memory, a: int, n: nat)
    requires a % 4 == 0
    requires forall p {:trigger Get(m2, p)} :: a <= p < a + n && p % 4 == 0 ==> Get(m2, p) == Get(m1, p)
    ensures LoadBytes(m2, a, n) == LoadBytes(m1, a, n)
  {
    forall k | 0 <= k < n
      ensures LoadBytes(m2, a, n)[k] == LoadBytes(m1, a, n)[k]
    {
      var p := a + k - (a + k) % 4;
      assert a <= p < a + n && p % 4 == 0;
      assert Get(m2, p) == Get(m1, p);
    }
  }
}
