/** Leaf rules of the wire: base 128 varints, and the 32-bit size words that the frame buffer
    stores in host (little-endian) order. */
module Wire {

  datatype Option<+T> = None | Some(value: T)

  type byte = b: int | 0 <= b < 0x100
  type bytes = seq<byte>

  type uint32 = n: int | 0 <= n < 0x1_0000_0000
  type uint64 = n: int | 0 <= n < 0x1_0000_0000_0000_0000

  /** Largest value of the C++ type int, which bounds every buffer and message size. */
  const INT_MAX := 0x7FFF_FFFF

  /** A length prefix above this is refused by the parser (INT_MAX less the parser's slop bytes). */
  const MAX_LENGTH := 0x7FFF_FFEF

  // ---------- Base 128 varints ----------

  /** The shortest varint of n: seven bits a byte, least significant first. */
  function Varint(n: nat): (s: bytes)
    ensures 1 <= |s|
  {
    if n < 0x80 then [n] else [0x80 + n % 0x80] + Varint(n / 0x80)
  }

  /** The size of Varint(n), computed without building it. */
  function VarintSize(n: nat): (k: nat)
    ensures k == |Varint(n)|
  {
    if n < 0x80 then 1 else 1 + VarintSize(n / 0x80)
  }

  /** What a reader found at the front of its input: nothing usable, or a value and its size. */
  datatype Scan = Stuck | Got(value: nat, size: nat)

  /** Reads a varint of at most limit bytes. The value is unreduced; callers truncate it. */
  function ReadVarint(s: bytes, limit: nat): (r: Scan)
    ensures r.Got? ==> 1 <= r.size <= limit && r.size <= |s|
  {
    if s == [] || limit == 0 then Stuck
    else if s[0] < 0x80 then Got(s[0], 1)
    else match ReadVarint(s[1..], limit - 1)
      case Stuck => Stuck
      case Got(high, k) => Got(s[0] - 0x80 + 0x80 * high, k + 1)
  }

  /** Reading undoes writing, whatever follows, as long as the limit admits the varint. */
  lemma {:induction false} ReadVarintUndoesVarint(n: nat, limit: nat, rest: bytes)
    requires |Varint(n)| <= limit
    ensures ReadVarint(Varint(n) + rest, limit) == Got(n, |Varint(n)|)
  {
    if n >= 0x80 {
      ReadVarintUndoesVarint(n / 0x80, limit - 1, rest);
      assert (Varint(n) + rest)[1..] == Varint(n / 0x80) + rest;
    }
  }

  /** A successful read does not look past the bytes it consumed. */
  lemma {:induction false} ReadVarintIsPrefixStable(s: bytes, t: bytes, limit: nat)
    requires ReadVarint(s, limit).Got?
    ensures ReadVarint(s + t, limit) == ReadVarint(s, limit)
  {
    if s[0] >= 0x80 {
      ReadVarintIsPrefixStable(s[1..], t, limit - 1);
      assert (s + t)[1..] == s[1..] + t;
    }
  }

  // ---------- What a varint is ----------

  /** Every byte but the last has its top bit set. */
  predicate IsVarint(s: bytes)
  {
    s != [] && s[|s| - 1] < 0x80 && forall i | 0 <= i < |s| - 1 :: s[i] >= 0x80
  }

  /** The number in the low seven bits of each byte, least significant group first. */
  function Groups(s: bytes): nat
  {
    if s == [] then 0 else s[0] % 0x80 + 0x80 * Groups(s[1..])
  }

  lemma {:induction false} VarintCons(b: byte, v: bytes)
    requires b >= 0x80 && IsVarint(v)
    ensures var s := [b] + v; IsVarint(s) && Groups(s) == b - 0x80 + 0x80 * Groups(v) && s[|s| - 1] == v[|v| - 1]
  {
    var s := [b] + v;
    assert s[1..] == v;
    forall i | 0 <= i < |s| - 1 ensures s[i] >= 0x80 {
      assert i > 0 ==> s[i] == v[i - 1];
    }
  }

  lemma {:induction false} ShortVarint(n: nat)
    requires n < 0x80
    ensures var s := Varint(n); IsVarint(s) && Groups(s) == n && |s| == 1
  {
    assert Varint(n)[1..] == [];
  }

  lemma {:induction false} LongVarint(n: nat)
    requires n >= 0x80
    ensures Varint(n) == [0x80 + n % 0x80] + Varint(n / 0x80) && n == n % 0x80 + 0x80 * (n / 0x80)
  {
  }

  /** A written varint carries its number, and spells out no leading zero group. */
  lemma {:induction false} VarintIsShortest(n: nat)
    ensures var s := Varint(n); IsVarint(s) && Groups(s) == n && (s[|s| - 1] == 0 ==> n == 0)
  {
    hide IsVarint, Groups, Varint;
    if n >= 0x80 {
      var b: byte, q := 0x80 + n % 0x80, n / 0x80;
      VarintIsShortest(q);
      VarintCons(b, Varint(q));
      LongVarint(n);
    } else {
      ShortVarint(n);
      ShortVarintByte(n);
    }
  }

  lemma {:induction false} ShortVarintByte(n: nat)
    requires n < 0x80
    ensures Varint(n) == [n]
  {
  }

  /** A reader takes any varint within its limit, shortest or not, for the number it carries. */
  lemma {:induction false} ReadVarintOfAny(v: bytes, limit: nat, rest: bytes)
    requires IsVarint(v)
    ensures ReadVarint(v + rest, limit) == if |v| <= limit then Got(Groups(v), |v|) else Stuck
  {
    if limit > 0 {
      if |v| > 1 {
        ReadVarintOfAny(v[1..], limit - 1, rest);
        assert (v + rest)[1..] == v[1..] + rest;
      } else {
        assert v[1..] == [];
      }
    }
  }

  /** And it takes nothing else. */
  lemma {:induction false} ReadVarintTakesOnlyVarints(s: bytes, limit: nat)
    requires ReadVarint(s, limit).Got?
    ensures var r := ReadVarint(s, limit); IsVarint(s[..r.size]) && Groups(s[..r.size]) == r.value && r.size <= limit
  {
    var n := ReadVarint(s, limit).size;
    if s[0] >= 0x80 {
      ReadVarintTakesOnlyVarints(s[1..], limit - 1);
      assert s[..n][1..] == s[1..][..n - 1];
    } else {
      assert s[..1][1..] == [];
    }
  }

  /** 128 to the power k. */
  function Pow128(k: nat): (p: nat)
    ensures p > 0
  {
    if k == 0 then 1 else 0x80 * Pow128(k - 1)
  }

  /** A varint has at most k bytes exactly when its value is below 128 to the k. */
  lemma {:induction false} VarintFits(n: nat, k: nat)
    requires k > 0
    ensures |Varint(n)| <= k <==> n < Pow128(k)
  {
    if n >= 0x80 {
      if k > 1 {
        VarintFits(n / 0x80, k - 1);
      } else {
        assert Pow128(1) == 0x80 * Pow128(0);
      }
    } else {
      assert Pow128(k) == 0x80 * Pow128(k - 1);
    }
  }

  /** Five bytes hold every uint32, ten bytes every uint64. */
  lemma {:induction false} VarintWidths(n: nat)
    ensures n < 0x1_0000_0000 ==> |Varint(n)| <= 5
    ensures n < 0x1_0000_0000_0000_0000 ==> |Varint(n)| <= 10
  {
    assert Pow128(5) == 0x8_0000_0000 by { PowFive(0); }
    assert Pow128(10) == 0x8_0000_0000 * 0x8_0000_0000 by { PowFive(0); PowFive(5); }
    VarintFits(n, 5);
    VarintFits(n, 10);
  }

  lemma {:induction false} PowFive(k: nat)
    ensures Pow128(k + 5) == 0x8_0000_0000 * Pow128(k)
  {
    assert Pow128(k + 5) == 0x80 * Pow128(k + 4);
    assert Pow128(k + 4) == 0x80 * Pow128(k + 3);
    assert Pow128(k + 3) == 0x80 * Pow128(k + 2);
    assert Pow128(k + 2) == 0x80 * Pow128(k + 1);
  }

  // ---------- 32-bit words ----------

  /** The four bytes of a uint32, least significant first. */
  function Le32(n: uint32): (s: bytes)
    ensures |s| == 4
  {
    [n % 0x100, n / 0x100 % 0x100, n / 0x1_0000 % 0x100, n / 0x100_0000]
  }

  /** The uint32 stored in the first four bytes. */
  function UnLe32(s: bytes): (n: uint32)
    requires |s| >= 4
  {
    var a: int, b: int, c: int, d: int := s[0], s[1], s[2], s[3];
    a + 0x100 * b + 0x1_0000 * c + 0x100_0000 * d
  }

  lemma {:induction false} UnLe32UndoesLe32(n: uint32, rest: bytes)
    ensures UnLe32(Le32(n) + rest) == n
  {
    var a, b, c := n / 0x100, n / 0x1_0000, n / 0x100_0000;
    assert n == n % 0x100 + 0x100 * a;
    assert a == a % 0x100 + 0x100 * (a / 0x100);
    assert a / 0x100 == b;
    assert b == b % 0x100 + 0x100 * (b / 0x100);
    assert b / 0x100 == c;
  }

  /** The C++ int with the bit pattern n. */
  function AsInt32(n: uint32): (i: int)
    ensures -0x8000_0000 <= i < 0x8000_0000 && (n - i) % 0x1_0000_0000 == 0
  {
    if n < 0x8000_0000 then n else n - 0x1_0000_0000
  }

  /** The bit pattern of the C++ int i. */
  function FromInt32(i: int): (n: uint32)
    requires -0x8000_0000 <= i < 0x8000_0000
    ensures AsInt32(n) == i
  {
    if i < 0 then i + 0x1_0000_0000 else i
  }
}
