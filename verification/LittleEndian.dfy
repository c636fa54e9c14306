/** Numbers as little-endian bytes, and as base-128 bytes with a continuation bit. */
module LittleEndian {
  import opened BitArithmetic
  import opened Wrappers

  function LowByte(x: int): byte {
    LowBounds(x, 8);
    assert Pow2(8) == 256;
    Low(x, 8)
  }

  function Num(bs: seq<byte>): nat {
    if bs == [] then 0 else bs[0] + Shl(Num(bs[1..]), 8)
  }

  function Bytes(x: int, n: nat): (bs: seq<byte>)
    ensures |bs| == n
    decreases n
  {
    if n == 0 then [] else [LowByte(x)] + Bytes(Shr(x, 8), n - 1)
  }

  /** A number stored in `n` bytes is cut to `8n` bits. */
  lemma {:induction false} NumOfBytes(x: int, n: nat)
    ensures Num(Bytes(x, n)) == Low(x, 8 * n)
    decreases n
  {
    hide Shl, Shr, Low, Pow2;
    LowNone(x);
    if n > 0 {
      NumOfBytes(Shr(x, 8), n - 1);
      LowOfLonger(x, 8, 8 * (n - 1));
    }
  }

  lemma ByteBound(b: byte)
    ensures b < Pow2(8)
  {
    assert Pow2(8) == 256;
  }

  lemma NumFirst(bs: seq<byte>)
    requires bs != []
    ensures Num(bs) == bs[0] + Shl(Num(bs[1..]), 8)
  {
  }

  lemma ShrOfNum(bs: seq<byte>)
    requires bs != []
    ensures Shr(Num(bs), 8) == Num(bs[1..]) && LowByte(Num(bs)) == bs[0]
  {
    hide Shl, Shr, Low, Num, Pow2;
    NumFirst(bs);
    ByteBound(bs[0]);
    ShrOfSum(bs[0], Num(bs[1..]), 8);
    LowOfSum(bs[0], Num(bs[1..]), 8, 8);
    LowOfSmall(bs[0], 8);
  }

  lemma {:induction false} BytesOfNum(bs: seq<byte>)
    ensures Bytes(Num(bs), |bs|) == bs && Num(bs) < Pow2(8 * |bs|)
  {
    hide Shl, Shr, Low, Pow2;
    if bs == [] {
      PowZero();
    } else {
      ShrOfNum(bs);
      BytesOfNum(bs[1..]);
      ByteBound(bs[0]);
      SumBounds(bs[0], Num(bs[1..]), 8, 8 * |bs[1..]|);
    }
  }

  lemma PowZero()
    ensures Pow2(0) == 1
  {
  }

  lemma {:induction false} NumOfConcat(a: seq<byte>, b: seq<byte>)
    ensures Num(a + b) == Num(a) + Shl(Num(b), 8 * |a|)
  {
    hide Shl, Low, Shr;
    if a == [] {
      assert a + b == b;
      ShlNone(Num(b));
    } else {
      NumOfConcat(a[1..], b);
      assert (a + b)[1..] == a[1..] + b;
      ShlAdds(Num(a[1..]), Shl(Num(b), 8 * |a[1..]|), 8);
      ShlTwice(Num(b), 8 * |a[1..]|, 8);
    }
  }

  lemma {:induction false} BytesAt(x: int, n: nat, i: nat)
    requires i < n
    ensures Bytes(x, n)[i] == LowByte(Shr(x, 8 * i))
    decreases n
  {
    hide Low, LowByte, Shr;
    if i == 0 {
      ShrNone(x);
    } else {
      BytesAt(Shr(x, 8), n - 1, i - 1);
      ShrTwice(x, 8, 8 * (i - 1));
    }
  }

  /** Byte `i` counts the powers of 256 below the next: the lowest comes first. */
  lemma ByteIs(x: int, n: nat, i: nat)
    requires i < n
    ensures Bytes(x, n)[i] == x / Pow2(8 * i) % 256
  {
    hide Shr, Low, Bytes;
    BytesAt(x, n, i);
    ShrDivides(x, 8 * i);
    ShrDivides(Shr(x, 8 * i), 8);
    assert Pow2(8) == 256;
  }

  lemma ByteOfNum(bs: seq<byte>, i: nat)
    requires i < |bs|
    ensures bs[i] == Num(bs) / Pow2(8 * i) % 256
  {
    hide Num, Pow2;
    BytesOfNum(bs);
    ByteIs(Num(bs), |bs|, i);
  }

  // ---------- fixed length

  method SetUintLe(value: int, size: nat) returns (buf: seq<byte>)
    ensures buf == Bytes(value, size)
  {
    hide Low, Shr, LowByte;
    buf := seq(size, i => 0);
    var rest := value;
    ShrNone(value);
    for i := 0 to size
      invariant |buf| == size && rest == Shr(value, 8 * i)
      invariant forall j | 0 <= j < i :: buf[j] == Bytes(value, size)[j]
    {
      BytesAt(value, size, i);
      ShrTwice(value, 8 * i, 8);
      buf := buf[i := LowByte(rest)];
      rest := Shr(rest, 8);
    }
  }

  /** The bytes that came, at most as many as asked for, as a number; None for a closed connection. */
  method GetUintLe(received: seq<byte>, size: nat) returns (r: Option<nat>)
    requires |received| <= size
    ensures r == if received == [] then None else Some(Num(received))
  {
    hide Shl, Pow2;
    if |received| == 0 {
      return None;
    }
    // the slice from size - 1 downwards begins at the last byte there is
    var value := 0;
    assert received[|received|..] == [];
    for i := (if |received| < size then |received| else size) downto 0
      invariant i <= |received| && value == Num(received[i..])
    {
      assert received[i..][0] == received[i] && received[i..][1..] == received[i + 1..];
      ByteBound(received[i]);
      OrIsSum(received[i], value, 8);
      OrCommutes(received[i], Shl(value, 8));
      value := Or(Shl(value, 8), received[i]);
    }
    assert received[0..] == received;
    r := Some(value);
  }

  // ---------- variable length

  /** Seven bits a byte, the lowest first; all bytes but the last have the high bit set. */
  function Uleb(v: nat): (bs: seq<byte>)
    ensures bs != []
  {
    if v < 0x80 then [v]
    else
      LowBounds(v, 7);
      assert Pow2(7) == 128;
      ShrLess(v, 7);
      [Low(v, 7) + 0x80] + Uleb(Shr(v, 7))
  }

  /** The value and the length of the number that a stream starts with; None when it ends first. */
  function UlebParse(s: seq<byte>): (r: Option<(nat, nat)>)
    ensures r.Some? ==> 0 < r.value.1 <= |s|
  {
    if s == [] then None
    else if s[0] < 0x80 then Some((s[0], 1))
    else
      match UlebParse(s[1..])
      case None => None
      case Some((v, n)) => Some((s[0] - 0x80 + Shl(v, 7), n + 1))
  }

  lemma UlebStep(v: nat)
    ensures Low(v, 7) < 0x80 && v == Low(v, 7) + Shl(Shr(v, 7), 7) && Shr(v, 7) >= 0
    ensures v < 0x80 ==> Shr(v, 7) == 0 && Low(v, 7) == v
    ensures v >= 0x80 ==> 0 < Shr(v, 7) < v
    ensures Pow2(7) == Shl(1, 7) == 0x80
  {
    assert Pow2(7) == 0x80;
    LowBounds(v, 7);
    Split(v, 7);
    if v < 0x80 {
      LowOfSmall(v, 7);
      ShrOfSum(v, 0, 7);
      ShlZero(7);
    } else {
      ShrLess(v, 7);
      ShlZero(7);
    }
  }

  /** Reading what was written gives the number back, and takes exactly its bytes. */
  lemma {:induction false} UlebRoundTrip(v: nat, rest: seq<byte>)
    ensures UlebParse(Uleb(v) + rest) == Some((v, |Uleb(v)|))
    decreases v
  {
    hide Shl, Shr, Low, Pow2;
    UlebStep(v);
    if v >= 0x80 {
      UlebRoundTrip(Shr(v, 7), rest);
      assert (Uleb(v) + rest)[1..] == Uleb(Shr(v, 7)) + rest;
    }
  }

  /** No sequence of bytes that is read as the number is shorter than the one written, and none
      of the same length is different. */
  lemma {:induction false} UlebIsMinimal(s: seq<byte>, v: nat)
    requires UlebParse(s) == Some((v, |s|))
    ensures |Uleb(v)| <= |s| && (|Uleb(v)| == |s| ==> s == Uleb(v))
    decreases |s|
  {
    hide Shl, Shr, Low, Pow2;
    UlebStep(v);
    if s[0] >= 0x80 {
      var (high, n) := UlebParse(s[1..]).value;
      LowOfSum(s[0] - 0x80, high, 7, 7);
      LowOfSmall(s[0] - 0x80, 7);
      ShrOfSum(s[0] - 0x80, high, 7);
      UlebIsMinimal(s[1..], high);
    }
  }

  lemma SevenBitsFrom(v: nat, i: nat)
    ensures i == 0 ==> v / Pow2(7 * i) % 128 == Low(v, 7)
    ensures i > 0 ==> 0 <= Shr(v, 7) && v / Pow2(7 * i) == Shr(v, 7) / Pow2(7 * (i - 1))
  {
    hide Shr, Low, Pow2;
    PowZero();
    ShrDivides(v, 7);
    if i > 0 {
      ShrTwice(v, 7, 7 * (i - 1));
      ShrDivides(v, 7 * i);
      ShrDivides(Shr(v, 7), 7 * (i - 1));
    } else {
      OneTwentyEight();
    }
  }

  lemma OneTwentyEight()
    ensures Pow2(7) == 128
  {
  }

  /** Byte `i` of the encoding holds the seven bits from bit `7i` on; all but the last have 128
      added, and the number has no bits beyond the last. */
  lemma {:induction false} UlebByte(v: nat, i: nat)
    requires i < |Uleb(v)|
    ensures Uleb(v)[i] == v / Pow2(7 * i) % 128 + if i < |Uleb(v)| - 1 then 128 else 0
    ensures v < Pow2(7 * |Uleb(v)|)
    decreases v
  {
    hide Shl, Shr, Low, Pow2, Uleb;
    UlebStep(v);
    UlebLast(v);
    SevenBitsFrom(v, i);
    if v >= 0x80 {
      var rest := Shr(v, 7);
      UlebByte(rest, if i == 0 then 0 else i - 1);
      SumBounds(Low(v, 7), rest, 7, 7 * |Uleb(rest)|);
    }
  }

  lemma UlebLast(v: nat)
    ensures if v < 0x80 then Uleb(v) == [v] else Uleb(v) == [Low(v, 7) + 0x80] + Uleb(Shr(v, 7))
  {
  }

  lemma UlebOfZero()
    ensures Uleb(0) == [0]
  {
  }

  /** The byte that one round of the writing loop appends. */
  lemma UlebNext(v: nat)
    requires v > 0
    ensures
      var low := And(v, 0x7F);
      var p := if v >= 0x80 then Or(low, 0x80) else low;
      && p < 256 && 0 <= Shr(v, 7) < v
      && Uleb(v) == [p] + (if Shr(v, 7) == 0 then [] else Uleb(Shr(v, 7)))
  {
    hide Shl, Shr, Low, Pow2, And, Or;
    UlebStep(v);
    MaskIsLow(v, 7);
    OrIsSum(Low(v, 7), 1, 7);
  }

  method WriteUleb128(value: nat) returns (buf: seq<byte>)
    ensures buf == Uleb(value)
  {
    hide Uleb, Shr, And, Or;
    buf := [];
    if value == 0 {
      buf := [0];
      UlebOfZero();
    }
    var rest: nat := value;
    while rest > 0
      invariant if rest > 0 then buf + Uleb(rest) == Uleb(value) else buf == Uleb(value)
    {
      UlebNext(rest);
      var p := And(rest, 0x7F);
      if rest >= 0x80 {
        p := Or(p, 0x80);
      }
      rest := Shr(rest, 7);
      buf := buf + [p];
    }
  }

  /** Reads from the front of a stream; None stands for a stream that ends too early. */
  method GetUleb128(s: seq<byte>) returns (r: Option<(nat, nat)>)
    ensures r == UlebParse(s)
  {
    hide Shl, Shr, Low, Pow2, And, Or;
    var value: nat, b: nat, i := 0, 0, 0;
    if UlebParse(s).Some? {
      ShlNone(UlebParse(s).value.0);
    }
    PowZero();
    while i < |s|
      invariant i <= |s| && b == 7 * i && value < Pow2(b)
      invariant UlebParse(s) == Above(UlebParse(s[i..]), value, b, i)
    {
      var n := s[i];
      assert s[i..][0] == n && s[i..][1..] == s[i + 1..];
      SevenBits(n);
      OrIsSum(value, Low(n, 7), b);
      SumBounds(value, Low(n, 7), b, 7);
      AboveStep(s[i..], value, b, i);
      value := Or(value, Shl(And(n, 0x7F), b));
      b := b + 7;
      i := i + 1;
      if n < 0x80 {
        return Some((value, i));
      }
    }
    r := None;
  }

  /** What a stream amounts to when `i` bytes and the `b` bits of `value` were read before. */
  function Above(r: Option<(nat, nat)>, value: nat, b: nat, i: nat): Option<(nat, nat)> {
    if r.None? then None else Some((value + Shl(r.value.0, b), i + r.value.1))
  }

  lemma SevenBits(n: byte)
    ensures And(n, 0x7F) == Low(n, 7) == (if n < 0x80 then n else n - 0x80) && Low(n, 7) < Pow2(7)
  {
    assert Pow2(7) == 0x80;
    MaskIsLow(n, 7);
    LowBounds(n, 7);
    if n < 0x80 {
      LowOfSmall(n, 7);
    } else {
      assert n == n - 0x80 + Shl(1, 7);
      LowOfSum(n - 0x80, 1, 7, 7);
      LowOfSmall(n - 0x80, 7);
    }
  }

  lemma AboveStep(s: seq<byte>, value: nat, b: nat, i: nat)
    requires s != []
    ensures Above(UlebParse(s), value, b, i) ==
            if s[0] < 0x80 then Some((value + Shl(Low(s[0], 7), b), i + 1))
            else Above(UlebParse(s[1..]), value + Shl(Low(s[0], 7), b), b + 7, i + 1)
  {
    hide Shl, Low, And;
    SevenBits(s[0]);
    if s[0] >= 0x80 && UlebParse(s[1..]).Some? {
      var v := UlebParse(s[1..]).value.0;
      ShlAdds(s[0] - 0x80, Shl(v, 7), b);
      ShlTwice(v, 7, b);
    }
  }
}
