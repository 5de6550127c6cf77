/** Which type a pushed integer is stored under, and how a stored value is read back. */
module Promotion {
  import opened RingLayout

  const UINT8: ValueType := 0
  const UINT16: ValueType := 1
  const INT16: ValueType := 2
  const UINT32: ValueType := 3
  const INT32: ValueType := 4
  const FLOAT: ValueType := 5

  /** The type of the values in a ring, -1 while there are none. */
  type RingType = t: int | -1 <= t < TYPE_COUNT

  type Byte = b: nat | b < 256

  /** The four bytes of a float; its arithmetic is not modelled. */
  type Float = s: seq<Byte> | |s| == 4 witness [0, 0, 0, 0]

  /** What the buffer hands back: NONE, an unsigned or signed integer, or a float. */
  datatype Elem = NoElem | U32(n: int) | I32(n: int) | F32(bits: Float)

  // ---------------------------------------------------------------- choosing a type

  /** The integers a type can represent. */
  predicate Fits(ty: ValueType, v: int) {
    if ty == UINT8 then 0 <= v < 0x100
    else if ty == UINT16 then 0 <= v < 0x1_0000
    else if ty == INT16 then -0x8000 <= v < 0x8000
    else if ty == UINT32 then 0 <= v < 0x1_0000_0000
    else if ty == INT32 then -0x8000_0000 <= v < 0x8000_0000
    else true
  }

  /** The integers the promotion chain lets a type keep: the largest INT16 and INT32 are passed on. */
  predicate Keeps(ty: ValueType, v: int) {
    Fits(ty, v) && !(ty == INT16 && v == 0x7FFF) && !(ty == INT32 && v == 0x7FFF_FFFF)
  }

  /** The first type from ty upwards that keeps v. */
  function LeastFrom(ty: ValueType, v: int): (r: ValueType)
    ensures ty <= r && Keeps(r, v)
    ensures forall u | ty <= u < r :: !Keeps(u, v)
    decreases FLOAT - ty
  {
    if Keeps(ty, v) then ty else LeastFrom(ty + 1, v)
  }

  /** Promotion picks the least type that can represent the value, except for two values that sit on a
      boundary: 32767 when the buffer is at INT16, 2147483647 when it is at INT32. */
  lemma PromotionIsLeast(ty: ValueType, v: int)
    ensures (forall u: ValueType | ty <= u < LeastFrom(ty, v) :: !Fits(u, v))
       <==> !(v == 0x7FFF && ty == INT16) && !(v == 0x7FFF_FFFF && ty == INT32)
  {
    var r := LeastFrom(ty, v);
    if v == 0x7FFF && ty == INT16 {
      assert Keeps(UINT32, v) && !Keeps(INT16, v);
      assert Fits(INT16, v) && INT16 < r;
    } else if v == 0x7FFF_FFFF && ty == INT32 {
      assert !Keeps(INT32, v);
      assert Fits(INT32, v) && INT32 < r;
    } else {
      forall u: ValueType | ty <= u < r ensures !Fits(u, v) {
        assert !Keeps(u, v);
        if Fits(u, v) {
          // a type below u already keeps the boundary value
          assert u == INT16 ==> Keeps(UINT16, v);
          assert u == INT32 ==> Keeps(UINT32, v);
          assert false;
        }
      }
    }
  }

  /** What an integer stored under a type reads back as. */
  function Stored(ty: ValueType, v: int, toFloat: int -> Float): Elem {
    if ty == FLOAT then F32(toFloat(v))
    else if ty == INT16 || ty == INT32 then I32(v)
    else U32(v)
  }

  // ---------------------------------------------------------------- bytes

  function Pow256(w: nat): (p: nat)
    ensures p >= 1
  {
    if w == 0 then 1 else 256 * Pow256(w - 1)
  }

  function LittleEndian(n: nat, w: nat): (s: seq<Byte>)
    ensures |s| == w
  {
    if w == 0 then [] else [n % 256] + LittleEndian(n / 256, w - 1)
  }

  function FromLittleEndian(s: seq<Byte>): nat {
    if s == [] then 0 else s[0] + 256 * FromLittleEndian(s[1..])
  }

  lemma {:induction false} LittleEndianInverts(n: nat, w: nat)
    requires n < Pow256(w)
    ensures FromLittleEndian(LittleEndian(n, w)) == n
  {
    if w == 0 {
    } else {
      LittleEndianInverts(n / 256, w - 1);
      assert LittleEndian(n, w)[1..] == LittleEndian(n / 256, w - 1);
    }
  }

  /** The integers of a type are exactly those that its bytes can tell apart, as unsigned or as signed numbers. */
  lemma WidthIsExact(ty: ValueType, v: int)
    requires ty != FLOAT
    ensures var n: int := Pow256(Width(ty));
            Fits(ty, v) <==> if ty == INT16 || ty == INT32 then -n <= 2 * v < n else 0 <= v < n
    ensures Width(FLOAT) == 4
  {
    Powers();
  }

  /** Two's complement, least significant byte first. */
  function Encode(ty: ValueType, v: int, toFloat: int -> Float): (s: seq<Byte>)
    requires Fits(ty, v)
    ensures |s| == Width(ty)
  {
    if ty == FLOAT then toFloat(v)
    else
      assert Pow256(1) == 0x100 && Pow256(2) == 0x1_0000 && Pow256(4) == 0x1_0000_0000 by { Powers(); }
      LittleEndian(if v < 0 then v + Pow256(Width(ty)) else v, Width(ty))
  }

  lemma Powers()
    ensures Pow256(1) == 0x100 && Pow256(2) == 0x1_0000 && Pow256(4) == 0x1_0000_0000
  {
    assert Pow256(2) == 256 * Pow256(1);
    assert Pow256(3) == 256 * Pow256(2);
  }

  function Decode(ty: ValueType, s: seq<Byte>): Elem
    requires |s| == Width(ty)
  {
    if ty == FLOAT then F32(s)
    else
      var n := FromLittleEndian(s);
      if ty == INT16 || ty == INT32 then
        I32(if 2 * n >= Pow256(Width(ty)) then n - Pow256(Width(ty)) else n)
      else U32(n)
  }

  /** Reading back gives the integer that was stored, or its float. */
  lemma DecodeInvertsEncode(ty: ValueType, v: int, toFloat: int -> Float)
    requires Fits(ty, v)
    ensures Decode(ty, Encode(ty, v, toFloat)) == Stored(ty, v, toFloat)
  {
    if ty != FLOAT {
      Powers();
      LittleEndianInverts(if v < 0 then v + Pow256(Width(ty)) else v, Width(ty));
    }
  }
}
