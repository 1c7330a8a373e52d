/** Bit-field access in the byte buffers of input devices (source/component/input/vsf_input.c). */
module InputBits {
  import opened Basics
  import opened Bits

  type Byte = x: nat | x < 256

  /** Bits of `unsigned long` and of the value type on the target. */
  const WIDTH: nat := 32

  /** `~0UL` */
  const ULONG_MAX: nat := 0xFFFF_FFFF

  /** Bit `i` of a buffer. */
  predicate BufBit(s: seq<Byte>, i: nat)
    requires i < 8 * |s|
  {
    Bit(s[i / 8], i % 8)
  }

  /** The value of the field of `len` bits at `offset`: its lowest bit comes first. */
  function Field(s: seq<Byte>, offset: nat, len: nat): nat
    requires offset + len <= 8 * |s|
    decreases len
  {
    if len == 0 then 0 else (if BufBit(s, offset) then 1 else 0) + 2 * Field(s, offset + 1, len - 1)
  }

  /** `t` is `s` with the field of `len` bits at `offset` replaced by the low bits of `value`. */
  ghost predicate Stored(t: seq<Byte>, s: seq<Byte>, offset: nat, len: nat, value: nat) {
    && |t| == |s|
    && forall i :: 0 <= i < 8 * |s| ==>
      (BufBit(t, i) <==> if offset <= i < offset + len then Bit(value, i - offset) else BufBit(s, i))
  }

  lemma {:induction false} FieldBits(s: seq<Byte>, offset: nat, len: nat, j: nat)
    requires offset + len <= 8 * |s|
    ensures Bit(Field(s, offset, len), j) <==> j < len && BufBit(s, offset + j)
    decreases len
  {
    BitZero(j);
    if len > 0 && j > 0 {
      assert Field(s, offset, len) / 2 == Field(s, offset + 1, len - 1);
      FieldBits(s, offset + 1, len - 1, j - 1);
    }
  }

  // ---------- reading ----------

  /** The bits one pass of the loops works on: the part of a byte that belongs to the field. */
  function PassLength(offset: nat, len: nat, done: nat): (r: nat)
    requires done < len
    ensures 0 < r <= len - done && offset % 8 + r <= 8
  {
    if len - done < 8 - offset % 8 then len - done else 8 - offset % 8
  }

  /** vk_input_buf_get_value */
  method GetValue(buf: seq<Byte>, offset: nat, len: nat) returns (result: nat)
    requires len <= 32 && offset + len <= 256 && offset + len <= 8 * |buf|
    ensures result == Field(buf, offset, len) < Pow2(len)
  {
    var pos, done := offset, 0;
    result := 0;
    assert forall j: nat :: !Bit(result, j) by { forall j: nat ensures !Bit(0, j) { BitZero(j); } }
    while done < len
      invariant done <= len && pos == offset + done
      invariant forall j: nat :: Bit(result, j) <==> j < done && BufBit(buf, offset + j)
    {
      var bitlen := PassLength(pos, len, done);
      var piece := And(Shr(buf[pos / 8], pos % 8), Ones(bitlen));
      ghost var before := result;
      result := Or(result, Shl(piece, done));
      forall j: nat ensures Bit(result, j) <==> j < done + bitlen && BufBit(buf, offset + j) {
        ReadPass(before, buf, offset, done, bitlen, j);
      }
      pos := pos + bitlen;
      done := done + bitlen;
    }
    forall j: nat ensures Bit(result, j) <==> Bit(Field(buf, offset, len), j) { FieldBits(buf, offset, len, j); }
    SameBits(result, Field(buf, offset, len));
    BitsBound(result, len);
  }

  lemma ReadPass(result: nat, buf: seq<Byte>, offset: nat, done: nat, bitlen: nat, j: nat)
    requires offset + done + bitlen <= 8 * |buf| && (offset + done) % 8 + bitlen <= 8 && bitlen > 0
    requires Bit(result, j) <==> j < done && BufBit(buf, offset + j)
    ensures var pos := offset + done;
      var piece := And(Shr(buf[pos / 8], pos % 8), Ones(bitlen));
      Bit(Or(result, Shl(piece, done)), j) <==> j < done + bitlen && BufBit(buf, offset + j)
  {
    var pos := offset + done;
    var piece := And(Shr(buf[pos / 8], pos % 8), Ones(bitlen));
    BitOr(result, Shl(piece, done), j);
    BitShl(piece, done, j);
    if j >= done {
      var i := j - done;
      BitAnd(Shr(buf[pos / 8], pos % 8), Ones(bitlen), i);
      BitShr(buf[pos / 8], pos % 8, i);
      BitOnes(bitlen, i);
      if i < bitlen { SameByte(pos, i); }
    }
  }

  lemma SameByte(pos: nat, i: nat)
    requires pos % 8 + i < 8
    ensures (pos + i) / 8 == pos / 8 && (pos + i) % 8 == pos % 8 + i
  {
  }

  // ---------- writing ----------

  lemma UlongBits(i: nat)
    ensures Bit(ULONG_MAX, i) <==> i < WIDTH
  {
    BitOnes(32, i);
    assert Ones(2) == 0x3;
    assert Ones(4) == 0xF;
    assert Ones(6) == 0x3F;
    assert Ones(8) == 0xFF;
    assert Ones(10) == 0x3FF;
    assert Ones(12) == 0xFFF;
    assert Ones(14) == 0x3FFF;
    assert Ones(16) == 0xFFFF;
    assert Ones(18) == 0x3FFFF;
    assert Ones(20) == 0xFFFFF;
    assert Ones(22) == 0x3FFFFF;
    assert Ones(24) == 0xFFFFFF;
    assert Ones(26) == 0x3FFFFFF;
    assert Ones(28) == 0xFFFFFFF;
    assert Ones(30) == 0x3FFFFFFF;
    assert Ones(32) == 0xFFFFFFFF;
  }

  /** `((~0UL >> done) & mask) << bitpos`: the bits of a byte that one pass replaces, in 32-bit arithmetic. */
  function PassMask(done: nat, bitlen: nat, bitpos: nat): nat
    requires done <= 32
  {
    Shl(And(Shr(ULONG_MAX, done), Ones(bitlen)), bitpos)
  }

  lemma MaskBits(done: nat, bitlen: nat, bitpos: nat, i: nat)
    requires done + bitlen <= 32
    ensures Bit(PassMask(done, bitlen, bitpos), i) <==> bitpos <= i < bitpos + bitlen
  {
    BitShl(And(Shr(ULONG_MAX, done), Ones(bitlen)), bitpos, i);
    if i >= bitpos {
      BitAnd(Shr(ULONG_MAX, done), Ones(bitlen), i - bitpos);
      BitShr(ULONG_MAX, done, i - bitpos);
      UlongBits(i - bitpos + done);
      BitOnes(bitlen, i - bitpos);
    }
  }

  /** The byte after a pass of vk_input_buf_set_value. */
  function PassByte(b: nat, value: nat, done: nat, bitlen: nat, bitpos: nat): nat
    requires done <= 32
  {
    Or(And(b, Not(PassMask(done, bitlen, bitpos), WIDTH)), Shl(And(Shr(value, done), Ones(bitlen)), bitpos))
  }

  lemma PassByteBits(b: nat, value: nat, done: nat, bitlen: nat, bitpos: nat, i: nat)
    requires done + bitlen <= 32 && b < 256
    ensures Bit(PassByte(b, value, done, bitlen, bitpos), i) <==>
      if bitpos <= i < bitpos + bitlen then Bit(value, i - bitpos + done) else Bit(b, i)
  {
    var mask := PassMask(done, bitlen, bitpos);
    var piece := And(Shr(value, done), Ones(bitlen));
    BitOr(And(b, Not(mask, WIDTH)), Shl(piece, bitpos), i);
    BitAnd(b, Not(mask, WIDTH), i);
    BitNot(mask, 32, i);
    MaskBits(done, bitlen, bitpos, i);
    ByteBits(b, i);
    BitShl(piece, bitpos, i);
    if i >= bitpos {
      BitAnd(Shr(value, done), Ones(bitlen), i - bitpos);
      BitShr(value, done, i - bitpos);
      BitOnes(bitlen, i - bitpos);
    }
  }

  /** A byte has eight bits. */
  lemma ByteBits(b: nat, i: nat)
    requires b < 256
    ensures Bit(b, i) ==> i < 8
  {
    if i >= 8 {
      assert b / 2 / 2 / 2 / 2 / 2 / 2 / 2 / 2 == 0;
      BitZero(i - 8);
      SkipEight(b, i);
    }
  }

  lemma SkipEight(b: nat, i: nat)
    requires i >= 8
    ensures Bit(b, i) <==> Bit(b / 2 / 2 / 2 / 2 / 2 / 2 / 2 / 2, i - 8)
  {
    BitShr(b, 8, i - 8);
    assert Shr(b, 8) == b / 2 / 2 / 2 / 2 / 2 / 2 / 2 / 2 by {
      assert Shr(b, 8) == Shr(b / 2, 7) == Shr(b / 2 / 2, 6) == Shr(b / 2 / 2 / 2, 5);
      assert Shr(b / 2 / 2 / 2, 5) == Shr(b / 2 / 2 / 2 / 2, 4) == Shr(b / 2 / 2 / 2 / 2 / 2, 3);
      assert Shr(b / 2 / 2 / 2 / 2 / 2, 3) == Shr(b / 2 / 2 / 2 / 2 / 2 / 2, 2);
    }
  }

  lemma PassByteFits(b: nat, value: nat, done: nat, bitlen: nat, bitpos: nat)
    requires done + bitlen <= 32 && b < 256 && bitpos + bitlen <= 8
    ensures PassByte(b, value, done, bitlen, bitpos) < 256
  {
    forall i: nat | i >= 8 ensures !Bit(PassByte(b, value, done, bitlen, bitpos), i) {
      PassByteBits(b, value, done, bitlen, bitpos, i);
      ByteBits(b, i);
    }
    BitsBound(PassByte(b, value, done, bitlen, bitpos), 8);
    assert Pow2(8) == 256;
  }

  /** vk_input_buf_set_value */
  method SetValue(buf: array<Byte>, offset: nat, len: nat, value: nat)
    requires len <= 32 && offset + len <= 256 && offset + len <= 8 * buf.Length
    modifies buf
    ensures Stored(buf[..], old(buf[..]), offset, len, value)
  {
    var pos, done := offset, 0;
    while done < len
      invariant done <= len && pos == offset + done
      invariant Stored(buf[..], old(buf[..]), offset, done, value)
    {
      var bitlen := PassLength(pos, len, done);
      ghost var before := buf[..];
      PassByteFits(buf[pos / 8], value, done, bitlen, pos % 8);
      buf[pos / 8] := PassByte(buf[pos / 8], value, done, bitlen, pos % 8);
      assert buf[..] == before[pos / 8 := buf[pos / 8]];
      WritePass(old(buf[..]), before, buf[..], offset, pos, done, bitlen, value);
      pos := pos + bitlen;
      done := done + bitlen;
    }
  }

  lemma WritePass(orig: seq<Byte>, s: seq<Byte>, t: seq<Byte>, offset: nat, pos: nat, done: nat, bitlen: nat,
                  value: nat)
    requires pos == offset + done && done + bitlen <= WIDTH
    requires pos + bitlen <= 8 * |s| && pos % 8 + bitlen <= 8 && bitlen > 0
    requires Stored(s, orig, offset, done, value)
    requires |t| == |s| && t[pos / 8] == PassByte(s[pos / 8], value, done, bitlen, pos % 8)
    requires t == s[pos / 8 := t[pos / 8]]
    ensures Stored(t, orig, offset, done + bitlen, value)
  {
    forall i | 0 <= i < 8 * |t|
      ensures BufBit(t, i) <==> if pos <= i < pos + bitlen then Bit(value, i - offset) else BufBit(s, i)
    {
      WriteBit(s, t, pos, done, bitlen, value, i);
    }
    Widened(orig, s, t, offset, done, bitlen, value);
  }

  lemma Widened(orig: seq<Byte>, s: seq<Byte>, t: seq<Byte>, offset: nat, done: nat, bitlen: nat, value: nat)
    requires Stored(s, orig, offset, done, value) && |t| == |s|
    requires var pos := offset + done; forall i :: 0 <= i < 8 * |t| ==>
      (BufBit(t, i) <==> if pos <= i < pos + bitlen then Bit(value, i - offset) else BufBit(s, i))
    ensures Stored(t, orig, offset, done + bitlen, value)
  {
  }

  /** Bit by bit, a pass replaces its own part of the field. */
  lemma WriteBit(s: seq<Byte>, t: seq<Byte>, pos: nat, done: nat, bitlen: nat, value: nat, i: nat)
    requires done <= pos && done + bitlen <= WIDTH && pos + bitlen <= 8 * |s| && pos % 8 + bitlen <= 8 && bitlen > 0
    requires |t| == |s| && t[pos / 8] == PassByte(s[pos / 8], value, done, bitlen, pos % 8)
    requires t == s[pos / 8 := t[pos / 8]]
    requires i < 8 * |s|
    ensures BufBit(t, i) <==> if pos <= i < pos + bitlen then Bit(value, i - pos + done) else BufBit(s, i)
  {
    if i / 8 == pos / 8 {
      PassByteBits(s[pos / 8], value, done, bitlen, pos % 8, i % 8);
      assert i - pos == i % 8 - pos % 8;
    }
  }

  /** vk_input_buf_set writes ones: the same as writing any value whose bits are all set. */
  method SetBits(buf: array<Byte>, offset: nat, len: nat, ghost all: nat)
    requires len <= 32 && offset + len <= 256 && offset + len <= 8 * buf.Length
    requires forall j: nat :: j < WIDTH ==> Bit(all, j)
    modifies buf
    ensures Stored(buf[..], old(buf[..]), offset, len, all)
  {
    var pos, done := offset, 0;
    while done < len
      invariant done <= len && pos == offset + done
      invariant Stored(buf[..], old(buf[..]), offset, done, all)
    {
      var bitlen := PassLength(pos, len, done);
      ghost var before := buf[..];
      SetIsWrite(buf[pos / 8], all, done, bitlen, pos % 8);
      PassByteFits(buf[pos / 8], all, done, bitlen, pos % 8);
      buf[pos / 8] := Or(buf[pos / 8], PassMask(done, bitlen, pos % 8));
      assert buf[..] == before[pos / 8 := buf[pos / 8]];
      WritePass(old(buf[..]), before, buf[..], offset, pos, done, bitlen, all);
      pos := pos + bitlen;
      done := done + bitlen;
    }
  }

  lemma SetIsWrite(b: nat, all: nat, done: nat, bitlen: nat, bitpos: nat)
    requires done + bitlen <= 32 && b < 256 && forall j: nat :: j < WIDTH ==> Bit(all, j)
    ensures Or(b, PassMask(done, bitlen, bitpos)) == PassByte(b, all, done, bitlen, bitpos)
  {
    forall i: nat
      ensures Bit(Or(b, PassMask(done, bitlen, bitpos)), i) <==> Bit(PassByte(b, all, done, bitlen, bitpos), i)
    {
      BitOr(b, PassMask(done, bitlen, bitpos), i);
      MaskBits(done, bitlen, bitpos, i);
      PassByteBits(b, all, done, bitlen, bitpos, i);
    }
    SameBits(Or(b, PassMask(done, bitlen, bitpos)), PassByte(b, all, done, bitlen, bitpos));
  }

  /** vk_input_buf_clear: zero, without the value. */
  method ClearBits(buf: array<Byte>, offset: nat, len: nat)
    requires len <= 32 && offset + len <= 256 && offset + len <= 8 * buf.Length
    modifies buf
    ensures Stored(buf[..], old(buf[..]), offset, len, 0)
  {
    var pos, done := offset, 0;
    while done < len
      invariant done <= len && pos == offset + done
      invariant Stored(buf[..], old(buf[..]), offset, done, 0)
    {
      var bitlen := PassLength(pos, len, done);
      ghost var before := buf[..];
      ClearIsWrite(buf[pos / 8], done, bitlen, pos % 8);
      PassByteFits(buf[pos / 8], 0, done, bitlen, pos % 8);
      buf[pos / 8] := And(buf[pos / 8], Not(PassMask(done, bitlen, pos % 8), WIDTH));
      assert buf[..] == before[pos / 8 := buf[pos / 8]];
      WritePass(old(buf[..]), before, buf[..], offset, pos, done, bitlen, 0);
      pos := pos + bitlen;
      done := done + bitlen;
    }
  }

  lemma ClearIsWrite(b: nat, done: nat, bitlen: nat, bitpos: nat)
    requires done + bitlen <= 32
    ensures And(b, Not(PassMask(done, bitlen, bitpos), WIDTH)) == PassByte(b, 0, done, bitlen, bitpos)
  {
    ShrZero(done);
    ShlZero(bitpos);
  }

  lemma {:induction false} ShrZero(n: nat)
    ensures Shr(0, n) == 0
  {
    if n > 0 { ShrZero(n - 1); }
  }

  lemma {:induction false} ShlZero(n: nat)
    ensures Shl(0, n) == 0
  {
    if n > 0 { ShlZero(n - 1); }
  }

  // ---------- reading what was written ----------

  /** Writing a field and reading it back gives the value modulo 2^len. */
  lemma StoreThenRead(t: seq<Byte>, s: seq<Byte>, offset: nat, len: nat, value: nat)
    requires Stored(t, s, offset, len, value) && offset + len <= 8 * |s|
    ensures Field(t, offset, len) == value % Pow2(len)
  {
    forall j: nat ensures Bit(Field(t, offset, len), j) <==> Bit(value % Pow2(len), j) {
      FieldBits(t, offset, len, j);
      BitMod(value, len, j);
      if j < len { assert BufBit(t, offset + j) <==> Bit(value, offset + j - offset); }
    }
    SameBits(Field(t, offset, len), value % Pow2(len));
  }

  /** A field that does not overlap the written one reads as before. */
  lemma StoreElsewhere(t: seq<Byte>, s: seq<Byte>, offset: nat, len: nat, value: nat, other: nat, n: nat)
    requires Stored(t, s, offset, len, value) && other + n <= 8 * |s|
    requires other + n <= offset || offset + len <= other
    ensures Field(t, other, n) == Field(s, other, n)
  {
    forall j: nat ensures Bit(Field(t, other, n), j) <==> Bit(Field(s, other, n), j) {
      FieldBits(t, other, n, j);
      FieldBits(s, other, n, j);
      if j < n { assert BufBit(t, other + j) <==> BufBit(s, other + j); }
    }
    SameBits(Field(t, other, n), Field(s, other, n));
  }

  // ---------- the parser ----------

  datatype Item = Item(offset: nat, bitlen: nat)

  ghost predicate ItemsFit(info: seq<Item>, size: nat) {
    forall i :: 0 <= i < |info| ==>
      info[i].bitlen <= 32 && info[i].offset + info[i].bitlen <= 256 && info[i].offset + info[i].bitlen <= 8 * size
  }

  ghost predicate Changed(info: seq<Item>, pre: seq<Byte>, cur: seq<Byte>, i: nat)
    requires ItemsFit(info, |pre|) && |cur| == |pre| && i < |info|
  {
    Field(cur, info[i].offset, info[i].bitlen) != Field(pre, info[i].offset, info[i].bitlen)
  }

  /** The changed items below `n`, last first. */
  ghost function ChangedDown(info: seq<Item>, pre: seq<Byte>, cur: seq<Byte>, n: nat): seq<nat>
    requires ItemsFit(info, |pre|) && |cur| == |pre| && n <= |info|
  {
    if n == 0 then []
    else (if Changed(info, pre, cur, n - 1) then [n - 1] else []) + ChangedDown(info, pre, cur, n - 1)
  }

  class Parser {
    const info: seq<Item>
    /** uint8_t */
    var num: nat
    var preValue: nat
    var curValue: nat

    constructor (info: seq<Item>)
      requires |info| < 256
      ensures this.info == info && num == |info|
    {
      this.info := info;
      num, preValue, curValue := |info|, 0, 0;
    }

    /** vk_input_parse: the last changed item below `num`, which then becomes `num`; the counter wraps at the end. */
    method Parse(pre: seq<Byte>, cur: seq<Byte>) returns (found: Option<nat>)
      requires num <= |info| && |cur| == |pre| && ItemsFit(info, |pre|)
      modifies this
      ensures found.Some? ==> found.value < old(num) && num == found.value && Changed(info, pre, cur, num)
      ensures found.Some? ==> curValue == Field(cur, info[num].offset, info[num].bitlen)
      ensures found.Some? ==> preValue == Field(pre, info[num].offset, info[num].bitlen)
      ensures ChangedDown(info, pre, cur, old(num)) ==
        if found.Some? then [found.value] + ChangedDown(info, pre, cur, found.value) else []
      ensures found.None? ==> num == 255
    {
      while num > 0
        invariant num <= old(num)
        invariant ChangedDown(info, pre, cur, num) == ChangedDown(info, pre, cur, old(num))
      {
        num := num - 1;
        var item := info[num];
        var c := GetValue(cur, item.offset, item.bitlen);
        var p := GetValue(pre, item.offset, item.bitlen);
        if c != p {
          curValue, preValue := c, p;
          return Some(num);
        }
      }
      num := 255;
      return None;
    }

    /** Calling vk_input_parse until NULL: exactly the changed items, each once, from last to first. */
    method ParseAll(pre: seq<Byte>, cur: seq<Byte>) returns (found: seq<nat>)
      requires num <= |info| && |cur| == |pre| && ItemsFit(info, |pre|)
      modifies this
      ensures found == ChangedDown(info, pre, cur, old(num))
    {
      found := [];
      var next := Parse(pre, cur);
      while next.Some?
        invariant next.Some? ==> num == next.value < |info|
        invariant ChangedDown(info, pre, cur, old(num)) ==
          found + (if next.Some? then [next.value] + ChangedDown(info, pre, cur, next.value) else [])
        decreases next.Some?, num
      {
        Shift(found, next.value, ChangedDown(info, pre, cur, next.value));
        found := found + [next.value];
        next := Parse(pre, cur);
      }
    }
  }

  lemma Shift(a: seq<nat>, x: nat, b: seq<nat>)
    ensures a + ([x] + b) == (a + [x]) + b
  {
  }

  /** The changed items, described without the walk: strictly descending, and containing just the changed ones. */
  lemma {:induction false} ChangedDownExact(info: seq<Item>, pre: seq<Byte>, cur: seq<Byte>, n: nat)
    requires ItemsFit(info, |pre|) && |cur| == |pre| && n <= |info|
    ensures var r := ChangedDown(info, pre, cur, n);
      && (forall i :: i in r <==> 0 <= i < n && Changed(info, pre, cur, i))
      && forall a, b :: 0 <= a < b < |r| ==> r[a] > r[b]
  {
    if n > 0 {
      ChangedDownExact(info, pre, cur, n - 1);
      var rest, r := ChangedDown(info, pre, cur, n - 1), ChangedDown(info, pre, cur, n);
      if Changed(info, pre, cur, n - 1) {
        assert r == [n - 1] + rest;
        assert forall b :: 0 <= b < |rest| ==> rest[b] in rest;
      } else {
        assert r == rest;
      }
    }
  }
}
