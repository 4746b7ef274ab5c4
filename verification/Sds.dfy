/** Dynamic strings. An object of class Sds stands for a variable of type sds: the header in
    front of the string, the bytes behind it, and the block that holds both, which the
    operations may replace. */
module Sds {
  import opened Wrappers
  import opened SdsHeader

  /** The first argument of sdsnewlen. */
  datatype InitBytes = From(bytes: seq<byte>) | Null | NoInit

  class Sds {
    var flags: byte         // low three bits: the type; in type 5 the rest is the length
    var lenField: nat       // the len and alloc fields of types 8 to 64
    var allocField: nat
    var buf: array<byte>    // the block behind the header, terminator included

    /** Content bytes sdsMakeRoomFor has copied from one block to another so far. */
    ghost var moved: nat

    function Type(): int
      reads this
    {
      flags % 8
    }

    /** sdslen */
    function Len(): nat
      reads this
    {
      if Type() == SDS_TYPE_5 then flags / 8 else lenField
    }

    /** sdsalloc */
    function Alloc(): nat
      reads this
    {
      if Type() == SDS_TYPE_5 then flags / 8 else allocField
    }

    /** sdsavail */
    function Avail(): int
      reads this
    {
      if Type() == SDS_TYPE_5 then 0 else allocField - lenField
    }

    /** The header describes the block: the fields keep within the width of the current
        type, and for types 8 to 64 the block is exactly header, capacity and terminator.
        Type 5 does not record the capacity, so there the block may be larger, but it never
        has more than 32 bytes. */
    ghost predicate Shape()
      reads this
    {
      && Type() <= 4
      && (Type() != SDS_TYPE_5 ==> flags < 8)
      && Len() <= Alloc() < FieldLimit(Type())
      && (if Type() == SDS_TYPE_5 then Len() < buf.Length <= 32 else buf.Length == Alloc() + 1)
    }

    ghost predicate Valid()
      reads this, buf
    {
      Shape() && buf[Len()] == NUL
    }

    /** What a valid string promises its readers: the terminator behind the length, and
        for types 8 to 64 a block of the capacity and the terminator, no more. */
    lemma ValidMeans()
      requires Valid()
      ensures Len() < buf.Length && buf[Len()] == 0
      ensures 0 <= Type() <= 4 && Len() <= Alloc() < FieldLimit(Type())
      ensures Type() == 0 ==> Len() == flags / 8 && buf.Length <= 32 && Avail() == 0
      ensures Type() > 0 ==> Len() == lenField && Alloc() == allocField && buf.Length == Alloc() + 1
      ensures Type() > 0 ==> Avail() == Alloc() - Len() && flags == Type()
    {
    }

    /** The abstract value. */
    ghost function Contents(): (bytes: seq<byte>)
      reads this, buf
      requires Shape()
      ensures |bytes| == Len()
      ensures forall i :: 0 <= i < Len() ==> bytes[i] == buf[i]
    {
      buf[..Len()]
    }

    ghost function Growth(): Growth
      reads this
      requires Shape()
    {
      SdsHeader.Growth(Len(), Alloc(), moved)
    }

    // ---------- header accessors that write ----------

    /** sdssetlen: the field keeps the low bits of the value. */
    method SetLen(newlen: nat)
      requires Type() <= 4
      modifies this`flags, this`lenField
      ensures Type() == old(Type())
      ensures Len() == Truncated(Type(), newlen)
      ensures Type() != SDS_TYPE_5 ==> flags == old(flags)
    {
      if Type() == SDS_TYPE_5 {
        RemainderIsUnique(newlen * 8, 256, newlen / 32, newlen % 32 * 8);
        flags := newlen * 8 % 256;
      } else {
        lenField := Truncated(Type(), newlen);
      }
    }

    static lemma TypeFiveWraps(n: nat)
      ensures n % 256 * 8 % 256 / 8 == n % 32
    {
      var q, r := n / 32, n % 32;
      RemainderIsUnique(n, 256, q / 8, 32 * (q % 8) + r);
      RemainderIsUnique((32 * (q % 8) + r) * 8, 256, q % 8, 8 * r);
    }

    /** sdsinclen: the sum wraps at the width of the field. */
    method IncLen(inc: nat)
      requires Type() <= 4
      modifies this`flags, this`lenField
      ensures Type() == old(Type())
      ensures Len() == Truncated(Type(), old(Len()) + inc)
      ensures Type() != SDS_TYPE_5 ==> flags == old(flags)
    {
      if Type() == SDS_TYPE_5 {
        TypeFiveWraps(flags / 8 + inc);
        var newlen := (flags / 8 + inc) % 256;
        flags := newlen * 8 % 256;
      } else {
        lenField := Truncated(Type(), lenField + inc);
      }
    }

    /** sdssetalloc: type 5 has nothing to set. */
    method SetAlloc(newalloc: nat)
      requires Type() <= 4
      modifies this`allocField
      ensures Type() != SDS_TYPE_5 ==> allocField == Truncated(Type(), newalloc)
      ensures Type() == SDS_TYPE_5 ==> allocField == old(allocField)
    {
      if Type() != SDS_TYPE_5 {
        allocField := Truncated(Type(), newalloc);
      }
    }

    // ---------- construction ----------

    /** sdsnewlen */
    constructor NewLen(init: InitBytes, initlen: nat)
      requires init.From? ==> initlen <= |init.bytes|
      requires NewFits(initlen)
      ensures Valid() && fresh(buf)
      ensures Len() == Alloc() == initlen && moved == 0
      ensures Type() == NewType(initlen) && HdrSize(Type()) + buf.Length < SIZE_LIMIT
      ensures init.From? ==> Contents() == init.bytes[..initlen]
      ensures init.Null? ==> forall i :: 0 <= i < initlen ==> Contents()[i] == NUL
    {
      var t := ReqType(initlen);
      if t == SDS_TYPE_5 && initlen == 0 {
        t := SDS_TYPE_8;
      }
      var block := new byte[initlen + 1];
      if init.Null? {
        forall i | 0 <= i < initlen + 1 {
          block[i] := NUL;
        }
      }
      flags := if t == SDS_TYPE_5 then initlen * 8 else t;
      lenField := initlen;
      allocField := initlen;
      if initlen != 0 && init.From? {
        forall i | 0 <= i < initlen {
          block[i] := init.bytes[i];
        }
      }
      block[initlen] := NUL;
      buf := block;
      moved := 0;
    }

    // ---------- capacity ----------

    /** sdsMakeRoomFor. Contents, length and the byte behind them stay; there is room for
        addlen more bytes afterwards. */
    method MakeRoomFor(addlen: nat)
      requires Shape()
      requires Avail() < addlen ==> Fits(Len() + addlen)
      modifies this
      ensures Shape() && Avail() >= addlen
      ensures Contents() == old(Contents()) && buf[Len()] == old(buf[Len()])
      ensures Growth() == RoomFor(old(Growth()), addlen)
      ensures buf == old(buf) || fresh(buf)
      ensures old(Avail()) >= addlen ==> Type() == old(Type()) && buf == old(buf)
      ensures old(Avail()) < addlen ==> Type() == GrowType(Alloc()) && HdrSize(Type()) + buf.Length < SIZE_LIMIT
    {
      var avail := Avail();
      var oldtype := Type();
      if avail >= addlen {
        return;
      }
      var len := Len();
      var newlen := len + addlen;
      if newlen < SDS_MAX_PREALLOC {
        newlen := newlen * 2;
      } else {
        newlen := newlen + SDS_MAX_PREALLOC;
      }
      var t := ReqType(newlen);
      if t == SDS_TYPE_5 {
        t := SDS_TYPE_8;
      }
      Reallocate(t, newlen);
    }

    /** A block of this size that starts with the first count bytes of the present one. */
    method NewBlock(size: nat, count: nat) returns (block: array<byte>)
      requires count <= size && count <= buf.Length
      ensures fresh(block) && block.Length == size
      ensures forall i :: 0 <= i < count ==> block[i] == buf[i]
    {
      block := new byte[size];
      forall i | 0 <= i < count {
        block[i] := buf[i];
      }
    }

    /** The second half of sdsMakeRoomFor: a larger block, with another header if the type
        changes. */
    method Reallocate(t: SdsType, capacity: nat)
      requires Shape() && t != SDS_TYPE_5
      requires Alloc() < capacity < FieldLimit(t)
      modifies this
      ensures Shape() && Type() == t && fresh(buf)
      ensures Len() == old(Len()) && Alloc() == capacity && moved == old(moved) + old(Len())
      ensures forall i :: 0 <= i <= Len() ==> buf[i] == old(buf[i])
    {
      var oldtype := Type();
      var len := Len();
      assert len < FieldLimit(t);
      if oldtype == t {
        // s_realloc keeps the whole old block
        buf := NewBlock(capacity + 1, buf.Length);
      } else {
        buf := NewBlock(capacity + 1, len + 1);
        flags := t;
        SetLen(len);
      }
      SetAlloc(capacity);
      moved := moved + len;
    }

    /** sdsRemoveFreeSpace. Afterwards there is no free space left, and a string that had
        some fits its block exactly. */
    method RemoveFreeSpace()
      requires Valid()
      modifies this
      ensures Valid() && Avail() == 0 && Alloc() == Len()
      ensures Contents() == old(Contents())
      ensures buf == old(buf) || fresh(buf)
      ensures moved == old(moved)
      ensures old(Avail()) == 0 ==> buf == old(buf) && Type() == old(Type())
      ensures old(Avail()) > 0 ==> buf.Length == Len() + 1
      ensures old(Avail()) > 0 ==> Type() == if ReqType(Len()) > SDS_TYPE_8 then old(Type()) else ReqType(Len())
    {
      var oldtype := Type();
      var len := Len();
      var avail := Avail();
      if avail == 0 {
        return;
      }
      var t := ReqType(len);
      buf := NewBlock(len + 1, len + 1);
      if oldtype == t || t > SDS_TYPE_8 {
      } else {
        flags := t;
        SetLen(len);
      }
      SetAlloc(len);
    }

    // ---------- operations on the contents ----------

    /** memcpy into the string */
    method Write(at: nat, t: seq<byte>)
      requires at + |t| <= buf.Length
      modifies buf
      ensures forall i :: 0 <= i < buf.Length ==>
        buf[i] == if at <= i < at + |t| then t[i - at] else old(buf[i])
    {
      forall i | at <= i < at + |t| {
        buf[i] := t[i - at];
      }
    }

    /** The second half of sdscatlen: copies t behind the string, where there is room. */
    method Extend(t: seq<byte>)
      requires Shape() && Len() + |t| <= Alloc()
      modifies this`flags, this`lenField, buf
      ensures Valid() && Alloc() == old(Alloc())
      ensures Contents() == old(Contents()) + t
    {
      var curlen := Len();
      Write(curlen, t);
      SetLen(curlen + |t|);
      buf[curlen + |t|] := NUL;
    }

    /** sdscatlen */
    method CatLen(t: seq<byte>)
      requires Valid()
      requires Avail() < |t| ==> Fits(Len() + |t|)
      modifies this, buf
      ensures Valid()
      ensures Contents() == old(Contents()) + t
      ensures Growth() == Appended(old(Growth()), |t|)
      ensures buf == old(buf) || fresh(buf)
    {
      MakeRoomFor(|t|);
      Extend(t);
    }

    /** sdscpylen */
    method CpyLen(t: seq<byte>)
      requires Valid()
      requires Alloc() < |t| ==> Fits(|t|)
      modifies this, buf
      ensures Valid()
      ensures Contents() == t
      ensures buf == old(buf) || fresh(buf)
      ensures old(Alloc()) >= |t| ==> buf == old(buf) && Type() == old(Type())
    {
      if Alloc() < |t| {
        MakeRoomFor(|t| - Len());
      }
      Write(0, t);
      buf[|t|] := NUL;
      SetLen(|t|);
      assert buf[..|t|] == t;
    }

    /** sdsgrowzero */
    method GrowZero(len: nat)
      requires Valid()
      requires Alloc() < len ==> Fits(len)
      modifies this, buf
      ensures Valid()
      ensures Contents() == old(Contents()) + seq(if len > old(Len()) then len - old(Len()) else 0, _ => NUL)
      ensures Growth() == if len > old(Len()) then Appended(old(Growth()), len - old(Len())) else old(Growth())
      ensures buf == old(buf) || fresh(buf)
    {
      var curlen := Len();
      if len <= curlen {
        return;
      }
      MakeRoomFor(len - curlen);
      forall i | curlen <= i < len + 1 {
        buf[i] := NUL;
      }
      SetLen(len);
    }

    /** sdsIncrLen: accepts the bytes a caller wrote behind the string, or cuts bytes off.
        The new terminator has to lie in the block; in types 8 to 64 the assertion sees to
        that, and in type 5 the precondition is exactly that (IncrTypeFiveInBlockIff). */
    method IncrLen(incr: int)
      requires Shape()
      requires -0x8000_0000_0000_0000 <= incr < 0x8000_0000_0000_0000
      requires IncrAccepted(Type(), Len(), Alloc(), incr)
      requires Type() == SDS_TYPE_5 ==> -0x1_0000_0000 < incr < buf.Length - Len()
      modifies this, buf
      ensures Valid() && buf == old(buf) && Type() == old(Type())
      ensures Len() == IncrResult(old(Type()), old(Len()), incr)
      ensures old(Type()) == SDS_TYPE_64 || -0x1_0000_0000 < incr < 0x1_0000_0000 ==> Len() == old(Len()) + incr
      ensures Contents() == old(buf[..IncrResult(Type(), Len(), incr)])
      ensures Type() != SDS_TYPE_5 ==> Alloc() == old(Alloc())
    {
      var len := IncrResult(Type(), Len(), incr);
      IncrExactIffNarrow(Type(), Len(), Alloc(), incr);
      if Type() != SDS_TYPE_5 {
        IncrStaysInside(Type(), Len(), Alloc(), incr);
      } else {
        IncrTypeFiveInBlockIff(Len(), buf.Length, incr);
      }
      SetLen(len);
      buf[len] := NUL;
    }
  }

  /** No two of the strings are the same or share a block. */
  ghost predicate Separate(strings: seq<Sds>)
    reads strings
  {
    && Distinct(strings)
    && forall i, j :: 0 <= i < j < |strings| ==> strings[i].buf != strings[j].buf
  }

  /** The strings hold these contents, in order. */
  ghost predicate Hold(strings: seq<Sds>, contents: seq<seq<byte>>)
    reads strings, set i | 0 <= i < |strings| :: strings[i].buf
  {
    && |strings| == |contents|
    && forall i :: 0 <= i < |strings| ==> strings[i].Valid() && strings[i].Contents() == contents[i]
  }

  /** What this means for the i-th of them. */
  lemma HoldMeans(strings: seq<Sds>, contents: seq<seq<byte>>, i: nat)
    requires Hold(strings, contents) && (i < |strings| || i < |contents|)
    ensures i < |strings| && i < |contents| && strings[i].Valid() && strings[i].Contents() == contents[i]
  {
  }

  lemma SeparateMeans(strings: seq<Sds>, i: nat, j: nat)
    requires Separate(strings) && i < |strings| && j < |strings| && i != j
    ensures strings[i] != strings[j] && strings[i].buf != strings[j].buf
  {
  }

  lemma OneMore(strings: seq<Sds>, contents: seq<seq<byte>>, last: Sds)
    requires Hold(strings, contents) && Separate(strings) && last.Valid()
    requires last !in strings && forall s :: s in strings ==> s.buf != last.buf
    ensures Hold(strings + [last], contents + [last.Contents()]) && Separate(strings + [last])
  {
  }
}
