/** strscpy.c: copying a C string a word at a time, with the bit tricks that find the first zero byte. */
module StrScpy {
  import opened Errno

  type Byte = bv8

  /** A little-endian word of four bytes. */
  function Pack(b0: Byte, b1: Byte, b2: Byte, b3: Byte): bv32 {
    (b0 as bv32) | ((b1 as bv32) << 8) | ((b2 as bv32) << 16) | ((b3 as bv32) << 24)
  }

  /** Byte k of a word in memory. */
  function Unpack(w: bv32, k: int): Byte
    requires 0 <= k < 4
  {
    if k == 0 then (w & 0xff) as Byte
    else if k == 1 then ((w >> 8) & 0xff) as Byte
    else if k == 2 then ((w >> 16) & 0xff) as Byte
    else ((w >> 24) & 0xff) as Byte
  }

  function HasZero(a: bv32): bv32 {
    ((a - 0x0101_0101) & !a) & 0x8080_8080
  }

  function CreateZeroMask(bits: bv32): bv32 {
    ((bits - 1) & !bits) >> 7
  }

  function CountMaskedBytes(mask: bv32): bv32 {
    ((0x0ff_0001 + mask) >> 23) & mask
  }

  /** The mask of the bytes below byte k. */
  function BytesBelow(k: int): bv32
    requires 0 <= k < 4
  {
    if k == 0 then 0 else if k == 1 then 0xff else if k == 2 then 0xffff else 0xff_ffff
  }

  lemma PackBack(b0: Byte, b1: Byte, b2: Byte, b3: Byte)
    ensures var w := Pack(b0, b1, b2, b3);
      Unpack(w, 0) == b0 && Unpack(w, 1) == b1 && Unpack(w, 2) == b2 && Unpack(w, 3) == b3
  {
  }

  /** has_zero sees exactly the words with a zero byte, and create_zero_mask leaves the bytes before the first. */
  lemma ZeroMask(b0: Byte, b1: Byte, b2: Byte, b3: Byte)
    ensures var w := Pack(b0, b1, b2, b3);
      && (HasZero(w) == 0 <==> b0 != 0 && b1 != 0 && b2 != 0 && b3 != 0)
      && (b0 == 0 ==> CreateZeroMask(HasZero(w)) == BytesBelow(0))
      && (b0 != 0 && b1 == 0 ==> CreateZeroMask(HasZero(w)) == BytesBelow(1))
      && (b0 != 0 && b1 != 0 && b2 == 0 ==> CreateZeroMask(HasZero(w)) == BytesBelow(2))
      && (b0 != 0 && b1 != 0 && b2 != 0 && b3 == 0 ==> CreateZeroMask(HasZero(w)) == BytesBelow(3))
  {
  }

  lemma CountBelow()
    ensures CountMaskedBytes(BytesBelow(0)) == 0 && CountMaskedBytes(BytesBelow(1)) == 1
    ensures CountMaskedBytes(BytesBelow(2)) == 2 && CountMaskedBytes(BytesBelow(3)) == 3
  {
  }

  /** c & zero_bytemask(data) */
  function Keep(w: bv32, mask: bv32): bv32 {
    w & mask
  }

  /** Cutting a word off at byte k. */
  lemma MaskedByte(w: bv32, k: int, j: int)
    requires 0 <= k < 4 && 0 <= j < 4
    ensures Unpack(Keep(w, BytesBelow(k)), j) == if j < k then Unpack(w, j) else 0
  {
    if j == 0 { Masked0(w); } else if j == 1 { Masked1(w); } else if j == 2 { Masked2(w); } else { Masked3(w); }
    hide Unpack, Keep;
  }

  lemma Masked0(w: bv32)
    ensures Unpack(Keep(w, 0), 0) == 0 && Unpack(Keep(w, 0xff), 0) == Unpack(w, 0)
    ensures Unpack(Keep(w, 0xffff), 0) == Unpack(w, 0) && Unpack(Keep(w, 0xff_ffff), 0) == Unpack(w, 0)
  {
    assert w & 0xff & 0xff == w & 0xff && w & 0xffff & 0xff == w & 0xff && w & 0xff_ffff & 0xff == w & 0xff;
  }

  lemma Masked1(w: bv32)
    ensures Unpack(Keep(w, 0), 1) == 0 && Unpack(Keep(w, 0xff), 1) == 0
    ensures Unpack(Keep(w, 0xffff), 1) == Unpack(w, 1) && Unpack(Keep(w, 0xff_ffff), 1) == Unpack(w, 1)
  {
    assert ((w & 0xff) >> 8) & 0xff == 0;
    assert ((w & 0xffff) >> 8) & 0xff == (w >> 8) & 0xff && ((w & 0xff_ffff) >> 8) & 0xff == (w >> 8) & 0xff;
  }

  lemma Masked2(w: bv32)
    ensures Unpack(Keep(w, 0), 2) == 0 && Unpack(Keep(w, 0xff), 2) == 0
    ensures Unpack(Keep(w, 0xffff), 2) == 0 && Unpack(Keep(w, 0xff_ffff), 2) == Unpack(w, 2)
  {
    assert ((w & 0xff) >> 16) & 0xff == 0 && ((w & 0xffff) >> 16) & 0xff == 0;
    assert ((w & 0xff_ffff) >> 16) & 0xff == (w >> 16) & 0xff;
  }

  lemma Masked3(w: bv32)
    ensures Unpack(Keep(w, 0), 3) == 0 && Unpack(Keep(w, 0xff), 3) == 0 && Unpack(Keep(w, 0xffff), 3) == 0
    ensures Unpack(Keep(w, 0xff_ffff), 3) == 0
  {
    assert ((w & 0xff) >> 24) & 0xff == 0 && ((w & 0xffff) >> 24) & 0xff == 0 && ((w & 0xff_ffff) >> 24) & 0xff == 0;
  }

  // --------------------------------------------------------------------- the copy

  /** Index of the first zero byte of s from i on, n when there is none below n. */
  function Nul(s: seq<Byte>, i: int, n: int): (z: int)
    requires 0 <= i <= n
    ensures i <= z <= n && (z < n ==> z < |s| && s[z] == 0) && forall k :: i <= k < z && k < |s| ==> s[k] != 0
    decreases n - i
  {
    if i == n || i >= |s| then n else if s[i] == 0 then i else Nul(s, i + 1, n)
  }

  /** What the caller provides: count bytes, or a string whose last aligned word can be read. */
  ghost predicate Readable(s: seq<Byte>, count: int)
    requires 0 <= count
  {
    count <= |s| || (var z := Nul(s, 0, count); z < count && z - z % 4 + 4 <= |s|)
  }

  function LoadWord(s: seq<Byte>, i: int): bv32
    requires 0 <= i && i + 4 <= |s|
  {
    Pack(s[i], s[i + 1], s[i + 2], s[i + 3])
  }

  /** What a word store leaves in memory. */
  method StoreWord(dest: array<Byte>, i: int, w: bv32)
    requires 0 <= i && i + 4 <= dest.Length
    modifies dest
    ensures dest[i] == Unpack(w, 0) && dest[i + 1] == Unpack(w, 1) && dest[i + 2] == Unpack(w, 2)
    ensures dest[i + 3] == Unpack(w, 3)
    ensures forall k :: 0 <= k < dest.Length && !(i <= k < i + 4) ==> dest[k] == old(dest[k])
  {
    hide Unpack;
    dest[i], dest[i + 1], dest[i + 2], dest[i + 3] := Unpack(w, 0), Unpack(w, 1), Unpack(w, 2), Unpack(w, 3);
  }

  /** Index of the first zero byte of a word in memory, 4 when there is none. */
  function FirstZero(s: seq<Byte>, i: int): (k: int)
    requires 0 <= i && i + 4 <= |s|
    ensures 0 <= k <= 4
  {
    if s[i] == 0 then 0 else if s[i + 1] == 0 then 1 else if s[i + 2] == 0 then 2 else if s[i + 3] == 0 then 3 else 4
  }

  /** Byte j of the word at i. */
  lemma LoadedByte(s: seq<Byte>, i: int, j: int)
    requires 0 <= i && i + 4 <= |s| && 0 <= j < 4
    ensures Unpack(LoadWord(s, i), j) == s[i + j]
  {
    PackBack(s[i], s[i + 1], s[i + 2], s[i + 3]);
    hide Unpack, Pack;
  }

  /** has_zero, create_zero_mask and find_zero together give the index of the first zero byte. */
  lemma WordZero(s: seq<Byte>, i: int)
    requires 0 <= i && i + 4 <= |s|
    ensures HasZero(LoadWord(s, i)) == 0 <==> FirstZero(s, i) == 4
    ensures FirstZero(s, i) < 4 ==> CreateZeroMask(HasZero(LoadWord(s, i))) == BytesBelow(FirstZero(s, i))
  {
    ZeroMask(s[i], s[i + 1], s[i + 2], s[i + 3]);
    hide HasZero, CreateZeroMask, Pack, BytesBelow;
  }

  lemma FindZeroIs(k: int)
    requires 0 <= k < 4
    ensures CountMaskedBytes(BytesBelow(k)) as int == k
  {
    CountBelow();
  }

  /** One round of the word loop: k bytes copied; when k < 4 a zero byte follows them. */
  method CopyWord(dest: array<Byte>, src: array<Byte>, res: int) returns (k: int)
    requires dest != src && 0 <= res && res + 4 <= dest.Length && res + 4 <= src.Length
    modifies dest
    ensures k == FirstZero(src[..], res)
    ensures forall j :: res <= j < res + k ==> dest[j] == src[j]
    ensures k < 4 ==> dest[res + k] == 0
    ensures forall j :: 0 <= j < dest.Length && !(res <= j < res + 4) ==> dest[j] == old(dest[j])
  {
    hide HasZero, CreateZeroMask, CountMaskedBytes, Unpack, LoadWord, BytesBelow, Keep;
    var c := LoadWord(src[..], res);
    var data := HasZero(c);
    WordZero(src[..], res);
    forall j | 0 <= j < 4 ensures Unpack(c, j) == src[res + j] { LoadedByte(src[..], res, j); }
    if data != 0 {
      ghost var z := FirstZero(src[..], res);
      data := CreateZeroMask(data);
      forall j | 0 <= j < 4 ensures Unpack(Keep(c, data), j) == if j < z then Unpack(c, j) else 0 {
        MaskedByte(c, z, j);
      }
      StoreWord(dest, res, Keep(c, data));
      FindZeroIs(z);
      return CountMaskedBytes(data) as int;
    }
    StoreWord(dest, res, c);
    return 4;
  }

  /**
   dest holds the string ended by a zero byte, and ret is its length; or as much of it as fits, again ended by a zero
   byte, and ret is -E2BIG.
   */
  ghost predicate Copied(dest: seq<Byte>, src: seq<Byte>, count: int, ret: int)
    requires 0 < count
  {
    var n := if ret == -7 then count - 1 else ret;
    && 0 <= n < count && n < |dest| && n <= |src| && dest[n] == 0 && (forall k :: 0 <= k < n ==> dest[k] == src[k] != 0)
    && (if ret == -7 then n < |src| ==> src[n] != 0 else n < |src| && src[n] == 0)
  }

  lemma MakeCopied(dest: seq<Byte>, src: seq<Byte>, count: int, n: int)
    requires 0 < count && 0 <= n < |dest| && n <= |src|
    requires (forall k :: 0 <= k < n ==> dest[k] == src[k]) && dest[n] == 0
    ensures Nul(src, 0, count) == n < count ==> Copied(dest, src, count, n)
    ensures Nul(src, 0, count) == count && n == count - 1 ==> Copied(dest, src, count, -E2BIG)
  {
  }

  /** The byte loop of strscpy from index res0 on, and the end of the string it leaves. */
  method CopyBytes(dest: array<Byte>, src: array<Byte>, count0: int, res0: int) returns (ret: int)
    requires dest != src && 0 < count0 <= dest.Length && Readable(src[..], count0)
    requires 0 <= res0 <= Nul(src[..], 0, count0) && res0 <= src.Length
    requires forall k :: 0 <= k < res0 ==> dest[k] == src[k]
    modifies dest
    ensures Copied(dest[..], src[..], count0, ret)
    ensures forall k :: count0 <= k < dest.Length ==> dest[k] == old(dest[k])
  {
    hide Readable, Nul, Copied;
    var res, count := res0, count0 - res0;
    while count != 0
      invariant 0 <= res <= src.Length && 0 <= count && res + count == count0 && res <= Nul(src[..], 0, count0)
      invariant forall k :: 0 <= k < res ==> dest[k] == src[k]
      invariant forall k :: count0 <= k < dest.Length ==> dest[k] == old(dest[k])
    {
      ByteNul(src[..], count0, res);
      var c := src[res];
      dest[res] := c;
      if c == 0 {
        MakeCopied(dest[..], src[..], count0, res);
        return res;
      }
      res, count := res + 1, count - 1;
    }
    if res != 0 {
      dest[res - 1] := 0;
    }
    MakeCopied(dest[..], src[..], count0, res - 1);
    return -E2BIG;
  }

  /**
   strscpy: whether the buffers are aligned, so that words are copied, or not, the result is the
   length of the string or -E2BIG, and the string in dest is the same.
   */
  method Copy(dest: array<Byte>, src: array<Byte>, count: int, aligned: bool) returns (ret: int)
    requires dest != src && 0 <= count <= dest.Length && Readable(src[..], count)
    modifies dest
    ensures count == 0 ==> ret == -E2BIG && dest[..] == old(dest[..])
    ensures count > 0 ==> Copied(dest[..], src[..], count, ret)
    ensures forall k :: count <= k < dest.Length ==> dest[k] == old(dest[k])
  {
    hide FirstZero, Readable, Nul, Copied;
    var max, res := count, 0;
    if count == 0 {
      return -E2BIG;
    }
    if !aligned {
      max := 0;
    }
    while max >= 4
      invariant 0 <= res <= src.Length && res % 4 == 0 && (max == count - res || (max == 0 && res == 0))
      invariant res <= Nul(src[..], 0, count)
      invariant forall k :: 0 <= k < res ==> dest[k] == src[k]
      invariant forall k :: count <= k < dest.Length ==> dest[k] == old(dest[k])
      decreases max
    {
      WordReadable(src[..], count, res);
      var k := CopyWord(dest, src, res);
      WordNul(src[..], count, res, k);
      if k < 4 {
        MakeCopied(dest[..], src[..], count, res + k);
        return res + k;
      }
      res, max := res + 4, max - 4;
    }
    ret := CopyBytes(dest, src, count, res);
  }

  /** The word path and the byte loop alone agree: same result, and the same string up to its zero byte. */
  lemma PathsAgree(d1: seq<Byte>, d2: seq<Byte>, src: seq<Byte>, count: int, r1: int, r2: int)
    requires 0 < count && Copied(d1, src, count, r1) && Copied(d2, src, count, r2)
    ensures r1 == r2 && var n := (if r1 >= 0 then r1 else count - 1);
      n < |d1| && n < |d2| && d1[..n + 1] == d2[..n + 1] && d1[n] == 0 && forall k :: 0 <= k < n ==> d1[k] != 0
  {
    var n := if r1 >= 0 then r1 else count - 1;
    assert d1[..n + 1] == d1[..n] + [d1[n]] && d2[..n + 1] == d2[..n] + [d2[n]];
  }

  lemma WordReadable(s: seq<Byte>, count: int, res: int)
    requires 0 <= res && res % 4 == 0 && res + 4 <= count && Readable(s, count) && res <= Nul(s, 0, count)
    ensures res + 4 <= |s|
  {
  }

  /** The first zero byte of the word is the first of the string, if there is one. */
  lemma WordNul(s: seq<Byte>, count: int, res: int, k: int)
    requires 0 <= res && res + 4 <= count && res + 4 <= |s| && k == FirstZero(s, res) && res <= Nul(s, 0, count)
    ensures if k < 4 then Nul(s, 0, count) == res + k else res + 4 <= Nul(s, 0, count)
  {
    var z := Nul(s, 0, count);
    assert res <= z < res + 4 ==> s[z] == 0;
    assert k < 4 ==> s[res + k] == 0;
  }

  lemma ByteNul(s: seq<Byte>, count: int, res: int)
    requires 0 <= res < count && Readable(s, count) && res <= Nul(s, 0, count)
    ensures res < |s| && (s[res] == 0 <==> Nul(s, 0, count) == res)
  {
  }
}
