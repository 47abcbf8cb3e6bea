/** bitmap_scnprintf and __bitmap_parse on word arrays. */
module BitmapHexText {
  import opened Bitmap
  import opened Errno
  import opened ParseText
  import opened BitmapHex
  import BitmapText
  import BitmapHexTexts

  /**
   bitmap_scnprintf into a buffer that is large enough.  q places before the last character stands a comma, or the digit
   of four bits.
   */
  method PrintHex(a: seq<Word>, nmask: int) returns (buf: string)
    requires 1 <= nmask <= 32 * |a|
    ensures buf == Render(a, nmask)
    ensures |buf| == ((nmask - 1) % 32 + 4) / 4 + 9 * ((nmask - 1) / 32)
    ensures forall q :: 0 <= q < |buf| ==>
              buf[|buf| - 1 - q] ==
              if q % 9 == 8 then ',' else "0123456789abcdef"[BitmapHexTexts.FourBits(a, nmask, q - q / 9)]
  {
    hide BitmapHexTexts.FourBits;
    hide ChunkText, Render, Printed, Words;
    WordCount(nmask, |a|);
    var chunksz := nmask % 32;
    if chunksz == 0 {
      chunksz := 32;
    }
    var i := Words(nmask) * 32 - 32;
    ghost var j := Words(nmask) - 1;
    var sep := "";
    buf := "";
    while i >= 0
      invariant i == 32 * j && -1 <= j < Words(nmask) && 1 <= chunksz <= 32
      invariant Pending(buf, sep, chunksz, a, nmask, j)
    {
      var word := i / 32;
      ChunkPrinted(buf, sep, chunksz, a, nmask, j);
      buf := buf + (sep + ChunkText(a[word], chunksz));
      chunksz, sep := 32, ",";
      i := i - 32;
      j := j - 1;
    }
    PrintedAll(buf, a, nmask);
    BitmapHexTexts.RenderAt(a, nmask);
  }

  /** val and its digits, for a chunk of chunksz bits */
  function ChunkText(w: Word, chunksz: int): string
    requires 1 <= chunksz <= 32
  {
    HexText(And(w, LowMask(chunksz)), (chunksz + 3) / 4)
  }

  lemma WordCount(nmask: int, n: int)
    requires 1 <= nmask <= 32 * n
    ensures 1 <= Words(nmask) <= n
  {
  }

  /** Word j is the next to be printed. */
  ghost predicate Pending(buf: string, sep: string, chunksz: int, a: seq<Word>, nmask: int, j: int)
    requires 1 <= nmask <= 32 * |a|
  {
    if j == Words(nmask) - 1 then buf == "" && sep == "" && chunksz == TopSize(nmask)
    else sep == "," && chunksz == 32 && Printed(buf, a, nmask, j + 1)
  }

  lemma ChunkPrinted(buf: string, sep: string, chunksz: int, a: seq<Word>, nmask: int, j: int)
    requires 1 <= nmask <= 32 * |a| && 0 <= j < Words(nmask) && 1 <= chunksz <= 32
    requires Pending(buf, sep, chunksz, a, nmask, j)
    ensures Printed(buf + (sep + ChunkText(a[j], chunksz)), a, nmask, j)
  {
    hide HexText;
    if j == Words(nmask) - 1 {
      PrintedTop(a, nmask);
    } else {
      WholeMask(a[j]);
      PrintedStep(buf, a, nmask, j);
    }
  }

  /** The words from j on are in buf. */
  ghost predicate Printed(buf: string, a: seq<Word>, nmask: int, j: int)
    requires 1 <= nmask <= 32 * |a|
  {
    0 <= j <= |a| && Render(a, nmask) == buf + Rest(a, j)
  }

  lemma PrintedTop(a: seq<Word>, nmask: int)
    requires 1 <= nmask <= 32 * |a|
    ensures 1 <= Words(nmask) <= |a|
    ensures var top := And(a[Words(nmask) - 1], LowMask(TopSize(nmask)));
      Printed("" + ("" + HexText(top, (TopSize(nmask) + 3) / 4)), a, nmask, Words(nmask) - 1)
  {
    hide HexText;
    var t := HexText(TopWord(a, nmask), (TopSize(nmask) + 3) / 4);
    assert "" + ("" + t) == t;
  }

  lemma PrintedStep(buf: string, a: seq<Word>, nmask: int, j: int)
    requires 1 <= nmask <= 32 * |a| && Printed(buf, a, nmask, j + 1) && 0 <= j
    ensures Printed(buf + ("," + HexText(a[j], 8)), a, nmask, j)
  {
    hide HexText, Render, ChunkText;
    assert Rest(a, j + 1) == ("," + HexText(a[j], 8)) + Rest(a, j);
  }

  lemma PrintedAll(buf: string, a: seq<Word>, nmask: int)
    requires 1 <= nmask <= 32 * |a| && Printed(buf, a, nmask, 0)
    ensures buf == Render(a, nmask)
  {
  }

  lemma WholeMask(w: Word)
    ensures And(w, LowMask(32)) == w
  {
  }

  /** __bitmap_shift_left(maskp, maskp, CHUNKSZ, nmaskbits); *maskp |= chunk; */
  method PushChunk(a: array<Word>, chunk: Word, nmask: int)
    requires 1 <= nmask <= 32 * a.Length
    modifies a
    ensures BitmapText.BitSet(a[..], nmask) == Pushed(old(BitmapText.BitSet(a[..], nmask)), chunk, nmask)
  {
    hide At;
    ghost var s := a[..];
    ShiftLeft(a, a, 32, nmask);
    ghost var m := a[..];
    a[0] := Or(a[0], chunk);
    PushedBits(s, m, a[..], chunk, nmask);
  }

  lemma PushedBits(s: seq<Word>, m: seq<Word>, d: seq<Word>, chunk: Word, nmask: int)
    requires 1 <= nmask <= 32 * |s| && |m| == |s| && d == m[0 := Or(m[0], chunk)]
    requires forall i :: 0 <= i < nmask ==> (At(m, i) <==> 32 <= i && At(s, i - 32))
    ensures BitmapText.BitSet(d, nmask) == Pushed(BitmapText.BitSet(s, nmask), chunk, nmask)
  {
    forall i | 0 <= i < nmask ensures At(d, i) == if i < 32 then chunk[i] else At(s, i - 32) {
      if i < 32 { assert i / 32 == 0 && !At(m, i); } else { assert At(d, i) == At(m, i); }
    }
    hide At;
  }

  /** __bitmap_parse: the outcome is that of Scan, and on success the bitmap is the set it found. */
  method ParseHex(buf: string, a: array<Word>, nmask: int) returns (err: int)
    requires 1 <= nmask <= 32 * a.Length
    modifies a
    ensures var r := Scan(buf, START, nmask);
      if r.Error? then err == -r.errno else err == 0 && BitmapText.BitSet(a[..], nmask) == r.bits
  {
    hide At, BitmapText.BitSet, Scan, Pushed, Fls, PushDigit, And, Not, LowMask, Zero;
    BitmapText.ZeroBits(a, nmask);
    var k := 0;
    ghost var s := START;
    var c, digits, started, nbits, more := NUL, false, false, 0, true;
    assert buf[0..] == buf;
    while more
      invariant 0 <= k <= |buf|
      invariant more ==> s == Scanner(c, digits, false, Zero(), started, nbits, BitmapText.BitSet(a[..], nmask))
      invariant more ==> Scan(buf, START, nmask) == Scan(buf[k..], s, nmask)
      invariant !more ==> Scan(buf, START, nmask) == Parsed(BitmapText.BitSet(a[..], nmask))
      decreases |buf| - k, more
    {
      var chunk, inChunk, ended := Zero(), false, false;
      ghost var k0 := k;
      while k < |buf| && !ended
        invariant k0 <= k <= |buf| && (ended ==> k0 < k)
        invariant s == Scanner(s.prev, digits, inChunk, chunk, started, nbits, BitmapText.BitSet(a[..], nmask))
        invariant !ended ==> s.prev == c && Scan(buf, START, nmask) == Scan(buf[k..], s, nmask)
        invariant ended ==>
                    c == buf[k - 1] && Read(s, c) == EndItem && Scan(buf, START, nmask) == Scan(buf[k - 1..], s, nmask)
        decreases |buf| - k
      {
        var oldC := c;
        c := buf[k];
        k := k + 1;
        Unfold(buf, k - 1, s, nmask);
        if IsSpace(c) {
          s := s.(prev := c);
          continue;
        }
        if digits && c != NUL && IsSpace(oldC) {
          return -EINVAL;
        }
        if c == NUL || c == ',' {
          ended := true;
          continue;
        }
        if !IsHex(c) {
          return -EINVAL;
        }
        if And(chunk, Not(LowMask(28))) != Zero() {
          return -EOVERFLOW;
        }
        chunk := PushDigit(chunk, HexToBin(c));
        inChunk, digits := true, true;
        s := s.(prev := c, digits := true, inChunk := true, chunk := chunk);
      }
      Conclude(buf, k, ended, s, nmask);
      if !inChunk {
        return -EINVAL;
      }
      if started || chunk != Zero() {
        PushChunk(a, chunk, nmask);
        nbits := nbits + if started then 32 else Fls(chunk, 32);
        started := true;
        if nbits > nmask {
          return -EOVERFLOW;
        }
      }
      more := k < |buf| && c == ',';
      s := NewChunk(EndChunk(s, nmask).s, c);
    }
    return 0;
  }

  lemma Unfold(buf: string, k: int, s: Scanner, nmask: int)
    requires 0 <= k < |buf|
    ensures Read(s, buf[k]).Go? ==> Scan(buf[k..], s, nmask) == Scan(buf[k + 1..], Read(s, buf[k]).s, nmask)
    ensures Read(s, buf[k]).Stop? ==> Scan(buf[k..], s, nmask) == Error(Read(s, buf[k]).errno)
  {
    assert buf[k..][1..] == buf[k + 1..];
  }

  /** The end of a chunk, at a separator or at the end of the text. */
  lemma Conclude(buf: string, k: int, ended: bool, s: Scanner, nmask: int)
    requires 0 <= k <= |buf| && (!ended ==> k == |buf|)
    requires ended ==> 0 < k && Read(s, buf[k - 1]) == EndItem
    ensures var r := Scan(if ended then buf[k - 1..] else buf[k..], s, nmask);
      var e := EndChunk(s, nmask);
      r == if e.Bad? then Error(e.errno)
           else if ended && buf[k - 1] == ',' && k < |buf| then Scan(buf[k..], NewChunk(e.s, ','), nmask)
               else Parsed(e.s.bits)
  {
    if ended { assert buf[k - 1..][1..] == buf[k..]; }
  }

  /** Printing any bitmap of at least one bit and parsing the text gives back the same bits. */
  method HexThere(a: seq<Word>, nmask: int) returns (err: int, back: array<Word>)
    requires 1 <= nmask <= 32 * |a|
    ensures err == 0 && nmask <= 32 * back.Length && BitmapText.BitSet(back[..], nmask) == BitmapText.BitSet(a, nmask)
  {
    hide Scan, Render;
    var text := PrintHex(a, nmask);
    back := new Word[|a|];
    err := ParseHex(text, back, nmask);
    HexRoundTrip(a, nmask);
    FromZero(a, nmask);
  }

  lemma FromZero(a: seq<Word>, nmask: int)
    ensures From(a, nmask, 0) == BitmapText.BitSet(a, nmask)
  {
    hide At;
    forall i ensures i in From(a, nmask, 0) <==> i in BitmapText.BitSet(a, nmask) {
      assert Moved(a, 0, i) == At(a, i);
    }
  }
}
