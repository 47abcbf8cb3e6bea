/** bitmap_scnlistprintf and bitmap_parselist on word arrays. */
module BitmapText {
  import opened Bitmap
  import opened BitSearch
  import opened Errno
  import opened Strides
  import opened ParseText
  import opened BitmapList
  import BitmapListTexts

  /** The bitmap as a set. */
  ghost function BitSet(a: seq<Word>, nbits: int): set<int> {
    set i | 0 <= i < nbits && At(a, i)
  }

  /** bscnl_emit, with room for all of it. */
  method Emit(buf: string, r: Range, ghost rs: seq<Range>) returns (buf': string)
    requires 0 <= r.bot <= r.top && (forall k :: 0 <= k < |rs| ==> 0 <= rs[k].bot <= rs[k].top) && buf == Render(rs)
    ensures buf' == Render(rs + [r])
  {
    RenderAppend(rs, r);
    buf' := buf;
    if |buf| > 0 {
      buf' := buf' + ",";
    }
    if rs != [] { RenderNonEmpty(rs); }
    if r.bot == r.top {
      buf' := buf' + Decimal(r.bot);
    } else {
      buf' := buf' + (Decimal(r.bot) + "-" + Decimal(r.top));
    }
  }

  /** rs are the maximal runs of set bits, in ascending order. */
  ghost predicate RunsOf(rs: seq<Range>, a: seq<Word>, nbits: int) {
    && Proper(rs, nbits)
    && (forall k :: 0 <= k < |rs| - 1 ==> rs[k].top + 1 < rs[k + 1].bot)
    && forall i :: 0 <= i < nbits ==> (At(a, i) <==> exists k :: 0 <= k < |rs| && rs[k].bot <= i <= rs[k].top)
  }

  lemma {:induction false} UnionIs(rs: seq<Range>, i: int)
    ensures i in Union(rs) <==> exists k :: 0 <= k < |rs| && rs[k].bot <= i <= rs[k].top
  {
    if rs != [] {
      UnionIs(rs[1..], i);
      if k :| 0 <= k < |rs| && rs[k].bot <= i <= rs[k].top { assert k > 0 ==> rs[1..][k - 1] == rs[k]; }
    }
  }

  /** Runs cover the same bits seen as a set and one by one. */
  lemma RunsUnion(rs: seq<Range>, a: seq<Word>, nbits: int)
    requires Proper(rs, nbits)
    ensures Union(rs) == BitSet(a, nbits) <==>
            forall i :: 0 <= i < nbits ==> (At(a, i) <==> exists k :: 0 <= k < |rs| && rs[k].bot <= i <= rs[k].top)
  {
    hide At, Union;
    if Union(rs) == BitSet(a, nbits) {
      forall i | 0 <= i < nbits ensures At(a, i) <==> exists k :: 0 <= k < |rs| && rs[k].bot <= i <= rs[k].top {
        UnionIs(rs, i);
        assert At(a, i) <==> i in BitSet(a, nbits);
      }
    } else {
      var i :| (i in Union(rs)) != (i in BitSet(a, nbits));
      UnionIs(rs, i);
    }
  }

  /**
   bitmap_scnlistprintf into a buffer that is large enough: the maximal runs of set bits, in order, each as its bit
   number or as its first and last bit number with a dash between them, and commas between the runs.
   */
  method PrintList(a: seq<Word>, nbits: int) returns (buf: string)
    requires 0 <= nbits <= 32 * |a|
    ensures exists rs, texts :: RunsOf(rs, a, nbits) && buf == Render(rs) && BitmapListTexts.Prints(buf, rs, texts)
  {
    hide At, Render, Union, Span, BitmapListTexts.Prints;
    ghost var rs := [];
    buf := "";
    NoRanges();
    var cur := FindFirstBit(a, nbits);
    var rbot := cur;
    while cur < nbits
      invariant 0 <= rbot <= cur <= nbits && Proper(rs, nbits) && buf == Render(rs) && Union(rs) == BitSet(a, rbot)
      invariant forall i :: rbot <= i <= cur && i < nbits ==> At(a, i)
      invariant forall k :: 0 <= k < |rs| - 1 ==> rs[k].top + 1 < rs[k + 1].bot
      invariant cur < nbits && rs != [] ==> rs[|rs| - 1].top + 1 < rbot
      invariant cur == nbits ==> rbot == nbits
      decreases nbits - cur
    {
      var rtop := cur;
      cur := FindNextBit(a, nbits, cur + 1);
      if cur >= nbits || cur > rtop + 1 {
        buf := Emit(buf, Range(rbot, rtop), rs);
        RenderAppend(rs, Range(rbot, rtop));
        RunBits(a, rbot, rtop, cur);
        rs := rs + [Range(rbot, rtop)];
        rbot := cur;
      }
    }
    RunsUnion(rs, a, nbits);
    ghost var texts := BitmapListTexts.RenderPrints(rs);
    assert RunsOf(rs, a, nbits);
  }

  lemma NoRanges()
    ensures Render([]) == "" && Union([]) == {}
  {
  }

  lemma RunBits(a: seq<Word>, bot: int, top: int, cur: int)
    requires 0 <= bot <= top < cur
    requires (forall i :: bot <= i <= top ==> At(a, i)) && forall i :: top < i < cur ==> !At(a, i)
    ensures BitSet(a, cur) == BitSet(a, bot) + Span(bot, top)
  {
    hide At;
  }

  /** set_bit for each bit from x to b. */
  method SetSpan(a: array<Word>, x: int, b: int, nbits: int)
    requires 0 <= x && b < nbits <= 32 * a.Length
    modifies a
    ensures BitSet(a[..], nbits) == old(BitSet(a[..], nbits)) + Span(x, b)
  {
    hide At, BitSet, Span, SetBit;
    var i := x;
    NoSpan(x, x - 1);
    while i <= b
      invariant x <= i && (i <= b + 1 || i == x) && BitSet(a[..], nbits) == old(BitSet(a[..], nbits)) + Span(x, i - 1)
    {
      AddBit(a[..], i, nbits);
      ghost var was := a[..];
      a[i / 32] := a[i / 32][i % 32 := true];
      assert a[..] == SetBit(was, i);
      SpanStep(x, i);
      i := i + 1;
    }
    if x > b { NoSpan(x, b); }
  }

  lemma NoSpan(x: int, b: int)
    requires b < x
    ensures Span(x, b) == {}
  {
  }

  lemma AddBit(a: seq<Word>, i: int, nbits: int)
    requires 0 <= i < nbits <= 32 * |a|
    ensures SetBit(a, i) == a[i / 32 := a[i / 32][i % 32 := true]]
    ensures BitSet(SetBit(a, i), nbits) == BitSet(a, nbits) + {i}
  {
    SetBitAt(a, i);
    hide At, SetBit;
  }

  lemma SpanStep(x: int, i: int)
    requires x <= i
    ensures Span(x, i) == Span(x, i - 1) + {i}
  {
  }

  /** bitmap_zero */
  method ZeroBits(a: array<Word>, nbits: int)
    requires 0 <= nbits <= 32 * a.Length
    modifies a
    ensures BitSet(a[..], nbits) == {}
  {
    ClearWords(a, 0, Words(nbits));
    forall i | 0 <= i < nbits ensures !At(a[..], i) {
      AtWord(a[..], i / 32, i % 32);
    }
  }

  /** __bitmap_parselist: the outcome is that of Scan, and on success the bitmap is the set it found. */
  method ParseList(buf: string, a: array<Word>, nbits: int) returns (err: int)
    requires 0 <= nbits <= 32 * a.Length
    modifies a
    ensures var r := Scan(buf, START, nbits);
      if r.Error? then err == -r.errno else err == 0 && BitSet(a[..], nbits) == r.bits
  {
    hide At, BitSet, Scan, Span;
    ZeroBits(a, nbits);
    var k := 0;
    ghost var s := START;
    var c, digits, more := NUL, false, true;
    assert buf[0..] == buf;
    while more
      invariant 0 <= k <= |buf| && s.prev == c && s.digits == digits
      invariant more ==>
                  && s == Scanner(c, digits, true, false, 0, 0, BitSet(a[..], nbits))
                  && Scan(buf, START, nbits) == Scan(buf[k..], s, nbits)
      invariant !more ==> Scan(buf, START, nbits) == Parsed(BitSet(a[..], nbits))
      decreases |buf| - k, more
    {
      var expDigit, inRange, x, b := true, false, 0, 0;
      var ended := false;
      ghost var k0 := k;
      while k < |buf| && !ended
        invariant k0 <= k && (ended ==> k0 < k)
        invariant 0 <= k <= |buf| && s == Scanner(s.prev, digits, expDigit, inRange, x, b, BitSet(a[..], nbits))
        invariant !ended ==> s.prev == c && Scan(buf, START, nbits) == Scan(buf[k..], s, nbits)
        invariant ended ==>
                    && 0 < k && c == buf[k - 1] && Read(s, c) == EndItem
                    && Scan(buf, START, nbits) == Scan(buf[k - 1..], s, nbits)
        invariant 0 <= x && 0 <= b
        decreases |buf| - k
      {
        var oldC := c;
        c := buf[k];
        k := k + 1;
        Unfold(buf, k - 1, s, nbits);
        if IsSpace(c) {
          s := s.(prev := c);
          continue;
        }
        if digits && c != NUL && IsSpace(oldC) {
          return -EINVAL;
        }
        if c == NUL || c == ',' {
          ended := true;
          continue;
        }
        if c == '-' {
          if expDigit || inRange {
            return -EINVAL;
          }
          b, inRange, expDigit := 0, true, true;
          s := s.(prev := c, b := 0, inRange := true, expDigit := true);
          continue;
        }
        if !IsDigit(c) {
          return -EINVAL;
        }
        b := (b * 10 + (c as int - '0' as int)) % LIMIT;
        if !inRange {
          x := b;
        }
        expDigit, digits := false, true;
        s := s.(prev := c, b := b, a := x, expDigit := false, digits := true);
      }
      Conclude(buf, k, ended, s, nbits);
      if !(x <= b) {
        return -EINVAL;
      }
      if b >= nbits {
        return -ERANGE;
      }
      SetSpan(a, x, b, nbits);
      more := k < |buf| && c == ',';
      s := NewItem(s, c, BitSet(a[..], nbits));
    }
    return 0;
  }

  lemma Unfold(buf: string, k: int, s: Scanner, nbits: int)
    requires 0 <= k < |buf|
    ensures Read(s, buf[k]).Go? ==> Scan(buf[k..], s, nbits) == Scan(buf[k + 1..], Read(s, buf[k]).s, nbits)
    ensures Read(s, buf[k]).Stop? ==> Scan(buf[k..], s, nbits) == Error(Read(s, buf[k]).errno)
  {
    assert buf[k..][1..] == buf[k + 1..];
  }

  /** The end of an item, at a separator or at the end of the text. */
  lemma Conclude(buf: string, k: int, ended: bool, s: Scanner, nbits: int)
    requires 0 <= k <= |buf| && (!ended ==> k == |buf|)
    requires ended ==> 0 < k && Read(s, buf[k - 1]) == EndItem
    ensures var r := Scan(if ended then buf[k - 1..] else buf[k..], s, nbits);
      var f := Finish(s, nbits);
      r == if f.Parsed? && ended && buf[k - 1] == ',' && k < |buf| then Scan(buf[k..], NewItem(s, ',', f.bits), nbits)
          else f
  {
    if ended { assert buf[k - 1..][1..] == buf[k..]; }
  }

  /**
   Printing a bitmap and parsing the text gives back the same bits, for every bitmap that is not
   empty; the empty one comes back as {0}.
   */
  method ListThere(a: seq<Word>, nbits: int) returns (err: int, back: array<Word>)
    requires 1 <= nbits <= 32 * |a| && nbits < LIMIT
    ensures err == 0 && nbits <= 32 * back.Length
    ensures BitSet(back[..], nbits) == if BitSet(a, nbits) != {} then BitSet(a, nbits) else {0}
  {
    hide BitSet, Scan, Render, Union, BitmapListTexts.Prints;
    var text := PrintList(a, nbits);
    ghost var rs, texts :| RunsOf(rs, a, nbits) && text == Render(rs) && BitmapListTexts.Prints(text, rs, texts);
    RunsUnion(rs, a, nbits);
    back := new Word[|a|];
    err := ParseList(text, back, nbits);
    NoRanges();
    if rs != [] {
      ListRoundTrip(rs, nbits);
      SomeBit(rs, nbits);
    } else {
      EmptyListReadsAsZero(nbits);
    }
  }

  lemma SomeBit(rs: seq<Range>, nbits: int)
    requires rs != [] && Proper(rs, nbits)
    ensures Union(rs) != {}
  {
    assert rs[0].bot in Span(rs[0].bot, rs[0].top);
  }
}
