/**
 The hexadecimal format of bitmaps, character by character: what bitmap_scnprintf prints at each place, and exactly
 which texts __bitmap_parse accepts, what it reads from them, and how it refuses the others.
 */
module BitmapHexTexts {
  import opened Errno
  import opened Bitmap
  import opened ParseText
  import opened TextItems
  import opened BitmapHex

  // ------------------------------------------------------------------------- printing

  /** Bits 4n to 4n + 3 of the map as a number; bits behind its end count as 0. */
  function FourBits(a: seq<Word>, nmask: int, n: int): (v: int)
    ensures 0 <= v < 16
  {
    (if 4 * n < nmask && At(a, 4 * n) then 1 else 0) + (if 4 * n + 1 < nmask && At(a, 4 * n + 1) then 2 else 0) +
    (if 4 * n + 2 < nmask && At(a, 4 * n + 2) then 4 else 0) + (if 4 * n + 3 < nmask && At(a, 4 * n + 3) then 8 else 0)
  }

  lemma DigitIs(v: int)
    requires 0 <= v < 16
    ensures HexDigit(v) == "0123456789abcdef"[v]
  {
  }

  lemma {:induction false} HexTextAt(w: Word, n: int)
    requires 0 <= n <= 8
    ensures |HexText(w, n)| == n && forall i :: 0 <= i < n ==> HexText(w, n)[i] == HexDigit(Nibble(w, n - 1 - i))
  {
    hide Nibble, HexDigit;
    if n > 0 { HexTextAt(w, n - 1); }
  }

  lemma {:induction false} RestLength(a: seq<Word>, j: int)
    requires 0 <= j <= |a|
    ensures |Rest(a, j)| == 9 * j
  {
    hide HexText, Rest;
    RestTail(a, j);
    if j > 0 {
      RestLength(a, j - 1);
      HexTextAt(a[j - 1], 8);
    }
  }

  /** Counted from the end, the text of word j behind the words below it. */
  lemma WordChar(r: string, h: string, t: string, k: int)
    requires |h| == 8 && |r| == 9 + |t| && r[0] == ',' && r[1..] == h + t && 0 <= k < 9
    ensures r[8 - k] == if k == 8 then ',' else h[7 - k]
    ensures forall i :: 0 <= i < |t| ==> r[9 + i] == t[i]
  {
    assert k < 8 ==> r[8 - k] == r[1..][7 - k];
    forall i | 0 <= i < |t| ensures r[9 + i] == t[i] { assert r[9 + i] == r[1..][8 + i]; }
  }

  /** The character q places before the last one of the words below j. */
  lemma {:induction false} RestAt(a: seq<Word>, j: int, q: int)
    requires 0 <= j <= |a| && 0 <= q < 9 * j
    ensures |Rest(a, j)| == 9 * j && q / 9 < j
    ensures Rest(a, j)[9 * j - 1 - q] == if q % 9 == 8 then ',' else HexDigit(Nibble(a[q / 9], q % 9))
  {
    hide Nibble, HexDigit, HexText, Rest;
    RestLength(a, j);
    RestLength(a, j - 1);
    RestTail(a, j);
    HexTextAt(a[j - 1], 8);
    var k := q - 9 * (j - 1);
    WordChar(Rest(a, j), HexText(a[j - 1], 8), Rest(a, j - 1), if k < 0 then 0 else k);
    if k < 0 {
      RestAt(a, j - 1, q);
    } else {
      assert q / 9 == j - 1 && q % 9 == k;
    }
  }

  /** A whole word's four bits are those of the map. */
  lemma WholeBits(a: seq<Word>, nmask: int, w: int, k: int)
    requires 0 <= w < |a| && 0 <= k < 8 && 32 * (w + 1) <= nmask
    ensures FourBits(a, nmask, 8 * w + k) == Nibble(a[w], k)
  {
    AtWord(a, w, 4 * k);
    AtWord(a, w, 4 * k + 1);
    AtWord(a, w, 4 * k + 2);
    AtWord(a, w, 4 * k + 3);
    hide At;
  }

  lemma TopBits(a: seq<Word>, nmask: int, k: int)
    requires 1 <= nmask <= 32 * |a| && 0 <= k < 8
    ensures Words(nmask) >= 1 && FourBits(a, nmask, 8 * (Words(nmask) - 1) + k) == Nibble(TopWord(a, nmask), k)
  {
    var w := Words(nmask) - 1;
    AtWord(a, w, 4 * k);
    AtWord(a, w, 4 * k + 1);
    AtWord(a, w, 4 * k + 2);
    AtWord(a, w, 4 * k + 3);
    hide At;
  }

  /** Each character of what is printed, counted from the last one. */
  lemma RenderAt(a: seq<Word>, nmask: int)
    requires 1 <= nmask <= 32 * |a|
    ensures |Render(a, nmask)| == ((nmask - 1) % 32 + 4) / 4 + 9 * ((nmask - 1) / 32)
    ensures forall q :: 0 <= q < |Render(a, nmask)| ==>
              Render(a, nmask)[|Render(a, nmask)| - 1 - q] ==
              if q % 9 == 8 then ',' else "0123456789abcdef"[FourBits(a, nmask, q - q / 9)]
  {
    RenderLength(a, nmask);
    forall q | 0 <= q < |Render(a, nmask)|
      ensures Render(a, nmask)[|Render(a, nmask)| - 1 - q] ==
              if q % 9 == 8 then ',' else "0123456789abcdef"[FourBits(a, nmask, q - q / 9)]
    {
      RenderChar(a, nmask, q);
    }
  }

  lemma RenderLength(a: seq<Word>, nmask: int)
    requires 1 <= nmask <= 32 * |a|
    ensures Words(nmask) - 1 == (nmask - 1) / 32 && TopSize(nmask) == (nmask - 1) % 32 + 1
    ensures |Render(a, nmask)| == ((nmask - 1) % 32 + 4) / 4 + 9 * ((nmask - 1) / 32)
    ensures Render(a, nmask) == HexText(TopWord(a, nmask), (TopSize(nmask) + 3) / 4) + Rest(a, Words(nmask) - 1)
    ensures |Rest(a, Words(nmask) - 1)| == 9 * (Words(nmask) - 1)
  {
    RestLength(a, Words(nmask) - 1);
    HexTextAt(TopWord(a, nmask), (TopSize(nmask) + 3) / 4);
    hide HexText, TopWord;
  }

  lemma RenderChar(a: seq<Word>, nmask: int, q: int)
    requires 1 <= nmask <= 32 * |a| && 0 <= q < |Render(a, nmask)|
    ensures Render(a, nmask)[|Render(a, nmask)| - 1 - q] ==
            if q % 9 == 8 then ',' else "0123456789abcdef"[FourBits(a, nmask, q - q / 9)]
  {
    hide Nibble, HexDigit, HexText, Rest, FourBits, Render, TopWord, TopSize;
    RenderLength(a, nmask);
    var j, d := Words(nmask) - 1, (TopSize(nmask) + 3) / 4;
    var k := q % 9;
    if q < 9 * j {
      RestAt(a, j, q);
      if k != 8 {
        WholeBits(a, nmask, q / 9, k);
        DigitIs(Nibble(a[q / 9], k));
      }
    } else {
      HexTextAt(TopWord(a, nmask), d);
      assert q / 9 == j && k == q - 9 * j < d <= 8;
      TopBits(a, nmask, k);
      DigitIs(Nibble(TopWord(a, nmask), k));
    }
  }

  // ------------------------------------------------------------------------- reading

  /** c is the hexadecimal digit v. */
  ghost predicate HexIs(c: char, v: int) {
    0 <= v < 16 && (c == "0123456789abcdef"[v] || c == "0123456789ABCDEF"[v])
  }

  ghost predicate Hexadecimal(c: char) {
    exists v :: HexIs(c, v)
  }

  ghost predicate HexDigits(s: string) {
    forall i :: 0 <= i < |s| ==> Hexadecimal(s[i])
  }

  /** Bit b of a number below 16. */
  ghost predicate Odd(v: int, b: int) {
    v / (if b == 0 then 1 else if b == 1 then 2 else if b == 2 then 4 else 8) % 2 == 1
  }

  /** Bit i of the number with these hexadecimal digits. */
  ghost predicate BitOf(xs: string, i: int) {
    0 <= i && i / 4 < |xs| && exists v :: HexIs(xs[|xs| - 1 - i / 4], v) && Odd(v, i % 4)
  }

  /** The number needs no more than eight digits. */
  ghost predicate Short(xs: string) {
    forall i :: 0 <= i < |xs| - 8 ==> xs[i] == '0'
  }

  /** A chunk: digits between blanks. */
  datatype Parts = Parts(lead: string, xs: string, trail: string)

  function Text(p: Parts): string {
    p.lead + p.xs + p.trail
  }

  /** Once a digit has been seen, in this chunk or an earlier one, nothing but blanks may follow a blank. */
  ghost predicate Well(p: Parts, seen: bool) {
    && Blanks(p.lead) && HexDigits(p.xs) && Blanks(p.trail)
    && (p.xs == "" ==> p.trail == "") && (seen && p.xs != "" ==> p.lead == "")
  }

  /** Up to some character r is a chunk, of more than 32 bits. */
  ghost predicate TooLong(r: string, seen: bool) {
    exists p, i :: 0 <= i <= |r| && Text(p) == r[..i] && Well(p, seen) && !Short(p.xs)
  }

  /** Item k is a chunk of at most 32 bits with these parts; no blank comes before a comma. */
  ghost predicate Formed(items: seq<string>, tail: string, k: int, p: Parts)
    requires 0 <= k < |items|
  {
    && Text(p) == items[k] && Well(p, k > 0) && Short(p.xs) && p.xs != ""
    && (CommaBehind(items, tail, k) ==> p.trail == "")
  }

  ghost predicate HasForm(items: seq<string>, tail: string, k: int)
    requires 0 <= k < |items|
  {
    exists p :: Formed(items, tail, k, p)
  }

  /** Bit x of the number that the first n chunks make up, 32 bits each and the last one lowest. */
  ghost predicate NumberBit(items: seq<string>, tail: string, n: int, x: int) {
    && 0 <= x && 0 <= n - 1 - x / 32 < |items|
    && exists p :: Formed(items, tail, n - 1 - x / 32, p) && BitOf(p.xs, x % 32)
  }

  /** The number that the first n chunks make up has no bit behind the map. */
  ghost predicate Fits(items: seq<string>, tail: string, n: int, nmask: int) {
    forall x :: NumberBit(items, tail, n, x) ==> x < nmask
  }

  /** Item k is a chunk, and the number up to it fits the map. */
  ghost predicate Accepted(items: seq<string>, tail: string, k: int, nmask: int)
    requires 0 <= k < |items|
  {
    HasForm(items, tail, k) && Fits(items, tail, k + 1, nmask)
  }

  /** Item k is the first that is not accepted. */
  ghost predicate Refused(items: seq<string>, tail: string, k: int, nmask: int) {
    && 0 <= k < |items| && !Accepted(items, tail, k, nmask)
    && forall j :: 0 <= j < k ==> Accepted(items, tail, j, nmask)
  }

  // ------------------------------------------------------------------- reading one chunk

  /** The scanner after the characters of r. */
  function Run(r: string, s: Scanner): Next<Scanner> {
    if r == "" then Go(s)
    else match Run(r[..|r| - 1], s)
      case Go(s') => Read(s', r[|r| - 1])
      case Stop(e) => Stop(e)
      case EndItem => EndItem
  }

  ghost function ChunkOf(xs: string): Word {
    seq(32, i requires 0 <= i < 32 => BitOf(xs, i))
  }

  /** The scanner behind a chunk of these parts. */
  ghost function After(p: Parts, s: Scanner): Scanner {
    Scanner(if Text(p) == "" then s.prev else Text(p)[|Text(p)| - 1], s.digits || p.xs != "", p.xs != "",
            ChunkOf(p.xs), s.started, s.count, s.bits)
  }

  /** The scanner in front of a chunk. */
  ghost predicate Fresh(s: Scanner) {
    s == NewChunk(s, s.prev) && !IsSpace(s.prev)
  }

  lemma SpaceIsBlank(c: char)
    ensures IsSpace(c) <==> Blank(c)
  {
  }

  lemma HexValue(c: char)
    ensures IsHex(c) <==> Hexadecimal(c)
    ensures forall v :: HexIs(c, v) <==> IsHex(c) && HexToBin(c) == v
  {
    if IsHex(c) { assert HexIs(c, HexToBin(c)); }
  }

  ghost function Longer(p: Parts, c: char): Parts {
    if !Blank(c) then p.(xs := p.xs + [c])
    else if p.xs == "" then p.(lead := p.lead + [c]) else p.(trail := p.trail + [c])
  }

  ghost predicate CanGrow(p: Parts, c: char, seen: bool) {
    Blank(c) || (p.trail == "" && Hexadecimal(c) && (seen && p.xs == "" ==> p.lead == ""))
  }

  lemma LongerText(p: Parts, c: char, seen: bool)
    requires Well(p, seen) && CanGrow(p, c, seen)
    ensures Text(Longer(p, c)) == Text(p) + [c] && Well(Longer(p, c), seen)
  {
    hide Blank, Hexadecimal;
  }

  ghost function Shorter(p: Parts): Parts
    requires Text(p) != ""
  {
    if p.trail != "" then p.(trail := p.trail[..|p.trail| - 1])
    else if p.xs != "" then p.(xs := p.xs[..|p.xs| - 1])
    else p.(lead := p.lead[..|p.lead| - 1])
  }

  ghost function Last(p: Parts): char
    requires Text(p) != ""
  {
    if p.trail != "" then p.trail[|p.trail| - 1]
    else if p.xs != "" then p.xs[|p.xs| - 1]
    else p.lead[|p.lead| - 1]
  }

  lemma ShorterText(p: Parts)
    requires Text(p) != ""
    ensures Text(p) == Text(Shorter(p)) + [Last(p)]
    ensures Last(p) == Text(p)[|Text(p)| - 1] && Text(Shorter(p)) == Text(p)[..|Text(p)| - 1]
    ensures p.lead != "" || p.xs != "" || p.trail != ""
  {
    var t, w := Text(p), Text(Shorter(p)) + [Last(p)];
    assert t == w;
    assert w[..|w| - 1] == Text(Shorter(p)) && w[|w| - 1] == Last(p);
  }

  lemma ShorterWell(p: Parts, seen: bool)
    requires Well(p, seen) && Text(p) != ""
    ensures var c := Last(p);
      && Well(Shorter(p), seen) && CanGrow(Shorter(p), c, seen) && Longer(Shorter(p), c) == p && c != ',' && c != '\0'
  {
    ShorterText(p);
    HexNotBlank(Last(p));
    hide Text, Blank, Hexadecimal;
  }

  lemma HexNotBlank(c: char)
    ensures Hexadecimal(c) ==> !Blank(c) && c != ',' && c != '\0'
    ensures Blank(c) ==> c != ',' && c != '\0'
  {
  }

  lemma LastBlank(p: Parts, s: Scanner)
    requires Well(p, s.digits) && Fresh(s)
    ensures IsSpace(After(p, s).prev) <==> p.trail != "" || (p.xs == "" && p.lead != "")
  {
    if Text(p) != "" {
      ShorterText(p);
      HexNotBlank(Last(p));
      SpaceIsBlank(Last(p));
      hide Text, Blank, Hexadecimal, IsSpace;
    }
  }

  lemma DigitBits(v: int, b: int)
    requires 0 <= v < 16 && 0 <= b < 4
    ensures NibbleWord(v)[b] == Odd(v, b)
  {
  }

  /** One more digit moves the bits up by four. */
  lemma LongerBits(xs: string, c: char, i: int)
    requires IsHex(c) && 0 <= i
    ensures BitOf(xs + [c], i) == if i < 4 then Odd(HexToBin(c), i) else BitOf(xs, i - 4)
  {
    HexValue(c);
    if i >= 4 {
      assert (i - 4) / 4 == i / 4 - 1 && (i - 4) % 4 == i % 4;
    }
    hide HexIs, Odd, IsHex, HexToBin;
  }

  lemma PushBit(chunk: Word, v: int, i: int)
    requires 0 <= v < 16 && 0 <= i < 32
    ensures PushDigit(chunk, v)[i] == if i < 4 then Odd(v, i) else chunk[i - 4]
  {
    if i < 4 { DigitBits(v, i); }
  }

  lemma ChunkLonger(xs: string, c: char)
    requires IsHex(c)
    ensures PushDigit(ChunkOf(xs), HexToBin(c)) == ChunkOf(xs + [c])
  {
    forall i | 0 <= i < 32 ensures PushDigit(ChunkOf(xs), HexToBin(c))[i] == ChunkOf(xs + [c])[i] {
      PushBit(ChunkOf(xs), HexToBin(c), i);
      LongerBits(xs, c, i);
      hide BitOf, Odd, PushDigit, HexToBin;
    }
  }

  /** The test for four free bits. */
  lemma FullChunk(xs: string, c: char)
    requires HexDigits(xs) && Short(xs)
    ensures Short(xs + [c]) <==> And(ChunkOf(xs), Not(LowMask(28))) == Zero()
  {
    ShortLonger(xs, c);
    TopBits28(ChunkOf(xs));
    if |xs| >= 8 {
      HexValue(xs[|xs| - 8]);
      ZeroDigit(xs[|xs| - 8]);
      TopNibble(xs, 0);
      TopNibble(xs, 1);
      TopNibble(xs, 2);
      TopNibble(xs, 3);
    } else {
      assert forall i :: 28 <= i < 32 ==> !ChunkOf(xs)[i];
    }
    hide And, ChunkOf, Not, LowMask, Zero, Short, Odd, HexToBin;
  }

  lemma ShortLonger(xs: string, c: char)
    requires Short(xs)
    ensures Short(xs + [c]) <==> |xs| < 8 || xs[|xs| - 8] == '0'
  {
    var ys := xs + [c];
    if |xs| >= 8 { assert ys[|ys| - 9] == xs[|xs| - 8]; }
  }

  lemma TopBits28(w: Word)
    ensures And(w, Not(LowMask(28))) == Zero() <==> !w[28] && !w[29] && !w[30] && !w[31]
  {
    var m := And(w, Not(LowMask(28)));
    assert forall i :: 0 <= i < 32 ==> m[i] == (i >= 28 && w[i]);
    assert m[28] == w[28] && m[29] == w[29] && m[30] == w[30] && m[31] == w[31];
  }

  lemma TopNibble(xs: string, b: int)
    requires HexDigits(xs) && |xs| >= 8 && 0 <= b < 4
    ensures IsHex(xs[|xs| - 8]) && (ChunkOf(xs)[28 + b] <==> Odd(HexToBin(xs[|xs| - 8]), b))
  {
    HexValue(xs[|xs| - 8]);
    assert (28 + b) / 4 == 7 && (28 + b) % 4 == b;
    hide HexIs, IsHex, HexToBin, Odd, Hexadecimal;
  }

  lemma ZeroDigit(c: char)
    requires IsHex(c)
    ensures var v := HexToBin(c); c == '0' <==> !Odd(v, 0) && !Odd(v, 1) && !Odd(v, 2) && !Odd(v, 3)
  {
  }

  /** One more character behind a chunk. */
  lemma ReadOne(p: Parts, c: char, s: Scanner)
    requires Well(p, s.digits) && Short(p.xs) && Fresh(s) && c != ',' && c != '\0'
    ensures CanGrow(p, c, s.digits) ==> Well(Longer(p, c), s.digits)
    ensures Read(After(p, s), c) ==
            if !CanGrow(p, c, s.digits) then Stop(22)
            else if Short(Longer(p, c).xs) then Go(After(Longer(p, c), s)) else Stop(75)
  {
    hide Text, HexDigits, HexIs, IsSpace, Blank, IsHex, HexToBin, ChunkOf, PushDigit, Short, Zero, And, Not, LowMask;
    LastBlank(p, s);
    SpaceIsBlank(c);
    HexValue(c);
    HexNotBlank(c);
    assert HexDigits(p.xs);
    FullChunk(p.xs, c);
    if CanGrow(p, c, s.digits) {
      LongerText(p, c, s.digits);
      if IsHex(c) { ChunkLonger(p.xs, c); }
    }
  }

  /** A chunk of these parts is read to its end, or refused as too long. */
  lemma {:induction false} WellRuns(p: Parts, s: Scanner)
    requires Well(p, s.digits) && Fresh(s)
    ensures Run(Text(p), s) == if Short(p.xs) then Go(After(p, s)) else Stop(75)
    decreases |Text(p)|
  {
    hide Well, Text, Shorter, Longer, CanGrow, Read, After, Last, Short;
    if Text(p) == "" {
      NoParts(p, s);
    } else {
      ShorterText(p);
      ShorterWell(p, s.digits);
      ShorterShort(p);
      WellRuns(Shorter(p), s);
      if Short(Shorter(p).xs) { ReadOne(Shorter(p), Last(p), s); }
    }
  }

  lemma ShorterShort(p: Parts)
    requires Text(p) != ""
    ensures Short(p.xs) ==> Short(Shorter(p).xs)
  {
  }

  lemma NoParts(p: Parts, s: Scanner)
    requires Well(p, s.digits) && Fresh(s) && Text(p) == ""
    ensures After(p, s) == s && Short(p.xs)
  {
    assert p.xs == "";
    assert ChunkOf("") == Zero();
  }

  lemma NothingYet(p: Parts, s: Scanner)
    requires p == Parts("", "", "") && Fresh(s)
    ensures Text(p) == "" && Well(p, s.digits) && After(p, s) == s && Short(p.xs)
  {
    NoParts(p, s);
  }

  lemma {:induction false} RunPrefix(r: string, n: int, s: Scanner)
    requires 0 <= n <= |r|
    ensures Run(r[..n], s).Stop? ==> Run(r, s) == Run(r[..n], s)
    decreases |r|
  {
    if n == |r| {
      assert r[..n] == r;
    } else {
      var r' := r[..|r| - 1];
      assert r'[..n] == r[..n];
      RunPrefix(r', n, s);
    }
  }

  /** The parts of what has been read. */
  lemma {:induction false} RunGoes(r: string, s: Scanner) returns (p: Parts)
    requires Plain(r) && Fresh(s)
    ensures match Run(r, s)
      case Go(s') => Text(p) == r && Well(p, s.digits) && Short(p.xs) && s' == After(p, s)
      case Stop(e) => e == 22 || (e == 75 && TooLong(r, s.digits))
      case EndItem => false
    decreases |r|
  {
    hide Well, Text, Longer, CanGrow, Read, After, Fresh, Short, TooLong;
    if r == "" {
      p := Parts("", "", "");
      NothingYet(p, s);
    } else {
      var r', c := r[..|r| - 1], r[|r| - 1];
      assert r == r' + [c];
      p := RunGoes(r', s);
      if Run(r', s).Go? {
        ReadOne(p, c, s);
        if CanGrow(p, c, s.digits) { LongerText(p, c, s.digits); }
        p := Longer(p, c);
        if Run(r, s) == Stop(75) { IsTooLong(r, |r|, p, s.digits); }
      } else if Run(r', s) == Stop(75) {
        StillTooLong(r', c, s.digits);
      }
    }
  }

  lemma IsTooLong(r: string, i: int, p: Parts, seen: bool)
    requires 0 <= i <= |r| && Text(p) == r[..i] && Well(p, seen) && !Short(p.xs)
    ensures TooLong(r, seen)
  {
  }

  lemma StillTooLong(r: string, c: char, seen: bool)
    requires TooLong(r, seen)
    ensures TooLong(r + [c], seen)
  {
    hide Well, Short, Text;
    var p, i :| 0 <= i <= |r| && Text(p) == r[..i] && Well(p, seen) && !Short(p.xs);
    assert (r + [c])[..i] == r[..i];
  }

  /** How an item is read. */
  lemma RunIs(r: string, s: Scanner) returns (p: Parts)
    requires Plain(r) && Fresh(s)
    ensures TooLong(r, s.digits) ==> Run(r, s) == Stop(75)
    ensures !TooLong(r, s.digits) ==>
              if Run(r, s).Go? then Text(p) == r && Well(p, s.digits) && Short(p.xs) && Run(r, s) == Go(After(p, s))
              else Run(r, s) == Stop(22) && forall q :: Text(q) == r && Short(q.xs) ==> !Well(q, s.digits)
  {
    hide Well, Text, Run, After, Fresh, Short;
    p := RunGoes(r, s);
    if TooLong(r, s.digits) {
      var q, i :| 0 <= i <= |r| && Text(q) == r[..i] && Well(q, s.digits) && !Short(q.xs);
      WellRuns(q, s);
      RunPrefix(r, i, s);
    } else if !Run(r, s).Go? {
      forall q | Text(q) == r && Short(q.xs) ensures !Well(q, s.digits) {
        if Well(q, s.digits) { WellRuns(q, s); }
      }
    }
  }

  /** What has been read of a text and what is still to be read. */
  lemma {:induction false} ScanRun(r: string, u: string, s: Scanner, nmask: int)
    requires Plain(r)
    ensures match Run(r, s)
      case Go(s') => Scan(r + u, s, nmask) == Scan(u, s', nmask)
      case Stop(e) => Scan(r + u, s, nmask) == Error(e)
      case EndItem => true
    decreases |r|
  {
    hide Scan, Read;
    if r == "" {
      assert r + u == u;
    } else {
      var r', c := r[..|r| - 1], r[|r| - 1];
      ScanRun(r', [c] + u, s, nmask);
      assert r + u == r' + ([c] + u);
      if Run(r', s).Go? { OneRead(c, u, Run(r', s).s, nmask); }
    }
  }

  lemma OneRead(c: char, u: string, s: Scanner, nmask: int)
    ensures Read(s, c).Go? ==> Scan([c] + u, s, nmask) == Scan(u, Read(s, c).s, nmask)
    ensures Read(s, c).Stop? ==> Scan([c] + u, s, nmask) == Error(Read(s, c).errno)
  {
    assert ([c] + u)[1..] == u;
  }

  /** The end of a chunk: u is empty or starts with a comma or NUL. */
  lemma EndScan(u: string, s: Scanner, nmask: int)
    requires u == "" || u[0] == ',' || u[0] == '\0'
    ensures var comma, e := u != "" && u[0] == ',', EndChunk(s, nmask);
      Scan(u, s, nmask) ==
      if comma && s.digits && IsSpace(s.prev) then Error(22)
      else if e.Bad? then Error(e.errno)
      else if comma && |u| > 1 then Scan(u[1..], NewChunk(e.s, ','), nmask) else Parsed(e.s.bits)
  {
  }

  // ------------------------------------------------------------------ the list of chunks

  /** The bits of the number so far. */
  ghost function Number(items: seq<string>, tail: string, n: int): iset<int> {
    iset x | NumberBit(items, tail, n, x)
  }

  /** The scanner holds a number with the bits b; count is one more than its highest bit. */
  ghost predicate Holds(b: iset<int>, nmask: int, s: Scanner) {
    && (forall x :: x in b ==> 0 <= x < nmask && x < s.count) && (forall i :: i in s.bits <==> i in b)
    && (if s.started then 0 < s.count && s.count - 1 in b else s.count == 0)
  }

  /** The scanner in front of item k, or behind the last one: all items so far were accepted. */
  ghost predicate Before(items: seq<string>, tail: string, k: int, nmask: int, s: Scanner) {
    0 <= k <= |items| && Fresh(s) && s.digits == (k > 0) && Holds(Number(items, tail, k), nmask, s)
  }

  lemma CommaTaken(p: Parts, s: Scanner)
    requires Well(p, s.digits) && Fresh(s) && p.xs != ""
    ensures p.trail == "" <==> !IsSpace(After(p, s).prev)
  {
    LastBlank(p, s);
  }

  /** All ways to see item k have the same bits. */
  lemma OneForm(items: seq<string>, tail: string, k: int, p: Parts, i: int)
    requires 0 <= k < |items| && Formed(items, tail, k, p) && 0 <= i < 32
    ensures (exists q :: Formed(items, tail, k, q) && BitOf(q.xs, i)) <==> ChunkOf(p.xs)[i]
  {
    hide BitOf, Well, Short, Text;
    var s := START.(digits := k > 0);
    forall q | Formed(items, tail, k, q) ensures BitOf(q.xs, i) == BitOf(p.xs, i) {
      WellRuns(p, s);
      WellRuns(q, s);
      assert ChunkOf(p.xs)[i] == ChunkOf(q.xs)[i];
    }
  }

  /** With one more chunk the number is shifted up by 32 bits. */
  lemma NumberNext(items: seq<string>, tail: string, k: nat, p: Parts, x: int)
    requires k < |items| && Formed(items, tail, k, p) && 0 <= x
    ensures NumberBit(items, tail, k + 1, x) <==>
            if x < 32 then ChunkOf(p.xs)[x] else NumberBit(items, tail, k, x - 32)
  {
    hide Formed, BitOf, ChunkOf;
    if x < 32 {
      OneForm(items, tail, k, p, x);
    } else {
      assert (x - 32) / 32 == x / 32 - 1 && (x - 32) % 32 == x % 32;
    }
  }

  lemma NumberNatural(items: seq<string>, tail: string, n: int, x: int)
    ensures NumberBit(items, tail, n, x) ==> 0 <= x
  {
  }

  /** b shifted up by one chunk, and the chunk below it. */
  ghost predicate Shifted(b: iset<int>, chunk: Word, b': iset<int>) {
    forall x :: x in b' <==> 0 <= x && if x < 32 then chunk[x] else x - 32 in b
  }

  lemma ShiftedBy(items: seq<string>, tail: string, k: nat, p: Parts)
    requires k < |items| && Formed(items, tail, k, p)
    ensures Shifted(Number(items, tail, k), ChunkOf(p.xs), Number(items, tail, k + 1))
  {
    hide Formed, BitOf, ChunkOf, NumberBit;
    var b, b' := Number(items, tail, k), Number(items, tail, k + 1);
    forall x ensures x in b' <==> 0 <= x && if x < 32 then ChunkOf(p.xs)[x] else x - 32 in b {
      NumberNatural(items, tail, k + 1, x);
      if 0 <= x { NumberNext(items, tail, k, p, x); }
    }
  }

  lemma NonZero(w: Word)
    ensures w != Zero() <==> Fls(w, 32) > 0
    ensures w == Zero() ==> forall i :: 0 <= i < 32 ==> !w[i]
    ensures Fls(w, 32) > 0 ==> w[Fls(w, 32) - 1] && forall i :: Fls(w, 32) <= i < 32 ==> !w[i]
  {
    if Fls(w, 32) == 0 { assert w == Zero(); }
  }

  /** The end of a chunk: refused if and only if the number has a bit behind the map. */
  lemma EndNumber(b: iset<int>, b': iset<int>, s: Scanner, nmask: int)
    requires s.inChunk && Holds(b, nmask, s) && Shifted(b, s.chunk, b') && 0 <= nmask
    ensures var e := EndChunk(s, nmask);
      && (e.Kept? <==> forall x :: x in b' ==> x < nmask) && (e.Bad? ==> e.errno == 75)
      && (e.Kept? ==> Holds(b', nmask, e.s) && e.s.digits == s.digits)
  {
    NonZero(s.chunk);
    hide Zero, Fls;
    if s.started || s.chunk != Zero() {
      var count := s.count + (if s.started then 32 else Fls(s.chunk, 32));
      assert count - 1 in b' by { assert s.started ==> count - 1 - 32 == s.count - 1; }
      assert forall x :: x in b' ==> x < count;
    }
  }

  /** The chunk of an item. */
  lemma FormedChunk(items: seq<string>, tail: string, k: int, p: Parts, s: Scanner)
    requires 0 <= k < |items| && Formed(items, tail, k, p)
    ensures var s1 := After(p, s);
      s1.inChunk && s1.digits && s1.chunk == ChunkOf(p.xs) && s1.started == s.started && s1.count == s.count
      && s1.bits == s.bits
  {
  }

  /** The scanner behind an accepted chunk stands in front of the next one. */
  lemma NextBefore(items: seq<string>, tail: string, k: nat, p: Parts, s: Scanner, nmask: int)
    requires k < |items| && Formed(items, tail, k, p) && Before(items, tail, k, nmask, s) && 0 <= nmask
    ensures var e := EndChunk(After(p, s), nmask);
      && (e.Kept? <==> Accepted(items, tail, k, nmask)) && (e.Bad? ==> e.errno == 75)
      && (e.Kept? ==> Before(items, tail, k + 1, nmask, NewChunk(e.s, ',')))
  {
    assert HasForm(items, tail, k);
    FormedChunk(items, tail, k, p, s);
    ShiftedBy(items, tail, k, p);
    NumberFits(items, tail, k + 1, nmask);
    hide Formed, HasForm, ChunkOf, EndChunk, Shifted, Number, NumberBit, After, Fits, Holds;
    var b, b', s1 := Number(items, tail, k), Number(items, tail, k + 1), After(p, s);
    SameHolds(b, nmask, s, s1);
    EndNumber(b, b', s1, nmask);
    var e := EndChunk(s1, nmask);
    if e.Kept? { SameHolds(b', nmask, e.s, NewChunk(e.s, ',')); }
  }

  lemma NumberFits(items: seq<string>, tail: string, n: int, nmask: int)
    ensures Fits(items, tail, n, nmask) <==> forall x :: x in Number(items, tail, n) ==> x < nmask
  {
    hide NumberBit;
    var b := Number(items, tail, n);
    assert forall x :: x in b <==> NumberBit(items, tail, n, x);
  }

  lemma SameHolds(b: iset<int>, nmask: int, s: Scanner, s': Scanner)
    requires Holds(b, nmask, s) && s'.bits == s.bits && s'.started == s.started && s'.count == s.count
    ensures Holds(b, nmask, s')
  {
  }

  /** Item k is read: the number grows by its chunk and the next item follows, or it is refused. */
  lemma ReadItem(items: seq<string>, tail: string, k: nat, s: Scanner, nmask: int) returns (s': Scanner)
    requires Items(items, tail) && k < |items| && Before(items, tail, k, nmask, s) && 0 <= nmask
    ensures Accepted(items, tail, k, nmask) ==>
              && Before(items, tail, k + 1, nmask, s')
              && Scan(ListFrom(items, tail, k), s, nmask)
              == if k == |items| - 1 then Parsed(s'.bits) else Scan(ListFrom(items, tail, k + 1), s', nmask)
    ensures !Accepted(items, tail, k, nmask) ==>
              Scan(ListFrom(items, tail, k), s, nmask)
              == Error(if TooLong(items[k], k > 0) || HasForm(items, tail, k) then 75 else 22)
  {
    hide Scan, Run, Text, Well, ListFrom, Behind, Read, EndChunk, Before, After, Short, TooLong;
    s' := s;
    var u := Behind(items, tail, k);
    BehindIs(items, tail, k);
    ScanRun(items[k], u, s, nmask);
    assert Fresh(s) && s.digits == (k > 0) by { BeforeFacts(items, tail, k, nmask, s); }
    var p := RunIs(items[k], s);
    if TooLong(items[k], k > 0) {
      if q :| Formed(items, tail, k, q) { WellRuns(q, s); }
    } else if Run(items[k], s).Go? {
      EndScan(u, After(p, s), nmask);
      if Formed(items, tail, k, p) {
        NextBefore(items, tail, k, p, s, nmask);
        CommaTaken(p, s);
        if EndChunk(After(p, s), nmask).Kept? { s' := NewChunk(EndChunk(After(p, s), nmask).s, ','); }
      } else {
        NotFormed(items, tail, k, p, s, nmask);
      }
    }
  }

  lemma BeforeFacts(items: seq<string>, tail: string, k: int, nmask: int, s: Scanner)
    requires Before(items, tail, k, nmask, s)
    ensures Fresh(s) && s.digits == (k > 0)
  {
  }

  /** An item that is no chunk: without digits, or with a blank before a comma. */
  lemma NotFormed(items: seq<string>, tail: string, k: nat, p: Parts, s: Scanner, nmask: int)
    requires k < |items| && Before(items, tail, k, nmask, s) && Text(p) == items[k] && Well(p, s.digits) && Short(p.xs)
    requires !Formed(items, tail, k, p)
    ensures !HasForm(items, tail, k)
    ensures var s1 := After(p, s);
      || EndChunk(s1, nmask) == Bad(22) || (CommaBehind(items, tail, k) && s1.digits && IsSpace(s1.prev))
  {
    WellRuns(p, s);
    LastBlank(p, s);
    forall q ensures !Formed(items, tail, k, q) {
      if Formed(items, tail, k, q) {
        WellRuns(q, s);
        LastBlank(q, s);
      }
    }
  }

  /** Once the items before k have been accepted, item k is read. */
  lemma {:induction false} Reach(items: seq<string>, tail: string, k: nat, nmask: int) returns (s: Scanner)
    requires Items(items, tail) && k < |items| && 0 <= nmask
    requires forall j :: 0 <= j < k ==> Accepted(items, tail, j, nmask)
    ensures Before(items, tail, k, nmask, s)
    ensures Scan(ListFrom(items, tail, 0), START, nmask) == Scan(ListFrom(items, tail, k), s, nmask)
  {
    hide Scan, Formed, ListFrom, Items, Accepted;
    if k == 0 {
      s := START;
    } else {
      var s' := Reach(items, tail, k - 1, nmask);
      s := ReadItem(items, tail, k - 1, s', nmask);
    }
  }

  /**
   The meaning of every text: it is accepted if and only if each item is a chunk of at most 32 bits and the number they
   make up fits the map, and then the map is that number; otherwise the first other item decides, -EOVERFLOW for a chunk
   or a number that is too long, -EINVAL for anything else.
   */
  lemma HexMeaning(t: string, items: seq<string>, tail: string, nmask: int)
    requires Lists(t, items, tail) && 0 <= nmask
    ensures Scan(t, START, nmask).Parsed? <==> forall k :: 0 <= k < |items| ==> Accepted(items, tail, k, nmask)
    ensures Scan(t, START, nmask).Parsed? ==>
              forall i :: i in Scan(t, START, nmask).bits <==> NumberBit(items, tail, |items|, i)
    ensures forall k :: Refused(items, tail, k, nmask) ==>
              Scan(t, START, nmask) == Error(if TooLong(items[k], k > 0) || HasForm(items, tail, k) then 75 else 22)
  {
    hide Scan, Formed, ListFrom, Items, Accepted, HasForm, TooLong, NumberBit;
    forall k | Refused(items, tail, k, nmask)
      ensures Scan(t, START, nmask) == Error(if TooLong(items[k], k > 0) || HasForm(items, tail, k) then 75 else 22)
    {
      var s := Reach(items, tail, k, nmask);
      var s' := ReadItem(items, tail, k, s, nmask);
    }
    if forall k :: 0 <= k < |items| ==> Accepted(items, tail, k, nmask) {
      SomeItem(items, tail);
      var s := Reach(items, tail, |items| - 1, nmask);
      var s' := ReadItem(items, tail, |items| - 1, s, nmask);
    } else {
      var n := FirstRefused(items, tail, |items|, nmask);
    }
  }

  lemma SomeItem(items: seq<string>, tail: string)
    requires Items(items, tail)
    ensures |items| > 0
  {
  }

  lemma {:induction false} FirstRefused(items: seq<string>, tail: string, n: nat, nmask: int) returns (k: nat)
    requires n <= |items| && exists j :: 0 <= j < n && !Accepted(items, tail, j, nmask)
    ensures k < n && Refused(items, tail, k, nmask)
  {
    if j :| 0 <= j < n - 1 && !Accepted(items, tail, j, nmask) {
      k := FirstRefused(items, tail, n - 1, nmask);
    } else {
      k := n - 1;
    }
  }
}
