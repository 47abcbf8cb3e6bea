/**
 The hexadecimal format of bitmaps: bitmap_scnprintf prints chunks of 32 bits, the highest first,
 and __bitmap_parse reads them back.
 */
module BitmapHex {
  import opened Bitmap
  import opened Errno
  import opened ParseText

  /** Four bits as a number. */
  function Nibble(w: Word, j: int): (v: int)
    requires 0 <= j < 8
    ensures 0 <= v < 16
  {
    (if w[4 * j] then 1 else 0) + (if w[4 * j + 1] then 2 else 0) +
    (if w[4 * j + 2] then 4 else 0) + (if w[4 * j + 3] then 8 else 0)
  }

  /** A hexadecimal digit as printed by %lx. */
  function HexDigit(v: int): char
    requires 0 <= v < 16
  {
    if v < 10 then (v + '0' as int) as char else (v - 10 + 'a' as int) as char
  }

  predicate IsHex(c: char) {
    '0' <= c <= '9' || 'a' <= c <= 'f' || 'A' <= c <= 'F'
  }

  /** hex_to_bin of a hexadecimal digit */
  function HexToBin(c: char): (v: int)
    requires IsHex(c)
    ensures 0 <= v < 16
  {
    if '0' <= c <= '9' then c as int - '0' as int
    else if 'a' <= c <= 'f' then c as int - 'a' as int + 10
    else c as int - 'A' as int + 10
  }

  /** A number below 16 as a word. */
  function NibbleWord(v: int): Word
    requires 0 <= v < 16
  {
    seq(32, i requires 0 <= i < 32 => if i == 0 then v % 2 == 1 else if i == 1 then v / 2 % 2 == 1
                                      else if i == 2 then v / 4 % 2 == 1 else i == 3 && v / 8 % 2 == 1)
  }

  /** chunk << 4 | digit */
  function PushDigit(chunk: Word, v: int): Word
    requires 0 <= v < 16
  {
    Or(Shl(chunk, 4), NibbleWord(v))
  }

  /** fls: one more than the index of the highest set bit. */
  function Fls(w: Word, n: int): (r: int)
    requires 0 <= n <= 32
    ensures 0 <= r <= n && (r > 0 ==> w[r - 1]) && forall i :: r <= i < n ==> !w[i]
  {
    if n == 0 || w[n - 1] then n else Fls(w, n - 1)
  }

  /** The variables of __bitmap_parse; count is nbits, started says nchunks > 0. */
  datatype Scanner = Scanner(prev: char, digits: bool, inChunk: bool, chunk: Word, started: bool, count: int,
      bits: set<int>)

  const START: Scanner := Scanner(NUL, false, false, Zero(), false, 0, {})

  /** Shift the map by one chunk and put the new chunk below. */
  function Pushed(bits: set<int>, chunk: Word, nmask: int): set<int> {
    set i | 0 <= i < nmask && (if i < 32 then chunk[i] else i - 32 in bits)
  }

  datatype Chunk = Kept(s: Scanner) | Bad(errno: int)

  /** What follows the inner loop. */
  function EndChunk(s: Scanner, nmask: int): Chunk {
    if !s.inChunk then Bad(EINVAL)
    else if !s.started && s.chunk == Zero() then Kept(s)
    else
      var count := s.count + (if s.started then 32 else Fls(s.chunk, 32));
      if count > nmask then Bad(EOVERFLOW)
      else Kept(s.(started := true, count := count, bits := Pushed(s.bits, s.chunk, nmask)))
  }

  function NewChunk(s: Scanner, c: char): Scanner {
    s.(prev := c, inChunk := false, chunk := Zero())
  }

  /** One round of the inner loop on character c. */
  function Read(s: Scanner, c: char): Next<Scanner> {
    if IsSpace(c) then Go(s.(prev := c))
    else if s.digits && c != NUL && IsSpace(s.prev) then Stop(EINVAL)
    else if c == NUL || c == ',' then EndItem
    else if !IsHex(c) then Stop(EINVAL)
    else if And(s.chunk, Not(LowMask(28))) != Zero() then Stop(EOVERFLOW)
    else Go(s.(prev := c, digits := true, inChunk := true, chunk := PushDigit(s.chunk, HexToBin(c))))
  }

  /** The outcome of reading text t in state s. */
  function Scan(t: string, s: Scanner, nmask: int): Outcome
    decreases |t|
  {
    if t == [] then
      var e := EndChunk(s, nmask);
      if e.Bad? then Error(e.errno) else Parsed(e.s.bits)
    else match Read(s, t[0])
      case Go(s') => Scan(t[1..], s', nmask)
      case Stop(e) => Error(e)
      case EndItem =>
        match EndChunk(s, nmask)
        case Bad(e) => Error(e)
        case Kept(s') => if t[0] == ',' && |t| > 1 then Scan(t[1..], NewChunk(s', ','), nmask) else Parsed(s'.bits)
  }

  // --------------------------------------------------------------------------- text

  /** %0*lx with n digits, for a value that fits. */
  function HexText(w: Word, n: int): string
    requires 0 <= n <= 8
  {
    if n == 0 then "" else [HexDigit(Nibble(w, n - 1))] + HexText(w, n - 1)
  }

  /** Words j, j - 1, ..., 0, each printed whole, separated by commas. */
  function WordsText(a: seq<Word>, j: int): string
    requires 0 <= j < |a|
  {
    HexText(a[j], 8) + if j == 0 then "" else "," + WordsText(a, j - 1)
  }

  /** chunksz of the first chunk printed */
  function TopSize(nmask: int): (n: int)
    requires 1 <= nmask
    ensures 1 <= n <= 32 && nmask == 32 * (Words(nmask) - 1) + n
  {
    if nmask % 32 == 0 then 32 else nmask % 32
  }

  function TopWord(a: seq<Word>, nmask: int): Word
    requires 1 <= nmask <= 32 * |a|
  {
    And(a[Words(nmask) - 1], LowMask(TopSize(nmask)))
  }

  /** What bitmap_scnprintf prints. */
  function Render(a: seq<Word>, nmask: int): string
    requires 1 <= nmask <= 32 * |a|
  {
    var top := Words(nmask) - 1;
    HexText(TopWord(a, nmask), (TopSize(nmask) + 3) / 4) + if top == 0 then "" else "," + WordsText(a, top - 1)
  }

  // --------------------------------------------------------- reading what was printed

  lemma DigitBack(v: int)
    requires 0 <= v < 16
    ensures IsHex(HexDigit(v)) && HexToBin(HexDigit(v)) == v && !IsSpace(HexDigit(v)) && HexDigit(v) != NUL
    ensures HexDigit(v) != ','
  {
  }

  /** The digit printed for nibble j puts back its four bits. */
  lemma NibbleBits(w: Word, j: int, b: int)
    requires 0 <= j < 8 && 0 <= b < 32
    ensures NibbleWord(Nibble(w, j))[b] == (b < 4 && w[4 * j + b])
  {
  }

  /** Room for n more digits: the top n nibbles are zero. */
  ghost predicate Room(c: Word, n: int) {
    forall i :: 0 <= i < 32 && i >= 32 - 4 * n ==> !c[i]
  }

  function Appended(c: Word, w: Word, n: int): Word
    requires 0 <= n <= 8
  {
    Or(Shl(c, 4 * n), And(w, LowMask(4 * n)))
  }

  lemma AppendDigit(c: Word, w: Word, n: int)
    requires 1 <= n <= 8 && Room(c, n)
    ensures And(c, Not(LowMask(28))) == Zero()
    ensures var c' := PushDigit(c, Nibble(w, n - 1)); Room(c', n - 1) && Appended(c', w, n - 1) == Appended(c, w, n)
  {
    var c' := PushDigit(c, Nibble(w, n - 1));
    forall b | 0 <= b < 32 ensures c'[b] == if b < 4 then w[4 * (n - 1) + b] else c[b - 4] {
      NibbleBits(w, n - 1, b);
    }
    hide Nibble, NibbleWord;
  }

  lemma ScanStep(c: char, t: string, s: Scanner, s': Scanner, nmask: int)
    requires Read(s, c) == Go(s')
    ensures Scan([c] + t, s, nmask) == Scan(t, s', nmask)
  {
    hide Read;
    assert ([c] + t)[1..] == t;
  }

  /** The state after the top digit of a printed word. */
  function AfterDigit(s: Scanner, w: Word, n: int): Scanner
    requires 1 <= n <= 8
  {
    s.(prev := HexDigit(Nibble(w, n - 1)), digits := true, inChunk := true,
        chunk := PushDigit(s.chunk, Nibble(w, n - 1)))
  }

  lemma HexStep(w: Word, n: int, t: string, s: Scanner, nmask: int)
    requires 1 <= n <= 8 && Room(s.chunk, n) && !IsSpace(s.prev)
    ensures var s' := AfterDigit(s, w, n);
      && Scan(HexText(w, n) + t, s, nmask) == Scan(HexText(w, n - 1) + t, s', nmask)
      && !IsSpace(s'.prev) && Room(s'.chunk, n - 1) && Appended(s'.chunk, w, n - 1) == Appended(s.chunk, w, n)
  {
    var c := HexDigit(Nibble(w, n - 1));
    DigitBack(Nibble(w, n - 1));
    AppendDigit(s.chunk, w, n);
    hide Scan, Nibble, HexDigit, PushDigit, Room, Appended;
    var rest := HexText(w, n - 1) + t;
    assert HexText(w, n) + t == [c] + rest;
    ScanStep(c, rest, s, AfterDigit(s, w, n), nmask);
  }

  lemma {:induction false} ScanHexText(w: Word, n: int, t: string, s: Scanner, nmask: int)
    requires 1 <= n <= 8 && Room(s.chunk, n) && !IsSpace(s.prev)
    ensures exists c :: !IsSpace(c) && Scan(HexText(w, n) + t, s, nmask)
                  == Scan(t, s.(prev := c, digits := true, inChunk := true, chunk := Appended(s.chunk, w, n)), nmask)
    decreases n
  {
    hide Scan, Nibble, HexDigit, PushDigit, Room, Appended;
    HexStep(w, n, t, s, nmask);
    var s' := AfterDigit(s, w, n);
    if n > 1 {
      ScanHexText(w, n - 1, t, s', nmask);
    } else {
      NothingAppended(s'.chunk, w);
      assert HexText(w, 0) + t == t;
    }
  }

  lemma NothingAppended(c: Word, w: Word)
    ensures Appended(c, w, 0) == c
  {
  }

  /** The bits from word j on, moved down by j words. */
  ghost function From(a: seq<Word>, nmask: int, j: int): set<int> {
    set i | 0 <= i < nmask - 32 * j && Moved(a, j, i)
  }

  predicate Moved(a: seq<Word>, j: int, i: int) {
    At(a, i + 32 * j)
  }

  /** The words from j on have been read. */
  ghost predicate Ready(s: Scanner, a: seq<Word>, nmask: int, j: int) {
    s.bits == From(a, nmask, j) && (if s.started then s.count <= nmask - 32 * j else s.count == 0 && s.bits == {})
  }

  /** chunk holds exactly the bits of word j that belong to the map. */
  ghost predicate IsWord(chunk: Word, a: seq<Word>, nmask: int, j: int) {
    forall i :: 0 <= i < 32 ==> chunk[i] == (i < nmask - 32 * j && At(a, i + 32 * j))
  }

  lemma ChunkStep(s: Scanner, a: seq<Word>, nmask: int, j: int)
    requires Ready(s, a, nmask, j + 1) && IsWord(s.chunk, a, nmask, j) && s.inChunk && 0 <= j && 32 * j < nmask
    ensures var e := EndChunk(s, nmask); e.Kept? && Ready(e.s, a, nmask, j) && e.s.prev == s.prev
  {
    hide At, Fls;
    if !s.started && s.chunk == Zero() {
      assert From(a, nmask, j) == {} by { NoBits(s.chunk, a, nmask, j); }
    } else {
      if !s.started { TopBit(s.chunk, a, nmask, j); }
      PushedFrom(s.bits, s.chunk, a, nmask, j);
    }
  }

  lemma NoBits(chunk: Word, a: seq<Word>, nmask: int, j: int)
    requires IsWord(chunk, a, nmask, j) && From(a, nmask, j + 1) == {} && chunk == Zero()
    ensures From(a, nmask, j) == {}
  {
    hide At;
    forall i | 0 <= i < nmask - 32 * j ensures !Moved(a, j, i) {
      if i >= 32 {
        assert Moved(a, j + 1, i - 32) == Moved(a, j, i);
        assert i - 32 !in From(a, nmask, j + 1);
      } else {
        assert !chunk[i];
      }
    }
  }

  lemma TopBit(chunk: Word, a: seq<Word>, nmask: int, j: int)
    requires IsWord(chunk, a, nmask, j) && 32 * j < nmask
    ensures Fls(chunk, 32) <= nmask - 32 * j
  {
    hide At;
    var r := Fls(chunk, 32);
    if r > 0 { assert chunk[r - 1]; }
  }

  lemma PushedFrom(bits: set<int>, chunk: Word, a: seq<Word>, nmask: int, j: int)
    requires bits == From(a, nmask, j + 1) && IsWord(chunk, a, nmask, j) && 0 <= j
    ensures Pushed(bits, chunk, nmask) == From(a, nmask, j)
  {
    hide At;
    forall i ensures i in Pushed(bits, chunk, nmask) <==> i in From(a, nmask, j) {
      if i >= 32 { assert i - 32 + 32 * (j + 1) == i + 32 * j; }
    }
  }

  lemma ScanComma(t: string, s: Scanner, s': Scanner, nmask: int)
    requires |t| > 0 && !IsSpace(s.prev) && EndChunk(s, nmask) == Kept(s')
    ensures Scan([','] + t, s, nmask) == Scan(t, NewChunk(s', ','), nmask)
  {
    assert ([','] + t)[1..] == t;
  }

  lemma ReadyNext(s: Scanner, a: seq<Word>, nmask: int, j: int)
    requires Ready(s, a, nmask, j)
    ensures Ready(NewChunk(s, ','), a, nmask, j) && !IsSpace(NewChunk(s, ',').prev)
  {
  }

  lemma ScanEnd(s: Scanner, nmask: int)
    requires EndChunk(s, nmask).Kept?
    ensures Scan("", s, nmask) == Parsed(EndChunk(s, nmask).s.bits)
  {
  }

  /** A chunk of text, whatever follows it. */
  lemma ScanChunk(w: Word, n: int, t: string, s: Scanner, a: seq<Word>, nmask: int, j: int)
    requires 1 <= n <= 8 && Ready(s, a, nmask, j + 1) && !IsSpace(s.prev) && s.chunk == Zero() && 0 <= j
    requires 32 * j < nmask
    requires IsWord(Appended(Zero(), w, n), a, nmask, j)
    requires t == "" || (|t| > 1 && t[0] == ',')
    ensures exists s' :: Ready(s', a, nmask, j) && s'.chunk == Zero() && !IsSpace(s'.prev)
              && Scan(HexText(w, n) + t, s, nmask) == if t == "" then Parsed(s'.bits) else Scan(t[1..], s', nmask)
  {
    ScanHexText(w, n, t, s, nmask);
    var c :| !IsSpace(c) && Scan(HexText(w, n) + t, s, nmask)
        == Scan(t, s.(prev := c, digits := true, inChunk := true, chunk := Appended(s.chunk, w, n)), nmask);
    var m := s.(prev := c, digits := true, inChunk := true, chunk := Appended(s.chunk, w, n));
    hide IsWord, From, Scan, Appended, HexText, Ready, IsSpace;
    ChunkStep(m, a, nmask, j);
    var s' := EndChunk(m, nmask).s;
    var s1 := NewChunk(s', ',');
    ReadyNext(s', a, nmask, j);
    ScanEnd(m, nmask);
    if t != "" {
      assert t == [','] + t[1..];
      ScanComma(t[1..], m, s', nmask);
    }
  }

  /** What is printed behind the chunk of word j. */
  function Rest(a: seq<Word>, j: int): string
    requires 0 <= j <= |a|
  {
    if j == 0 then "" else "," + WordsText(a, j - 1)
  }

  lemma RestTail(a: seq<Word>, j: int)
    requires 0 <= j <= |a|
    ensures j == 0 ==> Rest(a, j) == ""
    ensures j > 0 ==>
              |Rest(a, j)| > 1 && Rest(a, j)[0] == ',' && Rest(a, j)[1..] == HexText(a[j - 1], 8) + Rest(a, j - 1)
  {
    if j > 0 { TextNonEmpty(a, j - 1); }
    hide HexText;
  }

  /** A chunk for word j and whole words below it. */
  lemma {:induction false} ScanWords(a: seq<Word>, j: int, w: Word, n: int, s: Scanner, nmask: int)
    requires 0 <= j && 32 * j < nmask <= 32 * |a| && Ready(s, a, nmask, j + 1) && !IsSpace(s.prev) && s.chunk == Zero()
    requires 1 <= n <= 8 && IsWord(Appended(Zero(), w, n), a, nmask, j)
    ensures Scan(HexText(w, n) + Rest(a, j), s, nmask) == Parsed(From(a, nmask, 0))
    decreases j
  {
    hide Scan, Ready, IsWord, HexText, From, Rest, Appended;
    RestTail(a, j);
    var t := Rest(a, j);
    ScanChunk(w, n, t, s, a, nmask, j);
    var s' :| Ready(s', a, nmask, j) && s'.chunk == Zero() && !IsSpace(s'.prev)
              && Scan(HexText(w, n) + t, s, nmask) == if t == "" then Parsed(s'.bits) else Scan(t[1..], s', nmask);
    if j > 0 {
      WholeWord(a, nmask, j - 1);
      ScanWords(a, j - 1, a[j - 1], 8, s', nmask);
    } else {
      ReadyBits(s', a, nmask);
    }
  }

  lemma ReadyBits(s: Scanner, a: seq<Word>, nmask: int)
    requires Ready(s, a, nmask, 0)
    ensures s.bits == From(a, nmask, 0)
  {
  }

  lemma TextNonEmpty(a: seq<Word>, j: int)
    requires 0 <= j < |a|
    ensures |WordsText(a, j)| > 0
  {
  }

  lemma WholeWord(a: seq<Word>, nmask: int, j: int)
    requires 0 <= j && 32 * (j + 1) <= nmask <= 32 * |a|
    ensures IsWord(Appended(Zero(), a[j], 8), a, nmask, j)
  {
    forall i | 0 <= i < 32 ensures At(a, i + 32 * j) == a[j][i] { AtWord(a, j, i); }
    hide At;
  }

  lemma PartialWord(a: seq<Word>, nmask: int)
    requires 1 <= nmask <= 32 * |a|
    ensures IsWord(Appended(Zero(), TopWord(a, nmask), (TopSize(nmask) + 3) / 4), a, nmask, Words(nmask) - 1)
  {
    var j := Words(nmask) - 1;
    forall i | 0 <= i < 32 ensures At(a, i + 32 * j) == a[j][i] { AtWord(a, j, i); }
    hide At;
  }

  lemma ReadyAtStart(a: seq<Word>, nmask: int)
    requires 1 <= nmask
    ensures 32 * (Words(nmask) - 1) < nmask && Ready(START, a, nmask, Words(nmask))
  {
    assert From(a, nmask, Words(nmask)) == {};
  }

  /** Parsing the printed form of any bitmap of at least one bit gives back exactly its bits. */
  lemma HexRoundTrip(a: seq<Word>, nmask: int)
    requires 1 <= nmask <= 32 * |a|
    ensures Scan(Render(a, nmask), START, nmask) == Parsed(From(a, nmask, 0))
  {
    hide Scan, Ready, IsWord, HexText, From, TopWord, TopSize, WordsText, At;
    var j := Words(nmask) - 1;
    PartialWord(a, nmask);
    ReadyAtStart(a, nmask);
    ScanWords(a, j, TopWord(a, nmask), (TopSize(nmask) + 3) / 4, START, nmask);
  }
}
