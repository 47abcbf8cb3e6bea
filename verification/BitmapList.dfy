/**
 The list format of bitmaps: bitmap_scnlistprintf prints the runs of set bits as decimal numbers
 and ranges, bitmap_parselist reads them back.
 */
module BitmapList {
  import opened Errno
  import opened Strides
  import opened ParseText

  predicate IsDigit(c: char) {
    '0' <= c <= '9'
  }

  /** The variables of __bitmap_parselist; prev is the last character read. */
  datatype Scanner = Scanner(prev: char, digits: bool, expDigit: bool, inRange: bool, a: int, b: int, bits: set<int>)

  const START: Scanner := Scanner(NUL, false, true, false, 0, 0, {})

  function NewItem(s: Scanner, c: char, bits: set<int>): Scanner {
    Scanner(c, s.digits, true, false, 0, 0, bits)
  }

  predicate Within(a: int, i: int, b: int) {
    a <= i <= b
  }

  function Span(a: int, b: int): set<int> {
    set i | a <= i <= b && Within(a, i, b)
  }

  /** What follows the inner loop: check the range a-b and set its bits. */
  function Finish(s: Scanner, nbits: int): Outcome {
    if !(s.a <= s.b) then Error(EINVAL)
    else if s.b >= nbits then Error(ERANGE)
    else Parsed(s.bits + Span(s.a, s.b))
  }

  /** One round of the inner loop on character c. */
  function Read(s: Scanner, c: char): Next<Scanner> {
    if IsSpace(c) then Go(s.(prev := c))
    else if s.digits && c != NUL && IsSpace(s.prev) then Stop(EINVAL)
    else if c == NUL || c == ',' then EndItem
    else if c == '-' then
      if s.expDigit || s.inRange then Stop(EINVAL) else Go(s.(prev := c, b := 0, inRange := true, expDigit := true))
    else if !IsDigit(c) then Stop(EINVAL)
    else
      var b := (s.b * 10 + (c as int - '0' as int)) % LIMIT;
      Go(s.(prev := c, b := b, a := if s.inRange then s.a else b, expDigit := false, digits := true))
  }

  /** The outcome of reading text t in state s. */
  function Scan(t: string, s: Scanner, nbits: int): Outcome
    decreases |t|
  {
    if t == [] then Finish(s, nbits)
    else match Read(s, t[0])
      case Go(s') => Scan(t[1..], s', nbits)
      case Stop(e) => Error(e)
      case EndItem =>
        match Finish(s, nbits)
        case Error(e) => Error(e)
        case Parsed(bits) =>
          if t[0] == ',' && |t| > 1 then Scan(t[1..], NewItem(s, ',', bits), nbits) else Parsed(bits)
  }

  // --------------------------------------------------------------------------- text

  function Digit(d: int): char
    requires 0 <= d < 10
  {
    (d + '0' as int) as char
  }

  /** %d */
  function Decimal(n: int): string
    requires 0 <= n
  {
    if n < 10 then [Digit(n)] else Decimal(n / 10) + [Digit(n % 10)]
  }

  datatype Range = Range(bot: int, top: int)

  /** One call of bscnl_emit, without its comma. */
  function Item(r: Range): string
    requires 0 <= r.bot <= r.top
  {
    if r.bot == r.top then Decimal(r.bot) else Decimal(r.bot) + "-" + Decimal(r.top)
  }

  ghost predicate Proper(rs: seq<Range>, nbits: int) {
    forall k :: 0 <= k < |rs| ==> 0 <= rs[k].bot <= rs[k].top < nbits
  }

  /** The ranges separated by commas. */
  function Render(rs: seq<Range>): string
    requires forall k :: 0 <= k < |rs| ==> 0 <= rs[k].bot <= rs[k].top
  {
    if rs == [] then ""
    else if |rs| == 1 then Item(rs[0])
    else Item(rs[0]) + "," + Render(rs[1..])
  }

  function Union(rs: seq<Range>): set<int> {
    if rs == [] then {} else Span(rs[0].bot, rs[0].top) + Union(rs[1..])
  }

  // --------------------------------------------------------------- reading what was printed

  /** The scanner after the digits of n, read where b was 0: the number is an unsigned int. */
  function AfterNumber(s: Scanner, n: int): Scanner
    requires 0 <= n
  {
    s.(prev := Digit(n % 10), b := n % LIMIT, a := if s.inRange then s.a else n % LIMIT,
       expDigit := false, digits := true)
  }

  lemma ReadDigit(s: Scanner, d: int)
    requires 0 <= d < 10 && !IsSpace(s.prev)
    ensures var b := (s.b * 10 + d) % LIMIT;
      Read(s, Digit(d)) ==
      Go(s.(prev := Digit(d), b := b, a := if s.inRange then s.a else b, expDigit := false, digits := true))
  {
  }

  lemma WrappedDigit(m: int, d: int)
    requires 0 <= m && 0 <= d
    ensures (m % LIMIT * 10 + d) % LIMIT == (m * 10 + d) % LIMIT
  {
    var q := m / LIMIT;
    assert m * 10 + d == m % LIMIT * 10 + d + 10 * q * LIMIT;
  }

  lemma ScanStep(c: char, t: string, s: Scanner, s': Scanner, nbits: int)
    requires Read(s, c) == Go(s')
    ensures Scan([c] + t, s, nbits) == Scan(t, s', nbits)
  {
    assert ([c] + t)[1..] == t;
  }

  lemma {:induction false} ScanDecimal(n: int, t: string, s: Scanner, nbits: int)
    requires 0 <= n && s.b == 0 && !IsSpace(s.prev)
    ensures Scan(Decimal(n) + t, s, nbits) == Scan(t, AfterNumber(s, n), nbits)
    decreases n
  {
    var c := Digit(n % 10);
    if n < 10 {
      ReadDigit(s, n);
      ScanStep(c, t, s, AfterNumber(s, n), nbits);
    } else {
      assert Decimal(n) + t == Decimal(n / 10) + ([c] + t);
      ScanDecimal(n / 10, [c] + t, s, nbits);
      var m := AfterNumber(s, n / 10);
      WrappedDigit(n / 10, n % 10);
      hide Scan, Decimal;
      ReadDigit(m, n % 10);
      ScanStep(c, t, m, AfterNumber(s, n), nbits);
    }
  }

  /**
   A number on its own, of any length: -ERANGE exactly when its remainder modulo 2^32 is too large for the map, so
   that 4294967296 is taken for 0.
   */
  lemma OneNumber(n: int, nbits: int)
    requires 0 <= n
    ensures Scan(Decimal(n), START, nbits) == if n % LIMIT >= nbits then Error(ERANGE) else Parsed({n % LIMIT})
  {
    assert Decimal(n) + "" == Decimal(n);
    ScanDecimal(n, "", START, nbits);
    assert Span(n % LIMIT, n % LIMIT) == {n % LIMIT};
  }

  /** The scanner after a printed range. */
  function AfterItem(s: Scanner, r: Range): Scanner
    requires 0 <= r.bot <= r.top
  {
    Scanner(Digit(r.top % 10), true, false, r.bot != r.top, r.bot, r.top, s.bits)
  }

  lemma ScanItem(r: Range, t: string, s: Scanner, nbits: int)
    requires 0 <= r.bot <= r.top < LIMIT && !s.inRange && s.a == 0 && s.b == 0 && !IsSpace(s.prev)
    ensures Scan(Item(r) + t, s, nbits) == Scan(t, AfterItem(s, r), nbits)
  {
    hide Scan, Decimal;
    if r.bot == r.top {
      ScanDecimal(r.bot, t, s, nbits);
    } else {
      DashText(Decimal(r.bot), Decimal(r.top), t);
      ScanDecimal(r.bot, ['-'] + (Decimal(r.top) + t), s, nbits);
      var m := AfterNumber(s, r.bot);
      var m' := m.(prev := '-', b := 0, inRange := true, expDigit := true);
      assert Read(m, '-') == Go(m');
      ScanStep('-', Decimal(r.top) + t, m, m', nbits);
      ScanDecimal(r.top, t, m', nbits);
    }
  }

  lemma DashText(a: string, b: string, t: string)
    ensures (a + "-" + b) + t == a + (['-'] + (b + t))
  {
  }

  lemma {:induction false} ScanRanges(rs: seq<Range>, s: Scanner, nbits: int)
    requires rs != [] && Proper(rs, nbits) && nbits < LIMIT
    requires !s.inRange && s.a == 0 && s.b == 0 && !IsSpace(s.prev)
    ensures Scan(Render(rs), s, nbits) == Parsed(s.bits + Union(rs))
    decreases |rs|
  {
    var r := rs[0];
    if |rs| == 1 {
      assert Render(rs) == Item(r) + "";
      ScanItem(r, "", s, nbits);
      assert Union(rs[1..]) == {};
    } else {
      var t := Render(rs[1..]);
      assert Render(rs) == Item(r) + ([','] + t);
      ScanItem(r, [','] + t, s, nbits);
      var m := AfterItem(s, r);
      RenderNonEmpty(rs[1..]);
      var bits := s.bits + Span(r.bot, r.top);
      hide Scan, Render, Item;
      ScanComma(t, m, bits, nbits);
      ScanRanges(rs[1..], NewItem(m, ',', bits), nbits);
      assert bits + Union(rs[1..]) == s.bits + Union(rs);
    }
  }

  lemma ScanComma(t: string, s: Scanner, bits: set<int>, nbits: int)
    requires |t| > 0 && !IsSpace(s.prev) && Finish(s, nbits) == Parsed(bits)
    ensures Scan([','] + t, s, nbits) == Scan(t, NewItem(s, ',', bits), nbits)
  {
    assert ([','] + t)[1..] == t;
  }

  lemma RenderNonEmpty(rs: seq<Range>)
    requires rs != [] && forall k :: 0 <= k < |rs| ==> 0 <= rs[k].bot <= rs[k].top
    ensures |Render(rs)| > 0
  {
  }

  /** Parsing the printed form of a non-empty list of ranges gives back exactly their bits. */
  lemma ListRoundTrip(rs: seq<Range>, nbits: int)
    requires rs != [] && Proper(rs, nbits) && nbits < LIMIT
    ensures Scan(Render(rs), START, nbits) == Parsed(Union(rs))
  {
    ScanRanges(rs, START, nbits);
  }

  /** The empty bitmap prints as the empty string, which parses as bit 0. */
  lemma EmptyListReadsAsZero(nbits: int)
    requires 1 <= nbits
    ensures Render([]) == "" && Scan("", START, nbits) == Parsed({0})
  {
    assert Span(0, 0) == {0};
  }

  lemma {:induction false} RenderAppend(rs: seq<Range>, r: Range)
    requires (forall k :: 0 <= k < |rs| ==> 0 <= rs[k].bot <= rs[k].top) && 0 <= r.bot <= r.top
    ensures Render(rs + [r]) == if rs == [] then Item(r) else Render(rs) + "," + Item(r)
    ensures Union(rs + [r]) == Union(rs) + Span(r.bot, r.top)
  {
    if rs == [] {
      assert (rs + [r])[1..] == [];
    } else {
      assert (rs + [r])[1..] == rs[1..] + [r];
      RenderAppend(rs[1..], r);
      if |rs| > 1 {
        assert Item(rs[0]) + "," + (Render(rs[1..]) + "," + Item(r)) ==
                   (Item(rs[0]) + "," + Render(rs[1..])) + "," + Item(r);
      } else {
        assert rs[1..] == [];
      }
    }
  }
}
