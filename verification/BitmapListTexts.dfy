/** Exactly which texts bitmap_parselist accepts, what it reads from them, and how it refuses the others. */
module BitmapListTexts {
  import opened Errno
  import opened Strides
  import opened ParseText
  import opened TextItems
  import opened BitmapList

  /** An item: a number, a range, a range without a second number, or nothing, between blanks. */
  datatype Parts = Parts(lead: string, xs: string, dash: bool, ys: string, trail: string)

  function Text(p: Parts): string {
    p.lead + p.xs + (if p.dash then "-" else "") + p.ys + p.trail
  }

  /** Once a digit has been seen, in this item or an earlier one, nothing but blanks may follow a blank. */
  ghost predicate Well(p: Parts, seen: bool) {
    && Blanks(p.lead) && Digits(p.xs) && Digits(p.ys) && Blanks(p.trail)
    && (p.xs == "" ==> !p.dash && p.trail == "") && (!p.dash ==> p.ys == "")
    && (seen && p.xs != "" ==> p.lead == "")
  }

  /** The two numbers of an item, as 32-bit numbers; a missing number counts as 0. */
  ghost function Low(p: Parts): int
    requires Digits(p.xs)
  {
    Value(p.xs) % 0x1_0000_0000
  }

  ghost function High(p: Parts): int
    requires Digits(p.xs) && Digits(p.ys)
  {
    if p.dash then Value(p.ys) % 0x1_0000_0000 else Low(p)
  }

  /** A digit comes before item k. */
  ghost predicate Seen(items: seq<string>, k: int) {
    exists j, i :: 0 <= j < k && j < |items| && 0 <= i < |items[j]| && '0' <= items[j][i] <= '9'
  }

  /** Item k consists of these parts; a comma may follow a blank only before the first digit. */
  ghost predicate Formed(items: seq<string>, tail: string, k: int, p: Parts)
    requires 0 <= k < |items|
  {
    && Text(p) == items[k] && Well(p, Seen(items, k))
    && (CommaBehind(items, tail, k) ==> p.trail == "" && (Seen(items, k) ==> p.lead == ""))
  }

  ghost predicate Accepted(items: seq<string>, tail: string, k: int, nbits: int)
    requires 0 <= k < |items|
  {
    exists p :: Formed(items, tail, k, p) && Low(p) <= High(p) < nbits
  }

  /** Item k is a number or a range in ascending order. */
  ghost predicate Ordered(items: seq<string>, tail: string, k: int)
    requires 0 <= k < |items|
  {
    exists p :: Formed(items, tail, k, p) && Low(p) <= High(p)
  }

  /** Item k is the first that is not accepted. */
  ghost predicate Refused(items: seq<string>, tail: string, k: int, nbits: int) {
    && 0 <= k < |items| && !Accepted(items, tail, k, nbits)
    && forall j :: 0 <= j < k ==> Accepted(items, tail, j, nbits)
  }

  /** Bit i belongs to item k. */
  ghost predicate InItem(items: seq<string>, tail: string, k: int, i: int)
    requires 0 <= k < |items|
  {
    exists p :: Formed(items, tail, k, p) && Low(p) <= i <= High(p)
  }

  // ------------------------------------------------------------------- reading one item

  /** The scanner after the characters of r. */
  function Run(r: string, s: Scanner): Next<Scanner> {
    if r == "" then Go(s)
    else match Run(r[..|r| - 1], s)
      case Go(s') => Read(s', r[|r| - 1])
      case Stop(e) => Stop(e)
      case EndItem => EndItem
  }

  /** The scanner behind an item of these parts. */
  ghost function After(p: Parts, s: Scanner): Scanner
    requires Digits(p.xs) && Digits(p.ys)
  {
    Scanner(if Text(p) == "" then s.prev else Text(p)[|Text(p)| - 1], s.digits || p.xs != "",
            p.xs == "" || (p.dash && p.ys == ""), p.dash, Low(p), High(p), s.bits)
  }

  /** The scanner in front of an item. */
  ghost predicate Fresh(s: Scanner) {
    s == NewItem(s, s.prev, s.bits) && !IsSpace(s.prev)
  }

  lemma SpaceIsBlank(c: char)
    ensures IsSpace(c) <==> Blank(c)
  {
  }

  lemma BlankIsNone(c: char)
    ensures Blank(c) ==> c != '-' && c != ',' && c != '\0' && !IsDigit(c)
  {
  }

  /** The parts with one more character, where that is still an item. */
  ghost function Longer(p: Parts, c: char): Parts {
    if Blank(c) then if p.xs == "" then p.(lead := p.lead + [c]) else p.(trail := p.trail + [c])
    else if c == '-' then p.(dash := true)
    else if p.dash then p.(ys := p.ys + [c]) else p.(xs := p.xs + [c])
  }

  ghost predicate CanGrow(p: Parts, c: char, seen: bool) {
    || Blank(c)
    || (p.trail == "" && c == '-' && p.xs != "" && !p.dash)
    || (p.trail == "" && '0' <= c <= '9' && (seen && p.xs == "" ==> p.lead == ""))
  }

  lemma LongerText(p: Parts, c: char, seen: bool)
    requires Well(p, seen) && CanGrow(p, c, seen)
    ensures Text(Longer(p, c)) == Text(p) + [c] && Well(Longer(p, c), seen)
  {
  }

  /** What the last character of an item says of its parts. */
  lemma LastBlank(p: Parts, s: Scanner)
    requires Well(p, s.digits) && Fresh(s)
    ensures IsSpace(After(p, s).prev) <==> p.trail != "" || (p.xs == "" && p.lead != "")
  {
    if Text(p) != "" {
      ShorterText(p);
      SomeText(p);
      hide Text;
    }
  }

  lemma Wrapped(m: int, d: int)
    requires 0 <= m && 0 <= d
    ensures (m % 0x1_0000_0000 * 10 + d) % LIMIT == (m * 10 + d) % 0x1_0000_0000
  {
    WrappedDigit(m, d);
  }

  lemma NumbersLonger(p: Parts, c: char, seen: bool)
    requires Well(p, seen) && CanGrow(p, c, seen)
    ensures Digits(Longer(p, c).xs) && Digits(Longer(p, c).ys)
    ensures '0' <= c <= '9' ==>
              && High(Longer(p, c)) == (High(p) * 10 + (c as int - 48)) % LIMIT
              && Low(Longer(p, c)) == if p.dash then Low(p) else High(Longer(p, c))
    ensures Blank(c) ==> Low(Longer(p, c)) == Low(p) && High(Longer(p, c)) == High(p)
    ensures c == '-' ==> Low(Longer(p, c)) == Low(p) && High(Longer(p, c)) == 0
  {
    if '0' <= c <= '9' {
      var ds := if p.dash then p.ys else p.xs;
      ValueAppend(ds, c);
      Wrapped(Value(ds), c as int - 48);
    }
  }

  /** One more character behind a well-formed item. */
  lemma ReadOne(p: Parts, c: char, s: Scanner)
    requires Well(p, s.digits) && Fresh(s) && c != ',' && c != '\0'
    ensures Read(After(p, s), c) ==
            if CanGrow(p, c, s.digits) && Well(Longer(p, c), s.digits) then Go(After(Longer(p, c), s)) else Stop(22)
    ensures CanGrow(p, c, s.digits) ==> Well(Longer(p, c), s.digits)
  {
    hide Text, Value, Digits, Low, High, IsSpace, Blank;
    LastBlank(p, s);
    SpaceIsBlank(c);
    BlankIsNone(c);
    if CanGrow(p, c, s.digits) {
      LongerText(p, c, s.digits);
      NumbersLonger(p, c, s.digits);
    }
  }

  /** The parts with one character less. */
  ghost function Shorter(p: Parts): Parts
    requires Text(p) != ""
  {
    if p.trail != "" then p.(trail := p.trail[..|p.trail| - 1])
    else if p.ys != "" then p.(ys := p.ys[..|p.ys| - 1])
    else if p.dash then p.(dash := false)
    else if p.xs != "" then p.(xs := p.xs[..|p.xs| - 1])
    else p.(lead := p.lead[..|p.lead| - 1])
  }

  ghost function Last(p: Parts): char
    requires Text(p) != ""
  {
    if p.trail != "" then p.trail[|p.trail| - 1]
    else if p.ys != "" then p.ys[|p.ys| - 1]
    else if p.dash then '-'
    else if p.xs != "" then p.xs[|p.xs| - 1]
    else p.lead[|p.lead| - 1]
  }

  lemma ShorterText(p: Parts)
    requires Text(p) != ""
    ensures Text(p) == Text(Shorter(p)) + [Last(p)]
    ensures Last(p) == Text(p)[|Text(p)| - 1] && Text(Shorter(p)) == Text(p)[..|Text(p)| - 1]
  {
    var t, w := Text(p), Text(Shorter(p)) + [Last(p)];
    assert t == w;
    assert w[..|w| - 1] == Text(Shorter(p)) && w[|w| - 1] == Last(p);
  }

  lemma ShorterWell(p: Parts, seen: bool)
    requires Well(p, seen) && Text(p) != ""
    ensures var c := Last(p);
      && Well(Shorter(p), seen) && CanGrow(Shorter(p), c, seen) && Longer(Shorter(p), c) == p && c != ',' && c != '\0'
  {
    SomeText(p);
    hide Text;
  }

  lemma SomeText(p: Parts)
    requires Text(p) != ""
    ensures p.lead != "" || p.xs != "" || p.dash || p.ys != "" || p.trail != ""
  {
  }

  /** An item of these parts is read to its end. */
  lemma {:induction false} WellRuns(p: Parts, s: Scanner)
    requires Well(p, s.digits) && Fresh(s)
    ensures Run(Text(p), s) == Go(After(p, s))
    decreases |Text(p)|
  {
    hide Well, Text, Shorter, Longer, CanGrow, Read, After, Last;
    if Text(p) == "" {
      NoParts(p, s);
    } else {
      ShorterText(p);
      ShorterWell(p, s.digits);
      WellRuns(Shorter(p), s);
      ReadOne(Shorter(p), Text(p)[|Text(p)| - 1], s);
    }
  }

  lemma NoParts(p: Parts, s: Scanner)
    requires Well(p, s.digits) && Fresh(s) && Text(p) == ""
    ensures After(p, s) == s
  {
    assert p.xs == "" && p.ys == "" && !p.dash;
    assert Value("") == 0;
  }

  /** The parts of what has been read; any other text is refused at its first character that does not fit. */
  lemma {:induction false} RunIs(r: string, s: Scanner) returns (p: Parts)
    requires Plain(r) && Fresh(s)
    ensures if Run(r, s).Go? then Text(p) == r && Well(p, s.digits) && Run(r, s) == Go(After(p, s))
            else Run(r, s) == Stop(22) && forall q :: Text(q) == r ==> !Well(q, s.digits)
    decreases |r|
  {
    hide Well, Text, Longer, CanGrow, Read, After, Fresh;
    if r == "" {
      p := Parts("", "", false, "", "");
      NothingYet(p, s);
    } else {
      var r', c := r[..|r| - 1], r[|r| - 1];
      assert r == r' + [c];
      var p' := RunIs(r', s);
      if Run(r', s).Go? {
        ReadOne(p', c, s);
        if CanGrow(p', c, s.digits) { LongerText(p', c, s.digits); }
        p := Longer(p', c);
      } else {
        p := p';
      }
    }
    if !Run(r, s).Go? {
      forall q | Text(q) == r ensures !Well(q, s.digits) {
        if Well(q, s.digits) { WellRuns(q, s); }
      }
    }
  }

  lemma NothingYet(p: Parts, s: Scanner)
    requires p == Parts("", "", false, "", "") && Fresh(s)
    ensures Text(p) == "" && Well(p, s.digits) && After(p, s) == s
  {
    NoParts(p, s);
  }

  /** What has been read of a text and what is still to be read. */
  lemma {:induction false} ScanRun(r: string, u: string, s: Scanner, nbits: int)
    requires Plain(r)
    ensures match Run(r, s)
      case Go(s') => Scan(r + u, s, nbits) == Scan(u, s', nbits)
      case Stop(e) => Scan(r + u, s, nbits) == Error(e)
      case EndItem => true
    decreases |r|
  {
    hide Scan, Read;
    if r == "" {
      assert r + u == u;
    } else {
      var r', c := r[..|r| - 1], r[|r| - 1];
      ScanRun(r', [c] + u, s, nbits);
      assert r + u == r' + ([c] + u);
      if Run(r', s).Go? { OneRead(c, u, Run(r', s).s, nbits); }
    }
  }

  lemma OneRead(c: char, u: string, s: Scanner, nbits: int)
    ensures Read(s, c).Go? ==> Scan([c] + u, s, nbits) == Scan(u, Read(s, c).s, nbits)
    ensures Read(s, c).Stop? ==> Scan([c] + u, s, nbits) == Error(Read(s, c).errno)
  {
    assert ([c] + u)[1..] == u;
  }

  // ------------------------------------------------------------------ the list of items

  /** The scanner in front of item k, or behind the last one: all items so far were accepted. */
  ghost predicate Before(items: seq<string>, tail: string, k: int, s: Scanner) {
    && 0 <= k <= |items| && Fresh(s) && s.digits == Seen(items, k)
    && forall i :: i in s.bits <==> exists j :: 0 <= j < k && InItem(items, tail, j, i)
  }

  /** Whether a comma is taken behind an item. */
  lemma CommaTaken(p: Parts, s: Scanner)
    requires Well(p, s.digits) && Fresh(s)
    ensures (p.trail == "" && (s.digits ==> p.lead == "")) <==> !(After(p, s).digits && IsSpace(After(p, s).prev))
  {
    LastBlank(p, s);
  }

  lemma SeenNext(items: seq<string>, k: int, p: Parts)
    requires 0 <= k < |items| && Text(p) == items[k] && Well(p, Seen(items, k))
    ensures Seen(items, k + 1) <==> Seen(items, k) || p.xs != ""
  {
    var t := items[k];
    if p.xs != "" { assert t[|p.lead|] == p.xs[0]; }
    if Seen(items, k) {
      var j, i :| 0 <= j < k && j < |items| && 0 <= i < |items[j]| && '0' <= items[j][i] <= '9';
      assert 0 <= j < k + 1;
    }
    if p.xs == "" {
      assert t == p.lead;
    }
  }

  lemma OneForm(items: seq<string>, tail: string, k: int, p: Parts, s: Scanner)
    requires 0 <= k < |items| && Formed(items, tail, k, p) && Before(items, tail, k, s)
    ensures forall q :: Formed(items, tail, k, q) ==> After(q, s) == After(p, s)
    ensures forall nbits :: Accepted(items, tail, k, nbits) <==> Low(p) <= High(p) < nbits
    ensures Ordered(items, tail, k) <==> Low(p) <= High(p)
    ensures forall i :: InItem(items, tail, k, i) <==> Low(p) <= i <= High(p)
  {
    WellRuns(p, s);
    forall q | Formed(items, tail, k, q) ensures After(q, s) == After(p, s) && Low(q) == Low(p) && High(q) == High(p) {
      WellRuns(q, s);
      SameNumbers(p, q, s);
    }
  }

  lemma SameNumbers(p: Parts, q: Parts, s: Scanner)
    requires Digits(p.xs) && Digits(p.ys) && Digits(q.xs) && Digits(q.ys) && After(p, s) == After(q, s)
    ensures Low(p) == Low(q) && High(p) == High(q)
  {
  }

  /** The end of an item: u is empty or starts with a comma or NUL. */
  lemma EndScan(u: string, s: Scanner, nbits: int)
    requires u == "" || u[0] == ',' || u[0] == '\0'
    ensures var comma := u != "" && u[0] == ',';
      Scan(u, s, nbits) ==
      if comma && s.digits && IsSpace(s.prev) then Error(22)
      else if !(s.a <= s.b) then Error(22)
      else if s.b >= nbits then Error(34)
      else if comma && |u| > 1 then Scan(u[1..], NewItem(s, ',', s.bits + Span(s.a, s.b)), nbits)
           else Parsed(s.bits + Span(s.a, s.b))
  {
  }

  lemma NumbersOf(p: Parts, seen: bool)
    requires Well(p, seen)
    ensures Digits(p.xs) && Digits(p.ys)
  {
  }

  /** The scanner behind an accepted item stands in front of the next one. */
  lemma NextBefore(items: seq<string>, tail: string, k: nat, p: Parts, s: Scanner)
    requires k < |items| && Before(items, tail, k, s) && Formed(items, tail, k, p) && Low(p) <= High(p)
    ensures Before(items, tail, k + 1, NewItem(After(p, s), ',', s.bits + Span(Low(p), High(p))))
  {
    SeenNext(items, k, p);
    OneForm(items, tail, k, p, s);
    var s' := NewItem(After(p, s), ',', s.bits + Span(Low(p), High(p)));
    hide Seen, Formed, InItem, Well, Low, High;
    forall i ensures i in s'.bits <==> exists j :: 0 <= j < k + 1 && InItem(items, tail, j, i) {
      assert i in Span(Low(p), High(p)) <==> InItem(items, tail, k, i);
    }
  }

  /** Item k is read: its bits are set and the next item follows, or it is refused. */
  lemma ReadItem(items: seq<string>, tail: string, k: nat, s: Scanner, nbits: int) returns (s': Scanner)
    requires Items(items, tail) && k < |items| && Before(items, tail, k, s)
    ensures Accepted(items, tail, k, nbits) ==>
              && Before(items, tail, k + 1, s')
              && Scan(ListFrom(items, tail, k), s, nbits)
              == if k == |items| - 1 then Parsed(s'.bits) else Scan(ListFrom(items, tail, k + 1), s', nbits)
    ensures !Accepted(items, tail, k, nbits) ==>
              Scan(ListFrom(items, tail, k), s, nbits) == Error(if Ordered(items, tail, k) then 34 else 22)
  {
    hide Scan, Run, Text, Well, Seen, ListFrom, Behind, Read, Low, High, InItem, Before;
    s' := s;
    var u := Behind(items, tail, k);
    BehindIs(items, tail, k);
    ScanRun(items[k], u, s, nbits);
    assert Fresh(s) && s.digits == Seen(items, k) by { BeforeFacts(items, tail, k, s); }
    var p := RunIs(items[k], s);
    if Run(items[k], s).Go? {
      NumbersOf(p, s.digits);
      var s1 := After(p, s);
      CommaTaken(p, s);
      EndScan(u, s1, nbits);
      if Formed(items, tail, k, p) {
        OneForm(items, tail, k, p, s);
        if Low(p) <= High(p) {
          NextBefore(items, tail, k, p, s);
          s' := NewItem(s1, ',', s.bits + Span(Low(p), High(p)));
        }
      } else {
        NotFormed(items, tail, k, p, s);
      }
    }
  }

  lemma BeforeFacts(items: seq<string>, tail: string, k: int, s: Scanner)
    requires Before(items, tail, k, s)
    ensures Fresh(s) && s.digits == Seen(items, k)
  {
  }

  /** If a comma is not taken behind an item, no other way to see its parts helps. */
  lemma NotFormed(items: seq<string>, tail: string, k: nat, p: Parts, s: Scanner)
    requires k < |items| && Before(items, tail, k, s) && Text(p) == items[k] && Well(p, s.digits)
    requires !Formed(items, tail, k, p)
    ensures forall q :: !Formed(items, tail, k, q)
  {
    WellRuns(p, s);
    CommaTaken(p, s);
    forall q ensures !Formed(items, tail, k, q) {
      if Formed(items, tail, k, q) {
        WellRuns(q, s);
        CommaTaken(q, s);
      }
    }
  }

  /** Once the items before k have been accepted, item k is read. */
  lemma {:induction false} Reach(items: seq<string>, tail: string, k: nat, nbits: int) returns (s: Scanner)
    requires Items(items, tail) && k < |items| && forall j :: 0 <= j < k ==> Accepted(items, tail, j, nbits)
    ensures Before(items, tail, k, s)
    ensures Scan(ListFrom(items, tail, 0), START, nbits) == Scan(ListFrom(items, tail, k), s, nbits)
  {
    hide Scan, Formed, ListFrom, Items, Accepted;
    if k == 0 {
      s := START;
    } else {
      var s' := Reach(items, tail, k - 1, nbits);
      s := ReadItem(items, tail, k - 1, s', nbits);
    }
  }

  /**
   The meaning of every text: it is accepted if and only if each item is a number or a range in ascending order below
   the size of the map, and then exactly the bits of the items are set; otherwise the first other item decides, -ERANGE
   for a number that is too large, -EINVAL for anything else.
   */
  lemma ListMeaning(t: string, items: seq<string>, tail: string, nbits: int)
    requires Lists(t, items, tail)
    ensures Scan(t, START, nbits).Parsed? <==> forall k :: 0 <= k < |items| ==> Accepted(items, tail, k, nbits)
    ensures Scan(t, START, nbits).Parsed? ==>
              forall i :: i in Scan(t, START, nbits).bits <==> exists k :: 0 <= k < |items| && InItem(items, tail, k, i)
    ensures forall k :: Refused(items, tail, k, nbits) ==>
              Scan(t, START, nbits) == Error(if Ordered(items, tail, k) then 34 else 22)
  {
    hide Scan, Formed, ListFrom, Items, Accepted, Ordered, InItem;
    forall k | Refused(items, tail, k, nbits)
      ensures Scan(t, START, nbits) == Error(if Ordered(items, tail, k) then 34 else 22)
    {
      var s := Reach(items, tail, k, nbits);
      var s' := ReadItem(items, tail, k, s, nbits);
    }
    if forall k :: 0 <= k < |items| ==> Accepted(items, tail, k, nbits) {
      SomeItem(items, tail);
      var s := Reach(items, tail, |items| - 1, nbits);
      var s' := ReadItem(items, tail, |items| - 1, s, nbits);
    } else {
      var n := FirstRefused(items, tail, |items|, nbits);
    }
  }

  lemma SomeItem(items: seq<string>, tail: string)
    requires Items(items, tail)
    ensures |items| > 0
  {
  }

  lemma {:induction false} FirstRefused(items: seq<string>, tail: string, n: nat, nbits: int) returns (k: nat)
    requires n <= |items| && exists j :: 0 <= j < n && !Accepted(items, tail, j, nbits)
    ensures k < n && Refused(items, tail, k, nbits)
  {
    if j :| 0 <= j < n - 1 && !Accepted(items, tail, j, nbits) {
      k := FirstRefused(items, tail, n - 1, nbits);
    } else {
      k := n - 1;
    }
  }

  // ------------------------------------------------------------------- particular texts

  lemma {:induction false} DecimalWrites(n: int)
    requires 0 <= n
    ensures Writes(Decimal(n), n) && (n > 0 ==> Decimal(n)[0] != '0')
    decreases n
  {
    if n < 10 {
      ValueAppend("", Digit(n));
      assert "" + [Digit(n)] == [Digit(n)];
    } else {
      DecimalWrites(n / 10);
      ValueAppend(Decimal(n / 10), Digit(n % 10));
    }
  }

  /** A range: refused unless it ascends and ends below the size of the map. */
  lemma TwoNumbers(m: int, n: int, nbits: int)
    requires 0 <= m < 0x1_0000_0000 && 0 <= n < 0x1_0000_0000
    ensures var r := Scan(Decimal(m) + "-" + Decimal(n), START, nbits);
      if m > n then r == Error(22)
      else if n >= nbits then r == Error(34)
      else r.Parsed? && forall i :: i in r.bits <==> m <= i <= n
  {
    hide Scan, Decimal, Text, Well;
    var p := Parts("", Decimal(m), true, Decimal(n), "");
    RangeParts(m, n, p);
    OneItemMeaning(p, nbits);
  }

  lemma RangeParts(m: int, n: int, p: Parts)
    requires 0 <= m < 0x1_0000_0000 && 0 <= n < 0x1_0000_0000
    requires p == Parts("", Decimal(m), true, Decimal(n), "")
    ensures Well(p, false) && Text(p) == Decimal(m) + "-" + Decimal(n) && Low(p) == m && High(p) == n
  {
    hide Decimal, Value, Text;
    DecimalWrites(m);
    DecimalWrites(n);
    RangeText(Decimal(m), Decimal(n));
  }

  lemma RangeText(xs: string, ys: string)
    ensures Text(Parts("", xs, true, ys, "")) == xs + "-" + ys
  {
  }

  lemma OneItemMeaning(p: Parts, nbits: int)
    requires Well(p, false)
    ensures var r := Scan(Text(p), START, nbits);
      if Low(p) > High(p) then r == Error(22)
      else if High(p) >= nbits then r == Error(34)
      else r.Parsed? && forall i :: i in r.bits <==> Low(p) <= i <= High(p)
  {
    var items := [Text(p)];
    OneItem(p);
    hide Scan, Text, Items, Formed, Well, Accepted, Ordered, InItem, ListFrom;
    ListMeaning(Text(p), items, "", nbits);
    var s := Reach(items, "", 0, nbits);
    OneForm(items, "", 0, p, s);
    if Accepted(items, "", 0, nbits) {
      assert forall k :: 0 <= k < |items| ==> Accepted(items, "", k, nbits);
      forall i ensures i in Scan(Text(p), START, nbits).bits <==> Low(p) <= i <= High(p) {
        assert InItem(items, "", 0, i) <==> exists k :: 0 <= k < |items| && InItem(items, "", k, i);
      }
    } else {
      assert Refused(items, "", 0, nbits);
    }
  }

  /** A text that is one item of these parts. */
  lemma OneItem(p: Parts)
    requires Well(p, false)
    ensures Lists(Text(p), [Text(p)], "") && Formed([Text(p)], "", 0, p)
  {
    assert Text(p) + "" == Text(p);
  }

  /**
   -EINVAL, once the items before it have been accepted, for an item with a character that is no digit, dash or blank,
   or with a dash where a digit is expected: at its beginning or behind another dash.
   */
  lemma BadCharacter(t: string, items: seq<string>, tail: string, k: nat, i: nat, nbits: int)
    requires Lists(t, items, tail) && k < |items| && forall j :: 0 <= j < k ==> Accepted(items, tail, j, nbits)
    requires i < |items[k]|
    requires var r := items[k];
      || !('0' <= r[i] <= '9' || r[i] == '-' || Blank(r[i]))
      || (r[i] == '-' && forall j :: 0 <= j < i ==> !('0' <= r[j] <= '9'))
      || (r[i] == '-' && exists j :: 0 <= j < i && r[j] == '-')
    ensures Scan(t, START, nbits) == Error(22)
  {
    hide Scan;
    ListMeaning(t, items, tail, nbits);
    forall p ensures !Formed(items, tail, k, p) {
      if Formed(items, tail, k, p) {
        DashPlace(p, Seen(items, k), i);
        if j :| 0 <= j < i && items[k][j] == '-' { DashPlace(p, Seen(items, k), j); }
      }
    }
    assert !Ordered(items, tail, k) && Refused(items, tail, k, nbits);
  }

  /** The only dash of an item is behind its first number. */
  lemma DashPlace(p: Parts, seen: bool, i: nat)
    requires Well(p, seen) && i < |Text(p)|
    ensures var c := Text(p)[i]; '0' <= c <= '9' || c == '-' || Blank(c)
    ensures Text(p)[i] == '-' ==> p.xs != "" && i == |p.lead| + |p.xs| && Text(p)[|p.lead|] == p.xs[0]
  {
    var k := i - |p.lead|;
    var u := p.lead + p.xs + (if p.dash then "-" else "");
    assert i < |p.lead| ==> Text(p)[i] == p.lead[i];
    assert 0 <= k < |p.xs| ==> Text(p)[i] == p.xs[k];
    assert |u| <= i < |u| + |p.ys| ==> Text(p)[i] == p.ys[i - |u|];
    assert |u| + |p.ys| <= i ==> Text(p)[i] == p.trail[i - |u| - |p.ys|];
  }

  // ----------------------------------------------------------------------- printed texts

  /** t is a single number, or two numbers with a dash between them. */
  ghost predicate PrintsRun(t: string, r: Range) {
    if r.bot == r.top then Writes(t, r.bot)
    else exists d :: 0 <= d < |t| && t[d] == '-' && Writes(t[..d], r.bot) && Writes(t[d + 1..], r.top)
  }

  /** buf is the runs in this order, with commas between them. */
  ghost predicate Prints(buf: string, rs: seq<Range>, texts: seq<string>) {
    && |texts| == |rs| && (forall k :: 0 <= k < |rs| ==> PrintsRun(texts[k], rs[k]))
    && buf == if texts == [] then "" else ListFrom(texts, "", 0)
  }

  lemma ItemPrints(r: Range)
    requires 0 <= r.bot <= r.top
    ensures PrintsRun(Item(r), r)
  {
    DecimalWrites(r.bot);
    DecimalWrites(r.top);
    hide Decimal, Value;
    if r.bot != r.top {
      var t, d := Item(r), |Decimal(r.bot)|;
      assert t[d] == '-' && t[..d] == Decimal(r.bot) && t[d + 1..] == Decimal(r.top);
    }
  }

  lemma {:induction false} RenderPrints(rs: seq<Range>) returns (texts: seq<string>)
    requires forall k :: 0 <= k < |rs| ==> 0 <= rs[k].bot <= rs[k].top
    ensures Prints(Render(rs), rs, texts)
  {
    hide Item, PrintsRun;
    if rs == [] {
      texts := [];
    } else {
      var more := RenderPrints(rs[1..]);
      texts := [Item(rs[0])] + more;
      ItemPrints(rs[0]);
      if more != [] { FromLater(more, "", Item(rs[0]), 0); }
    }
  }
}
