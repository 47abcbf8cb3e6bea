/** Texts of items separated by commas, as both bitmap parsers take them, and the numbers in them. */
module TextItems {
  import opened ParseText

  predicate Blank(c: char) {
    c == ' ' || 9 <= c as int <= 13
  }

  ghost predicate Blanks(s: string) {
    forall i :: 0 <= i < |s| ==> Blank(s[i])
  }

  /** No comma and no NUL. */
  ghost predicate Plain(s: string) {
    forall i :: 0 <= i < |s| ==> s[i] != ',' && s[i] != '\0'
  }

  /** The items from k on with commas between them, and what is behind the last one. */
  function ListFrom(items: seq<string>, tail: string, k: nat): string
    requires k < |items|
    decreases |items| - k
  {
    items[k] + if k == |items| - 1 then tail else "," + ListFrom(items, tail, k + 1)
  }

  /** The text ends, with or without a last comma, or a NUL ends the list before it. */
  ghost predicate Ends(tail: string) {
    tail == "" || tail == "," || tail[0] == '\0'
  }

  /**
   Items and what is behind the last one.  A comma that is the last character of the text closes the last item; an
   empty item behind a comma is there only when a NUL follows.
   */
  ghost predicate Items(items: seq<string>, tail: string) {
    && items != [] && (forall k :: 0 <= k < |items| ==> Plain(items[k])) && Ends(tail)
    && (|items| > 1 && tail == "" ==> items[|items| - 1] != "")
  }

  ghost predicate Lists(t: string, items: seq<string>, tail: string) {
    Items(items, tail) && t == ListFrom(items, tail, 0)
  }

  /** A comma comes right behind item k. */
  predicate CommaBehind(items: seq<string>, tail: string, k: int) {
    k < |items| - 1 || tail == ","
  }

  lemma {:induction false} FromLater(items: seq<string>, tail: string, first: string, k: nat)
    requires k < |items|
    ensures ListFrom([first] + items, tail, k + 1) == ListFrom(items, tail, k)
    decreases |items| - k
  {
    if k < |items| - 1 { FromLater(items, tail, first, k + 1); }
  }

  /** Every text is a list of items. */
  lemma {:induction false} EveryTextLists(t: string) returns (items: seq<string>, tail: string)
    ensures Lists(t, items, tail)
  {
    if i :| 0 <= i < |t| && (t[i] == ',' || t[i] == '\0') && Plain(t[..i]) {
      assert t == t[..i] + t[i..];
      if t[i] == '\0' || i == |t| - 1 {
        items, tail := [t[..i]], t[i..];
      } else {
        var more;
        more, tail := EveryTextLists(t[i + 1..]);
        items := [t[..i]] + more;
        FromLater(more, tail, t[..i], 0);
        assert t[i..] == "," + t[i + 1..];
      }
    } else {
      NoSeparator(t, |t|);
      assert t == t + "" && t[..|t|] == t;
      items, tail := [t], "";
    }
  }

  lemma {:induction false} NoSeparator(t: string, n: nat)
    requires n <= |t| && forall i :: 0 <= i < |t| && (t[i] == ',' || t[i] == '\0') ==> !Plain(t[..i])
    ensures Plain(t[..n])
  {
    if n > 0 {
      NoSeparator(t, n - 1);
      assert t[..n] == t[..n - 1] + [t[n - 1]];
    }
  }

  lemma FromNonEmpty(items: seq<string>, tail: string, k: nat)
    requires k < |items| && (k == |items| - 1 ==> items[k] != "" || tail != "")
    ensures ListFrom(items, tail, k) != ""
  {
  }

  /** What is behind item k. */
  function Behind(items: seq<string>, tail: string, k: nat): string
    requires k < |items|
  {
    if k == |items| - 1 then tail else "," + ListFrom(items, tail, k + 1)
  }

  lemma BehindIs(items: seq<string>, tail: string, k: nat)
    requires k < |items| && Items(items, tail)
    ensures var u := Behind(items, tail, k);
      && ListFrom(items, tail, k) == items[k] + u && (u == "" || u[0] == ',' || u[0] == '\0')
      && (CommaBehind(items, tail, k) <==> u != "" && u[0] == ',')
      && (k < |items| - 1 ==> u[0] == ',' && |u| > 1 && u[1..] == ListFrom(items, tail, k + 1))
      && (k == |items| - 1 ==> !(u != "" && u[0] == ',' && |u| > 1))
  {
    if k < |items| - 1 { FromNonEmpty(items, tail, k + 1); }
  }

  // --------------------------------------------------------------------------- numbers

  ghost predicate Digits(s: string) {
    forall i :: 0 <= i < |s| ==> '0' <= s[i] <= '9'
  }

  /** The number that decimal digits stand for. */
  ghost function Value(s: string): (n: int)
    requires Digits(s)
    ensures 0 <= n
  {
    if s == "" then 0 else Value(s[..|s| - 1]) * 10 + (s[|s| - 1] as int - 48)
  }

  /** s is n in decimal, without leading zeros. */
  ghost predicate Writes(s: string, n: int) {
    s != "" && Digits(s) && Value(s) == n && (s[0] == '0' ==> |s| == 1)
  }

  lemma ValueAppend(s: string, c: char)
    requires Digits(s) && '0' <= c <= '9'
    ensures Digits(s + [c]) && Value(s + [c]) == Value(s) * 10 + (c as int - 48)
  {
    assert (s + [c])[..|s|] == s;
  }
}
