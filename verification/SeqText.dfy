/** The text of a seq_file: what its records show, one after the other. */
module SeqText {
  type Byte = int

  /** A negative error number. */
  type Errno = e: int | e < 0 witness -1

  /** What showing an element does: print it, print something and ask to have it discarded, or fail. */
  datatype Record =
    | Data(bytes: seq<Byte>)
    | Skip(bytes: seq<Byte>)
    | Fail(bytes: seq<Byte>, err: Errno)

  /** The bytes shown by the first i records, skipped ones left out. */
  function Text(recs: seq<Record>, i: int): seq<Byte>
    requires 0 <= i <= |recs|
  {
    if i == 0 then [] else Text(recs, i - 1) + (if recs[i - 1].Data? then recs[i - 1].bytes else [])
  }

  /** Index of the first record that fails, or the number of records. */
  function End(recs: seq<Record>): (e: int)
    ensures 0 <= e <= |recs| && (e < |recs| ==> recs[e].Fail?) && forall k :: 0 <= k < e ==> !recs[k].Fail?
  {
    FirstFail(recs, 0)
  }

  function FirstFail(recs: seq<Record>, k: int): (e: int)
    requires 0 <= k <= |recs|
    ensures k <= e <= |recs| && (e < |recs| ==> recs[e].Fail?) && forall j :: k <= j < e ==> !recs[j].Fail?
    decreases |recs| - k
  {
    if k == |recs| || recs[k].Fail? then k else FirstFail(recs, k + 1)
  }

  /** The whole file. */
  function Stream(recs: seq<Record>): seq<Byte> {
    Text(recs, End(recs))
  }

  lemma TextStart(recs: seq<Record>)
    ensures Text(recs, 0) == [] && Stream(recs) == Text(recs, End(recs))
  {
  }

  lemma {:induction false} TextPrefix(recs: seq<Record>, i: int, j: int)
    requires 0 <= i <= j <= |recs|
    ensures |Text(recs, i)| <= |Text(recs, j)| && Text(recs, j)[..|Text(recs, i)|] == Text(recs, i)
    decreases j - i
  {
    if i < j {
      TextPrefix(recs, i, j - 1);
      var a, b := Text(recs, j - 1), if recs[j - 1].Data? then recs[j - 1].bytes else [];
      assert (a + b)[..|Text(recs, i)|] == a[..|Text(recs, i)|];
    }
  }

  /** Record i, when it prints, is the piece of the file between the texts of i and i + 1 records. */
  lemma PieceAt(recs: seq<Record>, i: int)
    requires 0 <= i < End(recs)
    ensures var o := |Text(recs, i)|;
      && o <= |Text(recs, i + 1)| <= |Stream(recs)|
      && (recs[i].Data? ==>
            && |Text(recs, i + 1)| == o + |recs[i].bytes|
            && Stream(recs)[o..o + |recs[i].bytes|] == recs[i].bytes)
      && (recs[i].Skip? ==> |Text(recs, i + 1)| == o)
  {
    TextPrefix(recs, i + 1, End(recs));
    if recs[i].Data? {
      var o, n := |Text(recs, i)|, |recs[i].bytes|;
      var t := Text(recs, i + 1);
      assert t == Stream(recs)[..o + n];
      assert t[o..o + n] == recs[i].bytes;
      Sub(Stream(recs), o, o + n);
    }
  }

  lemma Sub(s: seq<Byte>, o: int, k: int)
    requires 0 <= o <= k <= |s|
    ensures s[..k][o..k] == s[o..k]
  {
  }

  /** Appending record i to what has been read up to it. */
  lemma Extend(s: seq<Byte>, a: int, b: int, c: int)
    requires 0 <= a <= b <= c <= |s|
    ensures s[a..b] + s[b..c] == s[a..c]
  {
  }

  function Max(a: int, b: int): int { if a < b then b else a }

  /** The longest record; a buffer beyond this size never overflows on one record. */
  function MaxLen(recs: seq<Record>, i: int): (n: int)
    requires 0 <= i <= |recs|
    ensures 0 <= n && forall k :: 0 <= k < i ==> |recs[k].bytes| <= n
  {
    if i == 0 then 0 else Max(MaxLen(recs, i - 1), |recs[i - 1].bytes|)
  }
}
