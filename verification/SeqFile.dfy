/** seq_file.c: a buffering reader over a sequence of records. */
module SeqFile {
  import opened Errno
  import opened SeqText

  const PAGE_SIZE: int := 4096

  const SEEK_SET: int := 0
  const SEEK_CUR: int := 1

  datatype Status = Ok | Again | Err(code: int)

  class SeqFile {
    /** What start, next and show deliver; the same at every call. */
    const recs: seq<Record>
    /** m->buf with m->size bytes; no bytes stand for NULL. */
    var buf: array<Byte>
    var from: int
    var count: int
    var index: int
    var readPos: int

    /** The buffered bytes, and where the next record starts, belong to file position pos. */
    ghost predicate At(pos: int)
      reads this, buf
    {
      && 0 <= index <= |recs| && 0 <= pos && 0 <= count
      && (if count > 0 then
            && 0 <= from && from + count <= buf.Length && index < End(recs)
            && pos + count == |Text(recs, index + 1)| <= |Stream(recs)|
            && buf[from..from + count] == Stream(recs)[pos..pos + count]
          else
            || (index <= End(recs) && |Text(recs, index)| == pos)
            || (index == End(recs) == |recs| && pos >= |Stream(recs)|))
    }

    ghost predicate Valid()
      reads this, buf
    {
      At(readPos)
    }

    /** seq_open */
    constructor (recs: seq<Record>)
      ensures Valid() && this.recs == recs && readPos == 0 && fresh(buf)
    {
      this.recs := recs;
      buf := new Byte[0];
      from, count, index, readPos := 0, 0, 0, 0;
    }

    /** Show record k behind what is in the buffer; a full buffer means overflow. */
    method Show(k: int) returns (err: int)
      requires 0 <= k < |recs| && 0 <= count <= buf.Length
      modifies this`count, buf
      ensures err == (match recs[k] case Data(_) => 0 case Skip(_) => 1 case Fail(_, e) => e)
      ensures count == if old(count) + |recs[k].bytes| < buf.Length then old(count) + |recs[k].bytes| else buf.Length
      ensures buf[..old(count)] == old(buf[..count])
      ensures old(count) + |recs[k].bytes| < buf.Length ==> buf[old(count)..count] == recs[k].bytes
    {
      var bytes := recs[k].bytes;
      if count + |bytes| < buf.Length {
        forall j | 0 <= j < |bytes| { buf[count + j] := bytes[j]; }
        count := count + |bytes|;
      } else {
        count := buf.Length;
      }
      match recs[k] {
        case Data(_) => err := 0;
        case Skip(_) => err := 1;
        case Fail(_, e) => err := e;
      }
    }

    /** m->size doubled, the old contents given up. */
    method Grow()
      modifies this`buf, this`count
      ensures fresh(buf) && buf.Length == 2 * old(buf.Length) && count == 0
    {
      count := 0;
      buf := new Byte[2 * buf.Length];
    }

    method Allocate()
      modifies this`buf
      ensures (fresh(buf) && buf.Length == PAGE_SIZE && old(buf.Length) == 0) || (buf == old(buf) && buf.Length > 0)
    {
      if buf.Length == 0 {
        buf := new Byte[PAGE_SIZE];
      }
    }

    /** The same with the file standing at pos, which it still does. */
    method AllocateAt(ghost pos: int)
      requires At(pos)
      modifies this`buf
      ensures At(pos) && buf.Length > 0 && (buf == old(buf) || fresh(buf))
    {
      Allocate();
    }

    /** One record of traverse: whether the offset lies beyond it, and where it ends. */
    method TraverseRecord(idx: int, pos: int, offset: int) returns (onward: bool, st: Status, pos': int)
      requires 0 <= idx <= End(recs) && idx < |recs| && 0 <= pos == |Text(recs, idx)| < offset && count == 0
      requires from == 0 && buf.Length > 0
      modifies this`buf, this`from, this`count, this`index, buf
      ensures buf == old(buf) || fresh(buf)
      ensures onward ==>
                idx < End(recs) && pos' == |Text(recs, idx + 1)| < offset && count == 0 && from == 0 && buf == old(buf)
      ensures !onward && st == Ok ==> At(offset) && offset <= |Stream(recs)|
      ensures !onward && st.Err? ==> End(recs) < |recs| && st.code == recs[End(recs)].err && offset > |Stream(recs)|
      ensures !onward && st == Again ==> buf.Length == 2 * old(buf.Length) && old(buf.Length) <= |recs[idx].bytes|
    {
      TextStart(recs);
      hide Text, End, Stream, MaxLen;
      pos' := pos;
      var error := Show(idx);
      if error < 0 {
        index := idx;
        return false, Err(error), pos;
      }
      PieceAt(recs, idx);
      if error != 0 {
        count := 0;
      }
      if count == buf.Length {
        Grow();
        return false, Again, pos;
      }
      if pos + count > offset {
        from := offset - pos;
        count := count - from;
        index := idx;
        TailOf(buf[..], Stream(recs), recs[idx].bytes, pos, from);
        return false, Ok, pos;
      }
      pos' := pos + count;
      count := 0;
      if pos' == offset {
        index := idx + 1;
        return false, Ok, pos';
      }
      return true, Ok, pos';
    }

    /** traverse: position the file at offset, or double a buffer too small for one record and ask to retry. */
    method Traverse(offset: int) returns (st: Status)
      requires 0 <= offset
      modifies this`buf, this`from, this`count, this`index, buf
      ensures buf == old(buf) || fresh(buf)
      ensures st == Ok ==> At(offset)
      ensures st.Err? ==> End(recs) < |recs| && st.code == recs[End(recs)].err && offset > |Stream(recs)|
      ensures st == Again ==> old(buf.Length) < buf.Length <= 2 * Max(PAGE_SIZE, MaxLen(recs, |recs|))
      ensures st != Again ==> offset <= |Stream(recs)| || End(recs) == |recs| || st.Err?
    {
      TextStart(recs);
      hide Text, End, Stream, MaxLen;
      count, from := 0, 0;
      if offset == 0 {
        index := 0;
        return Ok;
      }
      Allocate();
      var idx, pos := 0, 0;
      while idx < |recs|
        invariant 0 <= idx <= End(recs) && 0 <= pos == |Text(recs, idx)| < offset && count == 0 && from == 0
        invariant buf.Length > 0 && (buf == old(buf) || fresh(buf)) && old(buf.Length) <= buf.Length
        decreases |recs| - idx
      {
        var onward;
        onward, st, pos := TraverseRecord(idx, pos, offset);
        if !onward {
          return;
        }
        idx := idx + 1;
      }
      index := idx;
      return Ok;
    }

    /** Repeat traverse until it has a buffer large enough; when a record fails, start over at position 0. */
    method Position(offset: int) returns (st: Status)
      requires 0 <= offset
      modifies this, buf
      ensures (buf == old(buf) || fresh(buf)) && Valid() && st != Again
      ensures st.Err? <==> End(recs) < |recs| && offset > |Stream(recs)|
      ensures st.Err? ==> st.code == recs[End(recs)].err && readPos == 0
      ensures st == Ok ==> readPos == offset
    {
      hide Text, End, Stream, MaxLen;
      st := Traverse(offset);
      while st == Again
        invariant buf == old(buf) || fresh(buf)
        invariant st == Ok ==> At(offset)
        invariant st.Err? ==> End(recs) < |recs| && st.code == recs[End(recs)].err && offset > |Stream(recs)|
        invariant st == Again ==> buf.Length <= 2 * Max(PAGE_SIZE, MaxLen(recs, |recs|))
        invariant st != Again ==> offset <= |Stream(recs)| || End(recs) == |recs| || st.Err?
        decreases if st == Again then 1 else 0, 2 * Max(PAGE_SIZE, MaxLen(recs, |recs|)) - buf.Length
      {
        st := Traverse(offset);
      }
      if st.Err? {
        TextStart(recs);
        readPos, index, count := 0, 0, 0;
      } else {
        readPos := offset;
      }
    }

    /** Hand over what is still in the buffer. */
    method Flush(size: int, ghost p: int) returns (data: seq<Byte>)
      requires At(p) && 0 <= size
      modifies this`from, this`count, this`index
      ensures At(p + |data|) && |data| == (if old(count) < size then old(count) else size)
      ensures data != [] ==> Slice(Stream(recs), p, data)
      ensures |data| < size ==> count == 0
    {
      hide Text, End, Stream;
      data := [];
      if count != 0 {
        var n := if count < size then count else size;
        data := buf[from..from + n];
        Pieces(buf[..], from, count, Stream(recs), p, n);
        count := count - n;
        from := from + n;
        if count == 0 {
          from := 0;
          index := index + 1;
        }
      }
    }

    /** The first loop of seq_read: get one non-empty record into the buffer, growing it as needed. */
    method FirstRecord(ghost p: int) returns (found: bool, err: int)
      requires At(p) && count == 0 && buf.Length > 0
      modifies this`buf, this`count, this`index, buf
      ensures buf == old(buf) || fresh(buf)
      ensures found ==> Filled(p, index)
      ensures !found ==> At(p) && count == 0 && p >= |Stream(recs)|
      ensures !found ==> err == (if End(recs) < |recs| then recs[End(recs)].err else 0)
    {
      hide Text, End, Stream;
      TextStart(recs);
      while index < |recs|
        invariant At(p) && count == 0 && buf.Length > 0 && (buf == old(buf) || fresh(buf))
        decreases |recs| - index, if index < |recs| then Max(0, |recs[index].bytes| + 1 - buf.Length) else 0
      {
        err := Show(index);
        if err < 0 {
          count := 0;
          return false, err;
        }
        PieceAt(recs, index);
        if err != 0 {
          count := 0;
        }
        if count == 0 {
          index := index + 1;
          continue;
        }
        if count < buf.Length {
          return true, 0;
        }
        Grow();
      }
      return false, 0;
    }

    /** The buffer holds the file from p to the end of record pos, and is not full. */
    ghost predicate Filled(p: int, pos: int)
      reads this, buf
    {
      && 0 <= pos < End(recs) && 0 <= p && 0 < count < buf.Length
      && p + count == |Text(recs, pos + 1)| <= |Stream(recs)|
      && buf[..count] == Stream(recs)[p..p + count]
    }

    /** The second loop of seq_read: show more records as long as they fit and are asked for. */
    method Fill(size: int, ghost p: int) returns (pos: int)
      requires Filled(p, index) && 0 <= size
      modifies this`count, buf
      ensures Filled(p, pos) && count >= old(count)
    {
      hide Text, End, Stream;
      pos := index;
      while count < size
        invariant Filled(p, pos) && count >= old(count)
        decreases |recs| - pos
      {
        var offs, next := count, pos + 1;
        if next >= |recs| {
          break;
        }
        var err := Show(next);
        if err >= 0 { PieceAt(recs, next); }
        if count == buf.Length || err != 0 {
          count := offs;
          if err <= 0 {
            break;
          }
        } else {
          Extend(Stream(recs), p, p + offs, p + count);
          assert buf[..count] == buf[..offs] + buf[offs..count];
        }
        pos := next;
      }
    }

    /** The copy that ends seq_read: what is asked for now, the rest stays buffered. */
    method Take(size: int, pos: int, ghost p: int) returns (data: seq<Byte>)
      requires Filled(p, pos) && 0 <= size
      modifies this`from, this`count, this`index
      ensures At(p + |data|) && p + |data| <= |Stream(recs)| && data == Stream(recs)[p..p + |data|]
      ensures |data| == if old(count) < size then old(count) else size
    {
      hide Text, End, Stream;
      var n := if count < size then count else size;
      data := buf[..n];
      Pieces(buf[..], 0, count, Stream(recs), p, n);
      assert buf[..count] == buf[0..count] && buf[..n] == buf[0..n];
      count := count - n;
      if count != 0 {
        from := n;
        index := pos;
      } else {
        index := pos + 1;
      }
    }

    /** Records from file position p on, into an empty buffer, and as much of them as is asked for. */
    method Refill(size: int, ghost p: int) returns (err: int, data: seq<Byte>)
      requires At(p) && count == 0 && buf.Length > 0 && 0 <= size
      modifies this`buf, this`from, this`count, this`index, buf
      ensures (buf == old(buf) || fresh(buf)) && At(p + |data|) && |data| <= size
      ensures p < |Stream(recs)| ==> err == 0 && Slice(Stream(recs), p, data) && (size > 0 ==> data != [])
      ensures p >= |Stream(recs)| ==> data == [] && err == (if End(recs) < |recs| then recs[End(recs)].err else 0)
    {
      var found;
      found, err := FirstRecord(p);
      data := [];
      if found {
        var pos := Fill(size, p);
        hide Text, End, Stream;
        data := Take(size, pos, p);
        err := 0;
      }
    }

    /** The rest of seq_read, once the file stands at pos: first what is buffered, then more records. */
    method Transfer(size: int, ghost pos: int) returns (err: int, data: seq<Byte>)
      requires At(pos) && 0 <= size
      modifies this`buf, this`from, this`count, this`index, buf
      ensures (buf == old(buf) || fresh(buf)) && At(pos + |data|) && |data| <= size
      ensures data != [] ==> Slice(Stream(recs), pos, data)
      ensures size > 0 && pos < |Stream(recs)| ==> data != []
      ensures size > 0 && pos >= |Stream(recs)| ==> err == (if End(recs) < |recs| then recs[End(recs)].err else 0)
      ensures data == [] ==> err == 0 || (End(recs) < |recs| && err == recs[End(recs)].err && pos >= |Stream(recs)|)
    {
      hide Text, End, Stream, At, Filled, Slice;
      Reachable(pos);
      AllocateAt(pos);
      err, data := 0, [];
      if count != 0 {
        data := Flush(size, pos);
      }
      if count == 0 && (data == [] || |data| < size) {
        ghost var s := Stream(recs);
        var more;
        err, more := Refill(size - |data|, pos + |data|);
        Join(s, pos, data, more);
        data := data + more;
      }
    }

    /**
     seq_read at position pos: exactly the bytes of the file from there on, at least one unless the
     file ends there or a record fails; the error of a failing record only when nothing was read.
     */
    method Read(size: int, pos: int) returns (ret: int, data: seq<Byte>, newPos: int)
      requires Valid() && 0 <= size && 0 <= pos
      modifies this, buf
      ensures Valid() && (buf == old(buf) || fresh(buf)) && |data| <= size && newPos == pos + |data|
      ensures data != [] ==> Slice(Stream(recs), pos, data) && ret == |data|
      ensures size > 0 && pos < |Stream(recs)| ==> data != []
      ensures size > 0 && pos >= |Stream(recs)| ==> ret == (if End(recs) < |recs| then recs[End(recs)].err else 0)
      ensures data == [] ==> ret == 0 || (End(recs) < |recs| && ret == recs[End(recs)].err && pos >= |Stream(recs)|)
      ensures readPos == if End(recs) < |recs| && pos > |Stream(recs)| then 0 else newPos
    {
      hide Text, End, Stream;
      data := [];
      if pos != readPos {
        var st := Position(pos);
        if st.Err? {
          return st.code, data, pos;
        }
      }
      Reachable(pos);
      var err;
      err, data := Transfer(size, pos);
      ret := if |data| == 0 then err else |data|;
      newPos := pos + |data|;
      readPos := newPos;
    }

    /** seq_lseek; pos is the file position before, newPos after. */
    method Lseek(offset: int, whence: int, pos: int) returns (ret: int, newPos: int)
      requires Valid() && 0 <= pos
      modifies this, buf
      ensures Valid() && (buf == old(buf) || fresh(buf))
      ensures whence == 0 && offset >= 0 && (End(recs) == |recs| || offset <= |Stream(recs)|) ==>
                ret == newPos == readPos == offset
      ensures whence == 0 && offset > |Stream(recs)| && End(recs) < |recs| ==>
                ret == recs[End(recs)].err && newPos == readPos == 0
      ensures whence == 1 && pos + offset >= 0 && (End(recs) == |recs| || pos + offset <= |Stream(recs)|) ==>
                ret == newPos == readPos == pos + offset
      ensures whence == 1 && pos + offset > |Stream(recs)| && End(recs) < |recs| ==>
                ret == recs[End(recs)].err && newPos == readPos == 0
      ensures whence !in {0, 1} || (whence == 0 && offset < 0) || (whence == 1 && pos + offset < 0) ==>
                ret == -22 && newPos == pos && readPos == old(readPos)
    {
      hide Text, End, Stream;
      ret, newPos := -EINVAL, pos;
      var to := offset;
      if whence == SEEK_CUR {
        to := to + pos;
      }
      if (whence == SEEK_CUR || whence == SEEK_SET) && to >= 0 {
        ret := to;
        Reachable(readPos);
        if to != readPos {
          var st := Position(to);
          if st.Err? {
            return st.code, 0;
          }
        }
        newPos := to;
      }
    }

    lemma Reachable(pos: int)
      requires At(pos)
      ensures 0 <= pos && (pos > |Stream(recs)| ==> End(recs) == |recs| && count == 0)
    {
      if index <= End(recs) { TextPrefix(recs, index, End(recs)); }
    }
  }

  /** data is what the file s holds at position p. */
  ghost predicate Slice(s: seq<Byte>, p: int, data: seq<Byte>) {
    0 <= p && p + |data| <= |s| && data == s[p..p + |data|]
  }

  /** The end of a record in the buffer is the same piece of the file. */
  lemma TailOf(buf: seq<Byte>, s: seq<Byte>, rec: seq<Byte>, pos: int, k: int)
    requires 0 <= pos && pos + |rec| <= |s| && |rec| <= |buf| && 0 <= k <= |rec| && buf[..|rec|] == rec
    requires s[pos..pos + |rec|] == rec
    ensures buf[k..|rec|] == s[pos + k..pos + |rec|]
  {
    assert buf[..|rec|][k..] == buf[k..|rec|];
    assert s[pos..pos + |rec|][k..] == s[pos + k..pos + |rec|];
  }

  /** A prefix and the rest of a piece of the file. */
  lemma Pieces(buf: seq<Byte>, from: int, count: int, s: seq<Byte>, p: int, n: int)
    requires 0 <= from && 0 <= n <= count && from + count <= |buf| && 0 <= p && p + count <= |s|
    requires buf[from..from + count] == s[p..p + count]
    ensures buf[from..from + n] == s[p..p + n] && buf[from + n..from + count] == s[p + n..p + count]
  {
    assert buf[from..from + count][..n] == buf[from..from + n];
    assert buf[from..from + count][n..] == buf[from + n..from + count];
    assert s[p..p + count][..n] == s[p..p + n] && s[p..p + count][n..] == s[p + n..p + count];
  }

  lemma Join(s: seq<Byte>, p: int, a: seq<Byte>, b: seq<Byte>)
    requires 0 <= p && (a != [] ==> Slice(s, p, a)) && (b != [] ==> Slice(s, p + |a|, b))
    ensures a + b != [] ==> Slice(s, p, a + b)
  {
  }

  // ----------------------------------------------------------------------- whole runs

  datatype Op = ReadOp(size: int) | SeekOp(offset: int, whence: int)

  /** What one call returns and delivers, and where it leaves the file position. */
  ghost predicate Delivers(recs: seq<Record>, op: Op, pos: int, ret: int, data: seq<Byte>, pos': int) {
    match op
    case ReadOp(size) =>
      && 0 <= pos && pos' == pos + |data| && |data| <= size
      && (data != [] ==> pos' <= |Stream(recs)| && data == Stream(recs)[pos..pos'] && ret == |data|)
      && (size > 0 && pos < |Stream(recs)| ==> data != [])
      && (size > 0 && pos >= |Stream(recs)| ==> ret == if End(recs) < |recs| then recs[End(recs)].err else 0)
    case SeekOp(offset, whence) =>
      && data == []
      && (whence == 0 && offset >= 0 ==> Seeks(recs, offset, ret, pos'))
      && (whence == 1 && pos + offset >= 0 ==> Seeks(recs, pos + offset, ret, pos'))
      && (whence !in {0, 1} || (whence == 0 && offset < 0) || (whence == 1 && pos + offset < 0) ==>
            ret == -22 && pos' == pos)
  }

  /** A failing record before the offset: its error, and back to the start.  Otherwise the offset is reached. */
  ghost predicate Seeks(recs: seq<Record>, offset: int, ret: int, pos': int) {
    if End(recs) < |recs| && offset > |Stream(recs)| then ret == recs[End(recs)].err && pos' == 0
    else ret == pos' == offset
  }

  /** Any sequence of reads and seeks: every read is the slice of the file at the position it starts from. */
  method RunAll(recs: seq<Record>, ops: seq<Op>) returns (rets: seq<int>, outs: seq<seq<Byte>>, at: seq<int>)
    requires forall k :: 0 <= k < |ops| && ops[k].ReadOp? ==> ops[k].size >= 0
    ensures |rets| == |outs| == |ops| && |at| == |ops| + 1 && at[0] == 0
    ensures forall k :: 0 <= k < |ops| ==> Delivers(recs, ops[k], at[k], rets[k], outs[k], at[k + 1])
  {
    hide Delivers;
    var m := new SeqFile(recs);
    var k, pos := 0, 0;
    rets, outs, at := [], [], [0];
    while k < |ops|
      invariant 0 <= k <= |ops| && |rets| == |outs| == k && |at| == k + 1 && at[0] == 0 && at[k] == pos >= 0
      invariant m.Valid() && m.recs == recs && fresh(m) && fresh(m.buf)
      invariant forall j :: 0 <= j < k ==> Delivers(recs, ops[j], at[j], rets[j], outs[j], at[j + 1])
    {
      var ret, data, pos' := OneCall(m, ops[k], pos);
      rets, outs, at := rets + [ret], outs + [data], at + [pos'];
      pos, k := pos', k + 1;
    }
  }

  method OneCall(m: SeqFile, op: Op, pos: int) returns (ret: int, data: seq<Byte>, pos': int)
    requires m.Valid() && 0 <= pos && (op.ReadOp? ==> op.size >= 0)
    modifies m, m.buf
    ensures m.Valid() && (m.buf == old(m.buf) || fresh(m.buf)) && 0 <= pos'
    ensures Delivers(m.recs, op, pos, ret, data, pos')
  {
    hide Stream, End;
    data := [];
    match op {
      case ReadOp(size) => ret, data, pos' := m.Read(size, pos);
      case SeekOp(offset, whence) => ret, pos' := m.Lseek(offset, whence, pos);
    }
  }

  /** Reading to the end, call k asking for chunk(k) bytes, gives the whole file, once and in order. */
  method ReadToEnd(recs: seq<Record>, chunk: int -> int) returns (all: seq<Byte>, ret: int)
    requires forall k :: chunk(k) > 0
    ensures all == Stream(recs) && ret == (if End(recs) < |recs| then recs[End(recs)].err else 0)
  {
    hide Stream, End;
    var m := new SeqFile(recs);
    all := [];
    var k, pos, data := 0, 0, [];
    ret, data, pos := m.Read(chunk(k), pos);
    while data != []
      invariant m.Valid() && m.recs == recs && fresh(m) && fresh(m.buf)
      invariant pos == |all| + |data| <= |Stream(recs)| && all == Stream(recs)[..|all|]
      invariant data == Stream(recs)[|all|..pos]
      invariant data == [] ==> |all| == |Stream(recs)| && ret == (if End(recs) < |recs| then recs[End(recs)].err else 0)
      decreases |Stream(recs)| - pos, |data|
    {
      assert Stream(recs)[..|all|] + Stream(recs)[|all|..pos] == Stream(recs)[..pos];
      all := all + data;
      k := k + 1;
      ret, data, pos := m.Read(chunk(k), pos);
    }
  }
}
