/** frf.c: a file opened for reading, one row at a time. */
module Reader {
  import opened Bytes
  import opened Codec
  import opened Streams
  import opened Reading
  import opened Arena

  const IOV_MAX: nat := 1024

  /** One entry of an iovec array: bytes of the file, or of a block of the arena. */
  datatype Vec = InFile(at: nat, len: nat) | InArena(block: Block, len: nat)

  lemma UpToNulPrefix(s: Text)
    ensures UpToNul(s) <= s
    ensures |UpToNul(s)| < |s| ==> s[|UpToNul(s)|] == 0
    ensures 0 !in UpToNul(s)
  {
    if s != [] && s[0] != 0 {
      UpToNulPrefix(s[1..]);
      assert s == [s[0]] + s[1..];
    }
  }

  /** The record of an offset word, as a piece of the file. */
  function TableVec(file: Text, sec: Sections, w: Word): Vec
    requires ReadString(file, sec, w).Some? && w.b0 < 0x80
  {
    var at := sec.strings + Unpack(w) - 1;
    if file[at] >= 0x80 then InFile(at + 4, Unpack(WordAt(file, at)) - TOP_BIT) else InFile(at + 1, file[at])
  }

  lemma TableVecIs(file: Text, sec: Sections, w: Word, text: Text)
    requires ReadString(file, sec, w) == Some(text) && w.b0 < 0x80
    ensures var v := TableVec(file, sec, w);
            v.at + v.len <= |file| && file[v.at..v.at + v.len] == text
  {
    var i := Unpack(w) - 1;
    SameByte(file, sec.strings, i);
    if file[sec.strings + i] >= 0x80 {
      LongVec(file, sec.strings, i, text);
    } else {
      ShortVec(file, sec.strings, i, text);
    }
  }

  lemma SameByte(file: Text, start: nat, i: nat)
    requires start + i < |file|
    ensures file[start..][i] == file[start + i]
  {
  }

  lemma ShortVec(file: Text, start: nat, i: nat, text: Text)
    requires start + i < |file| && file[start + i] < 0x80 && RecordText(file[start..], i) == Some(text)
    ensures |text| == file[start + i] && start + i + 1 + |text| <= |file|
    ensures file[start + i + 1..start + i + 1 + |text|] == text
  {
    SameByte(file, start, i);
    Sliced(file, start, i + 1, |text|);
  }

  lemma LongVec(file: Text, start: nat, i: nat, text: Text)
    requires start + i < |file| && file[start + i] >= 0x80 && RecordText(file[start..], i) == Some(text)
    ensures start + i + 4 + |text| <= |file| && |text| == Unpack(WordAt(file, start + i)) - TOP_BIT
    ensures file[start + i + 4..start + i + 4 + |text|] == text
  {
    SameByte(file, start, i);
    Sliced(file, start, i, 4);
    WordAtRaw(file[start..], i, WordAt(file, start + i));
    Sliced(file, start, i + 4, |text|);
  }

  lemma Sliced(file: Text, start: nat, from: nat, len: nat)
    requires start + from + len <= |file|
    ensures file[start..][from..from + len] == file[start + from..start + from + len]
  {
  }

  /** A row that reads has its cells where its first word says. */
  lemma RowIsCells(file: Text, sec: Sections, row: int)
    requires ReadRow(file, sec, row).Some?
    ensures 0 <= row && row + 4 <= |file|
    ensures var shape := sec.cells + Unpack(WordAt(file, row));
            && shape + 4 <= |file|
            && var r := ReadCells(file, sec, shape + 8, row + 4, CellCount(WordAt(file, shape)));
               r.Some? && ReadRow(file, sec, row) == Some(r.value.texts)
  {
  }

  lemma ConcatStep(texts: seq<Text>, i: nat)
    requires i < |texts|
    ensures Concat(texts[..i + 1]) == Concat(texts[..i]) + texts[i]
  {
    assert texts[..i + 1][..i] == texts[..i];
  }

  /** The start of a list of texts is no longer than the list. */
  lemma {:induction false} ConcatShorter(texts: seq<Text>, i: nat)
    requires i <= |texts|
    ensures |Concat(texts[..i])| <= |Concat(texts)|
    ensures i == |texts| ==> Concat(texts[..i]) == Concat(texts)
  {
    if i < |texts| {
      assert texts[..|texts| - 1][..i] == texts[..i];
      ConcatShorter(texts[..|texts| - 1], i);
    } else {
      assert texts[..i] == texts;
    }
  }

  lemma Filled(start: Text, before: Text, after: Text, done: Text, text: Text)
    requires |done| + |text| <= |start| && before == done + start[|done|..]
    requires after == before[..|done|] + text + before[|done| + |text|..]
    ensures after == (done + text) + start[|done + text|..]
  {
  }

  /** What a uint32_t keeps of a difference of pointers. */
  function Distance(at: int, start: nat): nat {
    (at - start) % 0x1_0000_0000
  }

  lemma DistanceIs(at: int, start: nat, n: nat)
    requires at == start + n && n < 0x1_0000_0000
    ensures Distance(at, start) == n
  {
  }

  class Frf {
    const file: Text
    const numRows: nat
    const sec: Sections
    var rowPtr: int            // where the current row lies in the file
    const context: Allocator

    ghost predicate Valid()
      reads this, context
    {
      context.Valid()
    }

    /** Opens `file`; the current row is the first. */
    constructor (file: Text)
      requires |file| >= HEADER
      ensures this.file == file && sec == SectionsOf(file) && numRows == Unpack(WordAt(file, 0))
      ensures rowPtr == sec.vectors
      ensures Valid() && fresh(context) && fresh(context.repr)
    {
      this.file := file;
      numRows := Unpack(WordAt(file, 0));
      sec := SectionsOf(file);
      rowPtr := Unpack(WordAt(file, 12));
      context := new Allocator(1024);
    }

    /** The current row can be read without leaving the file, and has room in an iovec array. */
    predicate Readable()
      reads this
    {
      rowPtr < |file| ==> ReadRow(file, sec, rowPtr).Some? && |ReadRow(file, sec, rowPtr).value| <= IOV_MAX
    }

    /** The texts of the current row; none at the end of the file. */
    function Texts(): seq<Text>
      requires Readable()
      reads this
    {
      if rowPtr < |file| then ReadRow(file, sec, rowPtr).value else []
    }

    ghost predicate Holds(v: Vec, text: Text)
      requires Valid()
      reads this, context, context.repr
    {
      match v
      case InFile(at, len) => at + len <= |file| && file[at..at + len] == text
      case InArena(b, len) => b in context.live && len <= b.size && context.Load(b, len) == text
    }

    // ---- decoding ----

    /** strlen of the NUL-terminated bytes `s` in a block. */
    method StrLen(b: Block, ghost s: Text) returns (n: nat)
      requires Valid() && b in context.live && |s| <= b.size && context.Load(b, |s|) == s && 0 in s
      ensures n == |UpToNul(s)|
    {
      UpToNulIs(s);
      UpToNulPrefix(s);
      n := 0;
      while context.Load(b, n + 1)[n] != 0
        invariant n <= |UpToNul(s)| < |s|
        decreases |s| - n
      {
        assert context.Load(b, n + 1)[n] == s[n];
        n := n + 1;
      }
      assert context.Load(b, n + 1)[n] == s[n];
    }

    /** The inline string of a word, unpacked into a block of its own. */
    method Inline(w: Word) returns (v: Vec)
      requires Valid() && w.b0 >= 0x80
      modifies context, context.repr
      ensures Valid() && fresh(context.repr - old(context.repr))
      ensures Holds(v, UpToNul([w.b3, w.b2, w.b1, ClearTag(w.b0)]))
      ensures forall u, text :: old(Holds(u, text)) ==> Holds(u, text)
    {
      var chars := [w.b3, w.b2, w.b1, ClearTag(w.b0)];
      var b := context.Place(chars + [0]);
      var len := StrLen(b, chars + [0]);
      UpToNulPadded(chars, [0]);
      UpToNulPrefix(chars + [0]);
      v := InArena(b, len);
    }

    method VecOf(w: Word, ghost text: Text) returns (v: Vec)
      requires Valid() && ReadString(file, sec, w) == Some(text)
      modifies context, context.repr
      ensures Valid() && fresh(context.repr - old(context.repr))
      ensures Holds(v, text)
      ensures forall u, other :: old(Holds(u, other)) ==> Holds(u, other)
    {
      if w.b0 >= 0x80 {
        v := Inline(w);
      } else {
        TableVecIs(file, sec, w, text);
        v := TableVec(file, sec, w);
      }
    }

    ghost predicate AllHold(iov: seq<Vec>, texts: seq<Text>)
      requires Valid()
      reads this, context, context.repr
    {
      |texts| <= |iov| && forall i :: 0 <= i < |texts| ==> Holds(iov[i], texts[i])
    }

    /** The entry for the cell at `cell`; the next word of the row's own is taken if it is zero. */
    method TakeCell(cell: nat, vec: nat, iov: array<Vec>, i: nat, ghost sofar: CellsRead, ghost next: CellsRead)
      returns (vec': nat)
      requires Valid() && AllHold(iov[..], sofar.texts)
      requires ReadCell(file, sec, cell, sofar) == Some(next) && vec == sofar.vec
      requires i == |sofar.texts| < iov.Length
      modifies context, context.repr, iov
      ensures Valid() && fresh(context.repr - old(context.repr))
      ensures AllHold(iov[..], next.texts) && vec' == next.vec
    {
      vec' := vec;
      var index := WordAt(file, cell);
      if index == ZERO {
        index := WordAt(file, vec);
        vec' := vec + 4;
      }
      var v := VecOf(index, next.texts[i]);
      iov[i] := v;
    }

    method TakeCells(cell: nat, from: nat, count: nat, iov: array<Vec>, ghost texts: seq<Text>)
      requires Valid() && count <= iov.Length
      requires ReadCells(file, sec, cell, from, count).Some? && texts == ReadCells(file, sec, cell, from, count).value.texts
      modifies context, context.repr, iov
      ensures Valid() && fresh(context.repr - old(context.repr))
      ensures AllHold(iov[..], texts)
    {
      var vec := from;
      ghost var sofar := CellsRead([], from);
      for i := 0 to count
        invariant Valid() && fresh(context.repr - old(context.repr)) && AllHold(iov[..], sofar.texts)
        invariant ReadCells(file, sec, cell, from, i) == Some(sofar) && vec == sofar.vec
      {
        ReadCellsBefore(file, sec, cell, from, i + 1, count);
        ghost var next := ReadCells(file, sec, cell, from, i + 1).value;
        vec := TakeCell(cell + 4 * i, vec, iov, i, sofar, next);
        sofar := next;
      }
    }

    /** _frf_iovec: one entry for each text of the row, all of them good at the same time. */
    method Iovec(iov: array<Vec>) returns (n: int)
      requires Valid() && Readable() && iov.Length == IOV_MAX
      modifies context, context.repr, iov
      ensures Valid() && fresh(context.repr - old(context.repr))
      ensures AllHold(iov[..], Texts())
      ensures n == if rowPtr < |file| then |Texts()| else -1
    {
      if rowPtr >= |file| {
        return -1;
      }
      RowIsCells(file, sec, rowPtr);
      var shape := sec.cells + Unpack(WordAt(file, rowPtr));
      var count := CellCount(WordAt(file, shape));
      TakeCells(shape + 8, rowPtr + 4, count, iov, Texts());
      n := count;
    }

    // ---- moving about ----

    /** frf_next. The row pointer may land anywhere; the answer is false only past the end. */
    method Next() returns (more: bool)
      requires NextRow(file, sec, rowPtr).Some?
      modifies this`rowPtr
      ensures rowPtr == NextRow(file, sec, old(rowPtr)).value
      ensures more <==> rowPtr <= |file|
    {
      var shape := sec.cells + Unpack(WordAt(file, rowPtr));
      rowPtr := rowPtr + 4 * Skip(WordAt(file, shape + 4));
      more := rowPtr <= |file|;
    }

    /** frf_get_offset. */
    function GetOffset(): nat
      reads this
    {
      Distance(rowPtr, sec.vectors)
    }

    method Seek(offset: nat) returns (r: int)
      modifies this`rowPtr
      ensures rowPtr == sec.vectors + offset
      ensures r == if rowPtr < |file| then 0 else -1
    {
      rowPtr := sec.vectors + offset;
      r := if rowPtr >= |file| then -1 else 0;
    }

    // ---- rendering ----

    method GetRenderSize() returns (size: nat)
      requires Valid() && Readable()
      modifies context, context.repr
      ensures Valid() && fresh(context.repr - old(context.repr))
      ensures size == |Concat(Texts())|
    {
      var iov := new Vec[IOV_MAX](_ => InFile(0, 0));
      context.Reset();
      var n := Iovec(iov);
      size := Lengths(iov, if n < 0 then 0 else n, Texts());
    }

    method Lengths(iov: array<Vec>, n: nat, ghost texts: seq<Text>) returns (size: nat)
      requires Valid() && AllHold(iov[..], texts) && n == |texts|
      ensures size == |Concat(texts)|
    {
      size := 0;
      for i := 0 to n
        invariant Valid() && AllHold(iov[..], texts)
        invariant size == |Concat(texts[..i])|
      {
        assert Holds(iov[..][i], texts[i]);
        ConcatStep(texts, i);
        size := size + iov[i].len;
      }
      ConcatShorter(texts, n);
    }

    method Copy(v: Vec, ghost text: Text, buf: array<byte>, at: nat)
      requires Valid() && Holds(v, text) && at + v.len <= buf.Length && buf !in context.repr
      modifies buf
      ensures buf[..] == old(buf[..])[..at] + text + old(buf[..])[at + |text|..]
    {
      var bytes := if v.InFile? then file[v.at..v.at + v.len] else context.Load(v.block, v.len);
      ghost var before := buf[..];
      WriteAt(buf, at, bytes);
      assert buf[..] == before[..at] + text + before[at + |text|..];
    }

    /** Copies one entry behind the `at` bytes already copied. */
    method Append(v: Vec, ghost text: Text, buf: array<byte>, at: nat, ghost start: Text, ghost done: Text)
      requires Valid() && Holds(v, text) && at + v.len <= buf.Length && buf !in context.repr
      requires at == |done| <= |start| && buf[..] == done + start[at..]
      modifies buf
      ensures buf[..] == (done + text) + start[|done + text|..]
    {
      ghost var before := buf[..];
      Copy(v, text, buf, at);
      Filled(start, before, buf[..], done, text);
    }

    /** What is in `buf` after `i` texts have been copied over `start`. */
    ghost predicate Copied(buf: Text, start: Text, texts: seq<Text>, i: nat, written: nat) {
      i <= |texts| && written == |Concat(texts[..i])| <= |start| && buf == Concat(texts[..i]) + start[written..]
    }

    /** Copies one more entry, if it fits. */
    method CopyNext(v: Vec, ghost texts: seq<Text>, ghost i: nat, buf: array<byte>, bufSize: int, written: nat, ghost start: Text)
      returns (fits: bool, written': nat)
      requires Valid() && i < |texts| && Holds(v, texts[i]) && bufSize <= buf.Length && buf !in context.repr
      requires Copied(buf[..], start, texts, i, written)
      modifies buf
      ensures fits <==> |Concat(texts[..i + 1])| <= bufSize
      ensures if fits then Copied(buf[..], start, texts, i + 1, written') else buf[..] == old(buf[..]) && written' == written
    {
      ConcatStep(texts, i);
      fits, written' := written + v.len <= bufSize, written;
      if fits {
        Append(v, texts[i], buf, written, start, Concat(texts[..i]));
        written' := written + v.len;
      }
    }

    /** Copies the entries in turn until one does not fit: `k` of them, of `written` bytes. */
    method CopyAll(iov: array<Vec>, n: nat, ghost texts: seq<Text>, buf: array<byte>, bufSize: int)
      returns (all: bool, written: nat, ghost k: nat)
      requires Valid() && AllHold(iov[..], texts) && n == |texts|
      requires bufSize <= buf.Length && buf !in context.repr
      modifies buf
      ensures Copied(buf[..], old(buf[..]), texts, k, written) && (k > 0 ==> written <= bufSize)
      ensures (all <==> k == |texts|) && (k < |texts| ==> |Concat(texts[..k + 1])| > bufSize)
    {
      all, written, k := true, 0, n;
      for i := 0 to n
        invariant Valid() && AllHold(iov[..], texts)
        invariant Copied(buf[..], old(buf[..]), texts, i, written) && (i > 0 ==> written <= bufSize)
      {
        assert Holds(iov[..][i], texts[i]);
        all, written := CopyNext(iov[i], texts, i, buf, bufSize, written, old(buf[..]));
        if !all {
          k := i;
          return;
        }
      }
    }

    /** frf_render_to_buffer: `k` texts are copied, as many as fit in `bufSize` bytes. */
    method RenderToBuffer(buf: array<byte>, bufSize: int) returns (written: int, ghost k: nat)
      requires Valid() && Readable() && bufSize <= buf.Length && buf !in context.repr
      modifies context, context.repr, buf
      ensures Valid() && fresh(context.repr - old(context.repr))
      ensures k <= |Texts()| && |Concat(Texts()[..k])| <= buf.Length
      ensures k > 0 ==> |Concat(Texts()[..k])| <= bufSize
      ensures k < |Texts()| ==> |Concat(Texts()[..k + 1])| > bufSize
      ensures buf[..] == Concat(Texts()[..k]) + old(buf[..])[|Concat(Texts()[..k])|..]
      ensures written == if k == |Texts()| then |Concat(Texts())| else -1
    {
      var iov := new Vec[IOV_MAX](_ => InFile(0, 0));
      context.Reset();
      var n := Iovec(iov);
      var all;
      all, written, k := CopyAll(iov, if n < 0 then 0 else n, Texts(), buf, bufSize);
      ConcatShorter(Texts(), k);
      if !all {
        written := -1;
      }
    }
  }

  /** Rendering succeeds exactly for a row without cells and for a buffer of at least the
      size that frf_get_render_size gives. */
  lemma FitsIff(texts: seq<Text>, bufSize: int, k: nat)
    requires k <= |texts| && (k > 0 ==> |Concat(texts[..k])| <= bufSize)
    requires k < |texts| ==> |Concat(texts[..k + 1])| > bufSize
    ensures k == |texts| <==> texts == [] || |Concat(texts)| <= bufSize
  {
    ConcatShorter(texts, k);
    if k < |texts| {
      ConcatShorter(texts, k + 1);
    }
  }
}
