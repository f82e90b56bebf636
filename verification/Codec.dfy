/** The tagged 32-bit word that stands for a string: frf_maker_add_to_string_table
    writes it, _frf_iovec reads it. */
module Codec {
  import opened Bytes

  const SHORT: nat := 5      // strings below this length live inside the word
  const LONG: nat := 128     // strings from this length on get a 4-byte length

  /** A string table small enough for every word into it to keep its top bit clear. */
  predicate Small(table: Text) {
    |table| + 1 < TOP_BIT
  }

  // ---- writing ----

  function At(s: Text, k: nat): byte {
    if k < |s| then s[k] else 0
  }

  function SetTag(b: byte): byte {
    if b < 0x80 then b + 0x80 else b
  }

  function ClearTag(b: byte): byte {
    if b < 0x80 then b else b - 0x80
  }

  /** The string back to front, padded with NULs at the front, tag bit in the first byte. */
  function InlineWord(s: Text): (w: Word)
    requires |s| < SHORT
    ensures Unpack(w) >= TOP_BIT
  {
    Word(SetTag(At(s, 3)), At(s, 2), At(s, 1), At(s, 0))
  }

  method PackInline(s: Text) returns (w: Word)
    requires |s| < SHORT
    ensures w == InlineWord(s)
  {
    var chars := new byte[4](_ => 0);
    for i := 0 to |s|
      invariant forall p :: 0 <= p < 4 ==> chars[p] == if 4 - |s| <= p < 4 - |s| + i then s[3 - p] else 0
    {
      chars[4 - |s| + i] := s[|s| - i - 1];
    }
    chars[0] := SetTag(chars[0]);
    w := Word(chars[0], chars[1], chars[2], chars[3]);
  }

  /** `len | (1 << 31)`. */
  function LongLength(len: nat): nat {
    if Wrap(len) >= TOP_BIT then len else len + TOP_BIT
  }

  /** The string-table record of a string of at least SHORT bytes. */
  ghost function Record(s: Text): (r: Text)
    ensures |r| > |s|
  {
    if |s| < LONG then [|s|] + s else Raw(Pack(LongLength(|s|))) + s
  }

  /** Below 128 bytes a record starts with its length in one byte, from 128 on with its length
      and the top bit in four; the string follows. */
  lemma RecordIs(s: Text)
    requires |s| < TOP_BIT
    ensures |s| < 128 ==> |Record(s)| == |s| + 1 && Record(s)[0] == |s| && Record(s)[1..] == s
    ensures |s| >= 128 ==>
              |Record(s)| == |s| + 4 && Unpack(WordAt(Record(s), 0)) == 0x8000_0000 + |s| && Record(s)[4..] == s
  {
    if |s| >= LONG {
      var len := Pack(LongLength(|s|));
      assert Record(s)[..4] == Raw(len);
      WordAtRaw(Record(s), 0, len);
    }
  }

  ghost predicate RecordAt(table: Text, off: nat, s: Text) {
    off + |Record(s)| <= |table| && table[off..off + |Record(s)|] == Record(s)
  }

  // ---- reading ----

  /** The bytes of a NUL-terminated buffer that strlen counts. */
  function UpToNul(s: Text): Text {
    if s == [] || s[0] == 0 then [] else [s[0]] + UpToNul(s[1..])
  }

  /** What the reader makes of a word; None where it would read outside the table. */
  function Decode(table: Text, w: Word): Option<Text> {
    if w.b0 >= 0x80 then Some(UpToNul([w.b3, w.b2, w.b1, ClearTag(w.b0)]))
    else if Unpack(w) == 0 || Unpack(w) > |table| then None
    else RecordText(table, Unpack(w) - 1)
  }

  /** The text of the record at `i`. */
  function RecordText(table: Text, i: nat): Option<Text>
    requires i < |table|
  {
    if table[i] < 0x80 then Slice(table, i + 1, table[i])
    else if i + 4 > |table| then None
    else Slice(table, i + 4, Unpack(WordAt(table, i)) - TOP_BIT)
  }

  function Slice(s: Text, from: nat, len: nat): Option<Text> {
    if from + len > |s| then None else Some(s[from..from + len])
  }

  // ---- what survives the trip ----

  /** The string a reader gets back. The inline form shares a bit with the fourth byte. */
  function Stored(s: Text): Text {
    if |s| >= SHORT then s
    else if |s| == 4 then UpToNul(s[3 := ClearTag(s[3])])
    else UpToNul(s)
  }

  /** A C string survives unless it has exactly four bytes and the last is 0x80 or more. */
  predicate Survives(s: Text) {
    |s| < SHORT ==> 0 !in s && (|s| == 4 ==> s[3] < 0x80)
  }

  lemma UpToNulPadded(s: Text, pad: Text)
    requires forall k :: 0 <= k < |pad| ==> pad[k] == 0
    ensures UpToNul(s + pad) == UpToNul(s)
  {
    if s == [] {
      assert s + pad == pad;
    } else {
      assert (s + pad)[1..] == s[1..] + pad;
    }
  }

  lemma UpToNulIs(s: Text)
    ensures |UpToNul(s)| <= |s|
    ensures UpToNul(s) == s <==> 0 !in s
    ensures |UpToNul(s)| == |s| <==> 0 !in s
  {
    if s != [] {
      UpToNulIs(s[1..]);
      assert s == [s[0]] + s[1..];
    }
  }

  lemma StoredIsExact(s: Text)
    ensures |Stored(s)| <= |s|
    ensures Stored(s) == s <==> Survives(s)
  {
    UpToNulIs(s);
    if |s| == 4 {
      var masked := s[3 := ClearTag(s[3])];
      UpToNulIs(masked);
      assert masked[3] == ClearTag(s[3]);
      if s[3] < 0x80 { assert masked == s; }
      if Stored(s) == s {
        assert |UpToNul(masked)| == |masked| && UpToNul(masked) == masked;
      }
    }
  }

  lemma DecodeInline(table: Text, s: Text)
    requires |s| < SHORT
    ensures Decode(table, InlineWord(s)) == Some(Stored(s))
  {
    var w := InlineWord(s);
    var buf := [w.b3, w.b2, w.b1, ClearTag(w.b0)];
    if |s| == 4 {
      assert buf == s[3 := ClearTag(s[3])];
    } else {
      var pad: Text := seq(4 - |s|, _ => 0);
      assert buf == s + pad;
      UpToNulPadded(s, pad);
    }
  }

  lemma LongRecordText(table: Text, off: nat, s: Text, len: Word)
    requires off + 4 + |s| <= |table| && Unpack(len) == TOP_BIT + |s|
    requires table[off..off + 4 + |s|] == Raw(len) + s
    ensures RecordText(table, off) == Some(s)
  {
    var here := table[off..off + 4 + |s|];
    assert table[off] == here[0];
    assert table[off..off + 4] == here[..4];
    assert table[off + 4..off + 4 + |s|] == here[4..] == s;
    WordAtRaw(table, off, len);
  }

  lemma ShortRecordText(table: Text, off: nat, s: Text)
    requires off + 1 + |s| <= |table| && |s| < LONG
    requires table[off..off + 1 + |s|] == [|s|] + s
    ensures RecordText(table, off) == Some(s)
  {
    var here := table[off..off + 1 + |s|];
    assert table[off] == here[0];
    assert table[off + 1..off + 1 + |s|] == here[1..] == s;
  }

  lemma RecordTextIs(table: Text, off: nat, s: Text)
    requires RecordAt(table, off, s) && |s| < TOP_BIT
    ensures off < |table| && RecordText(table, off) == Some(s)
  {
    if |s| < LONG {
      ShortRecordText(table, off, s);
    } else {
      LongRecordText(table, off, s, Pack(LongLength(|s|)));
    }
  }

  lemma DecodeRecord(table: Text, off: nat, s: Text, w: Word)
    requires |s| >= SHORT && RecordAt(table, off, s) && Small(table)
    requires Unpack(w) == off + 1
    ensures Decode(table, w) == Some(Stored(s))
  {
    RecordTextIs(table, off, s);
  }

  /** What was readable stays readable, unchanged, as the table grows. */
  lemma DecodeGrows(table: Text, longer: Text, w: Word)
    requires table <= longer && Decode(table, w).Some?
    ensures Decode(longer, w) == Decode(table, w)
  {
    if w.b0 < 0x80 {
      RecordTextGrows(table, longer, Unpack(w) - 1);
    }
  }

  lemma RecordTextGrows(table: Text, longer: Text, i: nat)
    requires table <= longer && i < |table| && RecordText(table, i).Some?
    ensures RecordText(longer, i) == RecordText(table, i)
  {
    if table[i] < 0x80 {
      SliceGrows(table, longer, i + 1, table[i]);
    } else {
      WordGrows(table, longer, i);
      SliceGrows(table, longer, i + 4, Unpack(WordAt(table, i)) - TOP_BIT);
    }
  }

  lemma WordGrows(table: Text, longer: Text, i: nat)
    requires table <= longer && i + 4 <= |table|
    ensures WordAt(longer, i) == WordAt(table, i)
  {
  }

  lemma SliceGrows(s: Text, longer: Text, from: nat, len: nat)
    requires s <= longer && Slice(s, from, len).Some?
    ensures Slice(longer, from, len) == Slice(s, from, len)
  {
    assert longer[from..from + len] == s[from..from + len];
  }
}
