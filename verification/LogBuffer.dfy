/** The growing log buffer: what its 32-bit offsets read back after later writes, reallocations, copies and moves. */
module LogBuffers {
  import opened Wrappers

  /** A fixed-size value, as its bytes in memory, or a string. */
  datatype Item = Value(bytes: seq<byte>) | Text(bytes: seq<byte>)

  /** How many offsets a 32-bit `OffsetType` tells apart. */
  const OFFSETS: nat := 0x1_0000_0000

  // ---- What is in memory ----

  /** `n` stored as an `OffsetType`: truncated to 32 bits, least significant byte first. */
  function Stored32(n: nat): (b: seq<byte>)
    ensures |b| == 4
  {
    [(n % 256) as byte, (n / 256 % 256) as byte, (n / 65536 % 256) as byte, (n / 16777216 % 256) as byte]
  }

  function Read32(b: seq<byte>): (n: nat)
    requires |b| == 4
  {
    b[0] as nat + 256 * b[1] as nat + 65536 * b[2] as nat + 16777216 * b[3] as nat
  }

  lemma Stored32ReadsBack(n: nat)
    ensures Read32(Stored32(n)) == n % OFFSETS
  {
    var a, b, c := n / 256, n / 65536, n / 16777216;
    assert a / 256 == b && b / 256 == c;
    Digits(n, a, b, c);
  }

  lemma Digits(n: nat, a: nat, b: nat, c: nat)
    requires a == n / 256 && b == a / 256 && c == b / 256
    ensures n % 256 + 256 * (a % 256) + 65536 * (b % 256) + 16777216 * (c % 256) == n % OFFSETS
  {
    Remainder(n, c / 256, n % 256 + 256 * (a % 256) + 65536 * (b % 256) + 16777216 * (c % 256));
  }

  /** A string's length comes first, least significant byte first, and then its bytes. */
  lemma TextLayout(bytes: seq<byte>)
    ensures var b := Encoding(Text(bytes));
            && |b| == 4 + |bytes| && b[4..] == bytes
            && (|bytes| < 256 ==> b[0] as int == |bytes| && b[1] == b[2] == b[3] == 0)
  {}

  lemma Remainder(n: nat, q: nat, r: nat)
    requires n == OFFSETS * q + r && r < OFFSETS
    ensures n % OFFSETS == r
  {
  }

  /** The bytes one write adds: a string carries its length in front. */
  function Encoding(item: Item): seq<byte> {
    if item.Text? then Stored32(|item.bytes|) + item.bytes else item.bytes
  }

  function Encoded(items: seq<Item>): seq<byte> {
    if items == [] then [] else Encoded(items[..|items| - 1]) + Encoding(items[|items| - 1])
  }

  /** What the write of item k returned: the index, truncated to an `OffsetType`. */
  function OffsetOf(items: seq<Item>, k: nat): nat
    requires k < |items|
  {
    |Encoded(items[..k])| % OFFSETS
  }

  /** What `get` yields for this offset, when the bytes it wants are there. */
  predicate ReadsAs(memory: seq<byte>, offset: nat, item: Item) {
    if item.Text? then
      && offset + 4 <= |memory|
      && var size := Read32(memory[offset..offset + 4]);
      && offset + 4 + size <= |memory|
      && memory[offset + 4..offset + 4 + size] == item.bytes
    else
      offset + |item.bytes| <= |memory| && memory[offset..offset + |item.bytes|] == item.bytes
  }

  lemma EncodedAppend(items: seq<Item>, item: Item)
    ensures Encoded(items + [item]) == Encoded(items) + Encoding(item)
  {
    assert (items + [item])[..|items|] == items;
  }

  lemma {:induction false} EncodedPrefix(items: seq<Item>, k: nat)
    requires k <= |items|
    ensures Encoded(items[..k]) <= Encoded(items)
  {
    if k < |items| {
      var front := items[..|items| - 1];
      EncodedPrefix(front, k);
      assert front[..k] == items[..k];
    } else {
      assert items[..k] == items;
    }
  }

  /** Later writes do not disturb what an offset reads. */
  lemma ReadIsStable(memory: seq<byte>, more: seq<byte>, offset: nat, item: Item)
    requires memory <= more && ReadsAs(memory, offset, item)
    ensures ReadsAs(more, offset, item)
  {
    if item.Text? {
      assert more[offset..offset + 4] == memory[offset..offset + 4];
      var size := Read32(memory[offset..offset + 4]);
      assert more[offset + 4..offset + 4 + size] == memory[offset + 4..offset + 4 + size];
    } else {
      assert more[offset..offset + |item.bytes|] == memory[offset..offset + |item.bytes|];
    }
  }

  /** Just written below the limit, an item reads back exactly when its length can be stored. */
  lemma NewestReadsBack(before: seq<byte>, item: Item)
    ensures ReadsAs(before + Encoding(item), |before|, item) <==> (item.Text? ==> |item.bytes| < OFFSETS)
  {
    hide Read32, Stored32;
    var memory := before + Encoding(item);
    if item.Text? {
      Stored32ReadsBack(|item.bytes|);
      assert memory[|before|..|before| + 4] == Stored32(|item.bytes|);
      var size := |item.bytes| % OFFSETS;
      assert memory[|before| + 4..|before| + 4 + |item.bytes|] == item.bytes;
      assert |memory[|before| + 4..|before| + 4 + size]| == size;
    } else {
      assert memory[|before|..|before| + |item.bytes|] == item.bytes;
    }
  }

  lemma EncodedSplits(items: seq<Item>, k: nat)
    requires k < |items|
    ensures Encoded(items[..k]) + Encoding(items[k]) <= Encoded(items)
  {
    hide Encoding, Encoded;
    EncodedPrefix(items, k + 1);
    EncodedAppend(items[..k], items[k]);
    assert items[..k] + [items[k]] == items[..k + 1];
  }

  /** Every offset handed out while the total fits still reads back what was written. */
  lemma OffsetsReadBack(items: seq<Item>, k: nat)
    requires k < |items| && |Encoded(items)| <= OFFSETS
    ensures |Encoding(items[k])| > 0 ==> ReadsAs(Encoded(items), OffsetOf(items, k), items[k])
  {
    hide Read32, Stored32, ReadsAs, Encoded;
    EncodedSplits(items, k);
    var before, item := Encoded(items[..k]), items[k];
    if |Encoding(item)| > 0 {
      assert |before| + |Encoding(item)| <= OFFSETS;
      assert item.Text? ==> |item.bytes| + 4 == |Encoding(item)|;
      NewestReadsBack(before, item);
      ReadIsStable(before + Encoding(item), Encoded(items), |before|, item);
      Remainder(|before|, 0, |before|);
    }
  }

  // ---- What goes wrong beyond the limit ----

  /** Values of a length n that differ from what memory holds at a given place. */
  lemma Different(taken: byte, n: nat) returns (bytes: seq<byte>)
    requires n > 0
    ensures |bytes| == n && bytes[0] != taken
  {
    var other: byte := if taken == 0 then 1 else 0;
    bytes := [other] + seq(n - 1, _ => 0 as byte);
  }

  lemma ReadsFirstByte(memory: seq<byte>, offset: nat, item: Item)
    requires ReadsAs(memory, offset, item) && |item.bytes| > 0
    ensures |memory| > (if item.Text? then offset + 4 else offset)
    ensures memory[if item.Text? then offset + 4 else offset] == item.bytes[0]
  {
    hide Read32;
    if item.Text? {
      var size := Read32(memory[offset..offset + 4]);
      assert memory[offset + 4..offset + 4 + size][0] == memory[offset + 4];
    } else {
      assert memory[offset..offset + |item.bytes|][0] == memory[offset];
    }
  }

  /** An item written past the limit is looked for where something else was written. */
  lemma WrappedOffsetMisreads(before: seq<byte>, n: nat, text: bool) returns (item: Item)
    requires n > 0 && |before| >= OFFSETS
    ensures item.Text? == text && |item.bytes| == n
    ensures !ReadsAs(before + Encoding(item), |before| % OFFSETS, item)
  {
    hide Read32, Stored32;
    var at := |before| % OFFSETS;
    assert at + OFFSETS <= |before|;
    var bytes := Different(before[if text then at + 4 else at], n);
    item := if text then Text(bytes) else Value(bytes);
    var memory := before + Encoding(item);
    assert memory[at + 4] == before[at + 4] && memory[at] == before[at];
    if ReadsAs(memory, at, item) {
      ReadsFirstByte(memory, at, item);
    }
  }

  ghost predicate AllReadBack(before: seq<byte>, n: nat, text: bool) {
    forall item: Item | item.Text? == text && |item.bytes| == n ::
      ReadsAs(before + Encoding(item), |before| % OFFSETS, item)
  }

  /** Whatever its n bytes are, the next write reads back, exactly if the buffer's size and a string's length fit. */
  lemma ReadBackIff(before: seq<byte>, n: nat, text: bool)
    requires n > 0
    ensures AllReadBack(before, n, text) <==> |before| < 0x1_0000_0000 && (text ==> n < 0x1_0000_0000)
  {
    hide ReadsAs, Encoding;
    if |before| < OFFSETS {
      Remainder(|before|, 0, |before|);
      forall item: Item | item.Text? == text && |item.bytes| == n
        ensures ReadsAs(before + Encoding(item), |before| % OFFSETS, item) <==> (text ==> n < OFFSETS)
      {
        NewestReadsBack(before, item);
      }
      var bytes := Different(0, n);
      var sample := if text then Text(bytes) else Value(bytes);
      assert sample.Text? == text && |sample.bytes| == n;
    } else {
      var item := WrappedOffsetMisreads(before, n, text);
    }
  }

  // ---- The buffer ----

  function Max(a: nat, b: nat): nat {
    if a >= b then a else b
  }

  class LogBuffer {
    const inlineData: array<byte>
    var data: array?<byte>
    var capacity: nat
    var cursor: nat
    /** What has been written, oldest first. */
    ghost var written: seq<Item>

    /** The bytes in use are really there: enough for reading, and all that a copy promises. */
    ghost predicate Readable()
      reads this, if data != null then {data as object} else {}
    {
      data != null && cursor <= data.Length && data[..cursor] == Encoded(written)
    }

    /** The capacity is what is allocated: writing is safe. */
    ghost predicate Valid()
      reads this, if data != null then {data as object} else {}
    {
      Readable() && capacity == data.Length
    }

    constructor (size: nat)
      ensures Valid() && written == [] && fresh(data) && inlineData.Length == size
    {
      inlineData := new byte[size];
      capacity, cursor, written := size, 0, [];
      new;
      data := inlineData;
    }

    predicate IsSmall()
      reads this
    {
      data == inlineData
    }

    /** `reserve`: the bytes in use keep their values, wherever they end up. */
    method Reserve(needed: nat)
      requires data != null && cursor <= data.Length && capacity == data.Length
      modifies this`data, this`capacity
      ensures data != null && capacity == data.Length >= needed && cursor <= data.Length
      ensures data == old(data) || fresh(data)
      ensures data[..cursor] == old(data[..cursor])
      ensures capacity == if needed <= old(capacity) then old(capacity) else Max(2 * old(capacity), needed)
    {
      if needed <= capacity {
        return;
      }
      var newCapacity := Max(capacity * 2, needed);
      var grown := new byte[newCapacity];
      forall i | 0 <= i < cursor {
        grown[i] := data[i];
      }
      data := grown;
      capacity := newCapacity;
    }

    /** `encode` and `encodeRaw`: appends the bytes and returns where they start. */
    method Encode(bytes: seq<byte>) returns (index: nat)
      requires data != null && cursor <= data.Length && capacity == data.Length
      modifies this`data, this`capacity, this`cursor, data
      ensures data != null && capacity == data.Length && cursor == old(cursor) + |bytes| <= data.Length
      ensures data == old(data) || fresh(data)
      ensures data[..cursor] == old(data[..cursor]) + bytes
      ensures index == old(cursor)
    {
      Reserve(cursor + |bytes|);
      index := cursor;
      forall i | 0 <= i < |bytes| {
        data[index + i] := bytes[i];
      }
      cursor := cursor + |bytes|;
    }

    /** `write` of a fixed-size value */
    method WriteValue(bytes: seq<byte>) returns (offset: nat)
      requires Valid()
      modifies this`data, this`capacity, this`cursor, this`written, data
      ensures Valid() && written == old(written) + [Value(bytes)]
      ensures data == old(data) || fresh(data)
      ensures offset == OffsetOf(written, |old(written)|)
    {
      EncodedAppend(written, Value(bytes));
      var index := Encode(bytes);
      written := written + [Value(bytes)];
      assert written[..|old(written)|] == old(written);
      offset := index % OFFSETS;
    }

    /** `writeString` by way of `encodeString` */
    method WriteText(bytes: seq<byte>) returns (offset: nat)
      requires Valid()
      modifies this`data, this`capacity, this`cursor, this`written, data
      ensures Valid() && written == old(written) + [Text(bytes)]
      ensures data == old(data) || fresh(data)
      ensures offset == OffsetOf(written, |old(written)|)
    {
      hide Stored32, Encoded;
      EncodedAppend(written, Text(bytes));
      ghost var before := data[..cursor];
      var index := Encode(Stored32(|bytes|));
      var _ := Encode(bytes);
      assert data[..cursor] == before + (Stored32(|bytes|) + bytes);
      written := written + [Text(bytes)];
      assert written[..|old(written)|] == old(written);
      offset := index % OFFSETS;
    }

    /** `Offset<T>::get` */
    method ReadValue(offset: nat, size: nat, ghost k: nat) returns (bytes: seq<byte>)
      requires Readable() && cursor <= OFFSETS
      requires k < |written| && written[k].Value? && |written[k].bytes| == size > 0
      requires offset == OffsetOf(written, k)
      ensures written[k] == Value(bytes)
    {
      OffsetsReadBack(written, k);
      assert ReadsAs(data[..cursor], offset, written[k]);
      bytes := data[offset..offset + size];
      assert data[..cursor][offset..offset + size] == bytes;
    }

    /** `Offset<tag::String>::get` */
    method ReadText(offset: nat, ghost k: nat) returns (bytes: seq<byte>)
      requires Readable() && cursor <= OFFSETS
      requires k < |written| && written[k].Text? && offset == OffsetOf(written, k)
      ensures written[k] == Text(bytes)
    {
      hide Read32, Stored32, Encoded;
      OffsetsReadBack(written, k);
      assert ReadsAs(data[..cursor], offset, written[k]);
      assert data[..cursor][offset..offset + 4] == data[offset..offset + 4];
      var size := Read32(data[offset..offset + 4]);
      bytes := data[offset + 4..offset + 4 + size];
      assert data[..cursor][offset + 4..offset + 4 + size] == bytes;
    }

    /**
      * Copy construction. The capacity is the source's, but only what the contents need is allocated here: the copy
      * can be written to, as well as read, exactly when the two agree.
      */
    constructor Copy(other: LogBuffer)
      requires other.Readable()
      ensures Readable() && written == other.written && fresh(data)
      ensures inlineData.Length == other.inlineData.Length && capacity == other.capacity
      ensures Valid() <==> other.capacity == if other.cursor <= inlineData.Length then inlineData.Length
                                             else Max(2 * inlineData.Length, other.cursor)
    {
      var size := other.inlineData.Length;
      inlineData := new byte[size];
      capacity, cursor, written := size, 0, [];
      new;
      data := inlineData;
      Reserve(other.cursor);
      forall i | 0 <= i < other.cursor {
        data[i] := other.data[i];
      }
      cursor := other.cursor;
      capacity := other.capacity;
      written := other.written;
      assert data[..cursor] == other.data[..cursor];
    }

    /** Move construction: steals an allocated buffer, copies an inline one. */
    constructor Move(other: LogBuffer)
      requires other.Readable()
      modifies other`data
      ensures Readable() && written == other.written
      ensures old(other.Valid()) ==> Valid()
      ensures if old(other.IsSmall()) then fresh(data) && other.data == old(other.data)
              else data == old(other.data) && other.data == null
      ensures inlineData.Length == other.inlineData.Length && capacity == other.capacity
    {
      var size := other.inlineData.Length;
      inlineData := new byte[size];
      capacity, cursor, written := size, 0, [];
      new;
      if !other.IsSmall() {
        data := other.data;
        other.data := null;
      } else {
        data := inlineData;
        forall i | 0 <= i < other.cursor {
          data[i] := other.data[i];
        }
        assert data[..other.cursor] == other.data[..other.cursor];
      }
      cursor := other.cursor;
      capacity := other.capacity;
      written := other.written;
    }
  }
}
