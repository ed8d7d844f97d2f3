/**
 * Permanent storage for strings in large cells, and the same behind a small cache that often gives
 * equal strings one address.
 */
module StringHeap {
  import opened Prelude

  const HEAPCELL := 0x10000
  const HASH_SIZE := 4096

  type Byte = bv8

  /** The bytes of a C string, without the final nul. */
  type Text = t: seq<Byte> | forall i | 0 <= i < |t| :: t[i] != 0 witness []

  /** The address of a byte of a cell. */
  datatype Ptr = Ptr(cell: array<Byte>, off: nat)

  /** What has been handed out: an address and the text stored there. */
  datatype Block = Block(ptr: Ptr, text: Text)

  /** The string from a position of a cell up to its nul. */
  function ReadFrom(bytes: seq<Byte>, off: nat): (t: Text)
    requires off <= |bytes|
    decreases |bytes| - off
  {
    if off == |bytes| || bytes[off] == 0 then [] else [bytes[off]] + ReadFrom(bytes, off + 1)
  }

  /** Text followed by a nul reads as the text. */
  lemma {:induction false} ReadsBack(bytes: seq<Byte>, off: nat, text: Text)
    requires off + |text| < |bytes| && bytes[off..off + |text|] == text && bytes[off + |text|] == 0
    ensures ReadFrom(bytes, off) == text
    decreases |text|
  {
    if text != [] {
      assert bytes[off] == text[0];
      assert bytes[off + 1..off + |text|] == bytes[off..off + |text|][1..];
      ReadsBack(bytes, off + 1, text[1..]);
    } else {
      assert bytes[off] == 0;
    }
  }

  /** The block holds its text and a nul. */
  predicate Holds(b: Block)
    reads b.ptr.cell
  {
    && b.ptr.off + |b.text| < b.ptr.cell.Length
    && b.ptr.cell[b.ptr.off..b.ptr.off + |b.text|] == b.text
    && b.ptr.cell[b.ptr.off + |b.text|] == 0
  }

  /** The first position after a block. */
  function End(b: Block): nat {
    b.ptr.off + |b.text| + 1
  }

  predicate Apart(a: Block, b: Block) {
    a.ptr.cell == b.ptr.cell ==> End(a) <= b.ptr.off || End(b) <= a.ptr.off
  }

  class Heap {
    var cellBase: array?<Byte>
    var cellPtr: nat
    var cellCount: nat
    ghost var cells: set<array<Byte>>
    ghost var issued: seq<Block>

    constructor ()
      ensures Valid() && issued == [] && fresh(cells) && cellCount == 0
    {
      cellBase, cellPtr, cellCount := null, HEAPCELL, 0;
      cells, issued := {}, [];
    }

    /**
     * Every block issued still holds its text, inside one cell; no two overlap; and the rest of the
     * current cell is free.
     */
    ghost predicate Valid()
      reads this, cells
    {
      && cellPtr <= HEAPCELL && |cells| == cellCount
      && (cellBase == null ==> cellPtr == HEAPCELL)
      && (cellBase != null ==> cellBase in cells)
      && (forall c | c in cells :: c.Length == HEAPCELL)
      && (forall k {:trigger Holds(issued[k])} | 0 <= k < |issued| :: issued[k].ptr.cell in cells && Holds(issued[k]))
      && (forall k {:trigger End(issued[k])} | 0 <= k < |issued| && issued[k].ptr.cell == cellBase ::
              End(issued[k]) <= cellPtr)
      && (forall i, j {:trigger Apart(issued[i], issued[j])} | 0 <= i < j < |issued| :: Apart(issued[i], issued[j]))
    }

    /** Storing a string after those before it, in a new cell if the current one has no room. */
    method Add(text: Text) returns (res: Ptr)
      requires Valid() && |text| + 1 <= HEAPCELL
      modifies this, cells
      ensures Valid() && fresh(cells - old(cells)) && old(cells) <= cells
      ensures issued == old(issued) + [Block(res, text)]
      ensures cells == old(cells) <==> old(HEAPCELL - cellPtr) >= |text| + 1
      ensures cellCount == old(cellCount) + if old(HEAPCELL - cellPtr) >= |text| + 1 then 0 else 1
    {
      var len := |text|;
      var rem := HEAPCELL - cellPtr;
      if rem < len + 1 {
        NewCell();
      }
      res := Store(text);
    }

    /** A fresh cell, all of it free. */
    method NewCell()
      requires Valid()
      modifies this
      ensures Valid() && fresh(cells - old(cells)) && old(cells) <= cells
      ensures cellBase != null && fresh(cellBase) && cellPtr == 0 && issued == old(issued)
      ensures cells == old(cells) + {cellBase} && cellCount == old(cellCount) + 1
    {
      cellBase := new Byte[HEAPCELL](_ => 0);
      cells := cells + {cellBase};
      cellPtr := 0;
      cellCount := cellCount + 1;
      forall k | 0 <= k < |issued| ensures issued[k].ptr.cell in old(cells) && Holds(issued[k]) {
        assert old(Holds(issued[k]));
      }
    }

    /** Copying the text and a nul to the free part of the current cell. */
    method Store(text: Text) returns (res: Ptr)
      requires Valid() && cellBase != null && cellPtr + |text| + 1 <= HEAPCELL
      modifies this, cellBase
      ensures Valid() && cells == old(cells) && cellCount == old(cellCount)
      ensures issued == old(issued) + [Block(res, text)]
    {
      res := Ptr(cellBase, cellPtr);
      CopyText(cellBase, cellPtr, text);
      forall k | 0 <= k < |issued| ensures Holds(issued[k]) {
        assert old(Holds(issued[k])) && (issued[k].ptr.cell == cellBase ==> End(issued[k]) <= cellPtr);
        Untouched(issued[k]);
      }
      cellPtr := cellPtr + |text| + 1;
      issued := issued + [Block(res, text)];
    }

    /** The text and a nul, from a position of a cell on. */
    static method CopyText(cell: array<Byte>, off: nat, text: Text)
      requires off + |text| < cell.Length
      modifies cell
      ensures cell[off..off + |text|] == text && cell[off + |text|] == 0
      ensures forall i | 0 <= i < off :: cell[i] == old(cell[i])
    {
      forall i | 0 <= i < |text| {
        cell[off + i] := text[i];
      }
      cell[off + |text|] := 0;
    }

    /** A block that ends before the free part of the current cell is as it was. */
    twostate lemma Untouched(b: Block)
      requires old(Holds(b)) && old(allocated(b.ptr.cell))
      requires forall i | 0 <= i < b.ptr.cell.Length && i < End(b) :: b.ptr.cell[i] == old(b.ptr.cell[i])
      ensures Holds(b)
    {
    }
  }

  /** Any address handed out reads as its text. */
  lemma IssuedReadsBack(h: Heap, k: nat)
    requires h.Valid() && k < |h.issued|
    ensures var b := h.issued[k]; b.ptr.off < b.ptr.cell.Length && ReadFrom(b.ptr.cell[..], b.ptr.off) == b.text
  {
    var b := h.issued[k];
    assert Holds(h.issued[k]);
    assert b.ptr.cell[..][b.ptr.off..b.ptr.off + |b.text|] == b.text;
    ReadsBack(b.ptr.cell[..], b.ptr.off, b.text);
  }

  // ----- the cache -----

  /** A byte as it is promoted from a signed char. */
  function Promoted(b: Byte): bv32 {
    if b >= 128 then (b as bv32) | 0xFFFF_FF00 else b as bv32
  }

  function Spread(h: bv32): bv32 {
    (h << 4) ^ (h >> 28)
  }

  function Mix(h: bv32, b: Byte): bv32 {
    Spread(h) ^ Promoted(b)
  }

  /** The hash of a text, on top of the hash of what came before. */
  function Hash(text: Text, h: bv32): bv32 {
    if text == [] then h else Hash(text[1..], Mix(h, text[0]))
  }

  function Slot(text: Text): (n: nat)
    ensures n < HASH_SIZE
  {
    SlotOfHash(Hash(text, 0))
  }

  function SlotOfHash(h: bv32): (n: nat)
    ensures n < HASH_SIZE
  {
    (h % 0x1000) as nat
  }

  /** The hash of a text with one more byte. */
  lemma {:induction false} HashAppend(text: Text, b: Byte, h: bv32)
    requires b != 0
    ensures Hash(text + [b], h) == Mix(Hash(text, h), b)
  {
    if text == [] {
      assert (text + [b])[1..] == [];
    } else {
      HashAppend(text[1..], b, Mix(h, text[0]));
      assert (text + [b])[1..] == text[1..] + [b];
    }
  }

  /** After the same bytes, different ones lead to different slots. */
  lemma LastByteDecidesSlot(h: bv32, a: Byte, b: Byte, x: bv32, y: bv32)
    requires x == Mix(h, a) && y == Mix(h, b) && SlotOfHash(x) == SlotOfHash(y)
    ensures a == b
  {
    SameLowByte(x, y);
    LastByteRecovered(h, a, b, x, y);
  }

  /** The low byte of the hash before is not lost either: the slot has it next to the new byte. */
  lemma ByteBeforeStays(x: bv32, y: bv32)
    requires Spread(x) & 0xFFF == Spread(y) & 0xFFF
    ensures x & 0xFF == y & 0xFF
  {
  }

  lemma SameLowByte(x: bv32, y: bv32)
    requires SlotOfHash(x) == SlotOfHash(y)
    ensures x & 0xFF == y & 0xFF
  {
    SameRemainder(x, y);
    RemainderBits(x, y);
  }

  lemma SameRemainder(x: bv32, y: bv32)
    requires SlotOfHash(x) == SlotOfHash(y)
    ensures x % 0x1000 == y % 0x1000
  {
    SameNumber(x % 0x1000, y % 0x1000);
  }

  lemma SameNumber(x: bv32, y: bv32)
    requires x as nat == y as nat
    ensures x == y
  {
    NumberOf(x);
    NumberOf(y);
  }

  lemma RemainderBits(x: bv32, y: bv32)
    requires x % 0x1000 == y % 0x1000
    ensures x & 0xFF == y & 0xFF
  {
  }

  lemma NumberOf(x: bv32)
    ensures (x as nat) as bv32 == x
  {
  }

  /** The low byte of a hash tells the last byte from those before. */
  lemma LastByteRecovered(h: bv32, a: Byte, b: Byte, x: bv32, y: bv32)
    requires x == Mix(h, a) && y == Mix(h, b) && x & 0xFF == y & 0xFF
    ensures a == b
  {
    LowByteOfMix(h, a);
    LowByteOfMix(h, b);
    SameXor(x, y, Spread(h));
    ByteOf(a);
    ByteOf(b);
  }

  lemma LowByteOfMix(h: bv32, b: Byte)
    ensures (Mix(h, b) ^ Spread(h)) & 0xFF == b as bv32
  {
    PromotedLowByte(b);
    XorTwice(Spread(h), Promoted(b));
  }

  lemma PromotedLowByte(b: Byte)
    ensures Promoted(b) & 0xFF == b as bv32
  {
  }

  lemma XorTwice(k: bv32, p: bv32)
    ensures ((k ^ p) ^ k) & 0xFF == p & 0xFF
  {
  }

  lemma SameXor(x: bv32, y: bv32, k: bv32)
    requires x & 0xFF == y & 0xFF
    ensures (x ^ k) & 0xFF == (y ^ k) & 0xFF
  {
  }

  lemma ByteOf(b: Byte)
    ensures (b as bv32) as bv8 == b
  {
  }

  /** Hashing a string byte by byte until its nul. */
  method HashString(text: Text) returns (h: bv32)
    ensures h == Hash(text, 0)
  {
    h := 0;
    var i := 0;
    while i < |text|
      invariant 0 <= i <= |text| && Hash(text, 0) == Hash(text[i..], h)
    {
      assert text[i..][1..] == text[i + 1..];
      h := Mix(h, text[i]);
      i := i + 1;
    }
  }

  method SlotOf(text: Text) returns (n: nat)
    ensures n == Slot(text)
  {
    var h := HashString(text);
    n := (h % 0x1000) as nat;
  }

  /** Reading the string at an address. */
  method ReadString(p: Ptr) returns (t: seq<Byte>)
    requires p.off <= p.cell.Length
    ensures t == ReadFrom(p.cell[..], p.off)
  {
    t := [];
    var off := p.off;
    while off < p.cell.Length && p.cell[off] != 0
      invariant p.off <= off <= p.cell.Length
      invariant ReadFrom(p.cell[..], p.off) == t + ReadFrom(p.cell[..], off)
      decreases p.cell.Length - off
    {
      assert ReadFrom(p.cell[..], off) == [p.cell[off]] + ReadFrom(p.cell[..], off + 1);
      assert t + ([p.cell[off]] + ReadFrom(p.cell[..], off + 1)) == (t + [p.cell[off]]) + ReadFrom(p.cell[..], off + 1);
      t := t + [p.cell[off]];
      off := off + 1;
    }
  }

  lemma SameUpdate<T>(s: seq<T>, i: nat, x: T)
    requires i < |s| && s[i] == x
    ensures s == s[i := x]
  {
  }

  class HeapLex {
    const heap: Heap
    const hashTable: array<Option<Ptr>>
    var hitCount: nat
    var addCount: nat
    ghost var calls: nat

    constructor ()
      ensures Valid() && fresh(heap) && fresh(heap.cells) && fresh(hashTable)
      ensures heap.issued == [] && calls == 0
    {
      heap := new Heap();
      hashTable := new Option<Ptr>[HASH_SIZE](_ => None);
      hitCount, addCount, calls := 0, 0, 0;
    }

    /**
     * A slot of the cache is empty or holds an address handed out for a text of that slot; every
     * call was a hit or an addition.
     */
    ghost predicate Valid()
      reads this, heap, heap.cells, hashTable
    {
      && heap.Valid() && CacheValid()
      && hitCount + addCount == calls && addCount == |heap.issued|
    }

    ghost predicate CacheValid()
      reads heap, hashTable
    {
      hashTable.Length == HASH_SIZE && forall n | 0 <= n < HASH_SIZE && hashTable[n].Some? :: Cached(n)
    }

    /** The block whose address is in slot n. */
    ghost predicate Cached(n: nat)
      requires n < hashTable.Length && hashTable[n].Some?
      reads heap, hashTable
    {
      exists k | 0 <= k < |heap.issued| :: heap.issued[k].ptr == hashTable[n].value && Slot(heap.issued[k].text) == n
    }

    /**
     * The address of a string: that in its slot of the cache if the string there is the same, else a
     * new one, which takes the slot.
     */
    method Add(text: Text) returns (res: Ptr)
      requires Valid() && |text| + 1 <= HEAPCELL
      modifies this, heap, heap.cells, hashTable
      ensures Valid() && fresh(heap.cells - old(heap.cells)) && calls == old(calls) + 1
      ensures hitCount == old(hitCount) + if old(CacheHit(text)) then 1 else 0
      ensures heap.issued == old(heap.issued) + if old(CacheHit(text)) then [] else [Block(res, text)]
      ensures old(CacheHit(text)) ==> Some(res) == old(hashTable[Slot(text)])
      ensures hashTable[..] == old(hashTable[..])[Slot(text) := Some(res)]
    {
      var hashValue := SlotOf(text);
      var hit := Lookup(text, hashValue);
      calls := calls + 1;
      if hit.Some? {
        hitCount := hitCount + 1;
        res := hit.value;
        SameUpdate(hashTable[..], hashValue, Some(res));
      } else {
        res := Insert(text, hashValue);
      }
    }

    /** Comparing the string in a slot of the cache. */
    method Lookup(text: Text, hashValue: nat) returns (hit: Option<Ptr>)
      requires Valid() && hashValue == Slot(text)
      ensures hit.Some? <==> CacheHit(text)
      ensures hit.Some? ==> hit == hashTable[hashValue]
    {
      hit := hashTable[hashValue];
      if hit.Some? {
        assert Cached(hashValue);
        ghost var k :| 0 <= k < |heap.issued| && heap.issued[k].ptr == hit.value;
        IssuedReadsBack(heap, k);
        var found := ReadString(hit.value);
        if found != text {
          if Block(hit.value, text) in heap.issued {
            ghost var j :| 0 <= j < |heap.issued| && heap.issued[j] == Block(hit.value, text);
            IssuedReadsBack(heap, j);
          }
          hit := None;
        } else {
          assert heap.issued[k] == Block(hit.value, text);
        }
      }
    }

    /** A new address for the text, which takes the slot. */
    method Insert(text: Text, hashValue: nat) returns (res: Ptr)
      requires heap.Valid() && CacheValid() && hashValue == Slot(text) && |text| + 1 <= HEAPCELL
      modifies this`addCount, heap, heap.cells, hashTable
      ensures heap.Valid() && fresh(heap.cells - old(heap.cells)) && addCount == old(addCount) + 1
      ensures heap.issued == old(heap.issued) + [Block(res, text)]
      ensures hashTable[..] == old(hashTable[..])[hashValue := Some(res)]
      ensures CacheValid()
    {
      ghost var before := heap.issued;
      res := heap.Add(text);
      hashTable[hashValue] := Some(res);
      addCount := addCount + 1;
      assert heap.issued[|before|] == Block(res, text);
      forall n | 0 <= n < HASH_SIZE && hashTable[n].Some? ensures Cached(n) {
        if n != hashValue {
          assert old(Cached(n));
          var k :| 0 <= k < |before| && before[k].ptr == hashTable[n].value && Slot(before[k].text) == n;
          assert heap.issued[k] == before[k];
        }
      }
    }

    /** The cache holds an address where the text can be read. */
    ghost predicate CacheHit(text: Text)
      requires hashTable.Length == HASH_SIZE
      reads heap, hashTable
    {
      var slot := hashTable[Slot(text)];
      slot.Some? && Block(slot.value, text) in heap.issued
    }
  }

  /** One string, and which of the blocks handed out holds it. */
  method AddIssued(h: HeapLex, text: Text) returns (p: Ptr, ghost k: nat)
    requires h.Valid() && |text| + 1 <= HEAPCELL
    modifies h, h.heap, h.heap.cells, h.hashTable
    ensures h.Valid() && fresh(h.heap.cells - old(h.heap.cells)) && h.calls == old(h.calls) + 1
    ensures old(h.heap.issued) <= h.heap.issued && IssuedAt(h.heap, k, p, text)
  {
    k := |h.heap.issued|;
    if h.CacheHit(text) {
      k :| 0 <= k < |h.heap.issued| && h.heap.issued[k] == Block(h.hashTable[Slot(text)].value, text);
    }
    p := h.Add(text);
  }

  /**
   * Any number of strings, stored in turn: afterwards every address handed out on the way reads as
   * its string, and every call was a hit or an addition.
   */
  method AddAll(h: HeapLex, texts: seq<Text>) returns (ptrs: seq<Ptr>)
    requires h.Valid() && forall i | 0 <= i < |texts| :: |texts[i]| + 1 <= HEAPCELL
    modifies h, h.heap, h.heap.cells, h.hashTable
    ensures h.Valid() && |ptrs| == |texts| && h.calls == old(h.calls) + |texts|
    ensures h.hitCount + h.addCount == h.calls
    ensures forall i | 0 <= i < |texts| ::
      ptrs[i].off < ptrs[i].cell.Length && ReadFrom(ptrs[i].cell[..], ptrs[i].off) == texts[i]
  {
    ptrs := [];
    ghost var at: seq<nat> := [];
    for i := 0 to |texts|
      invariant h.Valid() && fresh(h.heap.cells - old(h.heap.cells)) && h.calls == old(h.calls) + i
      invariant |ptrs| == i == |at| && forall j | 0 <= j < i :: IssuedAt(h.heap, at[j], ptrs[j], texts[j])
    {
      ghost var before := h.heap.issued;
      var p, k := AddIssued(h, texts[i]);
      assert forall j | 0 <= j < |before| :: h.heap.issued[j] == before[j];
      ptrs := ptrs + [p];
      at := at + [k];
    }
    forall i | 0 <= i < |texts|
      ensures ptrs[i].off < ptrs[i].cell.Length && ReadFrom(ptrs[i].cell[..], ptrs[i].off) == texts[i]
    {
      IssuedReadsBack(h.heap, at[i]);
    }
  }

  /** The k-th block handed out. */
  ghost predicate IssuedAt(heap: Heap, k: nat, p: Ptr, text: Text)
    reads heap
  {
    k < |heap.issued| && heap.issued[k] == Block(p, text)
  }
}
