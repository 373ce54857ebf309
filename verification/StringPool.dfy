/** The block allocator for strings: one string grows at the end of the newest block, finished strings
    stay where they are until the pool is cleared. */
module StringPool {
  import opened Converters
  import opened Utf

  const INIT_BLOCK_SIZE: nat := 1024

  datatype Encoding = UTF8 | LATIN1 | UTF16(big: bool)

  /** The converter can read these bytes; only the UTF-16 converter asks for whole characters. */
  ghost predicate Reads(enc: Encoding, bytes: seq<bv8>, cs: seq<Scalar>) {
    enc.UTF16? ==> bytes == Wide(Utf16(cs), enc.big)
  }

  /** What one conversion with enough room writes. */
  ghost function Image(enc: Encoding, bytes: seq<bv8>, cs: seq<Scalar>): seq<bv8> {
    match enc
    case UTF8 => bytes
    case LATIN1 => Utf8(Latin1(bytes))
    case UTF16(_) => Utf8(cs)
  }

  lemma NoImage(enc: Encoding)
    ensures Image(enc, [], []) == []
  {
    NoLatin1();
  }

  /** Converting piece by piece is converting at once. */
  lemma ImagePieces(enc: Encoding, input: seq<bv8>, f: nat, f': nat, cs: seq<Scalar>, k: nat, k': nat)
    requires f <= f' <= |input| && k <= k' <= |cs|
    ensures Image(enc, input[..f'], cs[..k']) == Image(enc, input[..f], cs[..k]) + Image(enc, input[f..f'], cs[k..k'])
  {
    hide Utf8, Latin1;
    var a, b := Latin1(input[..f]), Latin1(input[f..f']);
    assert Latin1(input[..f']) == a + b;
    Utf8Concat(a, b);
    assert cs[..k'] == cs[..k] + cs[k..k'];
    Utf8Concat(cs[..k], cs[k..k']);
    assert input[..f'] == input[..f] + input[f..f'];
  }

  lemma AppendNext(before: seq<bv8>, s: seq<bv8>, i: nat)
    requires i < |s|
    ensures before + s[..i] + [s[i]] == before + s[..i + 1]
  {}

  lemma AppendAll(before: seq<bv8>, s: seq<bv8>)
    ensures before + s[..0] == before && before + s[..|s|] == before + s
  {
    assert s[..0] == [] && s[..|s|] == s;
  }

  lemma Associative(a: seq<bv8>, b: seq<bv8>, c: seq<bv8>)
    ensures a + b + c == a + (b + c)
  {}

  lemma ImageAll(enc: Encoding, input: seq<bv8>, cs: seq<Scalar>, k: nat)
    requires k <= |cs| && (enc.UTF16? ==> k == |cs|)
    ensures Image(enc, input[..|input|], cs[..k]) == Image(enc, input, cs)
  {
    assert input[..|input|] == input && cs[..|cs|] == cs;
  }

  /** The converter of the encoding. */
  method XmlConvert(enc: Encoding, input: seq<bv8>, f: nat, to: array<bv8>, t: nat, toLim: nat, ghost cs: seq<Scalar>,
                    ghost k: nat)
    returns (f': nat, t': nat, ghost k': nat)
    requires f <= |input| && t <= toLim <= to.Length && k <= |cs| && Reads(enc, input[f..], cs[k..])
    modifies to
    ensures f <= f' <= |input| && t <= t' <= toLim && k <= k' <= |cs| && Reads(enc, input[f'..], cs[k'..])
    ensures to[t..t'] == Image(enc, input[f..f'], cs[k..k'])
    ensures forall j :: 0 <= j < to.Length && !(t <= j < t') ==> to[j] == old(to[j])
    ensures f' == |input| && enc.UTF16? ==> k' == |cs|
    ensures f' == f < |input| && k' == k ==> t' == t && toLim - t < |input| - f + 4
  {
    hide Utf8, Latin1, BackOff, Wide, Utf16, Utf8Bytes;
    k' := k;
    match enc {
      case UTF8 =>
        f', t' := Utf8ToUtf8(input, f, |input|, to, t, toLim);
      case LATIN1 =>
        f', t' := Latin1ToUtf8(input, f, |input|, to, t, toLim);
        OneCharFits(input, f');
        NoLatin1();
      case UTF16(big) =>
        ghost var rest, n := cs[k..], 0;
        assert input[f..|input|] == input[f..];
        f', t', n := Utf16ToUtf8(input, big, f, |input|, to, t, toLim, rest);
        k' := k + n;
        assert rest[n..] == cs[k'..] && rest[..n] == cs[k..k'];
        assert input[f'..|input|] == input[f'..];
        WidthAtMost4(cs, k');
        NoChars();
        AllRead(cs, k', big);
    }
  }

  lemma NoChars()
    ensures Utf8([]) == []
  {}

  lemma OneCharFits(input: seq<bv8>, f: nat)
    ensures f < |input| ==> |Utf8Bytes(input[f] as bv32)| <= 4
  {}

  lemma WidthAtMost4(cs: seq<Scalar>, k: nat)
    ensures k < |cs| ==> |Utf8Bytes(cs[k])| <= 4
  {}

  /** Where a finished string lies, and its characters at the time it was finished. */
  datatype Region = Region(s: array<bv8>, from: nat, text: seq<bv8>)

  /** STRING_POOL. A BLOCK is the array of its characters; the lists blocks and freeBlocks are
      sequences, newest block first. start, ptr and end are offsets into the newest block, and
      started is false while the pointers are NULL. */
  class StringPool {
    var blocks: seq<array<bv8>>
    var freeBlocks: seq<array<bv8>>
    var started: bool
    var start: nat
    var ptr: nat
    var end: nat
    /** The strings finished since the pool was last cleared, but for empty ones at the start of
        their block. */
    ghost var finished: seq<Region>

    /** The string lies in a block of the pool, below the string in progress, with its characters. */
    ghost predicate InPlace(r: Region)
      reads this`blocks, this`start, blocks
    {
      && r.s in blocks && r.from + |r.text| > 0 && r.from + |r.text| <= r.s.Length
      && r.s[r.from..r.from + |r.text|] == r.text
      && (r.s == blocks[0] ==> r.from + |r.text| <= start)
    }

    ghost predicate AllInPlace()
      reads this`blocks, this`start, this`finished, blocks
    {
      forall k :: 0 <= k < |finished| ==> InPlace(finished[k])
    }

    ghost predicate Pointers()
      reads this`blocks, this`started, this`start, this`ptr, this`end
    {
      && (started <==> blocks != [])
      && (started ==> start <= ptr <= end == blocks[0].Length)
      && (!started ==> start == ptr == end == 0)
    }

    ghost predicate Valid()
      reads this, blocks
    {
      Owned(blocks, freeBlocks) && Pointers() && AllInPlace()
    }

    /** The string in progress. */
    function Current(): seq<bv8>
      requires Pointers()
      reads this`blocks, this`started, this`start, this`ptr, this`end, blocks
    {
      if started then blocks[0][start..ptr] else []
    }

    /** How long the string in progress can get without growing. */
    function Room(): nat
      requires Pointers()
      reads this`blocks, this`started, this`start, this`ptr, this`end
    {
      end - start
    }

    /** Blocks only come from the two lists or are new. */
    twostate predicate OwnBlocks()
      reads this`blocks, this`freeBlocks
    {
      && (forall i :: 0 <= i < |blocks| ==> blocks[i] in old(blocks) + old(freeBlocks) || fresh(blocks[i]))
      && (forall i :: 0 <= i < |freeBlocks| ==> freeBlocks[i] in old(blocks) + old(freeBlocks) || fresh(freeBlocks[i]))
    }

    /** poolInit. */
    constructor ()
      ensures Valid() && !started && blocks == freeBlocks == [] && finished == []
    {
      NoneOwned();
      blocks, freeBlocks, started, start, ptr, end, finished := [], [], false, 0, 0, 0, [];
    }

    /** Whether poolGrow takes the first free block. */
    predicate Reuses()
      reads this
    {
      freeBlocks != [] && (!started || end - start < freeBlocks[0].Length)
    }

    /** The first free block becomes the newest, or the newest is replaced by one twice as large,
        or there is one more, of twice the room and at least the initial size. */
    twostate predicate GrowthRule()
      requires old(Pointers()) && Pointers() && blocks != []
      reads this
    {
      if old(Reuses()) then
        blocks == [old(freeBlocks[0])] + old(blocks) && freeBlocks == old(freeBlocks[1..])
      else if old(started && start == 0) then
        && freeBlocks == old(freeBlocks) && fresh(blocks[0]) && blocks[1..] == old(blocks[1..])
        && Room() == 2 * old(Room())
      else
        && freeBlocks == old(freeBlocks) && fresh(blocks[0]) && blocks[1..] == old(blocks)
        && Room() == if old(Room()) < 1024 then 1024 else 2 * old(Room())
    }

    /** poolGrow. */
    method Grow()
      requires Valid()
      modifies this, blocks, freeBlocks
      ensures Valid() && started && OwnBlocks() && finished == old(finished)
      ensures Current() == old(Current()) && Room() > old(Room())
      ensures GrowthRule()
    {
      hide Owned;
      if freeBlocks != [] {
        if !started {
          TakeFirst();
          return;
        }
        if end - start < freeBlocks[0].Length {
          SwapIn();
          return;
        }
      }
      if started && start == 0 {
        Reallocate();
      } else {
        NewBlock();
      }
    }

    /** There is more room behind the string in progress. */
    method GrowMore()
      requires Valid()
      modifies this, blocks, freeBlocks
      ensures Valid() && started && OwnBlocks() && finished == old(finished)
      ensures Current() == old(Current()) && end - ptr > old(end - ptr)
    {
      hide Owned, InPlace, AllInPlace, GrowthRule;
      Grow();
      assert |Current()| == ptr - start;
    }

    method TakeFirst()
      requires Valid() && !started && freeBlocks != []
      modifies this
      ensures Valid() && started && finished == old(finished)
      ensures Current() == old(Current()) && Room() > old(Room())
      ensures blocks == [old(freeBlocks[0])] + old(blocks) && freeBlocks == old(freeBlocks[1..])
    {
      hide Owned;
      TakeFree(blocks, freeBlocks);
      FirstHasRoom(blocks, freeBlocks);
      blocks := [freeBlocks[0]] + blocks;
      freeBlocks := freeBlocks[1..];
      started, start, ptr, end := true, 0, 0, blocks[0].Length;
    }

    method SwapIn()
      requires Valid() && started && freeBlocks != [] && end - start < freeBlocks[0].Length
      modifies this, freeBlocks[0]
      ensures Valid() && started && finished == old(finished)
      ensures Current() == old(Current()) && Room() > old(Room())
      ensures blocks == [old(freeBlocks[0])] + old(blocks) && freeBlocks == old(freeBlocks[1..])
    {
      hide Owned;
      TakeFree(blocks, freeBlocks);
      var head, block := blocks[0], freeBlocks[0];
      Copy(block, head, start, end - start);
      blocks := [block] + blocks;
      freeBlocks := freeBlocks[1..];
      start, ptr, end := 0, ptr - start, block.Length;
    }

    /** realloc: the only block that may move, and nothing finished lies in it. */
    method Reallocate()
      requires Valid() && started && start == 0
      modifies this
      ensures Valid() && started && finished == old(finished)
      ensures Current() == old(Current()) && Room() == 2 * old(Room()) && Room() > old(Room())
      ensures fresh(blocks[0]) && blocks[1..] == old(blocks[1..]) && freeBlocks == old(freeBlocks)
    {
      hide Owned, AllInPlace, InPlace;
      FirstHasRoom(blocks, freeBlocks);
      var block := new bv8[2 * end];
      Replace(block);
    }

    /** While the string in progress starts the newest block, nothing finished lies in it. */
    lemma FinishedElsewhere()
      requires started && start == 0 && Pointers() && AllInPlace()
      ensures forall k :: 0 <= k < |finished| ==> finished[k].s in blocks[1..] && finished[k].s != blocks[0]
    {
      forall k | 0 <= k < |finished|
        ensures finished[k].s in blocks[1..] && finished[k].s != blocks[0]
      {
        assert InPlace(finished[k]);
        assert blocks == [blocks[0]] + blocks[1..];
      }
    }

    /** The newest block gives way to a larger one with the same contents. */
    method Replace(block: array<bv8>)
      requires Valid() && started && start == 0 && block.Length > end
      requires block !in blocks && block !in freeBlocks
      modifies this`blocks, this`end, block
      ensures Valid() && Current() == old(Current()) && blocks == [block] + old(blocks[1..])
    {
      hide Owned;
      FinishedElsewhere();
      var head := blocks[0];
      Copy(block, head, 0, end);
      DropFirst(blocks, freeBlocks);
      AddNew(blocks[1..], freeBlocks, block);
      blocks := [block] + blocks[1..];
      end := block.Length;
    }

    method NewBlock()
      requires Valid() && !(started && start == 0)
      modifies this
      ensures Valid() && started && finished == old(finished)
      ensures Current() == old(Current()) && Room() > old(Room())
      ensures fresh(blocks[0]) && blocks[1..] == old(blocks) && freeBlocks == old(freeBlocks)
      ensures Room() == if old(Room()) < 1024 then 1024 else 2 * old(Room())
    {
      hide Owned, AllInPlace, InPlace;
      var blockSize := end - start;
      if blockSize < INIT_BLOCK_SIZE {
        blockSize := INIT_BLOCK_SIZE;
      } else {
        blockSize := blockSize * 2;
      }
      var block := new bv8[blockSize];
      Push(block);
    }

    /** The string in progress goes to the start of one more block. */
    method Push(block: array<bv8>)
      requires Valid() && block.Length > Room()
      requires block !in blocks && block !in freeBlocks
      modifies this`blocks, this`started, this`start, this`ptr, this`end, block
      ensures Valid() && started && start == 0 && Current() == old(Current()) && blocks == [block] + old(blocks)
    {
      hide Owned;
      if ptr != start {
        Copy(block, blocks[0], start, ptr - start);
      }
      AddNew(blocks, freeBlocks, block);
      Install(block);
    }

    /** A block that already holds the string in progress. */
    method Install(block: array<bv8>)
      requires Valid() && block !in blocks && Owned([block] + blocks, freeBlocks)
      requires block.Length > Room() && block[..|Current()|] == Current()
      modifies this`blocks, this`started, this`start, this`ptr, this`end
      ensures Valid() && started && start == 0 && Current() == old(Current()) && blocks == [block] + old(blocks)
    {
      hide Owned;
      assert block[0..ptr - start] == block[..ptr - start] == Current();
      blocks := [block] + blocks;
      started, start, ptr, end := true, 0, ptr - start, block.Length;
    }

    /** poolAppendChar. */
    method AppendChar(c: bv8)
      requires Valid()
      modifies this, blocks, freeBlocks
      ensures Valid() && started && OwnBlocks() && finished == old(finished)
      ensures Current() == old(Current()) + [c]
    {
      hide Owned;
      if ptr == end {
        Grow();
      }
      Put(c);
    }

    method Put(c: bv8)
      requires Valid() && started && ptr < end
      modifies this`ptr, blocks[0]
      ensures Valid() && Current() == old(Current()) + [c]
    {
      hide Owned;
      ghost var current := Current();
      blocks[0][ptr] := c;
      ptr := ptr + 1;
    }

    /** poolFinish. */
    method Finish()
      requires Valid()
      modifies this`start, this`finished
      ensures Valid() && Current() == [] && start == ptr
      ensures finished == old(finished) +
        if old(started && ptr > 0) then [Region(old(blocks[0]), old(start), old(Current()))] else []
    {
      hide Owned;
      if started && ptr > 0 {
        finished := finished + [Region(blocks[0], start, Current())];
      }
      start := ptr;
    }

    /** poolDiscard. */
    method Discard()
      requires Valid()
      modifies this`ptr
      ensures Valid() && Current() == []
    {
      hide Owned;
      ptr := start;
    }

    /** poolChop. */
    method Chop()
      requires Valid() && Current() != []
      modifies this`ptr
      ensures Valid() && Current() == old(Current()[..|Current()| - 1])
    {
      hide Owned;
      ptr := ptr - 1;
    }

    /** poolAppendString: the string ends before its null character. */
    method AppendString(s: seq<bv8>)
      requires Valid()
      modifies this, blocks, freeBlocks
      ensures Valid() && OwnBlocks() && finished == old(finished)
      ensures Current() == old(Current()) + s
    {
      hide Owned, InPlace, AllInPlace, Reuses;
      var i := 0;
      ghost var before := Current();
      AppendAll(before, s);
      while i < |s|
        invariant i <= |s| && Valid() && OwnBlocks() && finished == old(finished)
        invariant Current() == before + s[..i]
      {
        AppendNext(before, s, i);
        AppendChar(s[i]);
        i := i + 1;
      }
    }

    /** poolCopyString: the characters and a null character, finished at once. */
    method CopyString(s: seq<bv8>) returns (at: array<bv8>, from: nat)
      requires Valid()
      modifies this, blocks, freeBlocks
      ensures Valid() && OwnBlocks() && Current() == []
      ensures finished == old(finished) + [Region(at, from, old(Current()) + s + [0])]
    {
      hide Owned, InPlace, AllInPlace;
      AppendString(s);
      AppendChar(0);
      at, from := blocks[0], start;
      Finish();
    }

    /** One call of XmlConvert with the room left in the newest block. */
    method ConvertSome(enc: Encoding, input: seq<bv8>, f: nat, ghost cs: seq<Scalar>, ghost k: nat)
      returns (f': nat, ghost k': nat)
      requires Valid() && started && f <= |input| && k <= |cs| && Reads(enc, input[f..], cs[k..])
      modifies this`ptr, blocks[0]
      ensures Valid() && f <= f' <= |input| && k <= k' <= |cs| && Reads(enc, input[f'..], cs[k'..])
      ensures Current() == old(Current()) + Image(enc, input[f..f'], cs[k..k'])
      ensures f' == |input| && enc.UTF16? ==> k' == |cs|
      ensures f' == f < |input| && k' == k ==> ptr == old(ptr) && end - ptr < |input| - f + 4
    {
      hide Owned, Image, Reads;
      ghost var current, store := Current(), blocks[0][..];
      var ptr';
      f', ptr', k' := XmlConvert(enc, input, f, blocks[0], ptr, end, cs, k);
      assert blocks[0][start..ptr'] == blocks[0][start..ptr] + blocks[0][ptr..ptr'];
      assert blocks[0][start..ptr] == store[start..ptr] && blocks[0][..ptr] == store[..ptr];
      forall j | 0 <= j < |finished|
        ensures InPlace(finished[j])
      {
        assert old(InPlace(finished[j]));
        SamePart(store, blocks[0][..], ptr, finished[j]);
      }
      ptr := ptr';
    }

    /** The same, seen from where the input starts. */
    method ConvertNext(enc: Encoding, input: seq<bv8>, f: nat, ghost cs: seq<Scalar>, ghost k: nat,
                       ghost before: seq<bv8>)
      returns (f': nat, ghost k': nat)
      requires Valid() && started && f <= |input| && k <= |cs| && Reads(enc, input[f..], cs[k..])
      requires Current() == before + Image(enc, input[..f], cs[..k])
      modifies this`ptr, blocks[0]
      ensures Valid() && f <= f' <= |input| && k <= k' <= |cs| && Reads(enc, input[f'..], cs[k'..])
      ensures Current() == before + Image(enc, input[..f'], cs[..k'])
      ensures f' == |input| && enc.UTF16? ==> k' == |cs|
      ensures f' == f < |input| && k' == k ==> ptr == old(ptr) && end - ptr < |input| - f + 4
    {
      hide Owned, InPlace, AllInPlace, Image, Reads;
      f', k' := ConvertSome(enc, input, f, cs, k);
      ImagePieces(enc, input, f, f', cs, k, k');
      Associative(before, Image(enc, input[..f], cs[..k]), Image(enc, input[f..f'], cs[k..k']));
    }

    /** poolAppend: convert, and grow while there is input left. */
    method Append(enc: Encoding, input: seq<bv8>, ghost cs: seq<Scalar>)
      requires Valid() && Reads(enc, input, cs)
      modifies this, blocks, freeBlocks
      ensures Valid() && started && OwnBlocks() && finished == old(finished)
      ensures Current() == old(Current()) + Image(enc, input, cs)
    {
      hide Owned, InPlace, AllInPlace, Image, Reads, GrowthRule, Current;
      ghost var before := Current();
      if !started {
        Grow();
      }
      var f := 0;
      ghost var k := 0;
      NoImage(enc);
      assert input[0..] == input && cs[0..] == cs && input[..0] == [] && cs[..0] == [];
      while true
        invariant Valid() && started && OwnBlocks() && finished == old(finished)
        invariant f <= |input| && k <= |cs| && Reads(enc, input[f..], cs[k..])
        invariant Current() == before + Image(enc, input[..f], cs[..k])
        decreases |input| - f, |cs| - k, |input| - f + 4 - (end - ptr)
      {
        f, k := ConvertNext(enc, input, f, cs, k, before);
        if f == |input| {
          break;
        }
        GrowMore();
      }
      ImageAll(enc, input, cs, k);
    }

    /** poolStoreString: the conversion and a null character. */
    method StoreString(enc: Encoding, input: seq<bv8>, ghost cs: seq<Scalar>) returns (at: array<bv8>, from: nat)
      requires Valid() && Reads(enc, input, cs)
      modifies this, blocks, freeBlocks
      ensures Valid() && started && OwnBlocks() && finished == old(finished)
      ensures Current() == old(Current()) + Image(enc, input, cs) + [0]
      ensures at == blocks[0] && from == start
    {
      hide Owned, InPlace, AllInPlace, Image, Reads, GrowthRule;
      Append(enc, input, cs);
      if ptr == end {
        Grow();
      }
      Put(0);
      at, from := blocks[0], start;
    }

    /** poolClear. */
    method Clear()
      requires Valid()
      modifies this
      ensures Valid() && !started && blocks == [] && finished == []
      ensures multiset(freeBlocks) == old(multiset(blocks) + multiset(freeBlocks))
    {
      hide Owned, InPlace;
      var all := blocks;
      if freeBlocks != [] {
        all := MoveAll(blocks, freeBlocks);
      }
      ClearOwned(blocks, freeBlocks, all);
      freeBlocks := all;
      blocks, started, start, ptr, end, finished := [], false, 0, 0, 0, [];
    }

    /** A string that ends at the start of its block is not among the finished ones: the block stays
        in the pool at the next growth exactly if the string ended further on or growing takes a free
        block, and otherwise it is gone for good. */
    method FinishAndGrow() returns (at: array<bv8>)
      requires Valid() && started
      modifies this, blocks, freeBlocks
      ensures Valid() && at == old(blocks[0])
      ensures at in blocks <==> old(ptr) > 0 || old(Reuses())
      ensures at !in blocks ==> at !in freeBlocks
    {
      hide Owned, AllInPlace, InPlace, Current;
      at := blocks[0];
      FirstIsOnce(blocks, freeBlocks);
      Finish();
      Grow();
      FirstOrRest(blocks, at);
    }
  }

  /** What lies below an offset stays if that part stays. */
  lemma SamePart(a: seq<bv8>, b: seq<bv8>, n: nat, r: Region)
    requires n <= |a| == |b| && a[..n] == b[..n]
    ensures r.from + |r.text| <= n ==> a[r.from..r.from + |r.text|] == b[r.from..r.from + |r.text|]
  {
    if r.from + |r.text| <= n {
      assert a[r.from..r.from + |r.text|] == a[..n][r.from..r.from + |r.text|];
      assert b[r.from..r.from + |r.text|] == b[..n][r.from..r.from + |r.text|];
    }
  }

  method MoveAll(blocks: seq<array<bv8>>, freeBlocks: seq<array<bv8>>) returns (all: seq<array<bv8>>)
    ensures multiset(all) == multiset(blocks) + multiset(freeBlocks)
  {
    var p := blocks;
    all := freeBlocks;
    while p != []
      invariant multiset(p) + multiset(all) == multiset(blocks) + multiset(freeBlocks)
      decreases |p|
    {
      FrontAndRest(p);
      all := [p[0]] + all;
      p := p[1..];
    }
  }

  method Copy(to: array<bv8>, from: array<bv8>, start: nat, n: nat)
    requires to != from && n <= to.Length && start + n <= from.Length
    modifies to
    ensures to[..n] == from[start..start + n]
  {
    var i := 0;
    while i < n
      invariant i <= n && to[..i] == from[start..start + i]
    {
      to[i] := from[start + i];
      i := i + 1;
    }
  }

  /** Every block is on exactly one of the two lists, and no block is empty. */
  ghost predicate Owned(blocks: seq<array<bv8>>, freeBlocks: seq<array<bv8>>) {
    && Exclusive(multiset(blocks) + multiset(freeBlocks))
    && forall b :: b in multiset(blocks) + multiset(freeBlocks) ==> b.Length > 0
  }

  ghost predicate Exclusive(bs: multiset<array<bv8>>) {
    forall b :: b in bs ==> bs[b] == 1
  }

  lemma FrontAndRest(s: seq<array<bv8>>)
    requires s != []
    ensures multiset(s) == multiset{s[0]} + multiset(s[1..])
  {
    assert s == [s[0]] + s[1..];
  }

  lemma NoneOwned()
    ensures Owned([], [])
  {}

  lemma FirstHasRoom(blocks: seq<array<bv8>>, freeBlocks: seq<array<bv8>>)
    requires Owned(blocks, freeBlocks)
    ensures blocks != [] ==> blocks[0].Length > 0
    ensures freeBlocks != [] ==> freeBlocks[0].Length > 0
  {
    if blocks != [] {
      assert blocks[0] in multiset(blocks) + multiset(freeBlocks);
    }
    if freeBlocks != [] {
      assert freeBlocks[0] in multiset(blocks) + multiset(freeBlocks);
    }
  }

  lemma FirstOrRest(blocks: seq<array<bv8>>, at: array<bv8>)
    requires blocks != []
    ensures at in blocks <==> at == blocks[0] || at in blocks[1..]
  {
    assert blocks == [blocks[0]] + blocks[1..];
  }

  lemma FirstIsOnce(blocks: seq<array<bv8>>, freeBlocks: seq<array<bv8>>)
    requires Owned(blocks, freeBlocks) && blocks != []
    ensures blocks[0] !in blocks[1..] && blocks[0] !in freeBlocks
  {
    FrontAndRest(blocks);
    assert blocks[0] in multiset(blocks) + multiset(freeBlocks);
  }

  /** A new block in front. */
  lemma AddNew(blocks: seq<array<bv8>>, freeBlocks: seq<array<bv8>>, block: array<bv8>)
    requires Owned(blocks, freeBlocks) && block.Length > 0
    requires block !in blocks && block !in freeBlocks
    ensures Owned([block] + blocks, freeBlocks)
  {
    var before, after := multiset(blocks) + multiset(freeBlocks), multiset([block] + blocks) + multiset(freeBlocks);
    assert after == before + multiset{block};
    assert before[block] == 0;
  }

  lemma DropFirst(blocks: seq<array<bv8>>, freeBlocks: seq<array<bv8>>)
    requires Owned(blocks, freeBlocks) && blocks != []
    ensures Owned(blocks[1..], freeBlocks)
  {
    FrontAndRest(blocks);
    var before, after := multiset(blocks) + multiset(freeBlocks), multiset(blocks[1..]) + multiset(freeBlocks);
    assert before == after + multiset{blocks[0]};
    assert forall b :: b in after ==> b in before && after[b] <= before[b];
  }

  /** Moving the first free block to the other list. */
  lemma TakeFree(blocks: seq<array<bv8>>, freeBlocks: seq<array<bv8>>)
    requires Owned(blocks, freeBlocks) && freeBlocks != []
    ensures Owned([freeBlocks[0]] + blocks, freeBlocks[1..])
    ensures freeBlocks[0] !in blocks
  {
    var b := freeBlocks[0];
    FrontAndRest(freeBlocks);
    var all := multiset(blocks) + multiset(freeBlocks);
    assert multiset([b] + blocks) + multiset(freeBlocks[1..]) == all;
    assert all[b] == 1 && multiset(freeBlocks)[b] >= 1;
  }

  lemma ClearOwned(blocks: seq<array<bv8>>, freeBlocks: seq<array<bv8>>, all: seq<array<bv8>>)
    requires Owned(blocks, freeBlocks) && multiset(all) == multiset(blocks) + multiset(freeBlocks)
    ensures Owned([], all)
  {
    assert multiset([]) + multiset(all) == multiset(all);
  }
}
