/** The raw names of open elements: they point into the parse buffer until storeRawNames moves them,
    so that end tags in later buffers can be compared with them. */
module RawNames {
  import opened StringPool
  import opened Utf
  import opened Wrappers

  const INIT_TAG_BUF_SIZE: nat := 32

  /** TAG. bufEnd is the end of the array; name.str is the start of buf, the converted name and a null
      character; rawName is a pointer into an array. */
  class Tag {
    var buf: array<bv8>
    var strLen: nat
    var rawBuf: array<bv8>
    var rawFrom: nat
    var rawNameLength: nat
    /** The bytes of the name in the start tag. */
    ghost var written: seq<bv8>
    /** The place of the record: counted from the bottom of the stack, or negative in the free list. */
    ghost var place: int

    constructor (buf: array<bv8>)
      ensures this.buf == buf
    {
      this.buf, strLen, rawBuf, rawFrom, rawNameLength, written := buf, 0, buf, 0, 0, [];
    }

    ghost predicate Pointing()
      reads this`buf, this`strLen, this`rawBuf, this`rawFrom, this`rawNameLength
    {
      strLen < buf.Length && rawFrom + rawNameLength <= rawBuf.Length
    }

    /** The pointer still leads to the bytes of the start tag. */
    ghost predicate Kept()
      reads this`buf, this`strLen, this`rawBuf, this`rawFrom, this`rawNameLength, this`written, rawBuf
    {
      Pointing() && rawBuf[rawFrom..rawFrom + rawNameLength] == written
    }

    /** The name is behind the converted name in the record's own buffer. */
    predicate Stored()
      reads this`buf, this`strLen, this`rawBuf, this`rawFrom
    {
      rawBuf == buf && rawFrom == strLen + 1
    }

    /** The converted name with its null character. */
    function Name(): seq<bv8>
      requires Pointing()
      reads this`buf, this`strLen, this`rawBuf, this`rawFrom, this`rawNameLength, buf
    {
      buf[..strLen + 1]
    }

    /** One round of storeRawNames. */
    method Store()
      requires Kept() && rawBuf != buf
      modifies this`buf, this`rawBuf, this`rawFrom, buf
      ensures Kept() && Stored() && (buf == old(buf) || fresh(buf)) && Name() == old(Name())
    {
      var nameLen := strLen + 1;
      var bufSize := nameLen + rawNameLength;
      if bufSize > buf.Length {
        Enlarge(bufSize);
      }
      TakeOver(nameLen);
    }

    /** memcpy of the raw name behind the converted one. */
    method TakeOver(nameLen: nat)
      requires Kept() && rawBuf != buf && nameLen == strLen + 1 && nameLen + rawNameLength <= buf.Length
      modifies this`rawBuf, this`rawFrom, buf
      ensures Kept() && Stored() && Name() == old(Name())
    {
      CopyTo(buf, nameLen, rawBuf, rawFrom, rawNameLength);
      rawBuf, rawFrom := buf, nameLen;
    }

    /** realloc of the buffer. */
    method Enlarge(bufSize: nat)
      requires Kept() && rawBuf != buf && bufSize > buf.Length
      modifies this`buf
      ensures Kept() && fresh(buf) && buf.Length == bufSize && Name() == old(Name())
    {
      var temp := new bv8[bufSize];
      ghost var name := Name();
      Copy(temp, buf, 0, buf.Length);
      assert temp[..strLen + 1] == temp[..buf.Length][..strLen + 1] == name;
      buf := temp;
    }
  }

  /** memcpy to an offset. */
  method CopyTo(to: array<bv8>, t: nat, from: array<bv8>, f: nat, n: nat)
    requires to != from && t + n <= to.Length && f + n <= from.Length
    modifies to
    ensures to[t..t + n] == from[f..f + n] && to[..t] == old(to[..t])
  {
    var i := 0;
    while i < n
      invariant i <= n && to[t..t + i] == from[f..f + i]
      invariant to[..t] == old(to[..t])
    {
      to[t + i] := from[f + i];
      i := i + 1;
    }
  }

  /** The loop that converts the name of a start tag, doubling the buffer when it is full; the last
      byte is left for the null character. */
  method ConvertName(enc: Encoding, raw: seq<bv8>, initial: array<bv8>,
                     ghost cs: seq<Scalar>) returns (buf: array<bv8>, strLen: nat)
    requires initial.Length >= 1 && Reads(enc, raw, cs)
    modifies initial
    ensures (buf == initial || fresh(buf)) && strLen < buf.Length
    ensures buf[..strLen + 1] == Image(enc, raw, cs) + [0]
  {
    hide Image, Reads;
    buf, strLen := initial, 0;
    var f := 0;
    ghost var k := 0;
    NoImage(enc);
    assert raw[0..] == raw && cs[0..] == cs && raw[..0] == [] && cs[..0] == [];
    while true
      invariant (buf == initial || fresh(buf)) && strLen < buf.Length
      invariant f <= |raw| && k <= |cs| && Reads(enc, raw[f..], cs[k..])
      invariant buf[..strLen] == Image(enc, raw[..f], cs[..k])
      decreases |raw| - f, |cs| - k, |raw| - f + 4 - (buf.Length - 1 - strLen)
    {
      ghost var before := buf[..strLen];
      var f', t', k' := XmlConvert(enc, raw, f, buf, strLen, buf.Length - 1, cs, k);
      ImagePieces(enc, raw, f, f', cs, k, k');
      assert buf[..t'] == buf[..strLen] + buf[strLen..t'] && buf[..strLen] == before;
      f, strLen, k := f', t', k';
      if f == |raw| {
        break;
      }
      var temp := new bv8[buf.Length * 2];
      Copy(temp, buf, 0, strLen);
      buf := temp;
    }
    ImageAll(enc, raw, cs, k);
    ghost var name := buf[..strLen];
    buf[strLen] := 0;
    assert buf[..strLen + 1] == name + [0];
  }

  ghost function Written(tags: seq<Tag>): (names: seq<seq<bv8>>)
    reads tags`written
    ensures |names| == |tags| && forall i :: 0 <= i < |tags| ==> names[i] == tags[i].written
  {
    if tags == [] then [] else [tags[0].written] + Written(tags[1..])
  }

  /** Every raw name can still be read: from the record's own buffer, or from the parse buffer. */
  ghost predicate InReach(t: Tag, buffer: array<bv8>)
    reads t`buf, t`strLen, t`rawBuf, t`rawFrom, t`rawNameLength, t`written, t.buf, buffer
  {
    (if t.Stored() then true else t.rawBuf == buffer) && t.Kept()
  }

  class RawNameParser {
    /** Newest first, both lists. */
    var tagStack: seq<Tag>
    var freeTagList: seq<Tag>
    /** All records, and which record a buffer belongs to. */
    ghost var tags: set<Tag>
    ghost var owner: map<array<bv8>, Tag>

    ghost predicate Owns(t: Tag)
      reads this`owner, t`buf
    {
      t.buf in owner && owner[t.buf] == t && t.buf.Length >= 1
    }

    /** Each record has a buffer of its own. */
    ghost predicate AllOwn()
      reads this`tags, this`owner, tags`buf
    {
      forall t :: t in tags ==> Owns(t)
    }

    /** Each record is at most once on at most one list. */
    ghost predicate Lists()
      reads this`tagStack, this`freeTagList, this`tags, tags`place
    {
      && (forall i :: 0 <= i < |tagStack| ==> tagStack[i] in tags && tagStack[i].place == |tagStack| - 1 - i)
      && (forall i :: 0 <= i < |freeTagList| ==> freeTagList[i] in tags && freeTagList[i].place == i - |freeTagList|)
    }

    ghost predicate AllInReach(buffer: array<bv8>)
      reads this`tagStack, tagStack`buf, tagStack`strLen, tagStack`rawBuf, tagStack`rawFrom, tagStack`rawNameLength
      reads tagStack`written, (set t | t in tagStack :: t.buf), buffer
    {
      forall i :: 0 <= i < |tagStack| ==> InReach(tagStack[i], buffer)
    }

    /** The stored names are those of the oldest elements. */
    ghost predicate StoredAtBottom()
      reads this`tagStack, tagStack`buf, tagStack`strLen, tagStack`rawBuf, tagStack`rawFrom
    {
      forall i, j :: 0 <= i < j < |tagStack| && tagStack[i].Stored() ==> tagStack[j].Stored()
    }

    ghost predicate Valid(buffer: array<bv8>)
      reads this, tags, owner.Keys, (set t | t in tagStack :: t.buf), tagStack, buffer
    {
      AllOwn() && Lists() && buffer !in owner && AllInReach(buffer) && StoredAtBottom()
    }

    /** Nothing depends on a parse buffer. */
    ghost predicate Settled()
      reads this, tags, tagStack, (set t | t in tagStack :: t.buf)
    {
      && AllOwn() && Lists()
      && forall i :: 0 <= i < |tagStack| ==> tagStack[i].Stored() && tagStack[i].Kept()
    }

    constructor ()
      ensures Settled() && tagStack == [] && tags == {} && owner == map[]
    {
      tagStack, freeTagList, tags, owner := [], [], {}, map[];
    }

    /** storeRawNames: from the newest record on, up to the first that is already stored. */
    method StoreRawNames(buffer: array<bv8>)
      requires Valid(buffer)
      modifies this`owner, tags, owner.Keys
      ensures Settled() && fresh(owner.Keys - old(owner.Keys)) && Written(tagStack) == old(Written(tagStack))
    {
      hide AllOwn, Lists, InReach, AllInReach, Written;
      ghost var written := Written(tagStack);
      var i := 0;
      while i < |tagStack|
        invariant i <= |tagStack| && AllOwn() && Lists() && buffer !in owner && fresh(owner.Keys - old(owner.Keys))
        invariant forall j :: 0 <= j < i ==> tagStack[j].Stored()
        invariant AllInReach(buffer)
        invariant forall j, k :: i <= j < k < |tagStack| && tagStack[j].Stored() ==> tagStack[k].Stored()
        invariant Written(tagStack) == written
      {
        if tagStack[i].Stored() {
          break;
        }
        Member(i, buffer);
        StoreNext(tagStack[i], i, buffer);
        i := i + 1;
      }
      AllStored(buffer);
    }

    lemma Member(i: nat, buffer: array<bv8>)
      requires AllOwn() && Lists() && AllInReach(buffer) && i < |tagStack|
      ensures tagStack[i] in tags && Owns(tagStack[i]) && tagStack[i].Kept()
    {
      assert InReach(tagStack[i], buffer);
    }

    lemma AllStored(buffer: array<bv8>)
      requires AllOwn() && Lists() && AllInReach(buffer)
      requires forall j :: 0 <= j < |tagStack| ==> tagStack[j].Stored()
      ensures Settled()
    {
      hide AllOwn, Lists;
    }

    /** Moving one name disturbs no other. */
    method StoreNext(tag: Tag, ghost i: nat, buffer: array<bv8>)
      requires AllOwn() && Lists() && i < |tagStack| && tagStack[i] == tag && buffer !in owner
      requires !tag.Stored() && AllInReach(buffer) && tag.Kept()
      modifies this`owner, tag`buf, tag`rawBuf, tag`rawFrom, tag.buf
      ensures AllOwn() && Lists() && buffer !in owner && fresh(owner.Keys - old(owner.Keys))
      ensures tag.Stored() && AllInReach(buffer) && tag.Kept() && tag.Name() == old(tag.Name())
      ensures forall j :: 0 <= j < |tagStack| && j != i ==> tagStack[j].Stored() == old(tagStack[j].Stored())
    {
      hide AllOwn, Lists, InReach;
      StoreOne(tag, i, buffer);
    }

    method StoreOne(tag: Tag, ghost i: nat, buffer: array<bv8>)
      requires AllOwn() && Lists() && i < |tagStack| && tagStack[i] == tag && buffer !in owner
      requires !tag.Stored() && InReach(tag, buffer)
      modifies this`owner, tag`buf, tag`rawBuf, tag`rawFrom, tag.buf
      ensures AllOwn() && Lists() && buffer !in owner && fresh(owner.Keys - old(owner.Keys))
      ensures tag.Stored() && InReach(tag, buffer) && tag.Name() == old(tag.Name()) && old(tag.buf) != buffer
      ensures forall j :: 0 <= j < |tagStack| && j != i ==> tagStack[j] != tag && tagStack[j].buf != old(tag.buf)
    {
      Apart(tag, i);
      tag.Store();
      owner := owner[tag.buf := tag];
    }

    /** No other record on the stack has this buffer. */
    lemma Apart(tag: Tag, i: nat)
      requires AllOwn() && Lists() && i < |tagStack| && tagStack[i] == tag
      ensures tag in tags && Owns(tag)
      ensures forall j :: 0 <= j < |tagStack| && j != i ==> tagStack[j] != tag && tagStack[j].buf != tag.buf
    {}

    /** A record from the free list with the buffer it has grown, or a new one. */
    method TakeTag(ghost buffer: array<bv8>) returns (tag: Tag)
      requires Valid(buffer)
      modifies this`freeTagList, this`owner, this`tags, tags`place
      ensures Valid(buffer) && Written(tagStack) == old(Written(tagStack))
      ensures tag in tags && Owns(tag) && tag.place == |tagStack|
      ensures fresh(tags - old(tags)) && fresh(owner.Keys - old(owner.Keys)) && (tag in old(tags) || fresh(tag))
      ensures forall i :: 0 <= i < |tagStack| ==> tagStack[i] != tag && tagStack[i].buf != tag.buf
    {
      hide Valid;
      if freeTagList != [] {
        tag := TakeFree(buffer);
      } else {
        tag := TakeNew(buffer);
      }
      NotYet(tag, buffer);
    }

    lemma NotYet(tag: Tag, buffer: array<bv8>)
      requires Valid(buffer) && tag in tags && tag.place == |tagStack|
      ensures Owns(tag) && forall i :: 0 <= i < |tagStack| ==> tagStack[i] != tag && tagStack[i].buf != tag.buf
    {
      hide AllInReach, StoredAtBottom;
    }

    method TakeFree(ghost buffer: array<bv8>) returns (tag: Tag)
      requires Valid(buffer) && freeTagList != []
      modifies this`freeTagList, tags`place
      ensures Valid(buffer) && tag in tags && tag.place == |tagStack| && Written(tagStack) == old(Written(tagStack))
    {
      hide InReach, AllInReach, StoredAtBottom, Written, AllOwn;
      tag := freeTagList[0];
      freeTagList := freeTagList[1..];
      tag.place := |tagStack|;
    }

    method TakeNew(ghost buffer: array<bv8>) returns (tag: Tag)
      requires Valid(buffer)
      modifies this`owner, this`tags
      ensures Valid(buffer) && tag in tags && tag.place == |tagStack| && Written(tagStack) == old(Written(tagStack))
      ensures fresh(tag) && tags == old(tags) + {tag} && fresh(owner.Keys - old(owner.Keys))
    {
      hide Valid, Written;
      var buf := new bv8[INIT_TAG_BUF_SIZE];
      tag := new Tag(buf);
      tag.place := |tagStack|;
      Adopt(tag, buffer);
    }

    ghost method Adopt(tag: Tag, buffer: array<bv8>)
      requires Valid(buffer) && tag !in tags && tag.buf !in owner && tag.buf.Length >= 1 && tag.buf != buffer
      modifies this`owner, this`tags
      ensures Valid(buffer) && tags == old(tags) + {tag} && owner == old(owner)[tag.buf := tag]
    {
      hide InReach, AllInReach, StoredAtBottom;
      owner := owner[tag.buf := tag];
      tags := tags + {tag};
    }

    /** The part of doContent for a start tag that deals with the name. */
    method FillTag(tag: Tag, enc: Encoding, buffer: array<bv8>, s: nat, n: nat)
      requires AllOwn() && tag in tags && Owns(tag) && buffer !in owner
      requires s + n <= buffer.Length && Readable(enc, buffer[s..s + n])
      modifies this`owner, tag`buf, tag`strLen, tag`rawBuf, tag`rawFrom, tag`rawNameLength, tag`written, tag.buf
      ensures AllOwn() && buffer !in owner && fresh(owner.Keys - old(owner.Keys))
      ensures InReach(tag, buffer) && !tag.Stored() && tag.written == old(buffer[s..s + n])
      ensures IsName(enc, tag.written, tag.Name())
    {
      ghost var cs :| Reads(enc, buffer[s..s + n], cs);
      hide Image, Reads, AllOwn, InReach;
      var raw := buffer[s..s + n];
      var buf, strLen := ConvertName(enc, raw, tag.buf, cs);
      SetTag(tag, buf, strLen, buffer, s, n);
    }

    method SetTag(tag: Tag, buf: array<bv8>, strLen: nat, buffer: array<bv8>, s: nat, n: nat)
      requires AllOwn() && tag in tags && Owns(tag) && buffer !in owner
      requires (buf == tag.buf || buf !in owner) && buf != buffer && strLen < buf.Length && s + n <= buffer.Length
      modifies this`owner, tag`buf, tag`strLen, tag`rawBuf, tag`rawFrom, tag`rawNameLength, tag`written
      ensures AllOwn() && buffer !in owner && owner == old(owner)[buf := tag]
      ensures InReach(tag, buffer) && !tag.Stored() && tag.written == buffer[s..s + n] &&
        tag.Name() == buf[..strLen + 1]
    {
      tag.rawBuf, tag.rawFrom, tag.rawNameLength := buffer, s, n;
      tag.written := buffer[s..s + n];
      tag.buf, tag.strLen := buf, strLen;
      owner := owner[buf := tag];
    }

    /** Filling a record that is not on the stack. */
    method FillApart(tag: Tag, enc: Encoding, buffer: array<bv8>, s: nat, n: nat)
      requires Valid(buffer) && tag in tags && Owns(tag)
      requires forall i :: 0 <= i < |tagStack| ==> tagStack[i] != tag && tagStack[i].buf != tag.buf
      requires s + n <= buffer.Length && Readable(enc, buffer[s..s + n])
      modifies this`owner, tag`buf, tag`strLen, tag`rawBuf, tag`rawFrom, tag`rawNameLength, tag`written, tag.buf
      ensures Valid(buffer) && fresh(owner.Keys - old(owner.Keys)) && Written(tagStack) == old(Written(tagStack))
      ensures InReach(tag, buffer) && !tag.Stored() && tag.written == old(buffer[s..s + n])
      ensures IsName(enc, tag.written, tag.Name())
    {
      hide AllOwn, Lists, InReach, Written, IsName, Readable, AllInReach, StoredAtBottom;
      FillTag(tag, enc, buffer, s, n);
    }

    /** doContent for a start tag. */
    method StartTag(enc: Encoding, buffer: array<bv8>, s: nat, n: nat)
      requires Valid(buffer) && s + n <= buffer.Length && Readable(enc, buffer[s..s + n])
      modifies this, tags, owner.Keys
      ensures Valid(buffer) && fresh(tags - old(tags)) && fresh(owner.Keys - old(owner.Keys))
      ensures Written(tagStack) == [old(buffer[s..s + n])] + old(Written(tagStack))
      ensures IsName(enc, tagStack[0].written, tagStack[0].Name())
    {
      hide AllOwn, Lists, InReach, Written, IsName, Readable, AllInReach, StoredAtBottom, Valid;
      KeepsBuffer(buffer);
      var tag := TakeTag(buffer);
      FillApart(tag, enc, buffer, s, n);
      Push(tag, buffer);
    }

    lemma KeepsBuffer(buffer: array<bv8>)
      requires Valid(buffer)
      ensures buffer !in owner
    {}

    method Push(tag: Tag, buffer: array<bv8>)
      requires Valid(buffer) && tag in tags && tag.place == |tagStack| && InReach(tag, buffer) && !tag.Stored()
      modifies this`tagStack
      ensures Valid(buffer) && tagStack == [tag] + old(tagStack)
      ensures Written(tagStack) == [tag.written] + old(Written(tagStack))
    {
      hide AllOwn, InReach;
      tagStack := [tag] + tagStack;
    }

    /** doContent for an end tag. */
    method EndTag(buffer: array<bv8>, s: nat, n: nat) returns (matching: bool)
      requires Valid(buffer) && s + n <= buffer.Length && tagStack != []
      modifies this`tagStack, this`freeTagList, tags`place
      ensures Valid(buffer) && Written(tagStack) == old(Written(tagStack))[1..]
      ensures matching <==> old(Written(tagStack))[0] == buffer[s..s + n]
    {
      hide AllOwn, Lists;
      var tag := tagStack[0];
      assert InReach(tag, buffer);
      matching := n == tag.rawNameLength && tag.rawBuf[tag.rawFrom..tag.rawFrom + n] == buffer[s..s + n];
      Pop(buffer);
    }

    method Pop(buffer: array<bv8>)
      requires Valid(buffer) && tagStack != []
      modifies this`tagStack, this`freeTagList, tags`place
      ensures Valid(buffer) && Written(tagStack) == old(Written(tagStack))[1..]
    {
      hide AllOwn, InReach;
      var tag := tagStack[0];
      tagStack := tagStack[1..];
      freeTagList := [tag] + freeTagList;
      tag.place := -|freeTagList|;
    }

    lemma SettledIsValid(buffer: array<bv8>)
      requires Settled() && buffer !in owner
      ensures Valid(buffer)
    {
      hide AllOwn, Lists;
    }

    lemma ValidHere(buffer: array<bv8>)
      requires Valid(buffer)
      ensures buffer !in owner
    {}

    /** contentProcessor: the tags of one parse buffer, and then storeRawNames. */
    method ProcessBuffer(enc: Encoding, buffer: array<bv8>, steps: seq<Step>) returns (ok: bool)
      requires Settled() && buffer !in owner
      requires forall i :: 0 <= i < |steps| ==> StepFits(enc, buffer[..], steps[i])
      modifies this, tags, owner.Keys
      ensures fresh(tags - old(tags)) && fresh(owner.Keys - old(owner.Keys)) && (ok ==> buffer !in owner)
      ensures var m := Matching(old(Written(tagStack)), buffer[..], steps);
        if ok then Settled() && m == Some(Written(tagStack)) else m == None
    {
      hide Valid, Settled, Written, Readable, StepFits, StepTo, Matching;
      SettledIsValid(buffer);
      ghost var bytes, all := buffer[..], Matching(Written(tagStack), buffer[..], steps);
      assert steps[0..] == steps;
      for i := 0 to |steps|
        invariant Valid(buffer) && fresh(tags - old(tags)) && fresh(owner.Keys - old(owner.Keys)) && buffer[..] == bytes
        invariant Matching(Written(tagStack), bytes, steps[i..]) == all
      {
        MatchingStep(Written(tagStack), bytes, steps, i);
        ok := DoStep(enc, buffer, steps[i]);
        if !ok {
          return;
        }
      }
      MatchingNone(Written(tagStack), bytes, steps);
      StoreRawNames(buffer);
      ok := true;
    }

    method DoStep(enc: Encoding, buffer: array<bv8>, step: Step) returns (ok: bool)
      requires Valid(buffer) && StepFits(enc, buffer[..], step)
      modifies this, tags, owner.Keys
      ensures fresh(tags - old(tags)) && fresh(owner.Keys - old(owner.Keys)) && buffer[..] == old(buffer[..])
      ensures StepTo(old(Written(tagStack)), buffer[..], step) == if ok then Some(Written(tagStack)) else None
      ensures ok ==> Valid(buffer)
    {
      hide Valid, Written, Readable, IsName;
      ValidHere(buffer);
      var s, n := step.s, step.n;
      assert buffer[..][s..s + n] == buffer[s..s + n];
      if step.Open? {
        StartTag(enc, buffer, s, n);
        return true;
      }
      if tagStack == [] {
        return false;
      }
      ok := EndTag(buffer, s, n);
    }

    /** The next input takes the place of the last one. */
    method Overwrite(buffer: array<bv8>, contents: seq<bv8>)
      requires Settled() && buffer !in owner && |contents| == buffer.Length
      modifies buffer
      ensures Settled() && buffer[..] == contents
    {
      hide AllOwn, Lists;
      NotTheirs(buffer);
      forall i | 0 <= i < buffer.Length {
        buffer[i] := contents[i];
      }
    }

    lemma NotTheirs(buffer: array<bv8>)
      requires Settled() && buffer !in owner
      ensures forall i :: 0 <= i < |tagStack| ==> tagStack[i].buf != buffer
    {
      forall i | 0 <= i < |tagStack|
        ensures tagStack[i].buf != buffer
      {
        assert tagStack[i] in tags && Owns(tagStack[i]);
      }
    }

    /** Any number of inputs through one parse buffer: end tags are matched with start tags as if
        nothing had ever been overwritten. */
    method ProcessAll(enc: Encoding, buffer: array<bv8>, contents: seq<seq<bv8>>, steps: seq<seq<Step>>)
      returns (ok: bool)
      requires Settled() && buffer !in owner && |contents| == |steps|
      requires forall i :: 0 <= i < |contents| ==> |contents[i]| == buffer.Length
      requires forall i, j :: 0 <= i < |steps| && 0 <= j < |steps[i]| ==> StepFits(enc, contents[i], steps[i][j])
      modifies this, tags, owner.Keys, buffer
      ensures MatchingAll(old(Written(tagStack)), contents, steps) == if ok then Some(Written(tagStack)) else None
      ensures ok ==> Settled()
    {
      hide Valid, Settled, Written, StepFits, Matching, MatchingAll;
      ghost var all := MatchingAll(Written(tagStack), contents, steps);
      assert contents[0..] == contents && steps[0..] == steps;
      for i := 0 to |contents|
        invariant Settled() && buffer !in owner
        invariant fresh(tags - old(tags)) && fresh(owner.Keys - old(owner.Keys))
        invariant MatchingAll(Written(tagStack), contents[i..], steps[i..]) == all
      {
        MatchingAllStep(Written(tagStack), contents, steps, i);
        Overwrite(buffer, contents[i]);
        ok := ProcessBuffer(enc, buffer, steps[i]);
        if !ok {
          return;
        }
      }
      MatchingAllNone(Written(tagStack), contents, steps);
      ok := true;
    }
  }

  /** A start or an end tag whose name lies at an offset of the parse buffer. */
  datatype Step = Open(s: nat, n: nat) | Close(s: nat, n: nat)

  ghost predicate StepFits(enc: Encoding, bytes: seq<bv8>, step: Step) {
    && step.s + step.n <= |bytes|
    && (step.Open? ==> Readable(enc, bytes[step.s..step.s + step.n]))
  }

  /** Matching tags by their names as values: the names left open, unless an end tag does not match. */
  function StepTo(open: seq<seq<bv8>>, bytes: seq<bv8>, step: Step): Option<seq<seq<bv8>>> {
    if step.s + step.n > |bytes| then None
    else
      var name := bytes[step.s..step.s + step.n];
      if step.Open? then Some([name] + open)
      else if open != [] && open[0] == name then Some(open[1..])
      else None
  }

  function Matching(open: seq<seq<bv8>>, bytes: seq<bv8>, steps: seq<Step>): Option<seq<seq<bv8>>>
    decreases |steps|
  {
    if steps == [] then Some(open)
    else
      match StepTo(open, bytes, steps[0])
      case None => None
      case Some(next) => Matching(next, bytes, steps[1..])
  }

  function MatchingAll(open: seq<seq<bv8>>, contents: seq<seq<bv8>>, steps: seq<seq<Step>>): Option<seq<seq<bv8>>>
    requires |contents| == |steps|
    decreases |contents|
  {
    if contents == [] then Some(open)
    else
      match Matching(open, contents[0], steps[0])
      case None => None
      case Some(next) => MatchingAll(next, contents[1..], steps[1..])
  }

  lemma MatchingAllStep(open: seq<seq<bv8>>, contents: seq<seq<bv8>>, steps: seq<seq<Step>>, i: nat)
    requires |contents| == |steps| && i < |contents|
    ensures MatchingAll(open, contents[i..], steps[i..]) ==
      match Matching(open, contents[i], steps[i])
      case None => None
      case Some(next) => MatchingAll(next, contents[i + 1..], steps[i + 1..])
  {
    hide Matching;
    assert contents[i..][1..] == contents[i + 1..] && steps[i..][1..] == steps[i + 1..];
  }

  lemma MatchingAllNone(open: seq<seq<bv8>>, contents: seq<seq<bv8>>, steps: seq<seq<Step>>)
    requires |contents| == |steps|
    ensures MatchingAll(open, contents[|contents|..], steps[|steps|..]) == Some(open)
  {}

  lemma MatchingStep(open: seq<seq<bv8>>, bytes: seq<bv8>, steps: seq<Step>, i: nat)
    requires i < |steps|
    ensures Matching(open, bytes, steps[i..]) ==
      match StepTo(open, bytes, steps[i])
      case None => None
      case Some(next) => Matching(next, bytes, steps[i + 1..])
  {
    hide StepTo;
    assert steps[i..][1..] == steps[i + 1..];
  }

  lemma MatchingNone(open: seq<seq<bv8>>, bytes: seq<bv8>, steps: seq<Step>)
    ensures Matching(open, bytes, steps[|steps|..]) == Some(open)
  {}

  ghost predicate Readable(enc: Encoding, raw: seq<bv8>) {
    exists cs :: Reads(enc, raw, cs)
  }

  /** The converted name and its null character. */
  ghost predicate IsName(enc: Encoding, raw: seq<bv8>, name: seq<bv8>) {
    exists cs :: Reads(enc, raw, cs) && name == Image(enc, raw, cs) + [0]
  }
}
