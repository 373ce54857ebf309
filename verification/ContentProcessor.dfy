/** doContent and processInternalEntity: the stack of TAG records, its level counter, the open marks
    of the entities and the recursion over their replacement texts. */
module ContentProcessor {
  import opened ContentText
  import opened DocumentContent
  import opened PathAdapter
  import opened References
  import opened Wrappers

  /** TAG: what the content processor keeps of a start tag. */
  class Tag {
    var raw: seq<bv8>
    var name: string

    constructor ()
    {
      raw, name := [], "";
    }
  }

  /** OPEN_INTERNAL_ENTITY. */
  datatype OpenEntity = OpenEntity(name: string, startTagLevel: nat)

  ghost function Values(stack: seq<Tag>): (above: seq<Opened>)
    reads stack
    ensures |above| == |stack|
  {
    if stack == [] then [] else [Opened(stack[0].raw, stack[0].name)] + Values(stack[1..])
  }

  class ContentParser {
    const dtd: Dtd
    /** The level outside all elements: 0 for a document, 1 for an external entity. */
    const base: nat

    /** Newest first, both lists. */
    var tagStack: seq<Tag>
    var freeTagList: seq<Tag>
    var tagLevel: nat
    /** The names of the entities marked open. */
    var open: set<string>
    var openInternalEntities: seq<OpenEntity>
    /** What the handlers were told. */
    var events: seq<Event>
    /** All TAG records ever allocated. */
    ghost var tags: set<Tag>

    /** Every record is on exactly one list. */
    ghost predicate Conserved()
      reads this`tagStack, this`freeTagList, this`tags
    {
      multiset(tagStack) + multiset(freeTagList) == multiset(tags)
    }

    ghost predicate Valid()
      reads this`tagStack, this`freeTagList, this`tags, this`tagLevel
    {
      Conserved() && tagLevel == |tagStack| + base
    }

    ghost function Stack(): seq<Opened>
      reads this`tagStack, tagStack
    {
      Values(tagStack)
    }

    constructor (dtd: Dtd, base: nat)
      ensures Valid() && Stack() == [] && open == {} && events == [] && openInternalEntities == [] && tags == {}
      ensures this.dtd == dtd && this.base == base
    {
      this.dtd, this.base := dtd, base;
      tagStack, freeTagList, tagLevel, open, openInternalEntities, events, tags := [], [], base, {}, [], [], {};
    }

    /** A start tag. */
    method StartElement(raw: seq<bv8>, name: string, atts: Attributes, attsError: Error) returns (result: Error)
      requires Valid()
      modifies this`tagStack, this`freeTagList, this`tagLevel, this`events, this`tags, tags
      ensures Valid() && old(tags) <= tags && fresh(tags - old(tags)) && result == attsError
      ensures Stack() == [Opened(raw, name)] + old(Stack())
      ensures events == old(events) + if attsError == NoError then [Start(name, atts)] else []
    {
      hide Values, Conserved;
      PushTag(raw, name);
      if attsError != NoError {
        return attsError;
      }
      events := events + [Start(name, atts)];
      result := NoError;
    }

    method PushTag(raw: seq<bv8>, name: string)
      requires Valid()
      modifies this`tagStack, this`freeTagList, this`tagLevel, this`tags, tags
      ensures Valid() && old(tags) <= tags && fresh(tags - old(tags))
      ensures Stack() == [Opened(raw, name)] + old(Stack())
    {
      var tag := TakeTag();
      tag.raw, tag.name := raw, name;
      tagStack := [tag] + tagStack;
      tagLevel := tagLevel + 1;
    }

    /** A record from the free list, or a new one. */
    method TakeTag() returns (tag: Tag)
      requires Conserved()
      modifies this`freeTagList, this`tags
      ensures multiset(tagStack) + multiset(freeTagList) + multiset{tag} == multiset(tags)
      ensures tag !in tagStack && tag in tags && old(tags) <= tags && fresh(tags - old(tags))
    {
      if freeTagList != [] {
        tag := freeTagList[0];
        FrontAndRest(freeTagList);
        freeTagList := freeTagList[1..];
      } else {
        tag := new Tag();
        tags := tags + {tag};
      }
      OnceOnly(tagStack, freeTagList, tag, tags);
    }

    /** An end tag, matched by the bytes of its name. */
    method EndElement(startTagLevel: nat, raw: seq<bv8>) returns (result: Error)
      requires Valid() && base <= startTagLevel <= tagLevel
      modifies this`tagStack, this`freeTagList, this`tagLevel, this`events
      ensures result == AsyncEntity <==> old(tagLevel) == startTagLevel
      ensures result == TagMismatch <==> old(tagLevel) > startTagLevel && old(Stack())[0].raw != raw
      ensures (result == NoError || result == AsyncEntity || result == TagMismatch) && Conserved()
      ensures result == NoError ==>
        && Valid() && tagLevel == old(tagLevel) - 1 && Stack() == old(Stack())[1..]
        && events == old(events) + [End(old(Stack())[0].name)]
      ensures result != NoError ==> events == old(events)
      ensures result == TagMismatch ==> tagLevel == |tagStack| + base + 1
    {
      if tagLevel == startTagLevel {
        return AsyncEntity;
      }
      var tag := tagStack[0];
      FrontAndRest(tagStack);
      tagStack := tagStack[1..];
      freeTagList := [tag] + freeTagList;
      if tag.raw != raw {
        return TagMismatch;
      }
      tagLevel := tagLevel - 1;
      events := events + [End(tag.name)];
      result := NoError;
    }

    /** The elements opened since the level, innermost first, and the ones around them. */
    ghost function Above(startTagLevel: nat): seq<Opened>
      requires Valid() && base <= startTagLevel <= tagLevel
      reads this`tagStack, this`freeTagList, this`tags, this`tagLevel, tagStack
    {
      Stack()[..tagLevel - startTagLevel]
    }

    ghost function Below(startTagLevel: nat): seq<Opened>
      requires Valid() && base <= startTagLevel <= tagLevel
      reads this`tagStack, this`freeTagList, this`tags, this`tagLevel, tagStack
    {
      Stack()[tagLevel - startTagLevel..]
    }

    /** The cases of doContent other than references. */
    method DoLiteral(startTagLevel: nat, t: Token) returns (result: Error, ghost evs: seq<Event>)
      requires Valid() && base <= startTagLevel <= tagLevel && !t.EntityRef?
      requires AttributeErrorsOnly(t)
      modifies this`tagStack, this`freeTagList, this`tagLevel, this`events, this`tags, tags
      ensures Conserved() && old(tags) <= tags && fresh(tags - old(tags))
      ensures result == NoError ==>
        && Valid() && startTagLevel <= tagLevel && events == old(events) + evs
        && Below(startTagLevel) == old(Below(startTagLevel))
        && Literal(old(Above(startTagLevel)), t) == Good(Above(startTagLevel), evs)
      ensures result != NoError ==> Literal(old(Above(startTagLevel)), t) == Bad(result) && result != RecursiveEntityRef
    {
      hide Values, Stack, Above, Below, Conserved;
      evs := [];
      result := NoError;
      match t {
        case StartTag(raw, name, atts, attsError) =>
          result, evs := DoStart(startTagLevel, raw, name, atts, attsError);
        case EndTag(raw) =>
          result, evs := DoEnd(startTagLevel, raw);
        case EmptyElement(name, atts, attsError) =>
          if attsError != NoError {
            return attsError, [];
          }
          evs := DoEmpty(startTagLevel, name, atts);
        case PredefinedRef(ch) =>
          evs := DoText(startTagLevel, [ch]);
        case CharRef(number, encoded) =>
          if number < 0 {
            return BadCharRef, [];
          }
          evs := DoText(startTagLevel, encoded);
        case DataChars(chars) =>
          evs := DoText(startTagLevel, chars);
        case DataNewline =>
          evs := DoText(startTagLevel, "\n");
        case Cdata(chars) =>
          evs := DoText(startTagLevel, chars);
        case XmlDecl =>
          result := MisplacedXmlPi;
        case Silent =>
      }
    }

    method DoText(startTagLevel: nat, chars: string) returns (ghost evs: seq<Event>)
      requires Valid() && base <= startTagLevel <= tagLevel
      modifies this`events
      ensures Valid() && Above(startTagLevel) == old(Above(startTagLevel))
      ensures Below(startTagLevel) == old(Below(startTagLevel))
      ensures evs == [Characters(chars)] && events == old(events) + evs
    {
      hide Values, Conserved;
      evs := Report(chars);
    }

    method DoEmpty(startTagLevel: nat, name: string, atts: Attributes) returns (ghost evs: seq<Event>)
      requires Valid() && base <= startTagLevel <= tagLevel
      modifies this`events
      ensures Valid() && Above(startTagLevel) == old(Above(startTagLevel))
      ensures Below(startTagLevel) == old(Below(startTagLevel))
      ensures evs == [Start(name, atts), End(name)] && events == old(events) + evs
    {
      hide Values, Conserved;
      evs := [Start(name, atts), End(name)];
      events := events + [Start(name, atts)];
      events := events + [End(name)];
    }

    method DoStart(startTagLevel: nat, raw: seq<bv8>, name: string, atts: Attributes, attsError: Error)
      returns (result: Error, ghost evs: seq<Event>)
      requires Valid() && base <= startTagLevel <= tagLevel
      modifies this`tagStack, this`freeTagList, this`tagLevel, this`events, this`tags, tags
      ensures Valid() && old(tags) <= tags && fresh(tags - old(tags)) && result == attsError
      ensures startTagLevel <= tagLevel && Below(startTagLevel) == old(Below(startTagLevel))
      ensures Above(startTagLevel) == [Opened(raw, name)] + old(Above(startTagLevel))
      ensures evs == [Start(name, atts)] && (result == NoError ==> events == old(events) + evs)
    {
      hide Values, Conserved;
      ghost var above, below := Above(startTagLevel), Below(startTagLevel);
      Split(Stack(), tagLevel - startTagLevel);
      evs := [Start(name, atts)];
      result := StartElement(raw, name, atts, attsError);
      SplitPush(Opened(raw, name), above, below);
    }

    method DoEnd(startTagLevel: nat, raw: seq<bv8>) returns (result: Error, ghost evs: seq<Event>)
      requires Valid() && base <= startTagLevel <= tagLevel
      modifies this`tagStack, this`freeTagList, this`tagLevel, this`events
      ensures Conserved() && (result == NoError || result == AsyncEntity || result == TagMismatch)
      ensures result == AsyncEntity <==> old(Above(startTagLevel)) == []
      ensures result == TagMismatch <==> old(Above(startTagLevel)) != [] && old(Above(startTagLevel))[0].raw != raw
      ensures result == NoError ==>
        && Valid() && startTagLevel <= tagLevel && Below(startTagLevel) == old(Below(startTagLevel))
        && Above(startTagLevel) == old(Above(startTagLevel))[1..]
        && evs == [End(old(Above(startTagLevel))[0].name)] && events == old(events) + evs
    {
      hide Values, Stack, Conserved;
      StackSize();
      ghost var above, below := Above(startTagLevel), Below(startTagLevel);
      Split(Stack(), tagLevel - startTagLevel);
      result := EndElement(startTagLevel, raw);
      evs := [];
      if above != [] {
        SplitPop(above, below);
        evs := [End(above[0].name)];
      }
    }

    /** The character data handler. */
    method Report(chars: string) returns (ghost evs: seq<Event>)
      modifies this`events
      ensures evs == [Characters(chars)] && events == old(events) + evs
    {
      evs := [Characters(chars)];
      events := events + [Characters(chars)];
    }

    /** In a document, the events so far are a tree that lacks the end tags of the open elements. */
    ghost predicate Growing(startTagLevel: nat)
      requires Valid() && base <= startTagLevel <= tagLevel
      reads this, tagStack
    {
      startTagLevel == 0 ==> OpenTree(Above(startTagLevel), events, true)
    }

    /** The loop of doContent; in a document it ends with the root element. */
    method DoTokens(startTagLevel: nat, toks: seq<Token>) returns (result: Error, ghost evs: seq<Event>, k: nat)
      requires Valid() && base <= startTagLevel <= tagLevel && WellDeclared(dtd) && WellReported(toks)
      requires Growing(startTagLevel) && (tagLevel == 0 ==> StartsDocument(toks))
      modifies this, tags
      ensures Records() && k <= |toks|
      ensures result == NoError ==>
        && In(startTagLevel, old(Below(startTagLevel)), old(open), old(openInternalEntities), old(events) + evs)
        && Settles(dtd, open, old(Above(startTagLevel)), toks[..k], Good(Above(startTagLevel), evs))
        && (k == 0 ==> tagLevel == old(tagLevel))
        && if tagLevel == 0 && k > 0 then IsDocument(events) else k == |toks| && Growing(startTagLevel)
      ensures result != NoError ==> Fails(dtd, old(open), old(Above(startTagLevel)), toks[..k], result)
      decreases Closed(), 2
    {
      hide Values, Stack, Above, Below, Conserved, WellDeclared, WellReported, Settles, Fails, OpenTree, IsDocument;
      k, evs := 0, [];
      ghost var above, below, entities, told := Above(startTagLevel), Below(startTagLevel), openInternalEntities,
        events;
      NothingWalked(dtd, open, above);
      NothingMore(toks, events);
      while k < |toks|
        invariant k <= |toks| && Records() && In(startTagLevel, below, old(open), entities, told + evs)
        invariant Settles(dtd, open, above, toks[..k], Good(Above(startTagLevel), evs))
        invariant Growing(startTagLevel) && (tagLevel == 0 ==> k == 0) && (k == 0 ==> tagLevel == old(tagLevel))
      {
        ghost var e;
        result, e := NextToken(startTagLevel, toks, k, above, evs);
        k := k + 1;
        if result != NoError {
          return;
        }
        AssertSums(told, evs, e);
        evs := evs + e;
        if (toks[k - 1].EndTag? || toks[k - 1].EmptyElement?) && tagLevel == 0 {
          return;
        }
      }
      result := NoError;
    }

    /** One round of the loop, after the first k tokens. */
    method NextToken(startTagLevel: nat, toks: seq<Token>, k: nat, ghost above: seq<Opened>, ghost evs: seq<Event>)
      returns (result: Error, ghost e: seq<Event>)
      requires Valid() && base <= startTagLevel <= tagLevel && WellDeclared(dtd) && WellReported(toks) && k < |toks|
      requires Settles(dtd, open, above, toks[..k], Good(Above(startTagLevel), evs))
      requires Growing(startTagLevel) && (tagLevel == 0 ==> k == 0 && StartsDocument(toks))
      modifies this, tags
      ensures Records()
      ensures result == NoError ==>
        && In(startTagLevel, old(Below(startTagLevel)), old(open), old(openInternalEntities), old(events) + e)
        && Settles(dtd, open, above, toks[..k + 1], Good(Above(startTagLevel), evs + e))
        && (tagLevel == 0 ==> IsDocument(events) && (toks[k].EndTag? || toks[k].EmptyElement?))
        && (tagLevel != 0 ==> Growing(startTagLevel))
      ensures result != NoError ==> Fails(dtd, old(open), above, toks[..k + 1], result)
      decreases Closed(), 1, 1
    {
      hide Values, Conserved, WellDeclared, Settles, SettlesOne, AttributeErrorsOnly, OpenTree, IsDocument, Fails;
      hide FailsOne;
      ghost var before, told := Good(Above(startTagLevel), evs), events;
      WellReportedAt(toks, k);
      result, e := DoToken(startTagLevel, toks[k]);
      if result != NoError {
        NextFails(dtd, old(open), above, toks, k, before, result);
      } else {
        NextTree(dtd, open, before.above, toks[k], Good(Above(startTagLevel), e), told, startTagLevel);
        TokenSettles(dtd, open, above, toks, k, before, Good(Above(startTagLevel), e));
      }
    }

    /** doContent. */
    method DoContent(startTagLevel: nat, text: Input, haveMore: bool)
      returns (result: Error, ghost evs: seq<Event>, k: nat)
      requires Valid() && base <= startTagLevel <= tagLevel && WellDeclared(dtd) && WellReported(text.tokens)
      requires Growing(startTagLevel) && (tagLevel == 0 ==> StartsDocument(text.tokens))
      modifies this, tags
      ensures Records() && k <= |text.tokens|
      ensures result == NoError ==>
        In(startTagLevel, old(Below(startTagLevel)), old(open), old(openInternalEntities), old(events) + evs)
      ensures result == NoError && startTagLevel == 0 ==>
        && (k == 0 ==> tagLevel == old(tagLevel))
        && if tagLevel == 0 && k > 0 then IsDocument(events) else haveMore && k == |text.tokens| && Growing(0)
      ensures result == NoError && (haveMore || startTagLevel == 0) ==>
        Settles(dtd, open, old(Above(startTagLevel)), text.tokens[..k], Good(Above(startTagLevel), evs))
      ensures result == NoError && !haveMore ==> tagLevel == startTagLevel
      ensures result != NoError && startTagLevel == 0 ==>
        || Fails(dtd, old(open), old(Above(0)), text.tokens[..k], result)
        || (k == |text.tokens| && LeavesOpen(dtd, old(open), old(Above(0)), text.tokens) &&
          result == EndError(text.ending, haveMore))
      ensures startTagLevel > 0 && startTagLevel == old(tagLevel) && !haveMore ==>
        if result == NoError then SettlesWhole(dtd, open, text, Good([], evs))
          else FailsWhole(dtd, old(open), text, result)
      decreases Closed(), 3
    {
      hide Values, Stack, Above, Below, Conserved, WellDeclared, WellReported;
      hide Settles, SettlesWhole, OpenTree, IsDocument, Finish, FailsWhole, Fails;
      LevelAtTop();
      ghost var told, above := events, Above(startTagLevel);
      result, evs, k := DoTokens(startTagLevel, text.tokens);
      if result != NoError || (tagLevel == 0 && k > 0) {
        FailsText(dtd, old(open), text, k, result);
        return;
      }
      TextSettles(dtd, open, text, Good(Above(startTagLevel), evs));
      AboveSize(startTagLevel);
      StaysOpen(dtd, open, above, text.tokens, Good(Above(startTagLevel), evs));
      result, evs := DoEnding(startTagLevel, text.ending, haveMore, told, evs);
    }

    /** The cases of doContent for the end of the input. */
    method DoEnding(startTagLevel: nat, ending: Ending, haveMore: bool, ghost told: seq<Event>, ghost evs: seq<Event>)
      returns (result: Error, ghost all: seq<Event>)
      requires Valid() && base <= startTagLevel <= tagLevel && events == told + evs
      modifies this`events
      ensures events == told + all && (result == NoError && haveMore ==> all == evs)
      ensures startTagLevel == 0 ==> result == EndError(ending, haveMore)
      ensures result == NoError && !haveMore ==> tagLevel == startTagLevel
      ensures startTagLevel > 0 && !haveMore ==>
        Finish(Good(Above(startTagLevel), evs), ending) == if result == NoError then Good([], all) else Bad(result)
      ensures result != RecursiveEntityRef
    {
      hide Values, Conserved;
      ghost var more;
      all := evs;
      if ending == Invalid {
        return InvalidToken, evs;
      }
      if haveMore {
        return NoError, evs;
      }
      match ending {
        case Invalid =>
        case Partial => return UnclosedToken, evs;
        case PartialChar => return PartialCharacter, evs;
        case TrailingCr =>
          more := Report("\n");
          AssertSums(told, evs, more);
          all := evs + more;
        case TrailingRsqb(chars) =>
          more := Report(chars);
          AssertSums(told, evs, more);
          all := evs + more;
        case Clean =>
      }
      if startTagLevel == 0 {
        return NoElements, all;
      }
      if tagLevel != startTagLevel {
        return AsyncEntity, all;
      }
      result := NoError;
    }

    /** What is known between two buffers. */
    ghost predicate Between(buffers: seq<Input>, i: nat, toks: seq<Token>)
      requires Valid() && base == 0 && i <= |buffers|
      reads this, tagStack
    {
      && open == {} && (toks == [] <==> tagLevel == 0) && Growing(0)
      && toks == AllTokens(buffers[..i]) && Settles(dtd, {}, [], toks, Good(Above(0), events))
    }

    /** contentProcessor, called with buffer i after these tokens. */
    method ParseNext(buffers: seq<Input>, i: nat, ghost toks: seq<Token>)
      returns (result: Error, ghost more: seq<Token>, done: bool)
      requires Valid() && base == 0 && WellDeclared(dtd) && i < |buffers|
      requires Between(buffers, i, toks) && StartsDocument(AllTokens(buffers)) && WellReported(buffers[i].tokens)
      modifies this, tags
      ensures Records() && more <= AllTokens(buffers)
      ensures result == NoError ==>
        if done then
          Valid() && Stack() == [] && open == {} && IsDocument(events) && Settles(dtd, {}, [], more, Good([], events))
        else
          i + 1 < |buffers| && Valid() && Between(buffers, i + 1, more)
      ensures result != NoError ==> Fails(dtd, {}, [], more, result) || EndsWrong(dtd, buffers, more, result)
    {
      hide Values, Conserved, WellDeclared, WellReported, Settles, Fails, LeavesOpen, EndsWrong;
      hide OpenTree, IsDocument, Finish, AllTokens;
      AboveSize(0);
      if toks == [] {
        StartsIn(buffers, i);
      }
      ghost var before, told := Above(0), events;
      ghost var evs;
      var k;
      result, evs, k := DoContent(0, buffers[i], i + 1 < |buffers|);
      ghost var part := buffers[i].tokens[..k];
      TokensPrefix(buffers, i, k);
      more, done := toks + part, false;
      if result != NoError {
        FailsConcat(dtd, {}, toks, Good(before, told), part, result);
        EndsConcat(dtd, buffers, toks, Good(before, told), i, k, result);
        return;
      }
      SettlesConcat(dtd, {}, toks, Good(before, told), part, Good(Above(0), evs));
      done := tagLevel == 0 && k > 0;
    }

    /** contentProcessor called for one buffer after the other, up to the end of the root element. */
    method ParseContent(buffers: seq<Input>) returns (result: Error, ghost toks: seq<Token>)
      requires Valid() && base == 0 && Stack() == [] && events == [] && open == {} && WellDeclared(dtd)
      requires buffers != [] && StartsDocument(AllTokens(buffers))
      requires forall i :: 0 <= i < |buffers| ==> WellReported(buffers[i].tokens)
      modifies this, tags
      ensures Records() && toks <= AllTokens(buffers)
      ensures result == NoError ==>
        && Valid() && Stack() == [] && open == {} && IsDocument(events)
        && Settles(dtd, {}, [], toks, Good([], events)) && Tells(dtd, toks, events)
      ensures result != NoError ==> Fails(dtd, {}, [], toks, result) || EndsWrong(dtd, buffers, toks, result)
      ensures CycleReported(dtd, toks, result)
    {
      hide Values, Conserved, WellDeclared, WellReported, Settles, Fails, EndsWrong, OpenTree, IsDocument, AllTokens;
      hide CycleReported, Tells;
      AllReported(buffers);
      toks := [];
      Nowhere(dtd, buffers);
      var i, done := 0, false;
      AboveSize(0);
      while !done
        invariant i < |buffers| && Records() && toks <= AllTokens(buffers) && Valid()
        invariant if done then Stack() == [] && open == {} && IsDocument(events) &&
          Settles(dtd, {}, [], toks, Good([], events))
                  else Between(buffers, i, toks)
        decreases !done, |buffers| - i
      {
        result, toks, done := ParseNext(buffers, i, toks);
        if result != NoError {
          FailedCycles(dtd, buffers, toks, result);
          return;
        }
        if !done {
          i := i + 1;
        }
      }
      ReadCycles(dtd, toks, Good([], events));
      ReadingTells(dtd, [], toks, Good([], events));
      result := NoError;
    }

    /** How many entities are not open: what shrinks with every level of recursion. */
    ghost function Closed(): nat
      reads this
    {
      |dtd.entities.Keys - open|
    }

    /** A well-formed state with these elements around the ones opened since the level. */
    ghost predicate In(startTagLevel: nat, below: seq<Opened>, names: set<string>, entities: seq<OpenEntity>,
                       told: seq<Event>)
      reads this, tagStack
    {
      && Valid() && base <= startTagLevel <= tagLevel && Below(startTagLevel) == below
      && open == names && openInternalEntities == entities && events == told
    }

    twostate predicate Records()
      reads this
    {
      Conserved() && old(tags) <= tags && fresh(tags - old(tags))
    }

    /** One token of doContent. */
    method DoToken(startTagLevel: nat, t: Token) returns (result: Error, ghost evs: seq<Event>)
      requires Valid() && base <= startTagLevel <= tagLevel && WellDeclared(dtd) && AttributeErrorsOnly(t)
      requires t.EntityRef? ==> tagLevel > 0
      modifies this, tags
      ensures Records()
      ensures result == NoError ==>
        && In(startTagLevel, old(Below(startTagLevel)), old(open), old(openInternalEntities), old(events) + evs)
        && SettlesOne(dtd, open, old(Above(startTagLevel)), t, Good(Above(startTagLevel), evs))
      ensures result != NoError ==> FailsOne(dtd, old(open), old(Above(startTagLevel)), t, result)
      decreases Closed(), 1, 0
    {
      hide Values, Stack, Above, Below, Conserved, WellDeclared, FailsOne, Resolve, SettlesOne, Literal;
      if t.EntityRef? {
        result, evs := DoReference(startTagLevel, t.name);
        assert t == EntityRef(t.name);
      } else {
        result, evs := DoLiteral(startTagLevel, t);
        LiteralCases(dtd, old(open), old(Above(startTagLevel)), t);
      }
    }

    /** The case of doContent for a reference to an entity that is not predefined. */
    method DoReference(startTagLevel: nat, name: string) returns (result: Error, ghost evs: seq<Event>)
      requires Valid() && base <= startTagLevel <= tagLevel && WellDeclared(dtd) && tagLevel > 0
      modifies this, tags
      ensures Records()
      ensures result == NoError ==>
        && In(startTagLevel, old(Below(startTagLevel)), old(open), old(openInternalEntities), old(events) + evs)
        && Above(startTagLevel) == old(Above(startTagLevel))
        && SettlesOne(dtd, open, old(Above(startTagLevel)), EntityRef(name), Good(Above(startTagLevel), evs))
      ensures result != NoError ==> FailsOne(dtd, old(open), old(Above(startTagLevel)), EntityRef(name), result)
      decreases Closed(), 0, 1
    {
      hide Values, Stack, Conserved, WellDeclared, FailsOne, SettlesOne, SettlesWhole, FailsWhole, Resolve, IsForest;
      ghost var above, before := Above(startTagLevel), open;
      evs := [];
      result := NoError;
      var r := Resolve(dtd, open, name);
      UnresolvedCases(dtd, open, above, name);
      match r {
        case Skip => assert events + evs == events;
        case Wrong(error) =>
          result := error;
        case Replace(text) =>
          result, evs := ProcessInternalEntity(name, text);
          ReferenceCases(dtd, before, above, name, text, result, evs);
      }
    }

    lemma StackSize()
      requires Valid()
      ensures |Stack()| == tagLevel - base
    {}

    lemma AboveSize(startTagLevel: nat)
      requires Valid() && base <= startTagLevel <= tagLevel
      ensures |Above(startTagLevel)| == tagLevel - startTagLevel
    {}

    lemma LevelAtTop()
      requires Valid() && base <= tagLevel
      ensures Below(tagLevel) == Stack() && Above(tagLevel) == []
    {}

    method Mark(name: string)
      modifies this`open, this`openInternalEntities
      ensures open == old(open) + {name}
      ensures openInternalEntities == [OpenEntity(name, tagLevel)] + old(openInternalEntities)
      ensures openInternalEntities[1..] == old(openInternalEntities)
    {
      open := open + {name};
      openInternalEntities := [OpenEntity(name, tagLevel)] + openInternalEntities;
    }

    method Unmark(name: string)
      requires openInternalEntities != []
      modifies this`open, this`openInternalEntities
      ensures open == old(open) - {name} && openInternalEntities == old(openInternalEntities[1..])
    {
      open := open - {name};
      openInternalEntities := openInternalEntities[1..];
    }

    /** processInternalEntity: the entity is marked while its text is content of its own. */
    method ProcessInternalEntity(name: string, text: Input) returns (result: Error, ghost evs: seq<Event>)
      requires Valid() && tagLevel > 0 && WellDeclared(dtd) && Resolve(dtd, open, name) == Replace(text)
      modifies this, tags
      ensures Records()
      ensures result == NoError ==>
        && Valid() && tagLevel == old(tagLevel) && Stack() == old(Stack())
        && open == old(open) && openInternalEntities == old(openInternalEntities)
        && events == old(events) + evs && IsForest(evs)
        && SettlesWhole(dtd, open + {name}, text, Good([], evs))
      ensures result != NoError ==> FailsWhole(dtd, old(open) + {name}, text, result)
      decreases Closed(), 0, 0
    {
      hide Values, Stack, Above, Below, Conserved, WellDeclared, WellReported, SettlesWhole, FailsWhole, Resolve;
      hide OpenTree, IsForest;
      LevelAtTop();
      FewerClosed(dtd, open, name);
      DeclaredReported(dtd, open, name);
      Mark(name);
      ghost var k;
      result, evs, k := DoContent(tagLevel, text, false);
      if result == NoError {
        BalancedText(dtd, open, text, evs);
        LevelAtTop();
        Unmark(name);
      }
    }
  }

  /** The error is the one the reading settles with, or a reference to an open entity, and then the
      reading never settles. */
  ghost predicate FailsOne(dtd: Dtd, blocked: set<string>, above: seq<Opened>, t: Token, error: Error) {
    if error == RecursiveEntityRef then forall o :: !SettlesOne(dtd, blocked, above, t, o)
    else SettlesOne(dtd, blocked, above, t, Bad(error))
  }

  ghost predicate FailsWhole(dtd: Dtd, blocked: set<string>, text: Input, error: Error) {
    if error == RecursiveEntityRef then forall o :: !SettlesWhole(dtd, blocked, text, o)
    else SettlesWhole(dtd, blocked, text, Bad(error))
  }

  ghost predicate Fails(dtd: Dtd, blocked: set<string>, above: seq<Opened>, toks: seq<Token>, error: Error) {
    if error == RecursiveEntityRef then forall o :: !Settles(dtd, blocked, above, toks, o)
    else Settles(dtd, blocked, above, toks, Bad(error))
  }

  /** The prolog hands over at the start of the root element. */
  ghost predicate StartsDocument(toks: seq<Token>) {
    toks != [] ==> toks[0].StartTag? || toks[0].EmptyElement?
  }

  lemma StartsIn(buffers: seq<Input>, i: nat)
    requires i < |buffers| && StartsDocument(AllTokens(buffers)) && AllTokens(buffers[..i]) == []
    ensures StartsDocument(buffers[i].tokens)
  {
    hide AllTokens;
    var toks := buffers[i].tokens;
    TokensPrefix(buffers, i, |toks|);
    assert [] + toks[..|toks|] == toks;
  }

  lemma WellReportedAt(toks: seq<Token>, k: nat)
    requires WellReported(toks) && k < |toks|
    ensures AttributeErrorsOnly(toks[k])
  {}

  lemma NextFails(dtd: Dtd, blocked: set<string>, above: seq<Opened>, toks: seq<Token>, k: nat, o: Reading,
                  error: Error)
    requires k < |toks| && o.Good? && Settles(dtd, blocked, above, toks[..k], o)
    requires FailsOne(dtd, blocked, o.above, toks[k], error)
    ensures Fails(dtd, blocked, above, toks[..k + 1], error)
  {
    hide Settles, SettlesOne;
    if error == RecursiveEntityRef {
      TokenNeverSettles(dtd, blocked, above, toks, k, o);
    } else {
      TokenSettles(dtd, blocked, above, toks, k, o, Bad(error));
    }
  }

  lemma NextTree(dtd: Dtd, blocked: set<string>, above: seq<Opened>, t: Token, o: Reading, events: seq<Event>,
                 startTagLevel: nat)
    requires o.Good? && SettlesOne(dtd, blocked, above, t, o)
    requires startTagLevel == 0 ==> OpenTree(above, events, true)
    requires startTagLevel == 0 && above == [] ==> t.StartTag? || t.EmptyElement?
    ensures startTagLevel == 0 ==>
      if o.above == [] then IsDocument(events + o.events) else OpenTree(o.above, events + o.events, true)
    ensures o.above == [] ==> above == [] || t.EndTag?
    ensures o.above == [] && above == [] ==> !t.StartTag?
  {
    hide OpenTree, Whole, IsDocument, Resolve;
    var d: nat :| One(dtd, blocked, above, t, d) == o;
    if startTagLevel == 0 {
      OneOpenTree(dtd, blocked, above, t, d, events, true);
    }
  }

  lemma NothingMore(toks: seq<Token>, events: seq<Event>)
    ensures toks[..0] == [] && events + [] == events
  {}

  lemma AssertSums(a: seq<Event>, b: seq<Event>, c: seq<Event>)
    ensures a + b + c == a + (b + c) && (c == [] ==> b + c == b)
  {}

  /** All tokens read, and then the end of the text. */
  lemma TextSettles(dtd: Dtd, blocked: set<string>, text: Input, o: Reading)
    requires o.Good?
    ensures Settles(dtd, blocked, [], text.tokens[..|text.tokens|], o) ==>
      var f := Finish(o, text.ending);
      SettlesWhole(dtd, blocked, text, f) && (f.Bad? ==> FailsWhole(dtd, blocked, text, f.error))
  {
    hide Settles;
    assert text.tokens[..|text.tokens|] == text.tokens;
    WholeSettles(dtd, blocked, text);
    assert Settles(dtd, blocked, [], text.tokens, o) ==> SettlesWhole(dtd, blocked, text, Finish(o, text.ending));
  }

  lemma DeclaredReported(dtd: Dtd, blocked: set<string>, name: string)
    requires WellDeclared(dtd) && Resolve(dtd, blocked, name).Replace?
    ensures WellReported(Resolve(dtd, blocked, name).text.tokens)
  {}

  ghost function AllTokens(buffers: seq<Input>): seq<Token> {
    if buffers == [] then [] else AllTokens(buffers[..|buffers| - 1]) + buffers[|buffers| - 1].tokens
  }

  lemma {:induction false} TokensPrefix(buffers: seq<Input>, i: nat, k: nat)
    requires i < |buffers| && k <= |buffers[i].tokens|
    ensures AllTokens(buffers[..i]) + buffers[i].tokens[..k] <= AllTokens(buffers)
    ensures k == |buffers[i].tokens| ==> AllTokens(buffers[..i]) + buffers[i].tokens[..k] == AllTokens(buffers[..i + 1])
    decreases |buffers|
  {
    assert buffers[..i + 1][..i] == buffers[..i];
    if i + 1 == |buffers| {
      assert buffers[..i + 1] == buffers;
    } else {
      var front := buffers[..|buffers| - 1];
      TokensPrefix(front, i, k);
      assert front[..i] == buffers[..i];
    }
  }

  lemma {:induction false} AllReported(buffers: seq<Input>)
    requires forall i :: 0 <= i < |buffers| ==> WellReported(buffers[i].tokens)
    ensures WellReported(AllTokens(buffers))
  {
    if buffers != [] {
      AllReported(buffers[..|buffers| - 1]);
    }
  }

  /** RECURSIVE_ENTITY_REF says that references run in a circle, and success that none do. */
  ghost predicate CycleReported(dtd: Dtd, toks: seq<Token>, result: Error) {
    && (result == RecursiveEntityRef ==> exists p :: Chain(dtd, toks, p) && Cyclic(p))
    && (result == NoError ==> forall p :: Chain(dtd, toks, p) ==> !Cyclic(p))
  }

  lemma FailedCycles(dtd: Dtd, buffers: seq<Input>, toks: seq<Token>, result: Error)
    requires WellDeclared(dtd) && WellReported(AllTokens(buffers)) && toks <= AllTokens(buffers) && result != NoError
    requires Fails(dtd, {}, [], toks, result) || EndsWrong(dtd, buffers, toks, result)
    ensures CycleReported(dtd, toks, result)
  {
    hide WellDeclared, Settles, AllTokens, AttributeErrorsOnly;
    assert forall i :: 0 <= i < |toks| ==> toks[i] == AllTokens(buffers)[i];
    if result == RecursiveEntityRef {
      var p := NeverSettlingIsCyclic(dtd, toks);
    }
  }

  lemma ReadCycles(dtd: Dtd, toks: seq<Token>, o: Reading)
    requires o.Good? && Settles(dtd, {}, [], toks, o)
    ensures CycleReported(dtd, toks, NoError)
  {
    hide Walk;
    var d: nat :| Walk(dtd, {}, [], toks, d) == o;
    forall p | Chain(dtd, toks, p) ensures !Cyclic(p) {
      if Cyclic(p) {
        CyclesAreNotRead(dtd, [], toks, p, d);
      }
    }
  }

  lemma Nowhere(dtd: Dtd, buffers: seq<Input>)
    ensures AllTokens(buffers[..0]) == [] && Settles(dtd, {}, [], [], Good([], [])) && OpenTree([], [], true)
  {
    NothingWalked(dtd, {}, []);
  }

  /** Reading on where the last buffer ended. */
  lemma SettlesConcat(dtd: Dtd, blocked: set<string>, a: seq<Token>, o: Reading, b: seq<Token>, p: Reading)
    requires o.Good? && p.Good?
    requires Settles(dtd, blocked, [], a, o) && Settles(dtd, blocked, o.above, b, p)
    ensures Settles(dtd, blocked, [], a + b, Good(p.above, o.events + p.events))
  {
    hide Walk;
    var d: nat :| Walk(dtd, blocked, [], a, d) == o;
    var e: nat :| Walk(dtd, blocked, o.above, b, e) == p;
    var m := if d <= e then e else d;
    DeeperSame(dtd, blocked, [], a, d, m);
    DeeperSame(dtd, blocked, o.above, b, e, m);
    WalkConcat(dtd, blocked, [], a, b, m);
  }

  lemma FailsConcat(dtd: Dtd, blocked: set<string>, a: seq<Token>, o: Reading, b: seq<Token>, error: Error)
    requires o.Good? && error != NoError && Settles(dtd, blocked, [], a, o)
    ensures Fails(dtd, blocked, o.above, b, error) ==> Fails(dtd, blocked, [], a + b, error)
  {
    hide Walk;
    var d: nat :| Walk(dtd, blocked, [], a, d) == o;
    forall n: nat
      ensures Walk(dtd, blocked, [], a + b, n) ==
        DocumentContent.Continue(dtd, blocked, Walk(dtd, blocked, [], a, n), b, n)
    {
      WalkConcat(dtd, blocked, [], a, b, n);
    }
    if Fails(dtd, blocked, o.above, b, error) {
      if error == RecursiveEntityRef {
        forall n: nat
          ensures !Settled(Walk(dtd, blocked, [], a + b, n))
        {
          var p := Walk(dtd, blocked, [], a, n);
          if Settled(p) {
            SettlesOnce(dtd, blocked, [], a, o, p);
            assert !Settles(dtd, blocked, o.above, b, Walk(dtd, blocked, o.above, b, n));
          }
        }
      } else {
        var e: nat :| Walk(dtd, blocked, o.above, b, e) == Bad(error);
        var m := if d <= e then e else d;
        DeeperSame(dtd, blocked, [], a, d, m);
        DeeperSame(dtd, blocked, o.above, b, e, m);
      }
    }
  }

  /** The error for input that ends before the root element does. */
  function EndError(ending: Ending, haveMore: bool): Error {
    match ending
    case Invalid => InvalidToken
    case Partial => if haveMore then NoError else UnclosedToken
    case PartialChar => if haveMore then NoError else PartialCharacter
    case _ => if haveMore then NoError else NoElements
  }

  /** Which ends of the input give which error; only input that cannot become a token is wrong before
      the last buffer. */
  lemma EndErrors(ending: Ending)
    ensures ending == Invalid <==> EndError(ending, true) == InvalidToken
    ensures ending != Invalid <==> EndError(ending, true) == NoError
    ensures ending == Invalid <==> EndError(ending, false) == InvalidToken
    ensures ending == Partial <==> EndError(ending, false) == UnclosedToken
    ensures ending == PartialChar <==> EndError(ending, false) == PartialCharacter
    ensures ending.Clean? || ending.TrailingCr? || ending.TrailingRsqb? <==> EndError(ending, false) == NoElements
  {}

  /** Everything was read, and elements are left open (or there was nothing to read). */
  ghost predicate LeavesOpen(dtd: Dtd, blocked: set<string>, above: seq<Opened>, toks: seq<Token>) {
    exists a, es :: (a != [] || toks == []) && Settles(dtd, blocked, above, toks, Good(a, es))
  }

  lemma StaysOpen(dtd: Dtd, blocked: set<string>, above: seq<Opened>, toks: seq<Token>, o: Reading)
    requires o.Good?
    ensures (o.above != [] || toks == []) && Settles(dtd, blocked, above, toks[..|toks|], o) ==>
      LeavesOpen(dtd, blocked, above, toks)
  {
    hide Settles;
    assert toks[..|toks|] == toks;
    assert o == Good(o.above, o.events);
  }

  /** One of the buffers ends wrong while the root element is open or has not started. */
  ghost predicate EndsWrong(dtd: Dtd, buffers: seq<Input>, toks: seq<Token>, error: Error) {
    exists i ::
      && 0 <= i < |buffers| && toks == AllTokens(buffers[..i + 1]) && OpenAfter(dtd, toks)
      && error == EndError(buffers[i].ending, i + 1 < |buffers|)
  }

  ghost predicate OpenAfter(dtd: Dtd, toks: seq<Token>) {
    exists a, es :: (a != [] || toks == []) && Settles(dtd, {}, [], toks, Good(a, es))
  }

  lemma EndsConcat(dtd: Dtd, buffers: seq<Input>, toks: seq<Token>, o: Reading, i: nat, k: nat, error: Error)
    requires i < |buffers| && k <= |buffers[i].tokens| && o.Good?
    requires toks == AllTokens(buffers[..i]) && Settles(dtd, {}, [], toks, o)
    requires o.above != [] || toks == []
    ensures
      (k == |buffers[i].tokens| && LeavesOpen(dtd, {}, o.above, buffers[i].tokens) &&
        error == EndError(buffers[i].ending, i + 1 < |buffers|))
      ==> EndsWrong(dtd, buffers, toks + buffers[i].tokens[..k], error)
  {
    hide Settles, AllTokens, EndError;
    TokensPrefix(buffers, i, k);
    if k == |buffers[i].tokens| && LeavesOpen(dtd, {}, o.above, buffers[i].tokens) {
      var a, es :| (a != [] || buffers[i].tokens == []) && Settles(dtd, {}, o.above, buffers[i].tokens, Good(a, es));
      if a == [] {
        NothingWalked(dtd, {}, o.above);
        SettlesOnce(dtd, {}, o.above, [], Good(a, es), Good(o.above, []));
      }
      SettlesConcat(dtd, {}, toks, o, buffers[i].tokens, Good(a, es));
      assert buffers[i].tokens[..k] == buffers[i].tokens;
    }
  }

  /** An accepted document, as the path adapter sees it: one callback for each element of its tree,
      if no name in the input has a slash and no text a null character. */
  lemma DocumentCallbacks(dtd: Dtd, toks: seq<Token>, events: seq<Event>)
    requires PlainDtd(dtd) && PlainTokens(toks)
    requires Settles(dtd, {}, [], toks, Good([], events)) && IsDocument(events)
    ensures exists name, atts, content ::
      var f := Element(name, atts, content, Nothing);
      events == Events(f) && Run(Initial, events) == Did(Initial, Calls(f, ""))
  {
    hide Run, Calls, Walk;
    var name, atts, content :| events == Events(Element(name, atts, content, Nothing));
    var d: nat :| Walk(dtd, {}, [], toks, d) == Good([], events);
    WalkPlain(dtd, {}, [], toks, d);
    PlainForest(Element(name, atts, content, Nothing));
    OneCallbackEach(Element(name, atts, content, Nothing));
  }

  lemma LiteralCases(dtd: Dtd, blocked: set<string>, above: seq<Opened>, t: Token)
    requires !t.EntityRef?
    ensures Literal(above, t).Good? ==> SettlesOne(dtd, blocked, above, t, Literal(above, t))
    ensures Literal(above, t).Bad? && Literal(above, t).error != RecursiveEntityRef ==>
      FailsOne(dtd, blocked, above, t, Literal(above, t).error)
  {
    hide Literal, SettlesOne;
    if Settled(Literal(above, t)) {
      LiteralSettles(dtd, blocked, above, t);
    }
  }

  lemma UnresolvedCases(dtd: Dtd, blocked: set<string>, above: seq<Opened>, name: string)
    ensures var r := Resolve(dtd, blocked, name);
      && (r.Skip? ==> SettlesOne(dtd, blocked, above, EntityRef(name), Good(above, [])))
      && (r.Wrong? ==> r.error != NoError && FailsOne(dtd, blocked, above, EntityRef(name), r.error))
  {
    hide SettlesOne;
    UnresolvedSettles(dtd, blocked, above, name);
  }

  lemma ReferenceCases(dtd: Dtd, blocked: set<string>, above: seq<Opened>, name: string, text: Input, result: Error,
                       evs: seq<Event>)
    requires Resolve(dtd, blocked, name) == Replace(text)
    requires if result == NoError then SettlesWhole(dtd, blocked + {name}, text, Good([], evs))
             else FailsWhole(dtd, blocked + {name}, text, result)
    ensures if result == NoError then SettlesOne(dtd, blocked, above, EntityRef(name), Good(above, evs))
            else FailsOne(dtd, blocked, above, EntityRef(name), result)
  {
    hide SettlesOne, SettlesWhole, Resolve;
    if result == RecursiveEntityRef {
      ReferenceNeverSettles(dtd, blocked, above, name, text);
    } else {
      ReferenceSettles(dtd, blocked, above, name, text, if result == NoError then Good([], evs) else Bad(result));
    }
  }

  lemma BalancedText(dtd: Dtd, blocked: set<string>, text: Input, evs: seq<Event>)
    requires SettlesWhole(dtd, blocked, text, Good([], evs))
    ensures IsForest(evs)
  {
    hide Whole, IsForest;
    var d: nat :| Whole(dtd, blocked, text, d) == Good([], evs);
    WholeIsForest(dtd, blocked, text, d);
  }

  lemma FailsText(dtd: Dtd, blocked: set<string>, text: Input, k: nat, error: Error)
    requires k <= |text.tokens|
    ensures Fails(dtd, blocked, [], text.tokens[..k], error) && error != NoError ==>
      FailsWhole(dtd, blocked, text, error)
  {
    hide Settles, SettlesWhole, Walk;
    if Fails(dtd, blocked, [], text.tokens[..k], error) {
      PrefixFails(dtd, blocked, [], text.tokens, k, error);
      WholeSettles(dtd, blocked, text);
    }
  }

  lemma FewerClosed(dtd: Dtd, open: set<string>, name: string)
    requires Resolve(dtd, open, name).Replace?
    ensures |dtd.entities.Keys - (open + {name})| < |dtd.entities.Keys - open|
    ensures open + {name} - {name} == open
  {
    var keys := dtd.entities.Keys;
    assert keys - (open + {name}) == keys - open - {name};
  }

  lemma Split(stack: seq<Opened>, n: nat)
    requires n <= |stack|
    ensures stack == stack[..n] + stack[n..]
  {}

  lemma SplitPush(o: Opened, above: seq<Opened>, below: seq<Opened>)
    ensures ([o] + (above + below))[..|above| + 1] == [o] + above
    ensures ([o] + (above + below))[|above| + 1..] == below
  {}

  lemma SplitPop(above: seq<Opened>, below: seq<Opened>)
    requires above != []
    ensures (above + below)[1..][..|above| - 1] == above[1..]
    ensures (above + below)[1..][|above| - 1..] == below
    ensures (above + below)[0] == above[0]
  {}

  lemma FrontAndRest(s: seq<Tag>)
    requires s != []
    ensures multiset(s) == multiset{s[0]} + multiset(s[1..])
  {
    assert s == [s[0]] + s[1..];
  }

  lemma OnceOnly(stack: seq<Tag>, free: seq<Tag>, tag: Tag, tags: set<Tag>)
    requires multiset(stack) + multiset(free) + multiset{tag} == multiset(tags)
    ensures tag !in stack && tag in tags
  {
    assert multiset(tags)[tag] <= 1;
    assert tag in multiset(tags);
  }
}
