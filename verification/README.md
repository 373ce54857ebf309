# upnpavd, a Dafny model of its hard parts

upnpavd serves and mounts UPnP AV media. This project models the code in it that carries the most
state: the XML parser in parser/expat, the callback adapter on top of it, and the path cache of the
file system in upnpfs. Code that changes state in place is modelled by classes, arrays and loops,
and proved against functions whose properties are then proved as lemmas.

| file | what it models |
|---|---|
| Wrappers.dfy | values that may be absent |
| Probing.dfy, HashTable.dfy | the double-hashed table behind all declarations: every probe ends, and lookup, growth, clearing and iteration refine a finite map |
| NsAtts.dfy | the versioned hash that finds repeated attribute names without ever being cleared |
| XmlRole.dfy, ContentModel.dfy | the handlers of element declarations and the group actions: an automaton with a counter and a stack that reads exactly the content models of XML 1.0, one declaration after the other |
| Scaffold.dfy, ScaffoldDtd.dfy, ElementDeclaration.dfy | the scaffold of cells behind it, the block laid out for the handler, and the reader as a whole |
| References.dfy, AttributeValue.dfy | chains of references; entity expansion in attribute values, compared with plain recursive expansion |
| DocumentContent.dfy, ContentText.dfy, ContentProcessor.dfy | element content: the tag stack and recursive entities, compared with plain recursive reading; the events form one tree and tell the text and tags of the input |
| RawNames.dfy | the names of open elements, kept while the parse buffer is overwritten |
| PathAdapter.dfy | three handlers that turn the events into one callback for each element |
| Namespaces.dfy, Context.dfy | scoped bindings, and the context string printed for and read by a parser of an external entity |
| Utf.dfy, Converters.dfy | encoders, validity tests and converters, resumable at any output limit |
| StringPool.dfy | the block allocator for strings, and conversion into it |
| InputBuffer.dfy | the sliding parse buffer |
| LinkedList.dfy, PathWalk.dfy, PathMeaning.dfy, PathCache.dfy | the intrusive list, the walk from a device down the listings of a server and what its answers say, and the cache that must agree with it |

Bytes are `bv8`, characters of names are `char`, and sizes are unbounded. Tokens are a datatype that
carries what the tokenizer found. The namespace parts describe a parser created with a namespace
separator. Callbacks, the media server and allocation outcomes are parameters or recorded values.

Where the code and its comments or conventions disagree, the model follows the code:

- utf8_toUtf8 says that it avoids copying partial characters. Its back-off stops after the last byte
  that is no trail byte, which may be a lead byte; `Converters.CopyOnBoundary` says exactly when the
  copy ends on a boundary (parser/expat/xmltok.c:325-331).
- A finished string stays where it is until the pool is cleared, unless it is empty and lies at the
  start of its block; `StringPool.StringPool.FinishAndGrow` says exactly when it is lost
  (parser/expat/xmlparse.c:6122-6134).
- The comment on probing limits the step to a quarter of the table; the cast to one byte limits it
  further (parser/expat/xmlparse.c:115-126).
- On a tag mismatch the record is popped and the level is not lowered; after any other outcome level
  and depth agree (parser/expat/xmlparse.c:2413-2429).
- do_insertcache evicts before it validates, so a record that is refused still costs the oldest one
  (upnpfs/do_findpath.c:115-120).
- A directory read files records that the walk contradicts if the path does not have one slash in
  front, or ends in a slash, or the child has an empty title; `PathWalk.PrefillExact` has the exact
  condition. It is for the caller of the file system operations to list canonical paths. A lookup
  files one below an entry with an empty title; `PathCache.RunsAgree` says that the answers of all
  runs agree with the walk exactly if no such record can be filed (upnpfs/op_readdir.c:163-173,
  upnpfs/do_findpath.c:208-263).

## Model
| member | source | states |
|---|---|---|
| Probing.ProbeStepOddAndSmall | parser/expat/xmlparse.c:115-126 | the probe step is odd after the cast to one byte, nonzero, at most 255 and below the table size |
| Probing.NextSlotIsSlot | parser/expat/xmlparse.c:5880-5887 | the loop's subtraction with wrap-around walks home slot minus k steps modulo the size, so the k-th slot has a closed form |
| Probing.OddInverse | parser/expat/xmlparse.c:115-122 | an odd number has an inverse modulo every power of two: why odd steps were chosen |
| Probing.ProbePathMeetsEverySlot | parser/expat/xmlparse.c:115-126 | every slot of a table of size 2^power lies on every probe path, within fewer than 2^power steps |
| Probing.HalfFull | parser/expat/xmlparse.c:5891-5892 | the growth test `used >> (power - 1)` is true exactly when at least half of the slots are in use |
| Probing.CharHashBits | parser/expat/xmlparse.c:103-113 | the multiplier of the hash function and the width of its product |
| HashTable.ProbeEnds | parser/expat/xmlparse.c:5876-5931 | in a table with a free slot a walk over taken slots is shorter than the table: every probe loop ends |
| HashTable.HashTable.Find | parser/expat/xmlparse.c:5876-5887 | the probe loop ends at the entry of the name or at the first free slot of its path, and tells absence from presence |
| HashTable.FreeSlot | parser/expat/xmlparse.c:5904-5923 | the probe loops that compare no names end at a free slot of the path |
| HashTable.Insert | parser/expat/xmlparse.c:5903-5911 | storing an entry in the free slot of its path adds exactly one binding |
| HashTable.Rehash | parser/expat/xmlparse.c:5893-5912 | the copy loop of the growth moves every entry; the larger array represents the same map |
| HashTable.HashTable.Grow | parser/expat/xmlparse.c:5891-5916 | growth doubles the size and changes neither the map nor any entry |
| HashTable.HashTable.NewTable | parser/expat/xmlparse.c:5860-5875 | the first slot array is empty and represents the empty map |
| HashTable.HashTable.Put | parser/expat/xmlparse.c:5926-5932 | the tail of lookup adds exactly one binding |
| HashTable.HashTable.Lookup | parser/expat/xmlparse.c:5856-5933 | lookup refines a finite map: a present name returns its entry and changes nothing; an absent one returns NULL exactly if nothing is to be created or an allocation that is needed fails, and then the map is unchanged; otherwise exactly one fresh entry is added |
| HashTable.HashTable.Clear | parser/expat/xmlparse.c:5935-5944 | clearing gives the empty map in a table of the same size |
| HashTable.HashTableIter.Next | parser/expat/xmlparse.c:5965-5981 | the iterator returns the entries in slot order and then NULL |
| HashTable.IterationYieldsTheMap | parser/expat/xmlparse.c:5965-5981 | iteration yields exactly the entries of the map, each once |
| NsAtts.NsAttsTable.NewPower | parser/expat/xmlparse.c:2781-2788 | the power computed gives a table with more than twice as many slots as prefixed attributes, at least eight |
| NsAtts.NsAttsTable.NextElement | parser/expat/xmlparse.c:2777-2801 | before an element no slot carries the current version, across resizing and wrap-around of the version, and there is more than twice the room needed |
| NsAtts.NsAttsTable.Probe | parser/expat/xmlparse.c:2822-2852 | the walk for one attribute, from the hash of its expanded name with the null character, reports a duplicate exactly if it clashes with an earlier one, and otherwise ends at a slot that is not current |
| NsAtts.NsAttsTable.CheckElement | parser/expat/xmlparse.c:2777-2881 | over an element the check reports a duplicate exactly if some attribute clashes with an earlier one; otherwise the current slots are exactly those of its attributes |
| NsAtts.RepeatedNameClashes | parser/expat/xmlparse.c:2839-2847 | two attributes with the same expanded name always clash, so every repeated name is reported |
| XmlRole.PrologState.TokenRole | parser/expat/xmlrole.c:982-1210 | calling through the handler pointer changes handler, level and default role as the transition function used in the theorems says; after a declaration the internal subset leads to the next one |
| ContentModel.NotationAccepted | parser/expat/xmlparse.c:4312-4366 | wherever a declaration can begin, whatever earlier ones left behind, the notation of every well-formed content model is accepted and reported as that model, and the next declaration can begin |
| ContentModel.SubsetAccepted | parser/expat/xmlparse.c:4312-4366 | so is the notation of any number of declarations |
| ContentModel.RunStrip | parser/expat/xmlrole.c:982-1210 | white space anywhere makes no difference, nor does whether a name has a prefix |
| ContentModel.RunExtends | parser/expat/xmlrole.c:982-1210 | whatever has been accepted is the notation of the declarations reported and of what the state and the open groups hold of the one being read; every report is of a well-formed model |
| ContentModel.SubsetParsing | parser/expat/xmlparse.c:4449-4558 | for all token strings, from any state between two declarations: read as a list of declarations if and only if the string, white space aside, is the notation of these well-formed models; in particular commas and bars never mix at one level (XML 1.0 sections 3.2.1 and 3.2.2) |
| ContentModel.DeclarationParsing | parser/expat/xmlparse.c:4312-4366 | the same for a single declaration, from any state in which one can begin |
| ContentModel.GroupNotation | parser/expat/xmlrole.c:1015-1210 | the notation behind these theorems, written out for a sequence of a repeated name and a choice |
| ContentModel.MixedNotation | parser/expat/xmlrole.c:982-1090 | the notation of mixed content, EMPTY and ANY written out |
| Scaffold.AppendLinks | parser/expat/xmlparse.c:6188-6204 | a new last child keeps the first-child/next-sibling links in order |
| Scaffold.ShapeOpens | parser/expat/xmlparse.c:4312-4345 | opening a group keeps the scaffold in step with the open groups |
| Scaffold.ShapeGainsName | parser/expat/xmlparse.c:4492-4527 | a name becomes the next member of the innermost open group |
| Scaffold.ClosedTree | parser/expat/xmlparse.c:4529-4558 | closing a group leaves the tree of its members below its cell |
| Scaffold.ShapeCloses | parser/expat/xmlparse.c:4529-4558 | the closed group becomes the next member of the group around it |
| Scaffold.BuildNode | parser/expat/xmlparse.c:6207-6243 | over any scaffold build_node lays the tree of a cell out in the block, uses exactly as many cells and characters as the tree has, and touches nothing else |
| Scaffold.BuildChildren | parser/expat/xmlparse.c:6226-6243 | the children of a cell get one contiguous range, taken before anything below them |
| ScaffoldDtd.Dtd.NextScaffoldPart | parser/expat/xmlparse.c:6159-6205 | a new cell becomes the last child of the innermost open one; reallocation loses nothing |
| ScaffoldDtd.Dtd.OpenGroup | parser/expat/xmlparse.c:4312-4366 | GROUP_OPEN in memory: arrays grow, connector and scaffold index are pushed |
| ScaffoldDtd.Dtd.LeaveGroup | parser/expat/xmlparse.c:4541-4546 | the innermost open cell gets its quantifier and holds the tree of the group; the scaffold is in step with the groups around it |
| ScaffoldDtd.Dtd.CloseGroup | parser/expat/xmlparse.c:4529-4558 | GROUP_CLOSE in memory: the group becomes a member, or the finished model is reported |
| ScaffoldDtd.Dtd.MarkChoice | parser/expat/xmlparse.c:4352-4366 | GROUP_CHOICE in memory: refused exactly after a comma, otherwise the first bar makes the group a choice unless it is mixed |
| ScaffoldDtd.Dtd.BuildModel | parser/expat/xmlparse.c:6245-6264 | build_model fills a block of exactly scaffCount cells and contentStringLen characters with the model |
| ScaffoldDtd.Dtd.Process | parser/expat/xmlparse.c:4449-4558 | every role of the element declaration does to arrays, counters and scaffold what the abstract builder does, and fails exactly where it fails |
| ElementDeclaration.ReadsBack | parser/expat/xmlparse.c:6207-6243 | following the pointers of a laid-out block gives back the model |
| ElementDeclaration.HandlerReadsModel | parser/expat/xmlparse.c:6245-6264 | what the handler is given reads back as the declared model, names with their null characters included |
| ElementDeclaration.EveryCellHasOneParent | parser/expat/xmlparse.c:6207-6243 | every cell of a block but the first is the child of exactly one cell: the child ranges are disjoint and leave nothing out |
| ElementDeclaration.DeclarationReader.ReadToken | parser/expat/xmlparse.c:4312-4558 | in every state of a parser, handler automaton and group actions together make one step of the abstract machine, and fail exactly where it fails |
| ElementDeclaration.DeclarationReader.ReadDeclaration | parser/expat/xmlparse.c:4312-4558 | any declaration of a parser, not only its first, is accepted if and only if it is the notation of a well-formed model; then there is one more report, of exactly that model, and every block handed out holds its model |
| ElementDeclaration.DeclarationReader.ReadSubset | parser/expat/xmlparse.c:4312-4558 | any number of declarations is accepted if and only if it is the notation of well-formed models one after the other; then these are the new reports and every block handed out holds its model |
| AttributeValue.OpenMarkIrrelevant | parser/expat/xmlparse.c:4955-4964 | the text of an entity settles the same way whether or not the entity itself is marked open |
| AttributeValue.ValueBuilder.constructor | parser/expat/xmlparse.c:4910-4919 | when an undeclared entity is an error: in the prolog of a standalone document exactly outside of internal entities, in any other prolog exactly without parameter entity references, and in content exactly without them or in a standalone document |
| AttributeValue.ValueBuilder.ExpandEntity | parser/expat/xmlparse.c:4955-4964 | the text of an entity is expanded while the entity is marked, and its mark is taken back on success and on error |
| AttributeValue.ValueBuilder.AppendReference | parser/expat/xmlparse.c:4900-4966 | one reference: the outcome of the plain recursive expansion, or RECURSIVE_ENTITY_REF exactly if that never settles; all open marks end as they began |
| AttributeValue.ValueBuilder.AppendToken | parser/expat/xmlparse.c:4835-4971 | every token contributes what the reference expansion says, or its error |
| AttributeValue.ValueBuilder.AppendAttributeValue | parser/expat/xmlparse.c:4827-4975 | for every entity table, cyclic ones included: terminates with the number of closed entities as measure, appends exactly the full recursive expansion or returns the first error of it, and on success and error alike leaves all open marks as they were (XML 1.0 section 4.1) |
| AttributeValue.ValueBuilder.StoreAttributeValue | parser/expat/xmlparse.c:4811-4825 | of the tokens left when all references are replaced, a CDATA value is the characters of all of them joined, one space for each white space; any other has the words of that text in the same order, and one space between them; a null character ends it. Where no entity is open, RECURSIVE_ENTITY_REF means that references run in a circle and success that none do |
| AttributeValue.NeverSettlingIsCyclic | parser/expat/xmlparse.c:4939-4964 | if expansion never settles, there is a chain of references that repeats an entity |
| AttributeValue.CyclesDoNotExpand | parser/expat/xmlparse.c:4939-4964 | where such a chain can be reached, expansion never succeeds |
| AttributeValue.StoredNormalized | parser/expat/xmlparse.c:4811-4825 | a value that is not CDATA is stored without leading, trailing or repeated spaces, whatever entities it came from (XML 1.0 section 3.3.3) |
| AttributeValue.ValueStored | parser/expat/xmlparse.c:4846-4886 | what the value keeps, from the characters of the tokens alone: joined for CDATA, and otherwise the same words in the same order with one space between them |
| AttributeValue.PlainTokens | parser/expat/xmlparse.c:4836-4897 | every token that is no entity reference contributes itself, or is one of three errors, under conditions written out |
| AttributeValue.ReferenceOutcomes | parser/expat/xmlparse.c:4920-4964 | every reference to an entity: when it is skipped, when it is which error, and otherwise it is exactly the expansion of the text of the entity |
| AttributeValue.ExpandedInTurn | parser/expat/xmlparse.c:4833-4974 | one token string after another expands to one expansion after the other, or to the first error |
| AttributeValue.NothingReplaced | parser/expat/xmlparse.c:4833-4974 | without references to entities the tokens are left as they are |
| DocumentContent.DeeperSame | parser/expat/xmlparse.c:4684-4739 | an outcome of plain recursive reading stays the same at greater depths: the reading it converges to is well defined |
| DocumentContent.OpenMarkIrrelevant | parser/expat/xmlparse.c:4684-4739 | the replacement text of an entity reads the same whether or not the entity itself is marked open |
| DocumentContent.NeverSettlingIsCyclic | parser/expat/xmlparse.c:2264-2265 | if the reading of content never settles, there is a chain of references that repeats an entity |
| DocumentContent.CyclesAreNotRead | parser/expat/xmlparse.c:2264-2265 | where such a chain can be reached, content is never accepted |
| DocumentContent.OneOpenTree | parser/expat/xmlparse.c:2226-2590 | every token extends a tree of start and end events along the stack of open elements; in a document the end of the outermost completes exactly one element |
| DocumentContent.WholeIsForest | parser/expat/xmlparse.c:4684-4739 | the events of a replacement text that is accepted are balanced on their own: it closes nothing opened outside and leaves nothing open (XML 1.0 section 4.3.2) |
| ContentText.ReadingTells | parser/expat/xmlparse.c:2172-2590 | an accepted reading tells exactly the text and the tags of the tokens, in order, with every reference replaced by what the text of its entity tells |
| ContentText.TellsText | parser/expat/xmlparse.c:2229-2580 | all character data joined is the text of these tokens joined, the start events are their start and empty tags with names and attributes, and each end tag and empty tag ends an element |
| ContentText.PlainTellsText | parser/expat/xmlparse.c:2229-2580 | without references to entities these tokens are those that were read |
| ContentText.TextTokens | parser/expat/xmlparse.c:2229-2580 | which characters each kind of text token contributes, the predefined entity, the character reference and the line end among them, and which errors they are |
| ContentText.TagTokens | parser/expat/xmlparse.c:2300-2467 | the events and errors of start, empty and end tags |
| ContentText.UnreplacedReferences | parser/expat/xmlparse.c:2240-2299 | a reference that is not replaced: when it is skipped, and when it is which error |
| ContentText.ReplacedReferences | parser/expat/xmlparse.c:4684-4739 | a replaced reference contributes exactly the events of the text of its entity, or its error |
| ContentText.TextEndings | parser/expat/xmlparse.c:2178-2225 | the end of a replacement text: a last carriage return or bracket is text, an unfinished token is an error, and so is an element left open |
| ContentProcessor.ContentParser.StartElement | parser/expat/xmlparse.c:2300-2367 | a TAG record comes from the free list or is new, goes on top of the stack, and the level rises with the depth, also if the attributes are refused |
| ContentProcessor.ContentParser.EndElement | parser/expat/xmlparse.c:2413-2467 | ASYNC_ENTITY exactly at the level of the caller, TAG_MISMATCH exactly if the bytes of the names differ (then the record is popped but the level is not lowered), otherwise the end event of the innermost element; no record is lost |
| ContentProcessor.ContentParser.DoEnding | parser/expat/xmlparse.c:2177-2225 | the end of the input: more to come, or an unbalanced entity, an unfinished token, or no end of the root |
| ContentProcessor.EndErrors | parser/expat/xmlparse.c:2177-2225 | which end of the input gives which error, with more to come and without |
| ContentProcessor.ContentParser.DoReference | parser/expat/xmlparse.c:2240-2299 | a reference in content: skipped (undeclared and unchecked, expansion switched off, or external), refused, or replaced by the text of the entity |
| ContentProcessor.ContentParser.ProcessInternalEntity | parser/expat/xmlparse.c:4684-4739 | on success the elements open, the marks and the open entities are as before and the events told are balanced and those of the recursive reading; on error the error is the one that reading meets first, or a recursion that never settles; records are conserved |
| ContentProcessor.ContentParser.DoTokens | parser/expat/xmlparse.c:2172-2600 | the loop keeps tagLevel equal to the depth of tagStack, tells exactly the events of the recursive reading, and leaves the elements outside its start level alone |
| ContentProcessor.ContentParser.DoContent | parser/expat/xmlparse.c:2149-2600 | doContent for one buffer or one replacement text, with more to come or not: success and every error as the recursive reading has them |
| ContentProcessor.ContentParser.ParseNext | parser/expat/xmlparse.c:2018-2031 | one buffer after others, of which the first may end inside the root start tag: the reading goes on where it stopped, and ends with the root element |
| ContentProcessor.ContentParser.ParseContent | parser/expat/xmlparse.c:2018-2031 | content in any number of buffers, also if the first ones hold no token: on success the events told are one element with everything in it, they are those of the concatenated tokens and tell their text and tags in order, no element or entity is left open, every TAG record is on exactly one list, and no references run in a circle; on error the error is the first that the recursive reading of the tokens meets (a circle of references, if it is RECURSIVE_ENTITY_REF), or that of input which ends before the root element does |
| ContentProcessor.DocumentCallbacks | parser/expat/parser.c:53-155 | an accepted document seen through the path adapter: one callback for each element of its tree, if no name in the document and its entities has a slash and no text a null character |
| PathAdapter.Adapter.ParseStart | parser/expat/parser.c:53-100 | the start handler reports a parent that has not been reported, extends the path and copies the attributes |
| PathAdapter.Adapter.ParseEnd | parser/expat/parser.c:102-135 | the end handler reports a leaf with its value and truncates the path, to NULL after the root |
| PathAdapter.Adapter.ParseCharacter | parser/expat/parser.c:137-155 | text is appended only between a start tag and the next tag |
| PathAdapter.Adapter.Parse | parser/expat/parser.c:53-155 | any run of handlers that follows no null pointer |
| PathAdapter.OpenForest | parser/expat/parser.c:53-155 | after a start tag: with the first child the parent gets its callback without a value, otherwise the text accumulates |
| PathAdapter.OneCallbackEach | parser/expat/parser.c:53-155 | for every document, however its text is split: exactly one callback for each element, parents first, with the slash-joined path of the open names, its own attributes, its text if it has no child elements and NULL otherwise; the state ends as it began |
| PathAdapter.ParseDocument | parser/expat/parser.c:157-183 | the same for the adapter object with its path string and flags |
| StringPool.StringPool.Grow | parser/expat/xmlparse.c:6096-6157 | growing keeps the string in progress, strictly enlarges its room, moves no finished string, and the blocks of both lists change as one of three rules says |
| StringPool.StringPool.SwapIn | parser/expat/xmlparse.c:6109-6120 | a larger free block takes over the string in progress |
| StringPool.StringPool.Reallocate | parser/expat/xmlparse.c:6122-6134 | realloc doubles the newest block; it may move, and nothing finished lies in it |
| StringPool.StringPool.NewBlock | parser/expat/xmlparse.c:6135-6155 | one more block, of twice the room and at least the initial size |
| StringPool.StringPool.AppendChar | parser/expat/xmlparse.c:447-450 | appends one character; every finished string stays in place with its characters |
| StringPool.StringPool.Finish | parser/expat/xmlparse.c:446-446 | a string that does not end at the start of its block, empty or not, becomes a finished one, which every later operation keeps in place until the pool is cleared |
| StringPool.StringPool.Discard | parser/expat/xmlparse.c:445-445 | the string in progress becomes empty; nothing else changes |
| StringPool.StringPool.Chop | parser/expat/xmlparse.c:443-443 | the string in progress loses its last character |
| StringPool.StringPool.CopyString | parser/expat/xmlparse.c:6047-6057 | copies a string with its null character and finishes it, after whatever was in progress |
| StringPool.StringPool.Clear | parser/expat/xmlparse.c:5994-6012 | clearing moves every block to the free list and loses none |
| StringPool.StringPool.FinishAndGrow | parser/expat/xmlparse.c:6122-6134 | exactly when the promise of stability fails: after a string is finished and the pool grows, its block is still in the pool if and only if the string did not end at the start of the block or a free block was taken |
| StringPool.ImagePieces | parser/expat/xmltok.c:319-336 | converting piece by piece is converting at once |
| StringPool.StringPool.ConvertSome | parser/expat/xmlparse.c:6037-6040 | one conversion into the room left, and a bound on the room if it made no progress |
| StringPool.StringPool.Append | parser/expat/xmlparse.c:6031-6045 | poolAppend terminates, for UTF-8, Latin-1 and UTF-16 and however the block ends fall, and appends exactly the conversion of the whole input |
| StringPool.StringPool.StoreString | parser/expat/xmlparse.c:6084-6094 | the conversion of the whole input from one of these encodings, and a null character |
| InputBuffer.Parser.GetBuffer | parser/expat/xmlparse.c:1602-1679 | at least len bytes are free afterwards; the unconsumed part of the stream and up to 1024 bytes before it survive every move |
| InputBuffer.Parser.MoveDown | parser/expat/xmlparse.c:1625-1632 | the move within the buffer keeps it a window on the stream |
| InputBuffer.Parser.Reallocate | parser/expat/xmlparse.c:1639-1667 | so does a larger buffer, whose size doubles until it is enough |
| InputBuffer.Parser.ParseBuffer | parser/expat/xmlparse.c:1551-1600 | the bytes stored join the stream, parseEndByteIndex is the offset of bufferEnd, and what the processor consumes leaves the window |
| InputBuffer.Parser.Parse | parser/expat/xmlparse.c:1429-1549 | the whole piece joins the stream; consumption, status and the end of parsing follow the processor |
| Context.ContextParser.GetContext | parser/expat/xmlparse.c:5382-5449 | the context string is the pieces for default namespace, bound prefixes and open entities, joined by form feeds, in the order of the tables |
| Context.ContextFormat | parser/expat/xmlparse.c:5382-5449 | the format: an equals sign and the default namespace, prefix, equals sign and URI for each prefix that is bound, the names of open entities, with the form feed as separator, written out |
| Context.ContextParser.AddBinding | parser/expat/xmlparse.c:2947-3055 | a binding in a context is accepted exactly if it is legal, and then does to the state what reading its piece does |
| Context.ContextParser.SetContext | parser/expat/xmlparse.c:5451-5510 | reading any string does to bindings and open marks what reading it piece by piece does, and is refused where a piece is |
| Context.OnePieceReads | parser/expat/xmlparse.c:5451-5510 | what each kind of piece does: a binding is made or refused exactly if it is not legal, a declared entity is marked open, any other name is ignored |
| Context.ContextRoundTrip | parser/expat/xmlparse.c:5382-5510 | for names free of = and form feed and URIs free of form feed, reading the printed context restores exactly the bindings, the default namespace and the set of open entities, whatever the iteration orders |
| Context.HandOver | parser/expat/xmlparse.c:5382-5510 | the same for two parser objects |
| Namespaces.CompareReserved | parser/expat/xmlparse.c:2997-3006 | one loop compares a URI with both reserved ones |
| Namespaces.Check | parser/expat/xmlparse.c:2978-3013 | a declaration is accepted exactly if Namespaces in XML 1.0 section 3 allows it, with both reserved URIs written out, and each error comes exactly under its condition |
| Namespaces.Scopes.Bind | parser/expat/xmlparse.c:3015-3053 | a record, recycled if there is one, goes in front of its element and of its prefix |
| Namespaces.Scopes.AddBinding | parser/expat/xmlparse.c:2947-3059 | the same conditions for acceptance and for each error; a declaration that is allowed becomes the innermost, one that is refused changes nothing |
| Namespaces.Scopes.Unlink | parser/expat/xmlparse.c:2455-2463 | unlinking a record restores its prefix and returns it to the free list |
| Namespaces.Scopes.EndElement | parser/expat/xmlparse.c:2455-2463 | the end of an element unlinks exactly its own records, newest first |
| Namespaces.NewestIsInScope | parser/expat/xmlparse.c:3046-3051 | the newest record of a prefix is the innermost declaration in scope; an empty default declaration takes the default away |
| Namespaces.Scopes.BindingsInScope | parser/expat/xmlparse.c:3046-3051 | in every reachable state each prefix stands for the innermost declaration in scope (Namespaces in XML 1.0 section 6.1) |
| Namespaces.Scopes.ProcessElement | parser/expat/xmlparse.c:2400-2463 | an element with everything in it: accepted exactly if all its declarations are allowed; afterwards every prefix stands for what it stood for before, and no record is lost |
| Namespaces.Scopes.EmptyDefault | parser/expat/xmlparse.c:3046-3051 | in every reachable state an element that declares the default empty is accepted, the default stands for nothing in it, and its end tag restores what it stood for |
| Namespaces.InnerDefault | parser/expat/xmlparse.c:2947-3059 | such a state is reached: an outer default, null inside the inner element, and back after its end tag |
| Utf.Utf8Encode | parser/expat/xmltok.c:1190-1225 | the encoder writes the UTF-8 bytes of every code point and refuses every other number |
| Utf.Utf16Encode | parser/expat/xmltok.c:1227-1243 | the encoder writes the UTF-16 units of every code point and refuses every other number |
| Utf.Utf8Values | parser/expat/xmltok.c:1190-1225 | the bytes are those of RFC 3629 section 3, said in the direction of a decoder: marks, bits, and no sequence longer than needed |
| Utf.Utf16Values | parser/expat/xmltok.c:1227-1243 | the units are those of RFC 2781 section 2.1, said in the direction of a decoder |
| Utf.Decodes8 | parser/expat/xmltok.c:338-378 | the arithmetic of utf8_toUtf16 on the bytes of a character gives its UTF-16 units |
| Utf.Encodes16 | parser/expat/xmltok.c:536-597 | the arithmetic of the UTF-16 converters on the units of a character gives its UTF-8 bytes |
| Utf.Invalid2Exact | parser/expat/xmltok.c:89-90 | UTF8_INVALID2 accepts exactly the encodings of characters, for lead bytes of its class |
| Utf.Invalid3Exact | parser/expat/xmltok.c:92-107 | UTF8_INVALID3 accepts exactly the encodings of characters other than surrogates, U+FFFE and U+FFFF |
| Utf.Invalid4Exact | parser/expat/xmltok.c:109-120 | UTF8_INVALID4 accepts exactly the encodings of characters |
| Converters.Utf8ToUtf16 | parser/expat/xmltok.c:338-378 | converts whole characters, as many as fit, and writes nothing outside the room |
| Converters.Utf16ToUtf8 | parser/expat/xmltok.c:536-597 | the same for either byte order in the other direction |
| Converters.ByteOrder | parser/expat/xmltok.c:615-637 | which byte of a unit comes first in either byte order |
| Converters.Utf8ToUtf16InPieces | parser/expat/xmltok.c:338-378 | for every sequence of output limits that gives each character room, the pieces are the whole conversion |
| Converters.Utf16ToUtf8InPieces | parser/expat/xmltok.c:536-597 | the same in the other direction |
| Converters.RoundTrip | parser/expat/xmltok.c:338-597 | UTF-8 to UTF-16 in either byte order and back gives the same bytes, whatever the limits (RFC 3629 section 3, RFC 2781 section 2) |
| Converters.Latin1ToUtf8 | parser/expat/xmltok.c:426-449 | writes the UTF-8 bytes of as many characters as fit |
| Converters.Utf8ToUtf8 | parser/expat/xmltok.c:319-336 | copies exactly the bytes it reads: all if there is room, otherwise up to where the back-off stops |
| Converters.CopyOnBoundary | parser/expat/xmltok.c:325-331 | well-formed text is copied up to a character boundary if and only if all of it fits, or there is no room, or the last byte within the room is ASCII |
| Converters.PartialCopyBoundary | parser/expat/xmltok.c:319-336 | the same for text that is part of a larger input |
| Converters.TrailFollows | parser/expat/xmltok.c:328-330 | well-formed text does not start with a trail byte, and no trail byte follows an ASCII character |
| Converters.BackOffSplitsACharacter | parser/expat/xmltok.c:325-331 | a concrete input for which the back-off stops inside a character |
| RawNames.ConvertName | parser/expat/xmlparse.c:2330-2357 | the conversion loop of a start tag terminates and leaves the converted name and a null character |
| RawNames.Tag.Store | parser/expat/xmlparse.c:1978-2012 | one name is moved behind the converted name in the record's own buffer, which keeps the converted name even if it is reallocated |
| RawNames.RawNameParser.StoreRawNames | parser/expat/xmlparse.c:1973-2015 | after storeRawNames every open tag has its raw name in its own buffer, equal to the bytes of its start tag; the early stop is sound because the stored names are always those at the bottom of the stack |
| RawNames.RawNameParser.StartTag | parser/expat/xmlparse.c:2322-2357 | a start tag pushes a record that points into the parse buffer |
| RawNames.RawNameParser.EndTag | parser/expat/xmlparse.c:2419-2429 | an end tag matches exactly if its bytes are those of the start tag |
| RawNames.RawNameParser.ProcessBuffer | parser/expat/xmlparse.c:2018-2031 | the tags of one buffer match as names do by value, and nothing depends on the buffer afterwards |
| RawNames.RawNameParser.ProcessAll | parser/expat/xmlparse.c:2018-2031 | any number of inputs through one buffer that is overwritten each time: end tags match start tags as if nothing had been overwritten |
| LinkedList.ListInit | platform/platform.h:712-716 | an initialised head is an empty ring |
| LinkedList.ListAdd | platform/platform.h:671-693 | a new first entry in a well-formed circular doubly linked list |
| LinkedList.ListDel | platform/platform.h:679-700 | deleting any entry keeps the rest a ring in the same order |
| LinkedList.ListCount | platform/platform.h:660-669 | counts the entries |
| PathWalk.LocateBelow | upnpfs/do_findpath.c:183-263 | below a path that does not end in a slash the walk goes on from where that path leads; a slash at the end makes no difference |
| PathWalk.LocateMore | upnpfs/do_findpath.c:183-263 | one more path segment is one more step of the walk |
| PathWalk.LocateSlash | upnpfs/do_findpath.c:208-263 | below a path that ends in a slash the walk first looks for a child without a title |
| PathWalk.PlaceLeads | upnpfs/do_findpath.c:183-263 | on any server the path built for a place, with a slash, leads to the place and on below it |
| PathWalk.LocatedPath | upnpfs/do_findpath.c:183-263 | on a server whose titles are all file names the walk builds canonical paths, and for a canonical path that path again |
| PathWalk.BuiltPath | upnpfs/do_findpath.c:183-263 | on any server the walk builds the path it was given if and only if that has one slash in front and none at the end |
| PathWalk.PrefillPlaced | upnpfs/op_readdir.c:163-173 | the record op_readdir files for a child of a canonical path, with or without a title, is that of the place its path and a slash lead to |
| PathWalk.PrefillRight | upnpfs/op_readdir.c:163-173 | if the child has a title, it is what the walk finds under its path |
| PathWalk.PrefillExact | upnpfs/op_readdir.c:163-173 | on any server, empty titles included, and for any path: the record filed for a child is what the walk finds if and only if the child has a title, the path has one slash in front, and it does not end in a slash (or what follows that slash lists the same child again) |
| PathWalk.PrefillCanonical | upnpfs/op_readdir.c:163-173 | for a canonical path it is right if and only if the title is not empty; on a server whose titles are all file names if and only if the path is canonical |
| PathWalk.TrailingSlashMisleads | upnpfs/op_readdir.c:163-173 | a concrete directory, listed with a slash at the end, whose prefilled record the walk contradicts |
| PathWalk.EmptySegmentHarmless | upnpfs/op_readdir.c:163-173 | a concrete path that is not canonical, because of a folder without a title, whose prefilled record is right |
| PathWalk.PlaceExact | upnpfs/do_findpath.c:208-263 | the record of a place is what the walk finds under the record's path if and only if that does not end in a slash |
| PathWalk.VisitedExact | upnpfs/do_findpath.c:208-263 | on any server the record that do_findpath files for a place is what the walk finds under its path if and only if the last title on the way was not empty |
| PathMeaning.PathLeads | upnpfs/do_findpath.c:183-263 | the walk leads from a path of file names to an entry if and only if a chain of listings does: from object 0 of the device to the metadata of the first child with the next title, as often as there are titles |
| PathMeaning.LeadingSlash | upnpfs/do_findpath.c:187-196 | more slashes in front make no difference |
| PathMeaning.HiddenExactly | upnpfs/do_findpath.c:167-170 | which paths are hidden |
| PathMeaning.RecordDescribes | upnpfs/do_findpath.c:128-148 | what a record says: id and device of the entry, a container exactly if the class starts with object.container, source and size exactly for object.item; and which entries have a valid record |
| PathMeaning.WalkDescribes | upnpfs/do_findpath.c:128-148 | the walk answers for exactly the places that are containers or items with a source, and with what their metadata says |
| PathCache.InsertedExactly | upnpfs/do_findpath.c:101-152 | what an insertion changes: nothing if the path is there; otherwise the oldest of more than cache_size records goes and a valid record comes first |
| PathCache.InsertedBounded | upnpfs/do_findpath.c:101-152 | an insertion keeps at most cache_size + 1 valid records with distinct paths |
| PathCache.InsertedPlaced | upnpfs/do_findpath.c:101-152 | on any server an insertion of the record of a place keeps every record that of the place its path leads to, and returns the record if it is valid, whatever the cache holds |
| PathCache.InsertedNewest | upnpfs/do_findpath.c:115-120 | what is left is always the most recent part of everything ever inserted: first in, first out |
| PathCache.Cache.FindCache | upnpfs/do_findpath.c:82-99 | returns the record with the path, validated, or nothing |
| PathCache.Cache.InsertCache | upnpfs/do_findpath.c:101-152 | the list in memory changes as the sequence does: an existing record is returned, the oldest is evicted before the new one is validated, a valid one goes in front |
| PathCache.Cache.FindPath | upnpfs/do_findpath.c:154-270 | on any server, whatever other threads insert between two accesses to the cache, the answer is that of the walk without a cache, or none for a hidden name; only for a path that ends in a slash, and only if an entry without a title is filed under it, can it be another; it says of the place the path leads to, or leads to with one more slash, the id, device, class, source and size in the metadata; undisturbed, a miss files every place on the way, in order, and a hit nothing |
| PathCache.Cache.WalkDown | upnpfs/do_findpath.c:208-263 | on any server, from the root of the device down the listings, with a record filed for every place; what is returned is the record of the last place, never one that was in the cache for another |
| PathCache.Cache.ReadChildren | upnpfs/op_readdir.c:150-176 | the names of the children are those without a cache, every record filed is right, and undisturbed the cache holds what the lookup of the directory and then every child leave in it |
| PathCache.Cache.ReadMetadata | upnpfs/op_readdir.c:117-149 | the names of the metadata files are the titles of the children with a suffix, and nothing is filed for them |
| PathCache.Cache.ReadDir | upnpfs/op_readdir.c:117-176 | the names in full: below a path that is not hidden and has a valid record, .metadata has a text file for each child, in order; the path itself has its children, and .metadata if there are any; anything else is empty |
| PathCache.Cache.Serve | upnpfs/do_findpath.c:82-270 | in every run of lookups, directory reads and evictions, with any interference between any two steps, every answer is the cache-free one if no place without a title can be looked up, and otherwise every answer but such a lookup; undisturbed, the replies are those of the run that the next theorem is about |
| PathCache.RunsAgree | upnpfs/do_findpath.c:82-270 | the exact condition: all answers of all runs from an empty cache agree with the walk if and only if no path that is not hidden leads to a valid place whose last title is empty; of lookups on any server, and of lookups and directory reads where titles have no slashes, are different within a listing, and listings agree with the metadata |
| PathCache.NamelessOvershadows | upnpfs/do_findpath.c:208-263 | on any server a lookup of such a place leaves a record that the next lookup takes for another place |
| PathCache.ListingShows | upnpfs/op_readdir.c:117-176 | the same of the listing without any cache |
| PathCache.FoundAgain | upnpfs/do_findpath.c:101-270 | after a lookup the record of its path is in the cache, unless the walk finds none, and it is what the walk finds |
| PathCache.ListedFound | upnpfs/op_readdir.c:163-173 | after a directory read the record of its last child is in the cache, and it is what the walk finds |

## Left out
- Namespaces.CompareReserved: the loop of the source may read the null character of the shorter constant; strings here have none.
- NsAtts.NsAttsTable.CheckElement: duplicates are characterised by what the code compares (equal hash values and a name that is a prefix of the stored string), because after a collision of full hash values a proper prefix is reported too.
- AttributeValue.StoredNormalized: speaks of text in which character data carry no spaces or line breaks of their own, as the tokenizer delivers it.
- ContentProcessor.ContentParser.DoContent: CDATA sections that end in a later buffer, suspended parsing and the epilog after the root element are not modelled; a section is one token.
- ContentProcessor.ContentParser.ProcessInternalEntity: the free list of OPEN_INTERNAL_ENTITY records is not modelled.
- PathCache.Cache.ReadDir: only the branches for directories of a device and for their metadata files; the two listings of devices are not modelled.
- PathCache.Cache.FindPath: entry identifiers are strings; a NULL identifier is not modelled. What is left in the cache is stated for calls that no other thread disturbs; the answer for all.
- StringPool.StringPool.StoreString: the ASCII and unknown encodings are not modelled; UTF-8, Latin-1 and UTF-16 are.
- StringPool.StringPool.Grow: a block that realloc moves is a new array in the place of the old one.
- XmlRole.PrologState.TokenRole: of the internal subset only white space and element type declarations; entity, attribute list and notation declarations, comments, processing instructions, parameter entity references and the end of the subset are not in the token type.
- ContentProcessor.ContentParser.DoReference: the external entity handler is there as the set of entities it refuses; that it may answer differently the next time, and what it does, is not modelled.
- ContentProcessor.ContentParser.DoTokens: the outcome of storeAtts comes with the start tag and does not depend on which entities are open. In the source it does: with e = `<z/>&f;` and f = `<y a='&e;'/>` the content `&f;` ends in INVALID_TOKEN and `&e;` in RECURSIVE_ENTITY_REF at the same tag.
- ContentProcessor.ContentParser.ParseContent: the same holds of its errors, and a circle of references through an attribute value is not one of its chains. It ends with the root element; what epilogProcessor returns for the rest of the buffer is not modelled.
- DocumentContent.OpenMarkIrrelevant: speaks of references in content; marks met inside attribute values are part of the outcome of storeAtts.
- DocumentContent.NeverSettlingIsCyclic: of chains of references in content, for the same reason.
- StringPool.StringPool.Append: the ASCII and unknown encodings are not modelled; UTF-8, Latin-1 and UTF-16 are.
- Context.ContextParser.AddBinding: the binding map is changed; the records it takes from the free list and the inherited binding list are modelled for addBinding in Namespaces only.
- RawNames.Tag.Store: the pointer to the local part, set in namespace processing, is not modelled.
- PathWalk.PrefillExact: titles are without slashes, and of equal titles only the first is looked at.
- Byte-level tokenizing: xmltok_impl.c is only reached through token datatypes; what a token contains is given with it.
- The branches for XML_DTD, 16-bit XML_Char, suspend and resume, unknown encodings and encoding detection.
- Allocation failure outside the hash table, and overflow of 32-bit sizes.
- storeAtts other than its duplicate check: defaults, identifiers and the lookup of attribute names; its outcome comes with a start tag.
- dtdCopy beyond the context handed to a new parser.
- DEFINE_UTF16_TO_UTF16, latin1_toUtf16 and the name character tables.
- upnpfs/op_read.c, upnpfs/op_getattr.c and upnpfs/op_open.c: polling, HTTP and file attributes.
- database/, metadata/, platform/posix/ and the daemons in upnpd/.
- Logging.
