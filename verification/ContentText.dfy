/** What the readings of content tell, said without the reading: the text, the tags and the errors, for
    every kind of token with the characters written out. */
module ContentText {
  import opened DocumentContent
  import opened PathAdapter
  import opened References
  import opened Wrappers

  // ---------- Tokens with all references replaced ----------

  /** What the end of a replacement text adds to its tokens. */
  function LastText(ending: Ending): seq<Token> {
    match ending
    case TrailingCr => [DataNewline]
    case TrailingRsqb(chars) => [DataChars(chars)]
    case _ => []
  }

  function Both(a: Option<seq<Token>>, b: Option<seq<Token>>): Option<seq<Token>> {
    if a.Some? && b.Some? then Some(a.value + b.value) else None
  }

  /** The tokens with every reference, nested at most d deep, replaced by those of the entity's text. */
  function Flatten(dtd: Dtd, toks: seq<Token>, d: nat): Option<seq<Token>>
    decreases d, |toks|, 0
  {
    if toks == [] then Some([]) else Both(FlattenOne(dtd, toks[0], d), Flatten(dtd, toks[1..], d))
  }

  function FlattenOne(dtd: Dtd, t: Token, d: nat): Option<seq<Token>>
    decreases d, 0, 1
  {
    if !t.EntityRef? then Some([t])
    else
      match Resolve(dtd, {}, t.name)
      case Skip => Some([])
      case Wrong(_) => None
      case Replace(text) =>
        if d == 0 then None else Both(Flatten(dtd, text.tokens, d - 1), Some(LastText(text.ending)))
  }

  predicate NoReferences(toks: seq<Token>) {
    forall t | t in toks :: !t.EntityRef?
  }

  lemma {:induction false} NothingToReplace(dtd: Dtd, toks: seq<Token>, d: nat)
    requires NoReferences(toks)
    ensures Flatten(dtd, toks, d) == Some(toks)
    decreases |toks|
  {
    if toks != [] {
      NothingToReplace(dtd, toks[1..], d);
      assert [toks[0]] + toks[1..] == toks;
    }
  }

  // ---------- Text and tags ----------

  /** The characters that a token stands for. */
  function TokenChars(t: Token): string {
    match t
    case PredefinedRef(ch) => [ch]
    case CharRef(_, encoded) => encoded
    case DataChars(chars) => chars
    case DataNewline => "\n"
    case Cdata(chars) => chars
    case _ => ""
  }

  function CharsOf(toks: seq<Token>): string {
    if toks == [] then "" else TokenChars(toks[0]) + CharsOf(toks[1..])
  }

  /** The start and empty element tags, with names and attributes. */
  function TagsOf(toks: seq<Token>): seq<(string, Attributes)> {
    if toks == [] then [] else TokenTags(toks[0]) + TagsOf(toks[1..])
  }

  function TokenTags(t: Token): seq<(string, Attributes)> {
    match t
    case StartTag(_, name, atts, _) => [(name, atts)]
    case EmptyElement(name, atts, _) => [(name, atts)]
    case _ => []
  }

  /** How many tags end an element. */
  function EndsOf(toks: seq<Token>): nat {
    if toks == [] then 0 else TokenEnds(toks[0]) + EndsOf(toks[1..])
  }

  function TokenEnds(t: Token): nat {
    if t.EndTag? || t.EmptyElement? then 1 else 0
  }

  /** The character data that the handler was given, joined. */
  function CharsTold(events: seq<Event>): string {
    if events == [] then "" else (if events[0].Characters? then events[0].txt else "") + CharsTold(events[1..])
  }

  function StartsTold(events: seq<Event>): seq<(string, Attributes)> {
    if events == [] then []
    else (if events[0].Start? then [(events[0].el, events[0].xattr)] else []) + StartsTold(events[1..])
  }

  function EndsTold(events: seq<Event>): nat {
    if events == [] then 0 else (if events[0].End? then 1 else 0) + EndsTold(events[1..])
  }

  // ---------- The order of text and tags ----------

  /** Text and tags in one list; an end tag has no name of its own. */
  datatype Item = Open(name: string, atts: Attributes) | Close | Chunk(chars: string)

  function TokenItems(t: Token): seq<Item> {
    match t
    case StartTag(_, name, atts, _) => [Open(name, atts)]
    case EmptyElement(name, atts, _) => [Open(name, atts), Close]
    case EndTag(_) => [Close]
    case EntityRef(_) => []
    case XmlDecl => []
    case Silent => []
    case _ => [Chunk(TokenChars(t))]
  }

  function Items(toks: seq<Token>): seq<Item> {
    if toks == [] then [] else TokenItems(toks[0]) + Items(toks[1..])
  }

  function EventItem(e: Event): Item {
    match e
    case Start(name, atts) => Open(name, atts)
    case End(_) => Close
    case Characters(chars) => Chunk(chars)
  }

  function Told(events: seq<Event>): (items: seq<Item>)
    ensures |items| == |events|
  {
    if events == [] then [] else [EventItem(events[0])] + Told(events[1..])
  }

  lemma {:induction false} ToldConcat(a: seq<Event>, b: seq<Event>)
    ensures Told(a + b) == Told(a) + Told(b)
    decreases |a|
  {
    if a == [] {
      assert a + b == b;
    } else {
      assert (a + b)[1..] == a[1..] + b;
      ToldConcat(a[1..], b);
    }
  }

  lemma {:induction false} ItemsConcat(a: seq<Token>, b: seq<Token>)
    ensures Items(a + b) == Items(a) + Items(b)
    decreases |a|
  {
    hide TokenItems;
    if a == [] {
      assert a + b == b;
    } else {
      assert (a + b)[1..] == a[1..] + b;
      ItemsConcat(a[1..], b);
    }
  }

  lemma ItemsOne(t: Token)
    ensures Items([t]) == TokenItems(t)
  {
    assert [t][1..] == [];
  }

  /** The events tell the text and the tags of the tokens, in order. */
  ghost predicate Tells(dtd: Dtd, toks: seq<Token>, events: seq<Event>) {
    exists d: nat :: Flatten(dtd, toks, d).Some? && Told(events) == Items(Flatten(dtd, toks, d).value)
  }

  lemma {:induction false} WalkTells(dtd: Dtd, above: seq<Opened>, toks: seq<Token>, d: nat)
    requires Walk(dtd, {}, above, toks, d).Good?
    ensures Flatten(dtd, toks, d).Some?
    ensures Told(Walk(dtd, {}, above, toks, d).events) == Items(Flatten(dtd, toks, d).value)
    decreases d, |toks|, 0
  {
    hide One, FlattenOne;
    if toks != [] {
      var o := One(dtd, {}, above, toks[0], d);
      OneTells(dtd, above, toks[0], d);
      WalkTells(dtd, o.above, toks[1..], d);
      ToldConcat(o.events, Walk(dtd, {}, o.above, toks[1..], d).events);
      ItemsConcat(FlattenOne(dtd, toks[0], d).value, Flatten(dtd, toks[1..], d).value);
    }
  }

  lemma {:induction false} OneTells(dtd: Dtd, above: seq<Opened>, t: Token, d: nat)
    requires One(dtd, {}, above, t, d).Good?
    ensures FlattenOne(dtd, t, d).Some?
    ensures Told(One(dtd, {}, above, t, d).events) == Items(FlattenOne(dtd, t, d).value)
    decreases d, 0, 1
  {
    hide Resolve, Whole, Flatten;
    if !t.EntityRef? {
      LiteralTells(above, t);
    } else {
      match Resolve(dtd, {}, t.name)
      case Skip =>
      case Wrong(_) =>
      case Replace(text) => WholeTells(dtd, text, d - 1);
    }
  }

  lemma LiteralTells(above: seq<Opened>, t: Token)
    requires !t.EntityRef? && Literal(above, t).Good?
    ensures Told(Literal(above, t).events) == Items([t])
  {
    ItemsOne(t);
  }

  lemma {:induction false} WholeTells(dtd: Dtd, text: Input, d: nat)
    requires Whole(dtd, {}, text, d).Good?
    ensures Flatten(dtd, text.tokens, d).Some?
    ensures Told(Whole(dtd, {}, text, d).events) ==
      Items(Flatten(dtd, text.tokens, d).value + LastText(text.ending))
    decreases d, |text.tokens|, 1
  {
    hide Walk, Flatten;
    WalkTells(dtd, [], text.tokens, d);
    var o, flat := Walk(dtd, {}, [], text.tokens, d), Flatten(dtd, text.tokens, d).value;
    ItemsConcat(flat, LastText(text.ending));
    match text.ending {
      case TrailingCr => LastTells(o.events, DataNewline, "\n");
      case TrailingRsqb(chars) => LastTells(o.events, DataChars(chars), chars);
      case _ =>
    }
  }

  lemma LastTells(events: seq<Event>, t: Token, chars: string)
    requires (t == DataNewline && chars == "\n") || t == DataChars(chars)
    ensures Told(events + [Characters(chars)]) == Told(events) + Items([t])
  {
    ToldConcat(events, [Characters(chars)]);
    ItemsOne(t);
    assert [Characters(chars)][1..] == [];
  }

  /** An accepted reading tells what its tokens say. */
  lemma ReadingTells(dtd: Dtd, above: seq<Opened>, toks: seq<Token>, o: Reading)
    requires o.Good? && Settles(dtd, {}, above, toks, o)
    ensures Tells(dtd, toks, o.events)
  {
    hide Walk;
    var d: nat :| Walk(dtd, {}, above, toks, d) == o;
    WalkTells(dtd, above, toks, d);
  }

  // ---------- Text and tags, joined ----------

  function ItemChars(items: seq<Item>): string {
    if items == [] then "" else CharsIn(items[0]) + ItemChars(items[1..])
  }

  function ItemTags(items: seq<Item>): seq<(string, Attributes)> {
    if items == [] then [] else TagsIn(items[0]) + ItemTags(items[1..])
  }

  function ItemEnds(items: seq<Item>): nat {
    if items == [] then 0 else (if items[0] == Close then 1 else 0) + ItemEnds(items[1..])
  }

  lemma {:induction false} ItemsJoin(a: seq<Item>, b: seq<Item>)
    ensures ItemChars(a + b) == ItemChars(a) + ItemChars(b)
    ensures ItemTags(a + b) == ItemTags(a) + ItemTags(b)
    ensures ItemEnds(a + b) == ItemEnds(a) + ItemEnds(b)
    decreases |a|
  {
    hide ItemChars, ItemTags, ItemEnds;
    NoItems();
    if a == [] {
      assert a + b == b;
    } else {
      assert (a + b)[1..] == a[1..] + b;
      ItemsJoin(a[1..], b);
      FirstItem(a + b);
      FirstItem(a);
      Associative(CharsIn(a[0]), ItemChars(a[1..]), ItemChars(b));
      Associative(TagsIn(a[0]), ItemTags(a[1..]), ItemTags(b));
    }
  }

  function CharsIn(item: Item): string {
    if item.Chunk? then item.chars else ""
  }

  function TagsIn(item: Item): seq<(string, Attributes)> {
    if item.Open? then [(item.name, item.atts)] else []
  }

  lemma NoItems()
    ensures ItemChars([]) == "" && ItemTags([]) == [] && ItemEnds([]) == 0
  {}

  lemma FirstItem(items: seq<Item>)
    requires items != []
    ensures ItemChars(items) == CharsIn(items[0]) + ItemChars(items[1..])
    ensures ItemTags(items) == TagsIn(items[0]) + ItemTags(items[1..])
    ensures ItemEnds(items) == (if items[0] == Close then 1 else 0) + ItemEnds(items[1..])
  {}

  lemma Associative<T>(a: seq<T>, b: seq<T>, c: seq<T>)
    ensures a + (b + c) == a + b + c
  {}

  lemma {:induction false} EventsJoined(events: seq<Event>)
    ensures ItemChars(Told(events)) == CharsTold(events)
    ensures ItemTags(Told(events)) == StartsTold(events)
    ensures ItemEnds(Told(events)) == EndsTold(events)
    decreases |events|
  {
    if events != [] {
      EventsJoined(events[1..]);
      assert Told(events)[1..] == Told(events[1..]);
    }
  }

  lemma {:induction false} TokensJoined(toks: seq<Token>)
    ensures ItemChars(Items(toks)) == CharsOf(toks)
    ensures ItemTags(Items(toks)) == TagsOf(toks)
    ensures ItemEnds(Items(toks)) == EndsOf(toks)
    decreases |toks|
  {
    hide TokenItems, ItemChars, ItemTags, ItemEnds, TokenChars, TokenTags, TokenEnds;
    NoItems();
    if toks != [] {
      TokensJoined(toks[1..]);
      ItemsJoin(TokenItems(toks[0]), Items(toks[1..]));
      TokenJoined(toks[0]);
    }
  }

  lemma TokenJoined(t: Token)
    ensures ItemChars(TokenItems(t)) == TokenChars(t)
    ensures ItemTags(TokenItems(t)) == TokenTags(t)
    ensures ItemEnds(TokenItems(t)) == TokenEnds(t)
  {
    if |TokenItems(t)| == 1 {
      assert TokenItems(t)[1..] == [];
    } else if |TokenItems(t)| == 2 {
      assert TokenItems(t)[1..] == [Close] && [Close][1..] == [];
    }
  }

  /** All character data joined is the text of the tokens joined, the start events are the start and
      empty element tags in order, and every end tag ends an element. */
  lemma TellsText(dtd: Dtd, toks: seq<Token>, events: seq<Event>)
    requires Tells(dtd, toks, events)
    ensures exists d: nat ::
      && Flatten(dtd, toks, d).Some?
      && CharsTold(events) == CharsOf(Flatten(dtd, toks, d).value)
      && StartsTold(events) == TagsOf(Flatten(dtd, toks, d).value)
      && EndsTold(events) == EndsOf(Flatten(dtd, toks, d).value)
  {
    var d: nat :| Flatten(dtd, toks, d).Some? && Told(events) == Items(Flatten(dtd, toks, d).value);
    EventsJoined(events);
    TokensJoined(Flatten(dtd, toks, d).value);
  }

  /** Without references the tokens are those that were read. */
  lemma PlainTellsText(dtd: Dtd, toks: seq<Token>, events: seq<Event>)
    requires Tells(dtd, toks, events) && NoReferences(toks)
    ensures Told(events) == Items(toks) && CharsTold(events) == CharsOf(toks) && StartsTold(events) == TagsOf(toks)
  {
    var d: nat :| Flatten(dtd, toks, d).Some? && Told(events) == Items(Flatten(dtd, toks, d).value);
    NothingToReplace(dtd, toks, d);
    EventsJoined(events);
    TokensJoined(toks);
  }

  // ---------- One token at a time ----------

  /** The tokens that stand for text. */
  lemma TextTokens(dtd: Dtd, blocked: set<string>, above: seq<Opened>, ch: char, chars: string, number: int)
    ensures SettlesOne(dtd, blocked, above, PredefinedRef(ch), Good(above, [Characters([ch])]))
    ensures SettlesOne(dtd, blocked, above, DataChars(chars), Good(above, [Characters(chars)]))
    ensures SettlesOne(dtd, blocked, above, Cdata(chars), Good(above, [Characters(chars)]))
    ensures SettlesOne(dtd, blocked, above, DataNewline, Good(above, [Characters("\n")]))
    ensures number >= 0 ==> SettlesOne(dtd, blocked, above, CharRef(number, chars), Good(above, [Characters(chars)]))
    ensures number < 0 ==> SettlesOne(dtd, blocked, above, CharRef(number, chars), Bad(BadCharRef))
    ensures SettlesOne(dtd, blocked, above, Silent, Good(above, []))
    ensures SettlesOne(dtd, blocked, above, XmlDecl, Bad(MisplacedXmlPi))
  {
    hide SettlesOne;
    LiteralSettles(dtd, blocked, above, PredefinedRef(ch));
    LiteralSettles(dtd, blocked, above, DataChars(chars));
    LiteralSettles(dtd, blocked, above, Cdata(chars));
    LiteralSettles(dtd, blocked, above, DataNewline);
    LiteralSettles(dtd, blocked, above, CharRef(number, chars));
    LiteralSettles(dtd, blocked, above, Silent);
    LiteralSettles(dtd, blocked, above, XmlDecl);
  }

  /** The tags: an end tag must repeat the bytes of the innermost open start tag. */
  lemma TagTokens(dtd: Dtd, blocked: set<string>, above: seq<Opened>, raw: seq<bv8>, name: string, atts: Attributes,
                  code: int)
    ensures SettlesOne(dtd, blocked, above, StartTag(raw, name, atts, NoError),
                       Good([Opened(raw, name)] + above, [Start(name, atts)]))
    ensures SettlesOne(dtd, blocked, above, EmptyElement(name, atts, NoError),
                       Good(above, [Start(name, atts), End(name)]))
    ensures SettlesOne(dtd, blocked, above, StartTag(raw, name, atts, AttributeError(code)), Bad(AttributeError(code)))
    ensures SettlesOne(dtd, blocked, above, EmptyElement(name, atts, AttributeError(code)), Bad(AttributeError(code)))
    ensures above == [] ==> SettlesOne(dtd, blocked, above, EndTag(raw), Bad(AsyncEntity))
    ensures above != [] && above[0].raw != raw ==> SettlesOne(dtd, blocked, above, EndTag(raw), Bad(TagMismatch))
    ensures above != [] && above[0].raw == raw ==>
      SettlesOne(dtd, blocked, above, EndTag(raw), Good(above[1..], [End(above[0].name)]))
  {
    hide SettlesOne;
    LiteralSettles(dtd, blocked, above, StartTag(raw, name, atts, NoError));
    LiteralSettles(dtd, blocked, above, EmptyElement(name, atts, NoError));
    LiteralSettles(dtd, blocked, above, StartTag(raw, name, atts, AttributeError(code)));
    LiteralSettles(dtd, blocked, above, EmptyElement(name, atts, AttributeError(code)));
    LiteralSettles(dtd, blocked, above, EndTag(raw));
  }

  /** A reference that is not replaced: when it is skipped, and which error it gives. */
  lemma UnreplacedReferences(dtd: Dtd, blocked: set<string>, above: seq<Opened>, name: string)
    ensures name !in dtd.entities && (!dtd.hasParamEntityRefs || dtd.standalone) ==>
      SettlesOne(dtd, blocked, above, EntityRef(name), Bad(UndefinedEntity))
    ensures name !in dtd.entities && dtd.hasParamEntityRefs && !dtd.standalone ==>
      SettlesOne(dtd, blocked, above, EntityRef(name), Good(above, []))
    ensures name in dtd.entities && !dtd.entities[name].isInternal && (!dtd.hasParamEntityRefs || dtd.standalone) ==>
      SettlesOne(dtd, blocked, above, EntityRef(name), Bad(EntityDeclaredInPe))
    ensures Usable(dtd, name) && name in blocked ==> forall o :: !SettlesOne(dtd, blocked, above, EntityRef(name), o)
    ensures Usable(dtd, name) && name !in blocked && dtd.entities[name].notation ==>
      SettlesOne(dtd, blocked, above, EntityRef(name), Bad(BinaryEntityRef))
    ensures Usable(dtd, name) && name !in blocked && !dtd.entities[name].notation ==>
      var e := dtd.entities[name];
      && (e.text.Some? && !dtd.defaultExpandInternalEntities ==>
            SettlesOne(dtd, blocked, above, EntityRef(name), Good(above, [])))
      && (e.text.None? && name in dtd.refused ==>
            SettlesOne(dtd, blocked, above, EntityRef(name), Bad(ExternalEntityHandling)))
      && (e.text.None? && name !in dtd.refused ==>
            SettlesOne(dtd, blocked, above, EntityRef(name), Good(above, [])))
  {
    hide SettlesOne;
    UnresolvedSettles(dtd, blocked, above, name);
  }

  /** Declared, and if that is checked, not in an external part. */
  predicate Usable(dtd: Dtd, name: string) {
    && name in dtd.entities
    && (dtd.entities[name].isInternal || (dtd.hasParamEntityRefs && !dtd.standalone))
  }

  /** A reference that is replaced settles exactly as the entity's text does, with the elements around
      it left alone: it contributes the events of that text. */
  lemma ReplacedReferences(dtd: Dtd, blocked: set<string>, above: seq<Opened>, name: string, events: seq<Event>,
                           error: Error)
    requires Usable(dtd, name) && name !in blocked && !dtd.entities[name].notation
    requires dtd.entities[name].text.Some? && dtd.defaultExpandInternalEntities
    requires error != RecursiveEntityRef
    ensures var text := dtd.entities[name].text.value;
      && (SettlesOne(dtd, blocked, above, EntityRef(name), Good(above, events)) <==>
          exists below :: SettlesWhole(dtd, blocked, text, Good(below, events)))
      && (SettlesOne(dtd, blocked, above, EntityRef(name), Bad(error)) <==>
          SettlesWhole(dtd, blocked, text, Bad(error)))
  {
    hide Whole;
    var text := dtd.entities[name].text.value;
    assert Resolve(dtd, blocked, name) == Replace(text);
    assert One(dtd, blocked, above, EntityRef(name), 0) == TooDeep;
    forall d: nat | d > 0
      ensures One(dtd, blocked, above, EntityRef(name), d) == Under(above, Whole(dtd, blocked, text, d - 1))
    {}
    forall d: nat
      ensures One(dtd, blocked, above, EntityRef(name), d + 1) == Under(above, Whole(dtd, blocked, text, d))
    {}
    if SettlesOne(dtd, blocked, above, EntityRef(name), Good(above, events)) {
      var d: nat :| One(dtd, blocked, above, EntityRef(name), d) == Good(above, events);
      var o := Whole(dtd, blocked, text, d - 1);
      assert SettlesWhole(dtd, blocked, text, Good(o.above, events));
    }
    if below :| SettlesWhole(dtd, blocked, text, Good(below, events)) {
      var d: nat :| Whole(dtd, blocked, text, d) == Good(below, events);
      assert One(dtd, blocked, above, EntityRef(name), d + 1) == Good(above, events);
    }
    if SettlesOne(dtd, blocked, above, EntityRef(name), Bad(error)) {
      var d: nat :| One(dtd, blocked, above, EntityRef(name), d) == Bad(error);
      assert Whole(dtd, blocked, text, d - 1) == Bad(error);
    }
    if SettlesWhole(dtd, blocked, text, Bad(error)) {
      var d: nat :| Whole(dtd, blocked, text, d) == Bad(error);
      assert One(dtd, blocked, above, EntityRef(name), d + 1) == Bad(error);
    }
  }

  /** The end of a replacement text: nothing may be left open, and a last line end or bracket is text. */
  lemma TextEndings(dtd: Dtd, blocked: set<string>, toks: seq<Token>, above: seq<Opened>, events: seq<Event>,
                    chars: string)
    requires Settles(dtd, blocked, [], toks, Good(above, events))
    ensures SettlesWhole(dtd, blocked, Input(toks, Invalid), Bad(InvalidToken))
    ensures SettlesWhole(dtd, blocked, Input(toks, Partial), Bad(UnclosedToken))
    ensures SettlesWhole(dtd, blocked, Input(toks, PartialChar), Bad(PartialCharacter))
    ensures above != [] ==>
      && SettlesWhole(dtd, blocked, Input(toks, Clean), Bad(AsyncEntity))
      && SettlesWhole(dtd, blocked, Input(toks, TrailingCr), Bad(AsyncEntity))
      && SettlesWhole(dtd, blocked, Input(toks, TrailingRsqb(chars)), Bad(AsyncEntity))
    ensures above == [] ==>
      && SettlesWhole(dtd, blocked, Input(toks, Clean), Good([], events))
      && SettlesWhole(dtd, blocked, Input(toks, TrailingCr), Good([], events + [Characters("\n")]))
      && SettlesWhole(dtd, blocked, Input(toks, TrailingRsqb(chars)), Good([], events + [Characters(chars)]))
  {
    hide Settles, SettlesWhole;
    var o := Good(above, events);
    forall ending: Ending ensures SettlesWhole(dtd, blocked, Input(toks, ending), Finish(o, ending)) {
      WholeSettles(dtd, blocked, Input(toks, ending));
    }
  }
}
