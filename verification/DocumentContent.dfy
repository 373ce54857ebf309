/** The content of elements: what doContent must report for it. References are replaced recursively
    to a growing depth, with a stack of open elements and nothing else: no marks on entities, no tag
    levels, no records. */
module DocumentContent {
  import opened PathAdapter
  import opened References
  import opened Wrappers

  /** Tokens of the content tokenizer. A start tag comes with its name as written and as reported,
      and with what storeAtts makes of it. */
  datatype Token =
    | StartTag(raw: seq<bv8>, name: string, atts: Attributes, attsError: Error)
    | EmptyElement(name: string, atts: Attributes, attsError: Error)
    | EndTag(raw: seq<bv8>)
    | EntityRef(name: string)
    | PredefinedRef(ch: char)
    | CharRef(number: int, encoded: string)
    | DataChars(chars: string)
    | DataNewline
    | Cdata(chars: string)
    | XmlDecl
    | Silent

  /** How a stretch of input ends for the tokenizer. */
  datatype Ending = Clean | TrailingCr | TrailingRsqb(chars: string) | Partial | PartialChar | Invalid

  datatype Input = Input(tokens: seq<Token>, ending: Ending)

  /** The declared general entities and the flags that decide whether an undeclared one is an error;
      whether internal entities are expanded; and the external entities that the handler for them,
      if there is one, refuses. */
  datatype Decl = Decl(text: Option<Input>, notation: bool, isInternal: bool)
  datatype Dtd = Dtd(entities: map<string, Decl>, hasParamEntityRefs: bool, standalone: bool,
                     defaultExpandInternalEntities: bool, refused: set<string>)

  /** An open element. */
  datatype Opened = Opened(raw: seq<bv8>, name: string)

  // ---------- Plain recursive reading ----------

  /** The open elements, innermost first, and the events; or the error met first; or that the depth
      was not enough. */
  datatype Reading = Good(above: seq<Opened>, events: seq<Event>) | Bad(error: Error) | TooDeep

  /** The checks made on a reference; `blocked` holds the entities that are open. */
  function Resolve(dtd: Dtd, blocked: set<string>, name: string): Reference<Input> {
    var check := CheckedInContent(dtd.hasParamEntityRefs, dtd.standalone);
    if name !in dtd.entities then
      if check then Wrong(UndefinedEntity) else Skip
    else
      var e := dtd.entities[name];
      if check && !e.isInternal then Wrong(EntityDeclaredInPe)
      else if name in blocked then Wrong(RecursiveEntityRef)
      else if e.notation then Wrong(BinaryEntityRef)
      else if e.text.Some? then if dtd.defaultExpandInternalEntities then Replace(e.text.value) else Skip
      else if name in dtd.refused then Wrong(ExternalEntityHandling)
      else Skip
  }

  /** One token other than an entity reference. */
  function Literal(above: seq<Opened>, t: Token): Reading
    requires !t.EntityRef?
  {
    match t
    case StartTag(raw, name, atts, error) =>
      if error != NoError then Bad(error) else Good([Opened(raw, name)] + above, [Start(name, atts)])
    case EmptyElement(name, atts, error) =>
      if error != NoError then Bad(error) else Good(above, [Start(name, atts), End(name)])
    case EndTag(raw) =>
      if above == [] then Bad(AsyncEntity)
      else if above[0].raw != raw then Bad(TagMismatch)
      else Good(above[1..], [End(above[0].name)])
    case PredefinedRef(ch) => Good(above, [Characters([ch])])
    case CharRef(number, encoded) => if number < 0 then Bad(BadCharRef) else Good(above, [Characters(encoded)])
    case DataChars(chars) => Good(above, [Characters(chars)])
    case DataNewline => Good(above, [Characters("\n")])
    case Cdata(chars) => Good(above, [Characters(chars)])
    case XmlDecl => Bad(MisplacedXmlPi)
    case Silent => Good(above, [])
  }

  /** The end of the last stretch of input of an entity. */
  function Finish(o: Reading, ending: Ending): Reading {
    if !o.Good? then o
    else
      match ending
      case Invalid => Bad(InvalidToken)
      case Partial => Bad(UnclosedToken)
      case PartialChar => Bad(PartialCharacter)
      case Clean => if o.above == [] then o else Bad(AsyncEntity)
      case TrailingCr => if o.above == [] then Good([], o.events + [Characters("\n")]) else Bad(AsyncEntity)
      case TrailingRsqb(chars) => if o.above == [] then Good([], o.events + [Characters(chars)]) else Bad(AsyncEntity)
  }

  function Prepend(events: seq<Event>, o: Reading): Reading {
    if o.Good? then Good(o.above, events + o.events) else o
  }

  /** The elements above stay as they are around the text of an entity. */
  function Under(above: seq<Opened>, o: Reading): Reading {
    if o.Good? then Good(above, o.events) else o
  }

  /** References nested at most d deep. */
  function Walk(dtd: Dtd, blocked: set<string>, above: seq<Opened>, toks: seq<Token>, d: nat): Reading
    decreases d, |toks|, 0
  {
    if toks == [] then Good(above, [])
    else
      var o := One(dtd, blocked, above, toks[0], d);
      if o.Good? then Prepend(o.events, Walk(dtd, blocked, o.above, toks[1..], d)) else o
  }

  function One(dtd: Dtd, blocked: set<string>, above: seq<Opened>, t: Token, d: nat): Reading
    decreases d, 0, 1
  {
    if !t.EntityRef? then Literal(above, t)
    else
      match Resolve(dtd, blocked, t.name)
      case Skip => Good(above, [])
      case Wrong(error) => Bad(error)
      case Replace(text) => if d == 0 then TooDeep else Under(above, Whole(dtd, blocked, text, d - 1))
  }

  /** The replacement text of an entity: content that opens and closes its own elements. */
  function Whole(dtd: Dtd, blocked: set<string>, text: Input, d: nat): Reading
    decreases d, |text.tokens|, 1
  {
    Finish(Walk(dtd, blocked, [], text.tokens, d), text.ending)
  }

  /** An outcome other than running too deep or into an open entity. */
  predicate Settled(o: Reading) {
    o.Good? || (o.Bad? && o.error != RecursiveEntityRef)
  }

  /** Reading to some depth settles with this outcome. */
  ghost predicate Settles(dtd: Dtd, blocked: set<string>, above: seq<Opened>, toks: seq<Token>, o: Reading) {
    Settled(o) && exists d: nat :: Walk(dtd, blocked, above, toks, d) == o
  }

  ghost predicate SettlesWhole(dtd: Dtd, blocked: set<string>, text: Input, o: Reading) {
    Settled(o) && exists d: nat :: Whole(dtd, blocked, text, d) == o
  }

  ghost predicate SettlesOne(dtd: Dtd, blocked: set<string>, above: seq<Opened>, t: Token, o: Reading) {
    Settled(o) && exists d: nat :: One(dtd, blocked, above, t, d) == o
  }

  // ---------- Depth and marks make no difference ----------

  /** An outcome other than running too deep stays the same at greater depths. */
  lemma {:induction false} DeeperSame(dtd: Dtd, blocked: set<string>, above: seq<Opened>, toks: seq<Token>, d: nat,
                                      e: nat)
    requires d <= e && !Walk(dtd, blocked, above, toks, d).TooDeep?
    ensures Walk(dtd, blocked, above, toks, e) == Walk(dtd, blocked, above, toks, d)
    decreases d, |toks|
  {
    hide Literal, Finish, Resolve;
    if toks != [] {
      OneDeeperSame(dtd, blocked, above, toks[0], d, e);
      var o := One(dtd, blocked, above, toks[0], d);
      if o.Good? {
        DeeperSame(dtd, blocked, o.above, toks[1..], d, e);
      }
    }
  }

  lemma {:induction false} OneDeeperSame(dtd: Dtd, blocked: set<string>, above: seq<Opened>, t: Token, d: nat, e: nat)
    requires d <= e && !One(dtd, blocked, above, t, d).TooDeep?
    ensures One(dtd, blocked, above, t, e) == One(dtd, blocked, above, t, d)
    decreases d, 0
  {
    hide Literal, Finish, Resolve;
    if t.EntityRef? {
      var r := Resolve(dtd, blocked, t.name);
      if r.Replace? {
        WholeIsWalk(dtd, blocked, r.text, d - 1);
        DeeperSame(dtd, blocked, [], r.text.tokens, d - 1, e - 1);
      }
    }
  }

  lemma WholeIsWalk(dtd: Dtd, blocked: set<string>, text: Input, d: nat)
    ensures Whole(dtd, blocked, text, d).TooDeep? <==> Walk(dtd, blocked, [], text.tokens, d).TooDeep?
    ensures Settled(Whole(dtd, blocked, text, d)) <==> Settled(Walk(dtd, blocked, [], text.tokens, d))
  {
    hide Walk;
  }

  lemma WholeDeeperSame(dtd: Dtd, blocked: set<string>, text: Input, d: nat, e: nat)
    requires d <= e && !Whole(dtd, blocked, text, d).TooDeep?
    ensures Whole(dtd, blocked, text, e) == Whole(dtd, blocked, text, d)
  {
    hide Walk, Finish;
    WholeIsWalk(dtd, blocked, text, d);
    DeeperSame(dtd, blocked, [], text.tokens, d, e);
  }

  /** With fewer entities blocked, a settled outcome is the same. */
  lemma {:induction false} UnblockedSame(dtd: Dtd, blocked: set<string>, name: string, above: seq<Opened>,
                                         toks: seq<Token>, d: nat)
    requires Settled(Walk(dtd, blocked + {name}, above, toks, d))
    ensures Walk(dtd, blocked, above, toks, d) == Walk(dtd, blocked + {name}, above, toks, d)
    decreases d, |toks|
  {
    hide Literal, Finish;
    if toks != [] {
      var t, o := toks[0], One(dtd, blocked + {name}, above, toks[0], d);
      if t.EntityRef? {
        var r := Resolve(dtd, blocked + {name}, t.name);
        if r.Replace? && d > 0 {
          WholeIsWalk(dtd, blocked + {name}, r.text, d - 1);
          UnblockedSame(dtd, blocked, name, [], r.text.tokens, d - 1);
          assert Whole(dtd, blocked, r.text, d - 1) == Whole(dtd, blocked + {name}, r.text, d - 1);
        }
      }
      assert One(dtd, blocked, above, t, d) == o;
      if o.Good? {
        UnblockedSame(dtd, blocked, name, o.above, toks[1..], d);
      }
    }
  }

  /** If the text of an entity does not settle at lesser depths, blocking the entity does not
      disturb what settles at depth d. */
  lemma {:induction false} BlockedSame(dtd: Dtd, blocked: set<string>, name: string, text: Input, above: seq<Opened>,
                                       toks: seq<Token>, d: nat)
    requires Resolve(dtd, blocked, name) == Replace(text)
    requires forall e: nat :: e < d ==> !Settled(Whole(dtd, blocked, text, e))
    requires Settled(Walk(dtd, blocked, above, toks, d))
    ensures Walk(dtd, blocked + {name}, above, toks, d) == Walk(dtd, blocked, above, toks, d)
    decreases d, |toks|
  {
    hide Literal, Finish;
    if toks != [] {
      var t, o := toks[0], One(dtd, blocked, above, toks[0], d);
      if t.EntityRef? {
        var r := Resolve(dtd, blocked, t.name);
        if r.Replace? && d > 0 {
          WholeIsWalk(dtd, blocked, r.text, d - 1);
          assert t.name != name;
          BlockedSame(dtd, blocked, name, text, [], r.text.tokens, d - 1);
          assert Whole(dtd, blocked + {name}, r.text, d - 1) == Whole(dtd, blocked, r.text, d - 1);
        }
      }
      assert One(dtd, blocked + {name}, above, t, d) == o;
      if o.Good? {
        BlockedSame(dtd, blocked, name, text, o.above, toks[1..], d);
      }
    }
  }

  lemma {:induction false} LeastDepth(dtd: Dtd, blocked: set<string>, text: Input, d: nat) returns (m: nat)
    requires Settled(Whole(dtd, blocked, text, d))
    ensures m <= d && Whole(dtd, blocked, text, m) == Whole(dtd, blocked, text, d)
    ensures forall e: nat :: e < m ==> !Settled(Whole(dtd, blocked, text, e))
  {
    hide Whole;
    m := 0;
    while !Settled(Whole(dtd, blocked, text, m))
      invariant m <= d
      invariant forall e: nat :: e < m ==> !Settled(Whole(dtd, blocked, text, e))
      decreases d - m
    {
      m := m + 1;
    }
    WholeDeeperSame(dtd, blocked, text, m, d);
  }

  /** The text of an entity settles the same way whether or not the entity itself is open. */
  lemma OpenMarkIrrelevant(dtd: Dtd, blocked: set<string>, name: string, text: Input, o: Reading)
    requires Resolve(dtd, blocked, name) == Replace(text)
    ensures SettlesWhole(dtd, blocked + {name}, text, o) <==> SettlesWhole(dtd, blocked, text, o)
  {
    hide Walk, Finish, Resolve;
    if SettlesWhole(dtd, blocked + {name}, text, o) {
      var d: nat :| Whole(dtd, blocked + {name}, text, d) == o;
      WholeIsWalk(dtd, blocked + {name}, text, d);
      UnblockedSame(dtd, blocked, name, [], text.tokens, d);
      assert Whole(dtd, blocked, text, d) == o;
    }
    if SettlesWhole(dtd, blocked, text, o) {
      var d: nat :| Whole(dtd, blocked, text, d) == o;
      var m := LeastDepth(dtd, blocked, text, d);
      WholeIsWalk(dtd, blocked, text, m);
      BlockedSame(dtd, blocked, name, text, [], text.tokens, m);
      assert Whole(dtd, blocked + {name}, text, m) == o;
    }
  }

  // ---------- Token by token ----------

  function Continue(dtd: Dtd, blocked: set<string>, o: Reading, toks: seq<Token>, d: nat): Reading {
    if o.Good? then Prepend(o.events, Walk(dtd, blocked, o.above, toks, d)) else o
  }

  lemma {:induction false} WalkConcat(dtd: Dtd, blocked: set<string>, above: seq<Opened>, a: seq<Token>, b: seq<Token>,
                                      d: nat)
    ensures Walk(dtd, blocked, above, a + b, d) == Continue(dtd, blocked, Walk(dtd, blocked, above, a, d), b, d)
    decreases |a|
  {
    hide One;
    if a == [] {
      assert a + b == b;
      PrependNothing(Walk(dtd, blocked, above, b, d));
    } else {
      assert (a + b)[1..] == a[1..] + b;
      var o := One(dtd, blocked, above, a[0], d);
      if o.Good? {
        WalkConcat(dtd, blocked, o.above, a[1..], b, d);
        var p := Walk(dtd, blocked, o.above, a[1..], d);
        if p.Good? {
          PrependTwice(o.events, p.events, Walk(dtd, blocked, p.above, b, d));
        }
      }
    }
  }

  lemma PrependNothing(o: Reading)
    ensures Prepend([], o) == o
  {
    if o.Good? {
      assert [] + o.events == o.events;
    }
  }

  lemma PrependTwice(a: seq<Event>, b: seq<Event>, o: Reading)
    ensures Prepend(a + b, o) == Prepend(a, Prepend(b, o))
  {
    if o.Good? {
      assert a + b + o.events == a + (b + o.events);
    }
  }

  lemma WalkNext(dtd: Dtd, blocked: set<string>, above: seq<Opened>, toks: seq<Token>, i: nat, d: nat)
    requires i < |toks|
    ensures var o := Walk(dtd, blocked, above, toks[..i], d);
      Walk(dtd, blocked, above, toks[..i + 1], d) ==
        if o.Good? then Prepend(o.events, One(dtd, blocked, o.above, toks[i], d)) else o
  {
    hide One, Walk;
    assert toks[..i + 1] == toks[..i] + [toks[i]];
    WalkConcat(dtd, blocked, above, toks[..i], [toks[i]], d);
    var o := Walk(dtd, blocked, above, toks[..i], d);
    if o.Good? {
      OneAlone(dtd, blocked, o.above, toks[i], d);
    }
  }

  lemma OneAlone(dtd: Dtd, blocked: set<string>, above: seq<Opened>, t: Token, d: nat)
    ensures Walk(dtd, blocked, above, [t], d) == One(dtd, blocked, above, t, d)
  {
    hide One;
    var o := One(dtd, blocked, above, t, d);
    assert [t][1..] == [];
    if o.Good? {
      assert o.events + [] == o.events;
    }
  }

  lemma NothingWalked(dtd: Dtd, blocked: set<string>, above: seq<Opened>)
    ensures Settles(dtd, blocked, above, [], Good(above, []))
  {
    assert Walk(dtd, blocked, above, [], 0) == Good(above, []);
  }

  lemma SettlesOnce(dtd: Dtd, blocked: set<string>, above: seq<Opened>, toks: seq<Token>, o: Reading, p: Reading)
    requires Settles(dtd, blocked, above, toks, o) && Settles(dtd, blocked, above, toks, p)
    ensures o == p
  {
    hide Walk;
    var d: nat :| Walk(dtd, blocked, above, toks, d) == o;
    var e: nat :| Walk(dtd, blocked, above, toks, e) == p;
    if d <= e {
      DeeperSame(dtd, blocked, above, toks, d, e);
    } else {
      DeeperSame(dtd, blocked, above, toks, e, d);
    }
  }

  /** The next token settles, after tokens that went well. */
  lemma TokenSettles(dtd: Dtd, blocked: set<string>, above: seq<Opened>, toks: seq<Token>, i: nat, o: Reading,
                     p: Reading)
    requires i < |toks| && o.Good? && Settles(dtd, blocked, above, toks[..i], o)
    requires SettlesOne(dtd, blocked, o.above, toks[i], p)
    ensures Settles(dtd, blocked, above, toks[..i + 1], Prepend(o.events, p))
  {
    hide One, Walk;
    var d: nat :| Walk(dtd, blocked, above, toks[..i], d) == o;
    var e: nat :| One(dtd, blocked, o.above, toks[i], e) == p;
    var m := if d <= e then e else d;
    DeeperSame(dtd, blocked, above, toks[..i], d, m);
    OneDeeperSame(dtd, blocked, o.above, toks[i], e, m);
    WalkNext(dtd, blocked, above, toks, i, m);
  }

  /** The next token does not settle, and so nothing that begins like this does. */
  lemma TokenNeverSettles(dtd: Dtd, blocked: set<string>, above: seq<Opened>, toks: seq<Token>, i: nat, o: Reading)
    requires i < |toks| && o.Good? && Settles(dtd, blocked, above, toks[..i], o)
    requires forall p :: !SettlesOne(dtd, blocked, o.above, toks[i], p)
    ensures var upTo := toks[..i + 1]; forall p :: !Settles(dtd, blocked, above, upTo, p)
  {
    hide One, Walk;
    var upTo := toks[..i + 1];
    forall d: nat
      ensures !Settled(Walk(dtd, blocked, above, upTo, d))
    {
      WalkNext(dtd, blocked, above, toks, i, d);
      var before := Walk(dtd, blocked, above, toks[..i], d);
      if Settled(before) {
        SettlesOnce(dtd, blocked, above, toks[..i], o, before);
        assert !SettlesOne(dtd, blocked, o.above, toks[i], One(dtd, blocked, o.above, toks[i], d));
      }
    }
  }

  /** An error in a part is the error of the whole. */
  lemma PrefixFails(dtd: Dtd, blocked: set<string>, above: seq<Opened>, toks: seq<Token>, k: nat, error: Error)
    requires k <= |toks|
    ensures Settles(dtd, blocked, above, toks[..k], Bad(error)) ==> Settles(dtd, blocked, above, toks, Bad(error))
    ensures (forall p :: !Settles(dtd, blocked, above, toks[..k], p)) ==>
      forall p :: !Settles(dtd, blocked, above, toks, p)
  {
    hide One, Walk;
    assert toks == toks[..k] + toks[k..];
    forall d: nat
      ensures Walk(dtd, blocked, above, toks, d) ==
        Continue(dtd, blocked, Walk(dtd, blocked, above, toks[..k], d), toks[k..], d)
    {
      WalkConcat(dtd, blocked, above, toks[..k], toks[k..], d);
    }
    if forall p :: !Settles(dtd, blocked, above, toks[..k], p) {
      forall d: nat
        ensures !Settled(Walk(dtd, blocked, above, toks, d))
      {
        assert !Settles(dtd, blocked, above, toks[..k], Walk(dtd, blocked, above, toks[..k], d));
      }
    }
  }

  lemma LiteralSettles(dtd: Dtd, blocked: set<string>, above: seq<Opened>, t: Token)
    requires !t.EntityRef? && Settled(Literal(above, t))
    ensures SettlesOne(dtd, blocked, above, t, Literal(above, t))
  {
    assert One(dtd, blocked, above, t, 0) == Literal(above, t);
  }

  lemma UnresolvedSettles(dtd: Dtd, blocked: set<string>, above: seq<Opened>, name: string)
    ensures var r := Resolve(dtd, blocked, name);
      && (r.Skip? ==> SettlesOne(dtd, blocked, above, EntityRef(name), Good(above, [])))
      && (r.Wrong? && r.error != RecursiveEntityRef ==> SettlesOne(dtd, blocked, above, EntityRef(name), Bad(r.error)))
      && (r == Wrong(RecursiveEntityRef) ==> forall p :: !SettlesOne(dtd, blocked, above, EntityRef(name), p))
  {
    hide Whole, Resolve;
    var r := Resolve(dtd, blocked, name);
    assert r.Skip? ==> One(dtd, blocked, above, EntityRef(name), 0) == Good(above, []);
    assert r.Wrong? ==> forall d: nat :: One(dtd, blocked, above, EntityRef(name), d) == Bad(r.error);
    assert r.Wrong? ==> One(dtd, blocked, above, EntityRef(name), 0) == Bad(r.error);
  }

  /** A reference settles as the text of the entity does while the entity is open. */
  lemma ReferenceSettles(dtd: Dtd, blocked: set<string>, above: seq<Opened>, name: string, text: Input, o: Reading)
    requires Resolve(dtd, blocked, name) == Replace(text)
    ensures SettlesWhole(dtd, blocked + {name}, text, o) ==>
      SettlesOne(dtd, blocked, above, EntityRef(name), Under(above, o))
  {
    hide Whole, Resolve;
    OpenMarkIrrelevant(dtd, blocked, name, text, o);
    if SettlesWhole(dtd, blocked, text, o) {
      var d: nat :| Whole(dtd, blocked, text, d) == o;
      assert One(dtd, blocked, above, EntityRef(name), d + 1) == Under(above, o);
    }
  }

  lemma ReferenceNeverSettles(dtd: Dtd, blocked: set<string>, above: seq<Opened>, name: string, text: Input)
    requires Resolve(dtd, blocked, name) == Replace(text)
    requires forall o :: !SettlesWhole(dtd, blocked + {name}, text, o)
    ensures forall p :: !SettlesOne(dtd, blocked, above, EntityRef(name), p)
  {
    hide Whole, Resolve;
    forall d: nat
      ensures !Settled(One(dtd, blocked, above, EntityRef(name), d))
    {
      if d > 0 {
        var o := Whole(dtd, blocked, text, d - 1);
        OpenMarkIrrelevant(dtd, blocked, name, text, o);
        assert !SettlesWhole(dtd, blocked + {name}, text, o);
        assert One(dtd, blocked, above, EntityRef(name), d) == Under(above, o);
      }
    }
  }

  /** From the tokens of a text to the whole text. */
  lemma WholeSettles(dtd: Dtd, blocked: set<string>, text: Input)
    ensures forall o :: Settles(dtd, blocked, [], text.tokens, o) ==>
      SettlesWhole(dtd, blocked, text, Finish(o, text.ending))
    ensures (forall o :: !Settles(dtd, blocked, [], text.tokens, o)) ==>
      forall o :: !SettlesWhole(dtd, blocked, text, o)
  {
    hide Walk;
    forall o | Settles(dtd, blocked, [], text.tokens, o)
      ensures SettlesWhole(dtd, blocked, text, Finish(o, text.ending))
    {
      var d: nat :| Walk(dtd, blocked, [], text.tokens, d) == o;
      assert Whole(dtd, blocked, text, d) == Finish(o, text.ending);
    }
    if forall o :: !Settles(dtd, blocked, [], text.tokens, o) {
      forall d: nat
        ensures !Settled(Whole(dtd, blocked, text, d))
      {
        WholeIsWalk(dtd, blocked, text, d);
        assert !Settles(dtd, blocked, [], text.tokens, Walk(dtd, blocked, [], text.tokens, d));
      }
    }
  }

  // ---------- Recursion and cycles ----------

  /** storeAtts reports no error of the content processor's own. */
  ghost predicate AttributeErrorsOnly(t: Token) {
    (t.StartTag? ==> t.attsError == NoError || t.attsError.AttributeError?) &&
    (t.EmptyElement? ==> t.attsError == NoError || t.attsError.AttributeError?)
  }

  ghost predicate WellReported(toks: seq<Token>) {
    forall i :: 0 <= i < |toks| ==> AttributeErrorsOnly(toks[i])
  }

  /** All tokens report their attribute errors as such. */
  ghost predicate WellDeclared(dtd: Dtd) {
    forall name :: name in dtd.entities && dtd.entities[name].text.Some? ==>
      WellReported(dtd.entities[name].text.value.tokens)
  }

  /** p is a chain of references: the first is made in toks, each next one in the text of the one before. */
  ghost predicate Chain(dtd: Dtd, toks: seq<Token>, p: seq<string>)
    decreases |p|
  {
    p == [] ||
    (EntityRef(p[0]) in toks && Resolve(dtd, {}, p[0]).Replace? &&
      Chain(dtd, Resolve(dtd, {}, p[0]).text.tokens, p[1..]))
  }

  lemma {:induction false} TooDeepHasChain(dtd: Dtd, above: seq<Opened>, toks: seq<Token>, d: nat)
    returns (p: seq<string>)
    requires Walk(dtd, {}, above, toks, d).TooDeep?
    ensures |p| == d + 1 && Chain(dtd, toks, p)
    decreases d, |toks|
  {
    hide Resolve, Finish;
    var t, o := toks[0], One(dtd, {}, above, toks[0], d);
    if o.TooDeep? {
      assert t == EntityRef(t.name);
      p := [t.name];
      assert p[1..] == [];
      if d > 0 {
        var text := Resolve(dtd, {}, t.name).text;
        WholeIsWalk(dtd, {}, text, d - 1);
        var q := TooDeepHasChain(dtd, [], text.tokens, d - 1);
        p := [t.name] + q;
        assert p[1..] == q;
      }
    } else {
      p := TooDeepHasChain(dtd, o.above, toks[1..], d);
      ChainInMore(dtd, toks[1..], toks, p);
    }
  }

  lemma ChainInMore(dtd: Dtd, toks: seq<Token>, more: seq<Token>, p: seq<string>)
    requires Chain(dtd, toks, p) && forall t | t in toks :: t in more
    ensures Chain(dtd, more, p)
  {}

  lemma {:induction false} ChainNamesDeclared(dtd: Dtd, toks: seq<Token>, p: seq<string>)
    requires Chain(dtd, toks, p)
    ensures forall n | n in p :: n in dtd.entities
    decreases |p|
  {
    if p != [] {
      ChainNamesDeclared(dtd, Resolve(dtd, {}, p[0]).text.tokens, p[1..]);
    }
  }

  lemma {:induction false} NothingBlocked(dtd: Dtd, above: seq<Opened>, toks: seq<Token>, d: nat)
    requires WellDeclared(dtd) && WellReported(toks)
    ensures Walk(dtd, {}, above, toks, d) != Bad(RecursiveEntityRef)
    decreases d, |toks|
  {
    hide Finish, WellDeclared;
    if toks != [] {
      var t, o := toks[0], One(dtd, {}, above, toks[0], d);
      if t.EntityRef? && Resolve(dtd, {}, t.name).Replace? && d > 0 {
        var text := Resolve(dtd, {}, t.name).text;
        TextReported(dtd, t.name);
        NothingBlocked(dtd, [], text.tokens, d - 1);
        FinishBlocked(Walk(dtd, {}, [], text.tokens, d - 1), text.ending);
        assert Whole(dtd, {}, text, d - 1) != Bad(RecursiveEntityRef);
      }
      assert AttributeErrorsOnly(t) && o != Bad(RecursiveEntityRef);
      if o.Good? {
        NothingBlocked(dtd, o.above, toks[1..], d);
      }
    }
  }

  lemma TextReported(dtd: Dtd, name: string)
    requires WellDeclared(dtd) && Resolve(dtd, {}, name).Replace?
    ensures WellReported(Resolve(dtd, {}, name).text.tokens)
  {}

  lemma FinishBlocked(o: Reading, ending: Ending)
    requires o != Bad(RecursiveEntityRef)
    ensures Finish(o, ending) != Bad(RecursiveEntityRef)
  {}

  /** When no entity is open, content that never settles has a cycle of references to blame. */
  lemma NeverSettlingIsCyclic(dtd: Dtd, toks: seq<Token>) returns (p: seq<string>)
    requires WellDeclared(dtd) && WellReported(toks) && forall o :: !Settles(dtd, {}, [], toks, o)
    ensures Chain(dtd, toks, p) && Cyclic(p)
  {
    hide Walk, WellDeclared, WellReported;
    var d := |dtd.entities|;
    NothingBlocked(dtd, [], toks, d);
    assert !Settles(dtd, {}, [], toks, Walk(dtd, {}, [], toks, d));
    p := TooDeepHasChain(dtd, [], toks, d);
    ChainNamesDeclared(dtd, toks, p);
    assert |dtd.entities.Keys| == |dtd.entities|;
    Pigeonhole(p, dtd.entities.Keys);
  }

  lemma {:induction false} GoodMembers(dtd: Dtd, above: seq<Opened>, toks: seq<Token>, name: string, d: nat)
    requires Walk(dtd, {}, above, toks, d).Good? && EntityRef(name) in toks && Resolve(dtd, {}, name).Replace?
    ensures d > 0 && Whole(dtd, {}, Resolve(dtd, {}, name).text, d - 1).Good?
    decreases |toks|
  {
    hide Literal, Resolve, Whole;
    if EntityRef(name) != toks[0] {
      GoodMembers(dtd, One(dtd, {}, above, toks[0], d).above, toks[1..], name, d);
    }
  }

  /** The texts along a chain are read to ever smaller depths. */
  lemma {:induction false} GoodAlong(dtd: Dtd, above: seq<Opened>, toks: seq<Token>, p: seq<string>, d: nat, k: nat)
    requires Walk(dtd, {}, above, toks, d).Good? && Chain(dtd, toks, p) && k < |p|
    ensures k < d && Resolve(dtd, {}, p[k]).Replace?
    ensures Whole(dtd, {}, Resolve(dtd, {}, p[k]).text, d - 1 - k).Good?
    ensures Chain(dtd, Resolve(dtd, {}, p[k]).text.tokens, p[k + 1..])
    decreases k
  {
    hide Walk, Resolve, Finish;
    GoodMembers(dtd, above, toks, p[0], d);
    if k > 0 {
      WholeGood(dtd, Resolve(dtd, {}, p[0]).text, d - 1);
      GoodAlong(dtd, [], Resolve(dtd, {}, p[0]).text.tokens, p[1..], d - 1, k - 1);
      assert p[1..][k..] == p[k + 1..];
    }
  }

  /** Where a cycle of references can be reached, content is never accepted. */
  lemma CyclesAreNotRead(dtd: Dtd, above: seq<Opened>, toks: seq<Token>, p: seq<string>, d: nat)
    requires Chain(dtd, toks, p) && Cyclic(p)
    ensures !Walk(dtd, {}, above, toks, d).Good?
  {
    hide Walk, Resolve, Chain;
    if Walk(dtd, {}, above, toks, d).Good? {
      var i, j :| 0 <= i < j < |p| && p[i] == p[j];
      GoodAlong(dtd, above, toks, p, d, i);
      var text := Resolve(dtd, {}, p[i]).text;
      var m := LeastDepth(dtd, {}, text, d - 1 - i);
      WholeGood(dtd, text, m);
      GoodAlong(dtd, [], text.tokens, p[i + 1..], m, j - i - 1);
    }
  }

  lemma WholeGood(dtd: Dtd, text: Input, d: nat)
    requires Whole(dtd, {}, text, d).Good?
    ensures Walk(dtd, {}, [], text.tokens, d).Good?
  {}

  // ---------- The events form a tree ----------

  function Append(f: Forest, g: Forest): (h: Forest)
    ensures Events(h) == Events(f) + Events(g)
  {
    match f
    case Nothing => g
    case Text(chunk, rest) => Text(chunk, Append(rest, g))
    case Element(name, atts, content, rest) => Element(name, atts, content, Append(rest, g))
  }

  ghost predicate IsForest(events: seq<Event>) {
    exists f :: events == Events(f)
  }

  /** Exactly one element. */
  ghost predicate IsDocument(events: seq<Event>) {
    exists name, atts, content :: events == Events(Element(name, atts, content, Nothing))
  }

  /** The events of a tree that is complete but for the end tags of these elements, innermost first.
      In a document nothing comes before the outermost of them. */
  ghost predicate OpenTree(above: seq<Opened>, events: seq<Event>, document: bool)
    decreases |above|
  {
    if above == [] then if document then events == [] else IsForest(events)
    else
      exists before, atts, f ::
        InsideLast(events, before, above[0].name, atts, f) && OpenTree(above[1..], before, document)
  }

  ghost predicate InsideLast(events: seq<Event>, before: seq<Event>, name: string, atts: Attributes, f: Forest) {
    events == before + [Start(name, atts)] + Events(f)
  }

  lemma OpenTreeForest(above: seq<Opened>, events: seq<Event>, document: bool, g: Forest)
    requires OpenTree(above, events, document) && (above != [] || !document)
    ensures OpenTree(above, events + Events(g), document)
  {
    hide Events;
    if above == [] {
      var f :| events == Events(f);
      assert events + Events(g) == Events(Append(f, g));
    } else {
      var before, atts, f :|
        InsideLast(events, before, above[0].name, atts, f) && OpenTree(above[1..], before, document);
      InsideMore(events, before, above[0].name, atts, f, g);
    }
  }

  lemma InsideMore(events: seq<Event>, before: seq<Event>, name: string, atts: Attributes, f: Forest, g: Forest)
    requires InsideLast(events, before, name, atts, f)
    ensures InsideLast(events + Events(g), before, name, atts, Append(f, g))
  {
    hide Events;
    var tag := before + [Start(name, atts)];
    assert tag + Events(f) + Events(g) == tag + (Events(f) + Events(g));
  }

  lemma OpenTreeStart(above: seq<Opened>, events: seq<Event>, document: bool, element: Opened, atts: Attributes)
    requires OpenTree(above, events, document)
    ensures OpenTree([element] + above, events + [Start(element.name, atts)], document)
  {
    var path, after := [element] + above, events + [Start(element.name, atts)];
    assert path[1..] == above && after + [] == after;
    assert InsideLast(after, events, path[0].name, atts, Nothing);
  }

  lemma ElementEvents(name: string, atts: Attributes, f: Forest)
    ensures Events(Element(name, atts, f, Nothing)) == [Start(name, atts)] + Events(f) + [End(name)]
  {}

  lemma OpenTreeEnd(above: seq<Opened>, events: seq<Event>, document: bool)
    requires above != [] && OpenTree(above, events, document)
    ensures var after := events + [End(above[0].name)];
      if document && |above| == 1 then IsDocument(after) else OpenTree(above[1..], after, document)
  {
    hide Events;
    var name, after := above[0].name, events + [End(above[0].name)];
    var before, atts, f :|
      InsideLast(events, before, name, atts, f) && OpenTree(above[1..], before, document);
    var element := Element(name, atts, f, Nothing);
    ElementEvents(name, atts, f);
    assert after == before + Events(element);
    if document && |above| == 1 {
      assert after == Events(element);
    } else {
      OpenTreeForest(above[1..], before, document, element);
    }
  }

  /** Chunks of text, elements without content and nothing at all are lists of their own. */
  lemma SmallForests(name: string, atts: Attributes, chars: string)
    ensures Events(Nothing) == []
    ensures Events(Text(chars, Nothing)) == [Characters(chars)]
    ensures Events(Element(name, atts, Nothing, Nothing)) == [Start(name, atts), End(name)]
  {}

  lemma OpenTreeAdd(above: seq<Opened>, events: seq<Event>, document: bool, more: seq<Event>)
    requires OpenTree(above, events, document) && (above != [] || !document) && IsForest(more)
    ensures OpenTree(above, events + more, document)
  {
    hide OpenTree;
    var g :| more == Events(g);
    OpenTreeForest(above, events, document, g);
  }

  /** What one token adds to the tree. */
  lemma {:induction false} OneOpenTree(dtd: Dtd, blocked: set<string>, above: seq<Opened>, t: Token, d: nat,
                                       events: seq<Event>, document: bool)
    requires OpenTree(above, events, document) && One(dtd, blocked, above, t, d).Good?
    requires document && above == [] ==> t.StartTag? || t.EmptyElement?
    ensures var o := One(dtd, blocked, above, t, d);
      if document && o.above == [] then IsDocument(events + o.events)
        else OpenTree(o.above, events + o.events, document)
    decreases d, 0
  {
    hide OpenTree, Resolve, Whole, Events, IsDocument;
    match t {
      case StartTag(raw, name, atts, _) => OpenTreeStart(above, events, document, Opened(raw, name), atts);
      case EndTag(_) => OpenTreeEnd(above, events, document);
      case EmptyElement(name, atts, _) =>
        SmallForests(name, atts, "");
        if document && above == [] {
          RootAlone(events, name, atts);
        } else {
          OpenTreeAdd(above, events, document, [Start(name, atts), End(name)]);
        }
      case PredefinedRef(ch) => CharsAdd(above, events, document, [ch]);
      case CharRef(_, encoded) => CharsAdd(above, events, document, encoded);
      case DataChars(chars) => CharsAdd(above, events, document, chars);
      case DataNewline => CharsAdd(above, events, document, "\n");
      case Cdata(chars) => CharsAdd(above, events, document, chars);
      case XmlDecl =>
      case Silent => assert events + [] == events;
      case EntityRef(name) =>
        var r := Resolve(dtd, blocked, name);
        if r.Replace? {
          WholeIsForest(dtd, blocked, r.text, d - 1);
          OpenTreeAdd(above, events, document, Whole(dtd, blocked, r.text, d - 1).events);
        } else {
          assert events + [] == events;
        }
    }
  }

  lemma CharsAdd(above: seq<Opened>, events: seq<Event>, document: bool, chars: string)
    requires OpenTree(above, events, document) && (above != [] || !document)
    ensures OpenTree(above, events + [Characters(chars)], document)
  {
    hide OpenTree, Events;
    SmallForests("", [], chars);
    OpenTreeAdd(above, events, document, [Characters(chars)]);
  }

  lemma RootAlone(events: seq<Event>, name: string, atts: Attributes)
    requires OpenTree([], events, true)
    ensures IsDocument(events + [Start(name, atts), End(name)])
  {
    hide Events;
    SmallForests(name, atts, "");
    assert events + [Start(name, atts), End(name)] == Events(Element(name, atts, Nothing, Nothing));
  }

  lemma {:induction false} WalkOpenTree(dtd: Dtd, blocked: set<string>, above: seq<Opened>, toks: seq<Token>, d: nat,
                                        events: seq<Event>)
    requires OpenTree(above, events, false) && Walk(dtd, blocked, above, toks, d).Good?
    ensures var o := Walk(dtd, blocked, above, toks, d); OpenTree(o.above, events + o.events, false)
    decreases d, |toks|, 0
  {
    hide OpenTree, One;
    if toks == [] {
      assert events + [] == events;
    } else {
      var o := One(dtd, blocked, above, toks[0], d);
      OneOpenTree(dtd, blocked, above, toks[0], d, events, false);
      WalkOpenTree(dtd, blocked, o.above, toks[1..], d, events + o.events);
      var p := Walk(dtd, blocked, o.above, toks[1..], d);
      assert events + o.events + p.events == events + (o.events + p.events);
    }
  }

  /** The replacement text of an entity is balanced on its own: it closes no element that was opened
      outside and leaves none open. */
  lemma {:induction false} WholeIsForest(dtd: Dtd, blocked: set<string>, text: Input, d: nat)
    requires Whole(dtd, blocked, text, d).Good?
    ensures Whole(dtd, blocked, text, d).above == [] && IsForest(Whole(dtd, blocked, text, d).events)
    decreases d, |text.tokens|, 1
  {
    hide Walk, Events;
    SmallForests("", [], "");
    assert OpenTree([], [], false) by {
      assert [] == Events(Nothing);
    }
    WalkOpenTree(dtd, blocked, [], text.tokens, d, []);
    var o := Walk(dtd, blocked, [], text.tokens, d);
    assert [] + o.events == o.events;
    assert OpenTree([], o.events, false);
    match text.ending {
      case TrailingCr => CharsAdd([], o.events, false, "\n");
      case TrailingRsqb(chars) => CharsAdd([], o.events, false, chars);
      case Clean =>
      case Partial =>
      case PartialChar =>
      case Invalid =>
    }
  }

  // ---------- Names without slashes and text without null characters ----------

  predicate PlainToken(t: Token) {
    match t
    case StartTag(_, name, _, _) => '/' !in name
    case EmptyElement(name, _, _) => '/' !in name
    case PredefinedRef(ch) => ch != '\0'
    case CharRef(_, encoded) => '\0' !in encoded
    case DataChars(chars) => '\0' !in chars
    case Cdata(chars) => '\0' !in chars
    case _ => true
  }

  predicate PlainTokens(toks: seq<Token>) {
    forall t | t in toks :: PlainToken(t)
  }

  predicate PlainInput(text: Input) {
    PlainTokens(text.tokens) && (text.ending.TrailingRsqb? ==> '\0' !in text.ending.chars)
  }

  predicate PlainDtd(dtd: Dtd) {
    forall name | name in dtd.entities && dtd.entities[name].text.Some? :: PlainInput(dtd.entities[name].text.value)
  }

  predicate PlainEvent(e: Event) {
    match e
    case Start(el, _) => '/' !in el
    case End(_) => true
    case Characters(txt) => '\0' !in txt
  }

  predicate PlainEvents(events: seq<Event>) {
    forall e | e in events :: PlainEvent(e)
  }

  /** What is read from plain input is plain. */
  lemma {:induction false} WalkPlain(dtd: Dtd, blocked: set<string>, above: seq<Opened>, toks: seq<Token>, d: nat)
    requires PlainDtd(dtd) && PlainTokens(toks) && Walk(dtd, blocked, above, toks, d).Good?
    ensures PlainEvents(Walk(dtd, blocked, above, toks, d).events)
    decreases d, |toks|, 0
  {
    hide One, PlainDtd, PlainToken, PlainEvent;
    if toks != [] {
      OnePlain(dtd, blocked, above, toks[0], d);
      WalkPlain(dtd, blocked, One(dtd, blocked, above, toks[0], d).above, toks[1..], d);
    }
  }

  lemma {:induction false} OnePlain(dtd: Dtd, blocked: set<string>, above: seq<Opened>, t: Token, d: nat)
    requires PlainDtd(dtd) && PlainToken(t) && One(dtd, blocked, above, t, d).Good?
    ensures PlainEvents(One(dtd, blocked, above, t, d).events)
    decreases d, 0, 1
  {
    hide Whole;
    if t.EntityRef? && Resolve(dtd, blocked, t.name).Replace? {
      WholePlain(dtd, blocked, Resolve(dtd, blocked, t.name).text, d - 1);
    }
  }

  lemma {:induction false} WholePlain(dtd: Dtd, blocked: set<string>, text: Input, d: nat)
    requires PlainDtd(dtd) && PlainInput(text) && Whole(dtd, blocked, text, d).Good?
    ensures PlainEvents(Whole(dtd, blocked, text, d).events)
    decreases d, |text.tokens|, 1
  {
    hide Walk, PlainDtd;
    WalkPlain(dtd, blocked, [], text.tokens, d);
  }

  lemma {:induction false} PlainForest(f: Forest)
    requires PlainEvents(Events(f))
    ensures Plain(f)
  {
    match f {
      case Nothing =>
      case Text(chunk, rest) =>
        PlainParts([Characters(chunk)], Events(rest));
        PlainForest(rest);
      case Element(name, atts, content, rest) =>
        PlainParts([Start(name, atts)] + Events(content) + [End(name)], Events(rest));
        PlainParts([Start(name, atts)] + Events(content), [End(name)]);
        PlainParts([Start(name, atts)], Events(content));
        PlainForest(content);
        PlainForest(rest);
    }
  }

  lemma PlainParts(a: seq<Event>, b: seq<Event>)
    requires PlainEvents(a + b)
    ensures PlainEvents(a) && PlainEvents(b)
    ensures a != [] ==> PlainEvent(a[0])
  {
    hide PlainEvent;
    forall e | e in a ensures PlainEvent(e) {
      assert e in a + b;
    }
    forall e | e in b ensures PlainEvent(e) {
      assert e in a + b;
    }
  }
}
