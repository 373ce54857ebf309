/** Content models of element type declarations (XML 1.0 sections 3.2.1 and 3.2.2): the trees
    handed to the element declaration handler, their notation, and a parser for the notation
    made of the role automaton and the group actions of doProlog. The parser accepts exactly
    the notations of lists of well-formed trees, and reports those trees. */
module ContentModel {
  import opened XmlRole

  datatype ContentType = EMPTY | ANY | MIXED | NAME | CHOICE | SEQ

  /** XML_Content, with the children as a sequence. */
  datatype Content = Content(ctype: ContentType, quant: Quant, name: string, children: seq<Content>)

  // ---------- Well-formed content models and their notation ----------

  /** A content particle: a name, a sequence of at least one, or a choice of at least two. */
  predicate IsParticle(c: Content)
    decreases c
  {
    match c.ctype
    case NAME => c.children == []
    case SEQ => c.name == "" && |c.children| >= 1 && forall k | k in c.children :: IsParticle(k)
    case CHOICE => c.name == "" && |c.children| >= 2 && forall k | k in c.children :: IsParticle(k)
    case _ => false
  }

  /** A member of mixed content: a name without quantifier. */
  predicate IsPlainName(c: Content) {
    c == Content(NAME, None, c.name, [])
  }

  /** EMPTY, ANY, mixed content (repeated if it names elements) or one group. */
  predicate IsModel(c: Content) {
    match c.ctype
    case EMPTY => c == Content(EMPTY, None, "", [])
    case ANY => c == Content(ANY, None, "", [])
    case MIXED =>
      && c.name == ""
      && (forall k | k in c.children :: IsPlainName(k))
      && (c.quant == Rep || (c.quant == None && c.children == []))
    case NAME => false
    case _ => IsParticle(c)
  }

  function NameToken(q: Quant, name: string): Token {
    match q
    case None => Name(name)
    case Opt => NameQuestion(name)
    case Rep => NameAsterisk(name)
    case Plus => NamePlus(name)
  }

  function CloseToken(q: Quant): Token {
    match q
    case None => CloseParen
    case Opt => CloseParenQuestion
    case Rep => CloseParenAsterisk
    case Plus => CloseParenPlus
  }

  function PrintParticle(c: Content): seq<Token>
    decreases c, 1
  {
    if c.ctype == NAME then [NameToken(c.quant, c.name)]
    else [OpenParen] + Join(c.children, if c.ctype == CHOICE then Or else Comma) + [CloseToken(c.quant)]
  }

  /** The notations of the particles with the separator between them. */
  function Join(cs: seq<Content>, sep: Token): seq<Token>
    decreases cs, 0
  {
    if |cs| == 0 then []
    else if |cs| == 1 then PrintParticle(cs[0])
    else Join(cs[..|cs| - 1], sep) + [sep] + PrintParticle(cs[|cs| - 1])
  }

  /** `| name` for each member of mixed content. */
  function BarNames(cs: seq<Content>): seq<Token> {
    if cs == [] then []
    else BarNames(cs[..|cs| - 1]) + [Or, Name(cs[|cs| - 1].name)]
  }

  function PrintModel(c: Content): seq<Token> {
    match c.ctype
    case EMPTY => [Name("EMPTY")]
    case ANY => [Name("ANY")]
    case MIXED => [OpenParen, PoundName("PCDATA")] + BarNames(c.children) + [CloseToken(c.quant)]
    case _ => PrintParticle(c)
  }

  /** The tokens after `<!ELEMENT`. */
  function PrintDeclaration(element: string, c: Content): seq<Token> {
    [Name(element)] + PrintModel(c) + [DeclarationClose]
  }

  /** `a (b*, (c | d)+)?` */
  lemma GroupNotation(a: string, b: string, c: string, d: string)
    ensures
      var choice := Content(CHOICE, Plus, "", [Content(NAME, None, c, []), Content(NAME, None, d, [])]);
      PrintDeclaration(a, Content(SEQ, Opt, "", [Content(NAME, Rep, b, []), choice])) ==
        [Name(a), OpenParen, NameAsterisk(b), Comma, OpenParen, Name(c), Or, Name(d), CloseParenPlus,
         CloseParenQuestion, DeclarationClose]
  {
    var p, q := Content(NAME, None, c, []), Content(NAME, None, d, []);
    PairNotation(CHOICE, Plus, p, q);
    PairNotation(SEQ, Opt, Content(NAME, Rep, b, []), Content(CHOICE, Plus, "", [p, q]));
  }

  lemma PairNotation(ctype: ContentType, quant: Quant, p: Content, q: Content)
    requires ctype == CHOICE || ctype == SEQ
    ensures PrintParticle(Content(ctype, quant, "", [p, q])) ==
      [OpenParen] + PrintParticle(p) + [if ctype == CHOICE then Or else Comma] + PrintParticle(q) +
      [match quant case None => CloseParen case Opt => CloseParenQuestion case Rep => CloseParenAsterisk
       case Plus => CloseParenPlus]
  {
    var c, sep := Content(ctype, quant, "", [p, q]), if ctype == CHOICE then Or else Comma;
    assert [p, q][..1] == [p];
    assert Join([p], sep) == PrintParticle(p);
    assert Join([p, q], sep) == Join([p], sep) + [sep] + PrintParticle(q);
    assert PrintParticle(c) == [OpenParen] + Join([p, q], sep) + [CloseToken(quant)];
  }

  /** `a (#PCDATA | b | c)*`, `a EMPTY` and `a ANY` */
  lemma MixedNotation(a: string, b: string, c: string)
    ensures
      PrintDeclaration(a, Content(MIXED, Rep, "", [Content(NAME, None, b, []), Content(NAME, None, c, [])])) ==
        [Name(a), OpenParen, PoundName("PCDATA"), Or, Name(b), Or, Name(c), CloseParenAsterisk, DeclarationClose]
    ensures PrintDeclaration(a, Content(EMPTY, None, "", [])) == [Name(a), Name("EMPTY"), DeclarationClose]
    ensures PrintDeclaration(a, Content(ANY, None, "", [])) == [Name(a), Name("ANY"), DeclarationClose]
  {
    var p, q := Content(NAME, None, b, []), Content(NAME, None, c, []);
    assert [p, q][..1] == [p] && [p][..0] == [];
    assert BarNames([p]) == [Or, Name(b)];
  }

  /** Element type declarations one after the other. */
  function PrintSubset(ds: seq<Declaration>): seq<Token> {
    if ds == [] then []
    else
      var d := ds[|ds| - 1];
      PrintSubset(ds[..|ds| - 1]) + [ElementOpen] + PrintDeclaration(d.name, d.model)
  }

  /** White space dropped, and the two kinds of name merged. */
  function Strip(toks: seq<Token>): seq<Token> {
    if toks == [] then []
    else match toks[0]
      case Space => Strip(toks[1..])
      case PrefixedName(n) => [Name(n)] + Strip(toks[1..])
      case t => [t] + Strip(toks[1..])
  }

  /** What the tokenizer guarantees: a name is classed as prefixed because it has a colon. */
  predicate Tokenized(toks: seq<Token>) {
    forall i :: 0 <= i < |toks| && toks[i].PrefixedName? ==> ':' in toks[i].name
  }

  // ---------- The group actions of doProlog on open groups ----------

  datatype Connector = NoConnector | CommaConnector | BarConnector

  /** An open group: its type so far, groupConnector at its level, and its complete members. */
  datatype Group = Group(ctype: ContentType, connector: Connector, members: seq<Content>)

  /** One call of the element declaration handler. */
  datatype Declaration = Declaration(name: string, model: Content)

  /** The element being declared, its open groups from the outside in (empty when no declaration
      is being read), and all calls of the element declaration handler so far. */
  datatype Builder = Builder(element: string, inEldecl: bool, groups: seq<Group>, reports: seq<Declaration>)

  datatype Outcome = Fine(builder: Builder) | SyntaxError

  function AddMember(groups: seq<Group>, c: Content): (r: seq<Group>)
    requires groups != []
    ensures |r| == |groups| && forall k :: 0 <= k < |r| ==> r[k].connector == groups[k].connector
  {
    var top := groups[|groups| - 1];
    groups[|groups| - 1 := top.(members := top.members + [c])]
  }

  function SetTop(b: Builder, g: Group): Builder
    requires b.groups != []
  {
    b.(groups := b.groups[|b.groups| - 1 := g])
  }

  lemma AddMemberToTop(below: seq<Group>, g: Group, c: Content)
    ensures AddMember(below + [g], c) == below + [g.(members := g.members + [c])]
  {}

  /** The effect of one role. The roles inside a group never come outside of one; the source
      would read past its stack there. */
  function Act(b: Builder, role: Role, name: string): Outcome
  {
    var n := |b.groups|;
    var top := if n > 0 then b.groups[n - 1] else Group(SEQ, NoConnector, []);
    match role
    case RoleNone => Fine(b)
    case ElementNone => Fine(b)
    case RoleError => SyntaxError
    case ElementName => Fine(b.(element := name, inEldecl := true, groups := []))
    case ContentEmpty => Fine(Report(b, Content(EMPTY, None, "", [])))
    case ContentAny => Fine(Report(b, Content(ANY, None, "", [])))
    case GroupOpen => Fine(b.(groups := b.groups + [Group(SEQ, NoConnector, [])]))
    case ContentPcdata =>
      if n == 0 then SyntaxError else Fine(SetTop(b, top.(ctype := MIXED)))
    case ContentElement(q) =>
      if n == 0 then SyntaxError else Fine(b.(groups := AddMember(b.groups, Content(NAME, q, name, []))))
    case GroupSequence =>
      if n == 0 || top.connector == BarConnector then SyntaxError
      else Fine(SetTop(b, top.(connector := CommaConnector)))
    case GroupChoice =>
      if n == 0 || top.connector == CommaConnector then SyntaxError
      else
        var ctype := if top.connector == NoConnector && top.ctype != MIXED then CHOICE else top.ctype;
        Fine(SetTop(b, top.(ctype := ctype, connector := BarConnector)))
    case GroupClose(q) =>
      var c := Content(top.ctype, q, "", top.members);
      if n == 0 then SyntaxError
      else if n == 1 then Fine(Report(b.(groups := []), c))
      else Fine(b.(groups := AddMember(b.groups[..n - 1], c)))
  }

  function Report(b: Builder, c: Content): Builder {
    b.(inEldecl := false, reports := b.reports + [Declaration(b.element, c)])
  }

  // ---------- The parser ----------

  datatype Machine = Machine(state: State, builder: Builder) | Failed

  /** A declaration can begin: after `<!ELEMENT`, or outside of all declarations. What earlier
      declarations left behind does not matter. */
  ghost predicate Ready(m: Machine, handler: Handler) {
    m.Machine? && m.state.handler == handler && !m.builder.inEldecl && m.builder.groups == []
  }

  function NameOf(tok: Token): string {
    match tok
    case Name(n) => n
    case PrefixedName(n) => n
    case NameQuestion(n) => n
    case NameAsterisk(n) => n
    case NamePlus(n) => n
    case _ => ""
  }

  /** One round of doProlog: the role of the token, then its action. */
  function Step(m: Machine, tok: Token): Machine {
    if m.Failed? then Failed
    else
      var (state, role) := Next(m.state, tok);
      match Act(m.builder, role, NameOf(tok))
      case SyntaxError => Failed
      case Fine(b) => Machine(state, b)
  }

  function Run(m: Machine, toks: seq<Token>): Machine
    decreases |toks|
  {
    if toks == [] then m else Run(Step(m, toks[0]), toks[1..])
  }

  /** The tokens are whole declarations, and they were reported like this. */
  ghost predicate Accepts(m: Machine, toks: seq<Token>, ds: seq<Declaration>)
    requires m.Machine?
  {
    var m' := Run(m, toks);
    m'.Machine? && m'.state.handler == InternalSubset && m'.builder.reports == m.builder.reports + ds
  }

  lemma {:induction false} RunConcat(m: Machine, a: seq<Token>, b: seq<Token>)
    ensures Run(m, a + b) == Run(Run(m, a), b)
    decreases |a|
  {
    if a == [] {
      assert a + b == b;
    } else {
      assert (a + b)[1..] == a[1..] + b;
      RunConcat(Step(m, a[0]), a[1..], b);
    }
  }

  lemma {:induction false} RunOne(m: Machine, tok: Token)
    ensures Run(m, [tok]) == Step(m, tok)
  {
    assert [tok][1..] == [];
  }

  lemma {:induction false} FailedStays(toks: seq<Token>)
    ensures Run(Failed, toks) == Failed
  {
    if toks != [] {
      FailedStays(toks[1..]);
    }
  }

  /** Where role_none is used, it is a role without effect. */
  predicate Quiet(m: Machine) {
    m.Machine? && m.state.handler == DeclClose ==> m.state.roleNone == ElementNone
  }

  lemma StepQuiet(m: Machine, tok: Token)
    requires Quiet(m)
    ensures Quiet(Step(m, tok))
    ensures tok == Space ==> Step(m, tok) == m
  {
    hide Act;
    if m.Machine? && tok == Space {
      SpaceActs(m.builder, Next(m.state, tok).1);
    }
  }

  lemma SpaceActs(b: Builder, role: Role)
    requires role == RoleNone || role == ElementNone
    ensures Act(b, role, "") == Fine(b)
  {}

  lemma PrefixedIsName(m: Machine, n: string)
    requires ':' in n
    ensures Step(m, PrefixedName(n)) == Step(m, Name(n))
  {
    hide Act;
  }

  /** White space and the kind of a name make no difference. */
  lemma {:induction false} RunStrip(m: Machine, toks: seq<Token>)
    requires Tokenized(toks) && Quiet(m)
    ensures Run(m, toks) == Run(m, Strip(toks))
    decreases |toks|
  {
    hide Step;
    if toks != [] {
      var tok, rest := toks[0], toks[1..];
      StepQuiet(m, tok);
      RunStrip(Step(m, tok), rest);
      if tok != Space {
        var t := if tok.PrefixedName? then Name(tok.name) else tok;
        if tok.PrefixedName? {
          PrefixedIsName(m, tok.name);
        }
        assert Strip(toks) == [t] + Strip(rest);
        assert ([t] + Strip(rest))[1..] == Strip(rest);
      }
    }
  }

  // ---------- Every notation is accepted ----------

  /** A particle is expected inside the open groups. */
  ghost predicate Expecting(m: Machine) {
    && m.Machine? && m.state.level == |m.builder.groups| >= 1
    && (m.state.handler == Element6 || (m.state.handler == Element2 && m.state.level == 1))
  }

  /** The machine after the particle c has been read. */
  ghost function After(m: Machine, c: Content): Machine
    requires Expecting(m)
  {
    Machine(m.state.(handler := Element7), m.builder.(groups := AddMember(m.builder.groups, c)))
  }

  function Separator(ctype: ContentType): Token {
    if ctype == CHOICE then Or else Comma
  }

  /** A group of this type with its first members read. */
  ghost function PartOf(ctype: ContentType, members: seq<Content>): Group {
    if |members| <= 1 then Group(SEQ, NoConnector, members)
    else Group(ctype, if ctype == CHOICE then BarConnector else CommaConnector, members)
  }

  lemma {:induction false} ReadsParticle(m: Machine, c: Content)
    requires Expecting(m) && IsParticle(c)
    ensures Run(m, PrintParticle(c)) == After(m, c)
    decreases c, 1
  {
    hide Step, Run;
    var toks := PrintParticle(c);
    if c.ctype == NAME {
      RunOne(m, toks[0]);
      ReadsName(m, c);
    } else {
      var sep, close := Separator(c.ctype), CloseToken(c.quant);
      var m1 := Step(m, OpenParen);
      var m2 := Run(m1, Join(c.children, sep));
      OpensGroup(m);
      ReadsMembers(m1, m.builder.groups, c.ctype, c.children, |c.children|);
      assert c.children[..|c.children|] == c.children;
      RunGroup(m, Join(c.children, sep), close);
      ClosesGroup(m2, m.builder.groups, c);
    }
  }

  /** The members of a group, read into an empty group on top of `below`. */
  lemma {:induction false} ReadsMembers(m: Machine, below: seq<Group>, ctype: ContentType, cs: seq<Content>, n: nat)
    requires Expecting(m) && m.builder.groups == below + [Group(SEQ, NoConnector, [])]
    requires ctype == SEQ || ctype == CHOICE
    requires 1 <= n <= |cs| && forall k | k in cs :: IsParticle(k)
    ensures Run(m, Join(cs[..n], Separator(ctype))) ==
      Machine(m.state.(handler := Element7), m.builder.(groups := below + [PartOf(ctype, cs[..n])]))
    decreases cs, 0, n
  {
    hide Step, Run, IsParticle;
    var sep := Separator(ctype);
    assert cs[n - 1] in cs;
    if n == 1 {
      assert cs[..1] == [cs[0]];
      ReadsParticle(m, cs[0]);
      AddMemberToTop(below, Group(SEQ, NoConnector, []), cs[0]);
      assert [] + [cs[0]] == [cs[0]];
    } else {
      ReadsMembers(m, below, ctype, cs, n - 1);
      assert cs[..n][..n - 1] == cs[..n - 1];
      var m1 := Run(m, Join(cs[..n - 1], sep));
      RunConcat(m, Join(cs[..n - 1], sep) + [sep], PrintParticle(cs[n - 1]));
      RunConcat(m, Join(cs[..n - 1], sep), [sep]);
      RunOne(m1, sep);
      var m2 := Step(m1, sep);
      ReadsSeparator(m1, below, ctype, cs[..n - 1]);
      ReadsParticle(m2, cs[n - 1]);
      assert cs[..n] == cs[..n - 1] + [cs[n - 1]];
    }
  }

  lemma RunGroup(m: Machine, middle: seq<Token>, close: Token)
    ensures Run(m, [OpenParen] + middle + [close]) == Step(Run(Step(m, OpenParen), middle), close)
  {
    hide Step;
    RunConcat(m, [OpenParen] + middle, [close]);
    RunConcat(m, [OpenParen], middle);
    RunOne(m, OpenParen);
    RunOne(Run(Step(m, OpenParen), middle), close);
  }

  lemma ReadsName(m: Machine, c: Content)
    requires Expecting(m) && IsParticle(c) && c.ctype == NAME
    ensures Step(m, NameToken(c.quant, c.name)) == After(m, c)
  {
    hide Step, AddMember;
    assert c == Content(NAME, c.quant, c.name, []);
    StepsByName(m, c.quant, c.name);
  }

  lemma StepsByName(m: Machine, q: Quant, name: string)
    requires m.Machine? && m.builder.groups != []
    requires m.state.handler == Element2 || m.state.handler == Element6
    ensures Step(m, NameToken(q, name)) == Machine(m.state.(handler := Element7),
      m.builder.(groups := AddMember(m.builder.groups, Content(NAME, q, name, []))))
  {
    hide AddMember;
    match q {
      case None =>
      case Opt =>
      case Rep =>
      case Plus =>
    }
  }

  lemma OpensGroup(m: Machine)
    requires Expecting(m)
    ensures var m1 := Step(m, OpenParen);
      && Expecting(m1) && m1.state == m.state.(handler := Element6, level := m.state.level + 1)
      && m1.builder == m.builder.(groups := m.builder.groups + [Group(SEQ, NoConnector, [])])
  {}

  lemma ReadsSeparator(m: Machine, below: seq<Group>, ctype: ContentType, members: seq<Content>)
    requires m.Machine? && m.state.handler == Element7 && m.state.level == |below| + 1
    requires members != [] && (ctype == SEQ || ctype == CHOICE)
    requires m.builder.groups == below + [PartOf(ctype, members)]
    ensures var m1 := Step(m, Separator(ctype));
      && Expecting(m1) && m1.state == m.state.(handler := Element6)
      && forall c :: After(m1, c).builder == m.builder.(groups := below + [PartOf(ctype, members + [c])])
  {
    var m1 := Step(m, Separator(ctype));
    var connector := if ctype == CHOICE then BarConnector else CommaConnector;
    assert m1.builder == m.builder.(groups := below + [Group(ctype, connector, members)]);
  }

  lemma ClosesGroup(m: Machine, below: seq<Group>, c: Content)
    requires m.Machine? && m.state.handler == Element7 && m.state.level == |below| + 1 && below != []
    requires IsParticle(c) && c.ctype != NAME
    requires m.builder.groups == below + [PartOf(c.ctype, c.children)]
    ensures Step(m, CloseToken(c.quant)) ==
      Machine(m.state.(level := |below|), m.builder.(groups := AddMember(below, c)))
  {
    hide IsParticle, AddMember;
    IsGroup(c);
    assert m.builder.groups[..|below|] == below && PartOf(c.ctype, c.children).members == c.children;
    hide PartOf;
  }

  lemma IsGroup(c: Content)
    requires IsParticle(c) && c.ctype != NAME
    ensures c.ctype == SEQ || c.ctype == CHOICE
    ensures c == Content(PartOf(c.ctype, c.children).ctype, c.quant, "", c.children)
    ensures c.children != [] && forall k | k in c.children :: IsParticle(k)
  {}

  // The declaration around the outermost group.

  /** The machine m inside a declaration of this element. */
  ghost function Inside(m: Machine, handler: Handler, level: int, element: string, groups: seq<Group>): Machine
    requires m.Machine?
  {
    Machine(State(handler, level, m.state.roleNone), Builder(element, true, groups, m.builder.reports))
  }

  /** The machine m once the declaration has been reported. */
  ghost function Reporting(m: Machine, level: int, element: string, c: Content): Machine
    requires m.Machine?
  {
    Machine(State(DeclClose, level, ElementNone),
            Builder(element, false, [], m.builder.reports + [Declaration(element, c)]))
  }

  lemma StartsDeclaration(m: Machine, element: string)
    requires Ready(m, Element0)
    ensures var m1 := Step(m, Name(element));
      && m1 == Inside(m, Element1, m.state.level, element, [])
      && Step(m1, OpenParen) == Inside(m, Element2, 1, element, [Group(SEQ, NoConnector, [])])
  {}

  lemma EndsDeclaration(m: Machine)
    requires m.Machine? && m.state.handler == DeclClose && m.state.roleNone == ElementNone
    ensures Step(m, DeclarationClose) == m.(state := m.state.(handler := InternalSubset))
  {}

  lemma ClosesOutermost(m: Machine, element: string, c: Content)
    requires m.Machine? && m.state.handler == Element7 && m.state.level == 1
    requires IsParticle(c) && c.ctype != NAME
    requires m.builder == Builder(element, true, [PartOf(c.ctype, c.children)], m.builder.reports)
    ensures Step(m, CloseToken(c.quant)) == Reporting(m, 0, element, c)
  {
    hide IsParticle, AddMember;
    IsGroup(c);
    assert PartOf(c.ctype, c.children).members == c.children;
    hide PartOf;
  }

  /** The machine m inside mixed content. */
  ghost function InMixed(m: Machine, element: string, members: seq<Content>): Machine
    requires m.Machine?
  {
    Inside(m, if members == [] then Element3 else Element5, 1, element, [Group(MIXED, NoConnector, members)])
  }

  lemma {:induction false} ReadsBarNames(m: Machine, element: string, cs: seq<Content>)
    requires m.Machine? && forall k | k in cs :: IsPlainName(k)
    ensures Run(InMixed(m, element, []), BarNames(cs)) == InMixed(m, element, cs)
    decreases |cs|
  {
    hide Step, InMixed;
    if cs != [] {
      var n := |cs| - 1;
      var m0 := InMixed(m, element, []);
      ReadsBarNames(m, element, cs[..n]);
      var m1 := Run(m0, BarNames(cs[..n]));
      RunConcat(m0, BarNames(cs[..n]), [Or, Name(cs[n].name)]);
      RunConcat(m1, [Or], [Name(cs[n].name)]);
      assert [Or] + [Name(cs[n].name)] == [Or, Name(cs[n].name)];
      assert cs[n] in cs;
      ReadsBarName(m, element, cs[..n], cs[n]);
      assert cs[..n] + [cs[n]] == cs;
    }
  }

  lemma ReadsBarName(m: Machine, element: string, members: seq<Content>, c: Content)
    requires m.Machine? && IsPlainName(c)
    ensures Run(Run(InMixed(m, element, members), [Or]), [Name(c.name)]) == InMixed(m, element, members + [c])
  {
    var m1 := InMixed(m, element, members);
    RunOne(m1, Or);
    RunOne(Step(m1, Or), Name(c.name));
  }

  /** Wherever a declaration can begin, the notation of a well-formed model is accepted as that
      model, and another declaration can begin. */
  lemma {:induction false} NotationAccepted(m: Machine, element: string, c: Content)
    requires Ready(m, Element0) && IsModel(c)
    ensures var toks := PrintDeclaration(element, c);
      Accepts(m, toks, [Declaration(element, c)]) && Ready(Run(m, toks), InternalSubset)
  {
    hide Step, Run, IsModel, PrintModel;
    var m1 := Step(m, Name(element));
    RunConcat(m, [Name(element)] + PrintModel(c), [DeclarationClose]);
    RunConcat(m, [Name(element)], PrintModel(c));
    RunOne(m, Name(element));
    var m2 := Run(m1, PrintModel(c));
    RunOne(m2, DeclarationClose);
    ReadsModel(m, element, c);
    EndsDeclaration(m2);
  }

  lemma {:induction false} ReadsModel(m: Machine, element: string, c: Content)
    requires Ready(m, Element0) && IsModel(c)
    ensures exists level :: Run(Step(m, Name(element)), PrintModel(c)) == Reporting(m, level, element, c)
  {
    hide Step, Run;
    var m1 := Step(m, Name(element));
    StartsDeclaration(m, element);
    match c.ctype {
      case EMPTY =>
        RunOne(m1, Name("EMPTY"));
        ReadsKeyword(m, element, EMPTY);
      case ANY =>
        RunOne(m1, Name("ANY"));
        ReadsKeyword(m, element, ANY);
      case MIXED =>
        ReadsMixed(m, element, c);
      case NAME =>
      case SEQ | CHOICE =>
        var sep := Separator(c.ctype);
        RunGroup(m1, Join(c.children, sep), CloseToken(c.quant));
        var m2 := Step(m1, OpenParen);
        assert m2.builder.groups == [] + [Group(SEQ, NoConnector, [])];
        ReadsMembers(m2, [], c.ctype, c.children, |c.children|);
        assert c.children[..|c.children|] == c.children;
        assert [] + [PartOf(c.ctype, c.children)] == [PartOf(c.ctype, c.children)];
        ClosesOutermost(Run(m2, Join(c.children, sep)), element, c);
        assert Run(m1, PrintModel(c)) == Reporting(m, 0, element, c);
    }
  }

  lemma ReadsKeyword(m: Machine, element: string, ctype: ContentType)
    requires m.Machine? && (ctype == EMPTY || ctype == ANY)
    ensures Step(Inside(m, Element1, m.state.level, element, []), Name(if ctype == EMPTY then "EMPTY" else "ANY")) ==
      Reporting(m, m.state.level, element, Content(ctype, None, "", []))
  {}

  lemma {:induction false} ReadsMixed(m: Machine, element: string, c: Content)
    requires Ready(m, Element0) && IsModel(c) && c.ctype == MIXED
    ensures Run(Step(m, Name(element)), PrintModel(c)) == Reporting(m, 1, element, c)
  {
    hide Step, Run, Inside;
    StartsDeclaration(m, element);
    var m1 := Step(m, Name(element));
    var pcdata, names, close := PoundName("PCDATA"), BarNames(c.children), CloseToken(c.quant);
    assert PrintModel(c) == [OpenParen] + ([pcdata] + names) + [close];
    RunGroup(m1, [pcdata] + names, close);
    var m2 := Step(m1, OpenParen);
    RunConcat(m2, [pcdata], names);
    RunOne(m2, pcdata);
    PcdataOpensMixed(m, element);
    ReadsBarNames(m, element, c.children);
    ClosesMixed(m, element, c);
  }

  lemma PcdataOpensMixed(m: Machine, element: string)
    requires m.Machine?
    ensures Step(Inside(m, Element2, 1, element, [Group(SEQ, NoConnector, [])]), PoundName("PCDATA")) ==
      InMixed(m, element, [])
  {}

  lemma ClosesMixed(m: Machine, element: string, c: Content)
    requires m.Machine? && IsModel(c) && c.ctype == MIXED
    ensures Step(InMixed(m, element, c.children), CloseToken(c.quant)) == Reporting(m, 1, element, c)
  {}

  ghost predicate AllModels(ds: seq<Declaration>) {
    forall i :: 0 <= i < |ds| ==> IsModel(ds[i].model)
  }

  /** Any number of declarations is accepted. */
  lemma {:induction false} SubsetAccepted(m: Machine, ds: seq<Declaration>)
    requires Ready(m, InternalSubset) && AllModels(ds)
    ensures Accepts(m, PrintSubset(ds), ds) && Ready(Run(m, PrintSubset(ds)), InternalSubset)
    decreases |ds|
  {
    hide Step, IsModel, PrintDeclaration;
    if ds == [] {
      assert m.builder.reports + ds == m.builder.reports;
    } else {
      var n := |ds| - 1;
      var before, d := ds[..n], ds[n];
      SubsetAccepted(m, before);
      var m1 := Run(m, PrintSubset(before));
      RunConcat(m, PrintSubset(before) + [ElementOpen], PrintDeclaration(d.name, d.model));
      RunConcat(m, PrintSubset(before), [ElementOpen]);
      RunOne(m1, ElementOpen);
      OpensDeclaration(m1);
      NotationAccepted(Step(m1, ElementOpen), d.name, d.model);
      assert m.builder.reports + before + [d] == m.builder.reports + ds;
    }
  }

  lemma OpensDeclaration(m: Machine)
    requires Ready(m, InternalSubset)
    ensures Step(m, ElementOpen) == m.(state := m.state.(handler := Element0))
  {}

  // ---------- Nothing else is accepted ----------

  /** The token last used, or to be used, between the members of g. */
  ghost function GroupSeparator(g: Group): Token {
    if g.connector == BarConnector then Or else Comma
  }

  /** What was read of an open group; `awaiting` says that its next member has not started. */
  ghost function GroupTrail(g: Group, awaiting: bool): seq<Token> {
    [OpenParen] + Join(g.members, GroupSeparator(g))
    + (if awaiting && g.members != [] then [GroupSeparator(g)] else [])
  }

  ghost function GroupsTrail(groups: seq<Group>, awaiting: bool): seq<Token>
    decreases |groups|
  {
    if groups == [] then []
    else GroupsTrail(groups[..|groups| - 1], true) + GroupTrail(groups[|groups| - 1], awaiting)
  }

  /** The connector, the type and the number of members of an open group go together. */
  ghost predicate GoodGroup(g: Group, awaiting: bool) {
    && (forall k | k in g.members :: IsParticle(k))
    && match g.connector
       case NoConnector => g.ctype == SEQ && |g.members| == if awaiting then 0 else 1
       case CommaConnector => g.ctype == SEQ && |g.members| >= if awaiting then 1 else 2
       case BarConnector => g.ctype == CHOICE && |g.members| >= if awaiting then 1 else 2
  }

  ghost predicate GoodGroups(groups: seq<Group>, awaiting: bool) {
    && groups != []
    && (forall i :: 0 <= i < |groups| - 1 ==> GoodGroup(groups[i], true))
    && GoodGroup(groups[|groups| - 1], awaiting)
  }

  ghost predicate GoodMixed(b: Builder) {
    && b.inEldecl && |b.groups| == 1 && b.groups[0].ctype == MIXED && b.groups[0].connector == NoConnector
    && forall k | k in b.groups[0].members :: IsPlainName(k)
  }

  /** What holds of every machine that has not failed. */
  ghost predicate Good(m: Machine)
    requires m.Machine?
  {
    var b := m.builder;
    match m.state.handler
    case Element0 => !b.inEldecl && b.groups == []
    case Element1 => b.inEldecl && b.groups == []
    case Element2 => b.inEldecl && m.state.level == 1 && b.groups == [Group(SEQ, NoConnector, [])]
    case Element3 => b.inEldecl && b.groups == [Group(MIXED, NoConnector, [])]
    case Element4 => GoodMixed(b)
    case Element5 => GoodMixed(b) && b.groups[0].members != []
    case Element6 => b.inEldecl && m.state.level == |b.groups| && GoodGroups(b.groups, true)
    case Element7 => b.inEldecl && m.state.level == |b.groups| && GoodGroups(b.groups, false)
    case Error => false
    case DeclClose => !b.inEldecl && b.groups == [] && m.state.roleNone == ElementNone && LastIsModel(b)
    case InternalSubset => !b.inEldecl && b.groups == []
  }

  ghost predicate LastIsModel(b: Builder) {
    var n := |b.reports|;
    n > 0 && b.reports[n - 1].name == b.element && IsModel(b.reports[n - 1].model)
  }

  /** What was read of the declaration that has not ended yet. */
  ghost function Trail(m: Machine): seq<Token>
    requires m.Machine? && Good(m)
  {
    var b := m.builder;
    var first := [ElementOpen, Name(b.element)];
    match m.state.handler
    case Element0 => [ElementOpen]
    case Element1 => first
    case Element2 => first + GroupsTrail(b.groups, true)
    case Element3 => first + [OpenParen, PoundName("PCDATA")]
    case Element4 => first + [OpenParen, PoundName("PCDATA")] + BarNames(b.groups[0].members) + [Or]
    case Element5 => first + [OpenParen, PoundName("PCDATA")] + BarNames(b.groups[0].members)
    case Element6 => first + GroupsTrail(b.groups, true)
    case Element7 => first + GroupsTrail(b.groups, false)
    case DeclClose => first + PrintModel(b.reports[|b.reports| - 1].model)
    case InternalSubset => []
  }

  /** The declarations that have ended. */
  ghost function Ended(m: Machine): seq<Declaration>
    requires m.Machine? && Good(m)
  {
    var ds := m.builder.reports;
    if m.state.handler == DeclClose then ds[..|ds| - 1] else ds
  }

  /** The step from m by tok keeps the invariant and extends the trail by the token, until the
      declaration ends with it. */
  ghost predicate Extends(m: Machine, tok: Token)
    requires m.Machine? && Good(m)
  {
    var m' := Step(m, tok);
    m'.Machine? ==>
      && Good(m')
      && if m.state.handler == DeclClose then
           tok == DeclarationClose && Trail(m') == [] && Ended(m') == m'.builder.reports == m.builder.reports
         else
           && Trail(m') == Trail(m) + [tok] && Ended(m') == Ended(m)
           && m'.builder.reports ==
              if m'.state.handler == DeclClose then m.builder.reports + [Last(m')] else m.builder.reports
  }

  ghost function Last(m: Machine): Declaration
    requires m.Machine? && m.builder.reports != []
  {
    m.builder.reports[|m.builder.reports| - 1]
  }

  ghost predicate Stripped(tok: Token) {
    tok != Space && !tok.PrefixedName?
  }

  lemma {:induction false} JoinOneSeparator(cs: seq<Content>, s: Token, t: Token)
    requires |cs| <= 1
    ensures Join(cs, s) == Join(cs, t)
  {}

  lemma JoinMore(cs: seq<Content>, c: Content, sep: Token)
    ensures Join(cs + [c], sep) == if cs == [] then PrintParticle(c) else Join(cs, sep) + [sep] + PrintParticle(c)
  {
    hide PrintParticle;
    assert (cs + [c])[..|cs|] == cs;
  }

  lemma JoinNone(sep: Token)
    ensures Join([], sep) == []
  {}

  /** A particle completes the member that was awaited. */
  lemma MemberTrail(g: Group, c: Content)
    requires GoodGroup(g, true) && IsParticle(c)
    ensures var g' := g.(members := g.members + [c]);
      GoodGroup(g', false) && GroupTrail(g', false) == GroupTrail(g, true) + PrintParticle(c)
  {
    hide Join, IsParticle, PrintParticle;
    JoinMore(g.members, c, GroupSeparator(g));
    JoinNone(GroupSeparator(g));
  }

  lemma MembersTrail(groups: seq<Group>, c: Content)
    requires GoodGroups(groups, true) && IsParticle(c)
    ensures GoodGroups(AddMember(groups, c), false)
    ensures GroupsTrail(AddMember(groups, c), false) == GroupsTrail(groups, true) + PrintParticle(c)
  {
    hide GoodGroup, GroupTrail, IsParticle;
    var n := |groups| - 1;
    MemberTrail(groups[n], c);
    assert AddMember(groups, c)[..n] == groups[..n];
  }

  lemma OpenTrail(groups: seq<Group>)
    requires groups == [] || GoodGroups(groups, true)
    ensures var groups' := groups + [Group(SEQ, NoConnector, [])];
      GoodGroups(groups', true) && GroupsTrail(groups', true) == GroupsTrail(groups, true) + [OpenParen]
  {
    var groups' := groups + [Group(SEQ, NoConnector, [])];
    assert groups'[..|groups|] == groups;
  }

  lemma SeparatorTrail(g: Group, g': Group)
    requires GoodGroup(g, false) && g'.members == g.members && GoodGroup(g', true)
    requires g'.connector != NoConnector && (g.connector == NoConnector || g.connector == g'.connector)
    ensures GroupTrail(g', true) == GroupTrail(g, false) + [GroupSeparator(g')]
  {
    if g.connector == NoConnector {
      JoinOneSeparator(g.members, GroupSeparator(g), GroupSeparator(g'));
    }
  }

  lemma {:induction false} CloseTrail(g: Group, q: Quant)
    requires GoodGroup(g, false)
    ensures var c := Content(g.ctype, q, "", g.members);
      IsParticle(c) && IsModel(c) && PrintParticle(c) == GroupTrail(g, false) + [CloseToken(q)]
      && PrintModel(c) == PrintParticle(c)
  {
    if g.connector == NoConnector {
      JoinOneSeparator(g.members, GroupSeparator(g), Separator(g.ctype));
    }
  }

  /** The token that completes a model. */
  lemma ExtendsByReport(m: Machine, tok: Token, level: int, c: Content)
    requires m.Machine? && Good(m) && m.state.handler != DeclClose && IsModel(c)
    requires Step(m, tok) == Machine(State(DeclClose, level, ElementNone), Report(m.builder.(groups := []), c))
    requires Trail(m) + [tok] == [ElementOpen, Name(m.builder.element)] + PrintModel(c)
    ensures Extends(m, tok)
  {
    hide Step, IsModel, PrintModel, GoodGroup, GoodGroups, GoodMixed, GroupsTrail, BarNames;
    var ds, d := m.builder.reports, Declaration(m.builder.element, c);
    assert (ds + [d])[..|ds|] == ds;
  }

  lemma ExtendsByKeyword(m: Machine, name: string)
    requires m.Machine? && Good(m) && m.state.handler == Element1
    ensures Extends(m, Name(name))
  {
    if name == "EMPTY" {
      ExtendsByReport(m, Name(name), m.state.level, Content(EMPTY, None, "", []));
    } else if name == "ANY" {
      ExtendsByReport(m, Name(name), m.state.level, Content(ANY, None, "", []));
    } else {
      Refused(m, Name(name));
    }
    hide IsParticle, GoodGroups, GroupsTrail;
  }

  lemma ExtendsByFirstParen(m: Machine)
    requires m.Machine? && Good(m) && m.state.handler == Element1
    ensures Extends(m, OpenParen)
  {
    OpenTrail([]);
    assert [] + [Group(SEQ, NoConnector, [])] == [Group(SEQ, NoConnector, [])];
    hide IsParticle, GoodGroups, GroupsTrail;
  }

  lemma ExtendsByElementName(m: Machine, name: string)
    requires m.Machine? && Good(m) && m.state.handler == Element0
    ensures Extends(m, Name(name))
  {
    hide IsModel, IsParticle;
  }

  /** Handlers element0 and element1. */
  lemma ExtendsOutside(m: Machine, tok: Token)
    requires m.Machine? && Good(m) && Stripped(tok)
    requires m.state.handler == Element0 || m.state.handler == Element1
    ensures Extends(m, tok)
  {
    hide Good, Trail, Act;
    if m.state.handler == Element0 && tok.Name? {
      ExtendsByElementName(m, tok.name);
    } else if tok.Name? {
      ExtendsByKeyword(m, tok.name);
    } else if tok == OpenParen && m.state.handler == Element1 {
      ExtendsByFirstParen(m);
    } else {
      Refused(m, tok);
    }
  }

  lemma NameStep(m: Machine, q: Quant, name: string)
    requires m.Machine? && Good(m)
    requires m.state.handler == Element2 || m.state.handler == Element6
    ensures m.builder.groups != []
    ensures Step(m, NameToken(q, name)) == Machine(m.state.(handler := Element7),
      m.builder.(groups := AddMember(m.builder.groups, Content(NAME, q, name, []))))
  {
    hide Step, Good, AddMember;
    AwaitsMember(m);
    StepsByName(m, q, name);
  }

  /** A name, with or without quantifier, where a particle is expected. */
  lemma ExtendsByName(m: Machine, q: Quant, name: string)
    requires m.Machine? && Good(m)
    requires m.state.handler == Element2 || m.state.handler == Element6
    ensures Extends(m, NameToken(q, name))
  {
    hide Step, AddMember, IsParticle, IsModel, PrintParticle, GoodGroups, GroupsTrail, NameToken;
    var c, groups := Content(NAME, q, name, []), m.builder.groups;
    NameStep(m, q, name);
    AwaitsMember(m);
    NameTrail(groups, q, name);
    var first, trail := [ElementOpen, Name(m.builder.element)], GroupsTrail(groups, true);
    assert first + (trail + [NameToken(q, name)]) == first + trail + [NameToken(q, name)];
  }

  lemma NameTrail(groups: seq<Group>, q: Quant, name: string)
    requires GoodGroups(groups, true)
    ensures var groups' := AddMember(groups, Content(NAME, q, name, []));
      GoodGroups(groups', false) && GroupsTrail(groups', false) == GroupsTrail(groups, true) + [NameToken(q, name)]
  {
    hide AddMember, GoodGroups, GroupsTrail;
    var c := Content(NAME, q, name, []);
    assert PrintParticle(c) == [NameToken(q, name)];
    MembersTrail(groups, c);
  }

  lemma AwaitsMember(m: Machine)
    requires m.Machine? && Good(m)
    requires m.state.handler == Element2 || m.state.handler == Element6
    ensures m.state.level == |m.builder.groups| && GoodGroups(m.builder.groups, true)
  {}

  lemma ExtendsByOpen(m: Machine)
    requires m.Machine? && Good(m)
    requires m.state.handler == Element2 || m.state.handler == Element6
    ensures Extends(m, OpenParen)
  {
    hide IsParticle, IsModel, GoodGroups, GroupsTrail;
    AwaitsMember(m);
    OpenTrail(m.builder.groups);
  }

  lemma ExtendsByPcdata(m: Machine, name: string)
    requires m.Machine? && Good(m)
    requires m.state.handler == Element2 || m.state.handler == Element6
    ensures Extends(m, PoundName(name))
  {
    hide IsParticle;
    if m.state.handler == Element2 && name == "PCDATA" {
      ExtendsByMixedStart(m);
    } else {
      Refused(m, PoundName(name));
    }
  }

  lemma ExtendsByMixedStart(m: Machine)
    requires m.Machine? && Good(m) && m.state.handler == Element2
    ensures Extends(m, PoundName("PCDATA"))
  {
    hide IsParticle, IsModel;
    ReadsPcdata(m);
    hide Step;
    TrailOfOpen();
    hide GoodGroups, GroupsTrail;
  }

  lemma ReadsPcdata(m: Machine)
    requires m.Machine? && m.state.handler == Element2 && m.builder.groups == [Group(SEQ, NoConnector, [])]
    ensures Step(m, PoundName("PCDATA")) ==
      Machine(m.state.(handler := Element3), m.builder.(groups := [Group(MIXED, NoConnector, [])]))
  {}

  lemma TrailOfOpen()
    ensures GroupsTrail([Group(SEQ, NoConnector, [])], true) == [OpenParen]
    ensures GoodGroups([Group(SEQ, NoConnector, [])], true)
  {
    OpenTrail([]);
    assert [] + [Group(SEQ, NoConnector, [])] == [Group(SEQ, NoConnector, [])];
  }

  /** Handlers element2 and element6. */
  lemma ExtendsAwaiting(m: Machine, tok: Token)
    requires m.Machine? && Good(m) && Stripped(tok)
    requires m.state.handler == Element2 || m.state.handler == Element6
    ensures Extends(m, tok)
  {
    hide Good, Trail, Act;
    match tok
    case Name(n) => ExtendsByName(m, None, n);
    case NameQuestion(n) => ExtendsByName(m, Opt, n);
    case NameAsterisk(n) => ExtendsByName(m, Rep, n);
    case NamePlus(n) => ExtendsByName(m, Plus, n);
    case OpenParen => ExtendsByOpen(m);
    case PoundName(n) => ExtendsByPcdata(m, n);
    case _ => Refused(m, tok);
  }

  lemma Refused(m: Machine, tok: Token)
    requires m.Machine? && Next(m.state, tok).1 == RoleError
    ensures Step(m, tok) == Failed
  {}

  lemma ExtendsByBar(m: Machine)
    requires m.Machine? && Good(m)
    requires m.state.handler == Element3 || m.state.handler == Element5
    ensures Extends(m, Or)
  {
    hide IsPlainName;
    assert BarNames([]) == [];
  }

  lemma ExtendsByMixedName(m: Machine, name: string)
    requires m.Machine? && Good(m) && m.state.handler == Element4
    ensures Extends(m, Name(name))
  {
    hide IsParticle, IsModel, GoodGroups, GroupsTrail;
    var g, c := m.builder.groups[0], Content(NAME, None, name, []);
    ReadsMember(m, name);
    hide Step;
    assert (g.members + [c])[..|g.members|] == g.members;
  }

  lemma ReadsMember(m: Machine, name: string)
    requires m.Machine? && m.state.handler == Element4 && |m.builder.groups| == 1
    ensures var g, c := m.builder.groups[0], Content(NAME, None, name, []);
      Step(m, Name(name)) ==
      Machine(m.state.(handler := Element5), m.builder.(groups := [g.(members := g.members + [c])]))
  {}

  lemma ExtendsByMixedClose(m: Machine, q: Quant)
    requires m.Machine? && Good(m) && (q == Rep || (q == None && m.state.handler == Element3))
    requires m.state.handler == Element3 || m.state.handler == Element5
    ensures Extends(m, CloseToken(q))
  {
    assert BarNames([]) == [];
    hide IsPlainName, BarNames;
    var c := Content(MIXED, q, "", m.builder.groups[0].members);
    assert [ElementOpen, Name(m.builder.element)] + PrintModel(c) == Trail(m) + [CloseToken(q)];
    ExtendsByReport(m, CloseToken(q), m.state.level, c);
  }

  /** Handlers element3, element4 and element5. */
  lemma ExtendsMixed(m: Machine, tok: Token)
    requires m.Machine? && Good(m) && Stripped(tok)
    requires m.state.handler == Element3 || m.state.handler == Element4 || m.state.handler == Element5
    ensures Extends(m, tok)
  {
    hide Good, Trail, Act;
    var (state, role) := Next(m.state, tok);
    if role == RoleError {
      Refused(m, tok);
    } else {
      match tok
      case Or => ExtendsByBar(m);
      case Name(n) => ExtendsByMixedName(m, n);
      case CloseParen => ExtendsByMixedClose(m, None);
      case CloseParenAsterisk => ExtendsByMixedClose(m, Rep);
      case _ =>
    }
  }

  lemma ExtendsBySeparator(m: Machine, tok: Token)
    requires m.Machine? && Good(m) && m.state.handler == Element7
    requires tok == Comma || tok == Or
    ensures Extends(m, tok)
  {
    hide Step, IsParticle, GroupTrail, GroupSeparator;
    var groups := m.builder.groups;
    var n := |groups| - 1;
    if Step(m, tok).Machine? {
      var g' := Separated(groups[n], tok);
      StepsToNext(m, tok);
      SeparatorTrail(groups[n], g');
      SeparatorOf(groups[n], tok);
      assert groups[n := g'][..n] == groups[..n];
    }
  }

  /** The group after its separator tok has been read. */
  ghost function Separated(g: Group, tok: Token): Group {
    if tok == Or then
      var ctype := if g.connector == NoConnector && g.ctype != MIXED then CHOICE else g.ctype;
      g.(ctype := ctype, connector := BarConnector)
    else g.(connector := CommaConnector)
  }

  lemma SeparatorOf(g: Group, tok: Token)
    requires tok == Comma || tok == Or
    ensures GroupSeparator(Separated(g, tok)) == tok
  {}

  lemma StepsToNext(m: Machine, tok: Token)
    requires m.Machine? && Good(m) && m.state.handler == Element7
    requires (tok == Comma || tok == Or) && Step(m, tok).Machine?
    ensures var b, n := m.builder, |m.builder.groups| - 1;
      && var g' := Separated(b.groups[n], tok);
      && Step(m, tok) == Machine(m.state.(handler := Element6), b.(groups := b.groups[n := g']))
      && GoodGroup(g', true) && (b.groups[n].connector == NoConnector || b.groups[n].connector == g'.connector)
  {
    hide IsParticle, GroupsTrail;
  }

  lemma ExtendsByClose(m: Machine, q: Quant)
    requires m.Machine? && Good(m) && m.state.handler == Element7
    ensures Extends(m, CloseToken(q))
  {
    hide Step, Extends, IsParticle, IsModel, PrintModel, PrintParticle, GroupTrail, GoodGroup, GroupsTrail, AddMember;
    var groups := m.builder.groups;
    var n := |groups| - 1;
    var c := Content(groups[n].ctype, q, "", groups[n].members);
    CloseTrail(groups[n], q);
    StepsOut(m, q, c);
    if n > 0 {
      ExtendsByInnerClose(m, q, c);
    } else {
      ExtendsByLastClose(m, q, c);
    }
  }

  lemma ExtendsByLastClose(m: Machine, q: Quant, c: Content)
    requires m.Machine? && Good(m) && m.state.handler == Element7 && |m.builder.groups| == 1
    requires IsModel(c) && PrintModel(c) == GroupTrail(m.builder.groups[0], false) + [CloseToken(q)]
    requires Step(m, CloseToken(q)) == Machine(State(DeclClose, 0, ElementNone), Report(m.builder.(groups := []), c))
    ensures Extends(m, CloseToken(q))
  {
    hide Step, IsParticle, IsModel, PrintModel, GroupTrail, GoodGroup;
    assert m.builder.groups[..0] == [];
    assert GroupsTrail(m.builder.groups, false) == GroupTrail(m.builder.groups[0], false);
    ExtendsByReport(m, CloseToken(q), 0, c);
  }

  lemma ExtendsByInnerClose(m: Machine, q: Quant, c: Content)
    requires m.Machine? && Good(m) && m.state.handler == Element7 && |m.builder.groups| > 1
    requires var top := m.builder.groups[|m.builder.groups| - 1];
      IsParticle(c) && PrintParticle(c) == GroupTrail(top, false) + [CloseToken(q)]
    requires var n := |m.builder.groups| - 1;
      Step(m, CloseToken(q)) ==
      Machine(m.state.(level := n), m.builder.(groups := AddMember(m.builder.groups[..n], c)))
    ensures Extends(m, CloseToken(q))
  {
    hide Step, IsParticle, IsModel, PrintParticle, GroupTrail, GoodGroup, AddMember;
    var groups := m.builder.groups;
    var n := |groups| - 1;
    MembersTrail(groups[..n], c);
    assert GroupsTrail(groups, false) == GroupsTrail(groups[..n], true) + GroupTrail(groups[n], false);
  }

  lemma StepsOut(m: Machine, q: Quant, c: Content)
    requires m.Machine? && m.state.handler == Element7 && m.state.level == |m.builder.groups| >= 1
    requires var top := m.builder.groups[|m.builder.groups| - 1]; c == Content(top.ctype, q, "", top.members)
    ensures var b, n := m.builder, |m.builder.groups| - 1;
      Step(m, CloseToken(q)) ==
      if n == 0 then Machine(State(DeclClose, 0, ElementNone), Report(b.(groups := []), c))
      else Machine(m.state.(level := n), b.(groups := AddMember(b.groups[..n], c)))
  {
    hide AddMember;
  }

  /** Handler element7. */
  lemma ExtendsAfterMember(m: Machine, tok: Token)
    requires m.Machine? && Good(m) && Stripped(tok) && m.state.handler == Element7
    ensures Extends(m, tok)
  {
    hide Good, Trail, Act;
    match tok
    case CloseParen => ExtendsByClose(m, None);
    case CloseParenQuestion => ExtendsByClose(m, Opt);
    case CloseParenAsterisk => ExtendsByClose(m, Rep);
    case CloseParenPlus => ExtendsByClose(m, Plus);
    case Comma => ExtendsBySeparator(m, Comma);
    case Or => ExtendsBySeparator(m, Or);
    case _ => Refused(m, tok);
  }

  lemma ExtendsAtEnd(m: Machine, tok: Token)
    requires m.Machine? && Good(m) && Stripped(tok)
    requires m.state.handler == DeclClose || m.state.handler == InternalSubset
    ensures Extends(m, tok)
  {
    hide IsModel, PrintModel;
  }

  lemma EveryStepExtends(m: Machine, tok: Token)
    requires m.Machine? && Good(m) && Stripped(tok)
    ensures Extends(m, tok)
  {
    hide Extends, Step;
    match m.state.handler
    case Element0 | Element1 => ExtendsOutside(m, tok);
    case Element2 | Element6 => ExtendsAwaiting(m, tok);
    case Element3 | Element4 | Element5 => ExtendsMixed(m, tok);
    case Element7 => ExtendsAfterMember(m, tok);
    case DeclClose | InternalSubset => ExtendsAtEnd(m, tok);
    case Error =>
  }

  /** Everything read: the declarations that have ended and the one that has not. */
  ghost function Whole(m: Machine): seq<Token>
    requires m.Machine? && Good(m)
  {
    PrintSubset(Ended(m)) + Trail(m)
  }

  /** Earlier reports stay, and new ones are of well-formed models. */
  ghost predicate Adds(ds: seq<Declaration>, ds': seq<Declaration>) {
    ds <= ds' && forall i :: |ds| <= i < |ds'| ==> IsModel(ds'[i].model)
  }

  lemma StepAdds(m: Machine, tok: Token)
    requires m.Machine? && Good(m) && Extends(m, tok) && Step(m, tok).Machine?
    ensures Whole(Step(m, tok)) == Whole(m) + [tok]
    ensures Adds(m.builder.reports, Step(m, tok).builder.reports)
  {
    hide Step, IsModel, PrintSubset, Trail, Good;
    var m' := Step(m, tok);
    if m.state.handler == DeclClose {
      WholeAtClose(m);
    } else {
      assert PrintSubset(Ended(m)) + (Trail(m) + [tok]) == PrintSubset(Ended(m)) + Trail(m) + [tok];
      LastReported(m');
    }
  }

  lemma LastReported(m: Machine)
    requires m.Machine? && Good(m)
    ensures m.state.handler == DeclClose ==> m.builder.reports != [] && IsModel(Last(m).model)
  {
    hide IsModel;
  }

  /** With its last token a declaration is one of those that have ended. */
  lemma WholeAtClose(m: Machine)
    requires m.Machine? && Good(m) && m.state.handler == DeclClose
    ensures Whole(m) + [DeclarationClose] == PrintSubset(m.builder.reports)
  {
    hide IsModel, PrintModel;
    var before, d := PrintSubset(Ended(m)), Last(m);
    Regroup(before, ElementOpen, Name(d.name), PrintModel(d.model), DeclarationClose);
  }

  lemma Regroup(a: seq<Token>, b: Token, c: Token, d: seq<Token>, e: Token)
    ensures a + ([b, c] + d) + [e] == a + [b] + ([c] + d + [e])
  {}

  lemma {:induction false} RunExtends(m: Machine, toks: seq<Token>)
    requires m.Machine? && Good(m) && forall t | t in toks :: Stripped(t)
    ensures var m' := Run(m, toks);
      m'.Machine? ==> Good(m') && Whole(m') == Whole(m) + toks && Adds(m.builder.reports, m'.builder.reports)
    decreases |toks|
  {
    hide Good, Whole, Step, Stripped, IsModel;
    if toks != [] {
      var m1 := Step(m, toks[0]);
      EveryStepExtends(m, toks[0]);
      FailedStays(toks[1..]);
      if m1.Machine? {
        StaysGoodAfter(m, toks[0]);
        StepAdds(m, toks[0]);
        RunExtends(m1, toks[1..]);
        assert [toks[0]] + toks[1..] == toks;
      }
    }
  }

  lemma StaysGoodAfter(m: Machine, tok: Token)
    requires m.Machine? && Good(m) && Extends(m, tok)
    ensures Step(m, tok).Machine? ==> Good(Step(m, tok))
  {}

  lemma {:induction false} StripStrips(toks: seq<Token>)
    ensures forall t | t in Strip(toks) :: Stripped(t)
  {
    if toks != [] {
      StripStrips(toks[1..]);
    }
  }

  lemma {:induction false} PrintSubsetConcat(a: seq<Declaration>, b: seq<Declaration>)
    ensures PrintSubset(a + b) == PrintSubset(a) + PrintSubset(b)
    decreases |b|
  {
    hide PrintDeclaration;
    if b == [] {
      assert a + b == a;
    } else {
      var front, d := b[..|b| - 1], b[|b| - 1];
      assert (a + b)[..|a + b| - 1] == a + front;
      PrintSubsetConcat(a, front);
    }
  }

  lemma SameRest(a: seq<Token>, b: seq<Token>, c: seq<Token>)
    requires a + b == a + c
    ensures b == c
  {
    assert b == (a + b)[|a|..] == (a + c)[|a|..];
  }

  /** From any machine between declarations, whatever was declared before: the tokens are read as
      these declarations exactly if they are, white space aside, the notation of these well-formed
      models one after the other. In particular `,` and `|` never mix within a group. */
  lemma SubsetParsing(m: Machine, toks: seq<Token>, ds: seq<Declaration>)
    requires Tokenized(toks) && Ready(m, InternalSubset)
    ensures Accepts(m, toks, ds) <==> AllModels(ds) && Strip(toks) == PrintSubset(ds)
  {
    hide Run, Strip, IsModel, PrintSubset, Stripped;
    RunStrip(m, toks);
    StripStrips(toks);
    RunExtends(m, Strip(toks));
    if AllModels(ds) && Strip(toks) == PrintSubset(ds) {
      SubsetAccepted(m, ds);
    }
    if Accepts(m, toks, ds) {
      AcceptedIsNotation(m, Strip(toks), Run(m, Strip(toks)), ds);
    }
  }

  lemma AcceptedIsNotation(m: Machine, toks: seq<Token>, m': Machine, ds: seq<Declaration>)
    requires Ready(m, InternalSubset) && m'.Machine? && Good(m') && m'.state.handler == InternalSubset
    requires Whole(m') == Whole(m) + toks && Adds(m.builder.reports, m'.builder.reports)
    requires m'.builder.reports == m.builder.reports + ds
    ensures AllModels(ds) && toks == PrintSubset(ds)
  {
    hide IsModel, PrintSubset, Good, Whole;
    var before := m.builder.reports;
    ReadyIsGood(m);
    PrintSubsetConcat(before, ds);
    WholeOutside(m);
    WholeOutside(m');
    SameRest(PrintSubset(before), toks, PrintSubset(ds));
    assert forall i :: 0 <= i < |ds| ==> ds[i] == m'.builder.reports[|before| + i];
  }

  lemma ReadyIsGood(m: Machine)
    requires Ready(m, InternalSubset)
    ensures Good(m)
  {}

  lemma WholeOutside(m: Machine)
    requires m.Machine? && Good(m) && m.state.handler == InternalSubset
    ensures Whole(m) == PrintSubset(m.builder.reports)
  {
    hide PrintSubset;
  }

  /** The same for a single declaration, from its first token after `<!ELEMENT`. */
  lemma DeclarationParsing(m: Machine, toks: seq<Token>, element: string, c: Content)
    requires Tokenized(toks) && Ready(m, Element0)
    ensures Accepts(m, toks, [Declaration(element, c)]) <==> IsModel(c) && Strip(toks) == PrintDeclaration(element, c)
  {
    hide Run, Strip, IsModel, PrintModel, PrintDeclaration, Stripped, Step;
    var before := m.(state := m.state.(handler := InternalSubset));
    var all, ds := [ElementOpen] + toks, [Declaration(element, c)];
    OpensDeclaration(before);
    RunConcat(before, [ElementOpen], toks);
    RunOne(before, ElementOpen);
    SubsetParsing(before, all, ds);
    assert all[1..] == toks && Strip(all) == [ElementOpen] + Strip(toks) by {
      StripFirst(toks);
    }
    PrintOne(element, c);
    if Strip(all) == PrintSubset(ds) {
      SameRest([ElementOpen], Strip(toks), PrintDeclaration(element, c));
    }
    assert ds[0] == Declaration(element, c);
  }

  lemma StripFirst(toks: seq<Token>)
    ensures Strip([ElementOpen] + toks) == [ElementOpen] + Strip(toks)
  {
    assert ([ElementOpen] + toks)[1..] == toks;
  }

  lemma PrintOne(element: string, c: Content)
    ensures PrintSubset([Declaration(element, c)]) == [ElementOpen] + PrintDeclaration(element, c)
  {
    hide PrintDeclaration;
    assert [Declaration(element, c)][..0] == [] && PrintSubset([]) == [];
    assert [] + [ElementOpen] == [ElementOpen];
  }
}
