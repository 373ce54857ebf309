/** The role automaton for element type declarations: the handlers element0 .. element7 and
    declClose, which turn the tokens after `<!ELEMENT` into roles, and the step of internalSubset
    from one such declaration to the next. */
module XmlRole {

  /** The tokens a prolog tokenizer can hand to these handlers. A name carries its characters
      without the quantifier that may follow it; a pound name those after the `#`. */
  datatype Token =
    | Space
    | ElementOpen
    | Name(name: string)
    | PrefixedName(name: string)
    | NameQuestion(name: string)
    | NameAsterisk(name: string)
    | NamePlus(name: string)
    | PoundName(name: string)
    | OpenParen
    | CloseParen
    | CloseParenQuestion
    | CloseParenAsterisk
    | CloseParenPlus
    | Comma
    | Or
    | DeclarationClose
    | OtherToken

  datatype Quant = None | Opt | Rep | Plus

  /** XML_ROLE_*; the four variants of an element and of a group end carry their quantifier. */
  datatype Role =
    | RoleNone
    | ElementNone
    | ElementName
    | ContentAny
    | ContentEmpty
    | ContentPcdata
    | GroupOpen
    | GroupSequence
    | GroupChoice
    | GroupClose(quant: Quant)
    | ContentElement(quant: Quant)
    | RoleError

  datatype Handler =
    | Element0 | Element1 | Element2 | Element3 | Element4 | Element5 | Element6 | Element7
    | DeclClose
    | InternalSubset
    | Error

  /** The fields of a PROLOG_STATE that the element handlers use. */
  datatype State = State(handler: Handler, level: int, roleNone: Role)

  /** One call of the current handler. */
  function Next(s: State, tok: Token): (State, Role) {
    match (s.handler, tok)
    case (Error, _) => (s, RoleNone)
    case (InternalSubset, Space) => (s, RoleNone)
    case (DeclClose, Space) => (s, s.roleNone)
    case (_, Space) => (s, ElementNone)

    case (InternalSubset, ElementOpen) => (s.(handler := Element0), ElementNone)

    case (Element0, Name(_)) => (s.(handler := Element1), ElementName)
    case (Element0, PrefixedName(_)) => (s.(handler := Element1), ElementName)

    case (Element1, Name(n)) =>
      if n == "EMPTY" then (Closing(s), ContentEmpty)
      else if n == "ANY" then (Closing(s), ContentAny)
      else Fail(s)
    case (Element1, OpenParen) => (s.(handler := Element2, level := 1), GroupOpen)

    case (Element2, PoundName(n)) =>
      if n == "PCDATA" then (s.(handler := Element3), ContentPcdata) else Fail(s)
    case (Element2, OpenParen) => (s.(handler := Element6, level := 2), GroupOpen)
    case (Element2, _) => Particle(s, tok)

    case (Element3, CloseParen) => (Closing(s), GroupClose(None))
    case (Element3, CloseParenAsterisk) => (Closing(s), GroupClose(Rep))
    case (Element3, Or) => (s.(handler := Element4), ElementNone)

    case (Element4, Name(_)) => (s.(handler := Element5), ContentElement(None))
    case (Element4, PrefixedName(_)) => (s.(handler := Element5), ContentElement(None))

    case (Element5, CloseParenAsterisk) => (Closing(s), GroupClose(Rep))
    case (Element5, Or) => (s.(handler := Element4), ElementNone)

    case (Element6, OpenParen) => (s.(level := s.level + 1), GroupOpen)
    case (Element6, _) => Particle(s, tok)

    case (Element7, CloseParen) => (Leave(s), GroupClose(None))
    case (Element7, CloseParenAsterisk) => (Leave(s), GroupClose(Rep))
    case (Element7, CloseParenQuestion) => (Leave(s), GroupClose(Opt))
    case (Element7, CloseParenPlus) => (Leave(s), GroupClose(Plus))
    case (Element7, Comma) => (s.(handler := Element6), GroupSequence)
    case (Element7, Or) => (s.(handler := Element6), GroupChoice)

    case (DeclClose, DeclarationClose) => (s.(handler := InternalSubset), s.roleNone)
    case _ => Fail(s)
  }

  /** common(): no token of the declaration fits here. */
  function Fail(s: State): (State, Role) {
    (s.(handler := Error), RoleError)
  }

  function Closing(s: State): State {
    s.(handler := DeclClose, roleNone := ElementNone)
  }

  /** The end of a group: the declaration ends with its outermost group. */
  function Leave(s: State): State {
    if s.level - 1 == 0 then Closing(s.(level := 0)) else s.(level := s.level - 1)
  }

  function Particle(s: State, tok: Token): (State, Role) {
    match tok
    case Name(_) => (s.(handler := Element7), ContentElement(None))
    case PrefixedName(_) => (s.(handler := Element7), ContentElement(None))
    case NameQuestion(_) => (s.(handler := Element7), ContentElement(Opt))
    case NameAsterisk(_) => (s.(handler := Element7), ContentElement(Rep))
    case NamePlus(_) => (s.(handler := Element7), ContentElement(Plus))
    case _ => Fail(s)
  }

  /** PROLOG_STATE with its handlers as methods that update it. */
  class PrologState {
    var handler: Handler
    var level: int
    var roleNone: Role

    constructor ()
      ensures Value() == State(InternalSubset, 0, RoleNone)
    {
      handler, level, roleNone := InternalSubset, 0, RoleNone;
    }

    function Value(): State
      reads this
    {
      State(handler, level, roleNone)
    }

    /** XmlTokenRole: call through the handler pointer. */
    method TokenRole(tok: Token) returns (role: Role)
      modifies this
      ensures (Value(), role) == Next(old(Value()), tok)
    {
      match handler
      case Element0 => role := CallElement0(tok);
      case Element1 => role := CallElement1(tok);
      case Element2 => role := CallElement2(tok);
      case Element3 => role := CallElement3(tok);
      case Element4 => role := CallElement4(tok);
      case Element5 => role := CallElement5(tok);
      case Element6 => role := CallElement6(tok);
      case Element7 => role := CallElement7(tok);
      case DeclClose => role := CallDeclClose(tok);
      case InternalSubset => role := CallInternalSubset(tok);
      case Error => role := RoleNone;
    }

    method Common() returns (role: Role)
      modifies this
      ensures (Value(), role) == Fail(old(Value()))
    {
      handler := Error;
      role := RoleError;
    }

    /** internalSubset, for white space and element type declarations. */
    method CallInternalSubset(tok: Token) returns (role: Role)
      requires handler == InternalSubset
      modifies this
      ensures (Value(), role) == Next(old(Value()), tok)
    {
      match tok
      case Space => role := RoleNone;
      case ElementOpen => handler := Element0; role := ElementNone;
      case _ => role := Common();
    }

    method CallElement0(tok: Token) returns (role: Role)
      requires handler == Element0
      modifies this
      ensures (Value(), role) == Next(old(Value()), tok)
    {
      match tok
      case Space => role := ElementNone;
      case Name(_) => handler := Element1; role := ElementName;
      case PrefixedName(_) => handler := Element1; role := ElementName;
      case _ => role := Common();
    }

    method CallElement1(tok: Token) returns (role: Role)
      requires handler == Element1
      modifies this
      ensures (Value(), role) == Next(old(Value()), tok)
    {
      match tok
      case Space => role := ElementNone;
      case Name(n) =>
        if n == "EMPTY" {
          handler := DeclClose;
          roleNone := ElementNone;
          role := ContentEmpty;
        } else if n == "ANY" {
          handler := DeclClose;
          roleNone := ElementNone;
          role := ContentAny;
        } else {
          role := Common();
        }
      case OpenParen => handler := Element2; level := 1; role := GroupOpen;
      case _ => role := Common();
    }

    method CallElement2(tok: Token) returns (role: Role)
      requires handler == Element2
      modifies this
      ensures (Value(), role) == Next(old(Value()), tok)
    {
      match tok
      case Space => role := ElementNone;
      case PoundName(n) =>
        if n == "PCDATA" {
          handler := Element3;
          role := ContentPcdata;
        } else {
          role := Common();
        }
      case OpenParen => level := 2; handler := Element6; role := GroupOpen;
      case Name(_) => handler := Element7; role := ContentElement(None);
      case PrefixedName(_) => handler := Element7; role := ContentElement(None);
      case NameQuestion(_) => handler := Element7; role := ContentElement(Opt);
      case NameAsterisk(_) => handler := Element7; role := ContentElement(Rep);
      case NamePlus(_) => handler := Element7; role := ContentElement(Plus);
      case _ => role := Common();
    }

    method CallElement3(tok: Token) returns (role: Role)
      requires handler == Element3
      modifies this
      ensures (Value(), role) == Next(old(Value()), tok)
    {
      match tok
      case Space => role := ElementNone;
      case CloseParen => handler := DeclClose; roleNone := ElementNone; role := GroupClose(None);
      case CloseParenAsterisk => handler := DeclClose; roleNone := ElementNone; role := GroupClose(Rep);
      case Or => handler := Element4; role := ElementNone;
      case _ => role := Common();
    }

    method CallElement4(tok: Token) returns (role: Role)
      requires handler == Element4
      modifies this
      ensures (Value(), role) == Next(old(Value()), tok)
    {
      match tok
      case Space => role := ElementNone;
      case Name(_) => handler := Element5; role := ContentElement(None);
      case PrefixedName(_) => handler := Element5; role := ContentElement(None);
      case _ => role := Common();
    }

    method CallElement5(tok: Token) returns (role: Role)
      requires handler == Element5
      modifies this
      ensures (Value(), role) == Next(old(Value()), tok)
    {
      match tok
      case Space => role := ElementNone;
      case CloseParenAsterisk => handler := DeclClose; roleNone := ElementNone; role := GroupClose(Rep);
      case Or => handler := Element4; role := ElementNone;
      case _ => role := Common();
    }

    method CallElement6(tok: Token) returns (role: Role)
      requires handler == Element6
      modifies this
      ensures (Value(), role) == Next(old(Value()), tok)
    {
      match tok
      case Space => role := ElementNone;
      case OpenParen => level := level + 1; role := GroupOpen;
      case Name(_) => handler := Element7; role := ContentElement(None);
      case PrefixedName(_) => handler := Element7; role := ContentElement(None);
      case NameQuestion(_) => handler := Element7; role := ContentElement(Opt);
      case NameAsterisk(_) => handler := Element7; role := ContentElement(Rep);
      case NamePlus(_) => handler := Element7; role := ContentElement(Plus);
      case _ => role := Common();
    }

    method CallElement7(tok: Token) returns (role: Role)
      requires handler == Element7
      modifies this
      ensures (Value(), role) == Next(old(Value()), tok)
    {
      match tok
      case Space => role := ElementNone;
      case CloseParen => LeaveGroup(); role := GroupClose(None);
      case CloseParenAsterisk => LeaveGroup(); role := GroupClose(Rep);
      case CloseParenQuestion => LeaveGroup(); role := GroupClose(Opt);
      case CloseParenPlus => LeaveGroup(); role := GroupClose(Plus);
      case Comma => handler := Element6; role := GroupSequence;
      case Or => handler := Element6; role := GroupChoice;
      case _ => role := Common();
    }

    method LeaveGroup()
      modifies this
      ensures Value() == Leave(old(Value()))
    {
      level := level - 1;
      if level == 0 {
        handler := DeclClose;
        roleNone := ElementNone;
      }
    }

    method CallDeclClose(tok: Token) returns (role: Role)
      requires handler == DeclClose
      modifies this
      ensures (Value(), role) == Next(old(Value()), tok)
    {
      match tok
      case Space => role := roleNone;
      case DeclarationClose => handler := InternalSubset; role := roleNone;
      case _ => role := Common();
    }
  }
}
