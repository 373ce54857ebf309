/** Attribute values: appendAttributeValue, which expands entity references recursively while
    marking entities open, and storeAttributeValue. The result is compared with plain recursive
    expansion to growing depths, which knows nothing of the marks. */
module AttributeValue {
  import opened References

  /** Tokens of the attribute value tokenizer. A character reference comes with the number and
      its encoding (empty if there is none); an entity reference to a predefined entity with its
      character. */
  datatype Token =
    | CharRef(number: int, encoded: string)
    | DataChars(chars: string)
    | TrailingCr
    | ValueSpace
    | DataNewline
    | PredefinedRef(ch: char)
    | EntityRef(name: string)
    | Invalid
    | Partial
    | OtherToken

  datatype Text = External | Internal(tokens: seq<Token>)

  /** ENTITY: everything but `open` is fixed by its declaration. */
  class Entity {
    const text: Text
    const notation: bool
    const isInternal: bool
    var open: bool

    constructor (text: Text, notation: bool, isInternal: bool)
      ensures this.text == text && this.notation == notation && this.isInternal == isInternal && !open
    {
      this.text, this.notation, this.isInternal, this.open := text, notation, isInternal, false;
    }
  }

  /** The declared part of the general entities, and whether an undeclared one is an error. */
  datatype Decl = Decl(text: Text, notation: bool, isInternal: bool)
  datatype Dtd = Dtd(entities: map<string, Decl>, checkEntityDecl: bool)

  /** The condition computed before the check for a declaration. */
  function CheckEntityDecl(fromProlog: bool, standalone: bool, hasParamEntityRefs: bool, insideInternalEntity: bool)
    : bool
  {
    if fromProlog then if standalone then !insideInternalEntity else !hasParamEntityRefs
    else CheckedInContent(hasParamEntityRefs, standalone)
  }

  // ---------- Plain recursive expansion ----------

  /** The tokens that are left when all references are replaced, the error met first, or that the
      depth was not enough. */
  datatype Expansion = Flat(tokens: seq<Token>) | Fault(error: Error) | TooDeep

  /** The checks made on a reference; `blocked` holds the entities that are open. */
  function Resolve(dtd: Dtd, blocked: set<string>, name: string): Reference<seq<Token>> {
    if name !in dtd.entities then
      if dtd.checkEntityDecl then Wrong(UndefinedEntity) else Skip
    else
      var e := dtd.entities[name];
      if dtd.checkEntityDecl && !e.isInternal then Wrong(EntityDeclaredInPe)
      else if name in blocked then Wrong(RecursiveEntityRef)
      else if e.notation then Wrong(BinaryEntityRef)
      else match e.text
        case External => Wrong(AttributeExternalEntityRef)
        case Internal(tokens) => Replace(tokens)
  }

  /** What one token other than an entity reference contributes. */
  function Literal(t: Token): Expansion
    requires !t.EntityRef?
  {
    match t
    case Invalid => Fault(InvalidToken)
    case Partial => Fault(InvalidToken)
    case OtherToken => Fault(UnexpectedState)
    case CharRef(number, encoded) =>
      if number < 0 || (number != 0x20 && encoded == "") then Fault(BadCharRef) else Flat([t])
    case _ => Flat([t])
  }

  function Then(a: Expansion, b: Expansion): Expansion {
    if a.Flat? && b.Flat? then Flat(a.tokens + b.tokens) else if a.Flat? then b else a
  }

  /** Expansion with references nested at most d deep. */
  function Expand(dtd: Dtd, blocked: set<string>, toks: seq<Token>, d: nat): Expansion
    decreases d, |toks|, 0
  {
    if toks == [] then Flat([])
    else Then(ExpandOne(dtd, blocked, toks[0], d), Expand(dtd, blocked, toks[1..], d))
  }

  function ExpandOne(dtd: Dtd, blocked: set<string>, t: Token, d: nat): Expansion
    decreases d, 0, 1
  {
    if !t.EntityRef? then Literal(t)
    else match Resolve(dtd, blocked, t.name)
      case Skip => Flat([])
      case Wrong(error) => Fault(error)
      case Replace(tokens) => if d == 0 then TooDeep else Expand(dtd, blocked, tokens, d - 1)
  }

  /** An outcome other than running too deep or into an open entity. */
  predicate Settled(x: Expansion) {
    x.Flat? || (x.Fault? && x.error != RecursiveEntityRef)
  }

  /** Expansion to some depth settles with this outcome. */
  ghost predicate Settles(dtd: Dtd, blocked: set<string>, toks: seq<Token>, x: Expansion) {
    Settled(x) && exists d: nat :: Expand(dtd, blocked, toks, d) == x
  }

  /** A settled outcome stays the same at greater depths. */
  lemma {:induction false} DeeperSame(dtd: Dtd, blocked: set<string>, toks: seq<Token>, d: nat, e: nat)
    requires d <= e && !Expand(dtd, blocked, toks, d).TooDeep?
    ensures Expand(dtd, blocked, toks, e) == Expand(dtd, blocked, toks, d)
    decreases d, |toks|
  {
    if toks != [] {
      var t := toks[0];
      if t.EntityRef? && Resolve(dtd, blocked, t.name).Replace? && d > 0 {
        if !ExpandOne(dtd, blocked, t, d).TooDeep? {
          DeeperSame(dtd, blocked, Resolve(dtd, blocked, t.name).text, d - 1, e - 1);
        }
      }
      if ExpandOne(dtd, blocked, t, d).Flat? {
        DeeperSame(dtd, blocked, toks[1..], d, e);
      }
    }
  }

  lemma SettlesOnce(dtd: Dtd, blocked: set<string>, toks: seq<Token>, x: Expansion, y: Expansion)
    requires Settles(dtd, blocked, toks, x) && Settles(dtd, blocked, toks, y)
    ensures x == y
  {
    var d: nat :| Expand(dtd, blocked, toks, d) == x;
    var e: nat :| Expand(dtd, blocked, toks, e) == y;
    if d <= e {
      DeeperSame(dtd, blocked, toks, d, e);
    } else {
      DeeperSame(dtd, blocked, toks, e, d);
    }
  }

  // ---------- Marking an entity open makes no difference ----------

  /** With more entities blocked, a settled outcome is the same as without. */
  lemma {:induction false} UnblockedSame(dtd: Dtd, blocked: set<string>, name: string, toks: seq<Token>, d: nat)
    requires Settled(Expand(dtd, blocked + {name}, toks, d))
    ensures Expand(dtd, blocked, toks, d) == Expand(dtd, blocked + {name}, toks, d)
    decreases d, |toks|
  {
    if toks != [] {
      var t := toks[0];
      assert Settled(ExpandOne(dtd, blocked + {name}, t, d));
      if t.EntityRef? && Resolve(dtd, blocked + {name}, t.name).Replace? && d > 0 {
        UnblockedSame(dtd, blocked, name, Resolve(dtd, blocked + {name}, t.name).text, d - 1);
      }
      if ExpandOne(dtd, blocked + {name}, t, d).Flat? {
        UnblockedSame(dtd, blocked, name, toks[1..], d);
      }
    }
  }

  /** If the text of an entity does not settle at lesser depths, blocking the entity does not
      disturb what settles at depth d. */
  lemma {:induction false} BlockedSame(dtd: Dtd, blocked: set<string>, name: string, toks: seq<Token>, d: nat)
    requires Resolve(dtd, blocked, name).Replace?
    requires forall e: nat :: e < d ==> !Settled(Expand(dtd, blocked, Resolve(dtd, blocked, name).text, e))
    requires Settled(Expand(dtd, blocked, toks, d))
    ensures Expand(dtd, blocked + {name}, toks, d) == Expand(dtd, blocked, toks, d)
    decreases d, |toks|
  {
    if toks != [] {
      var t := toks[0];
      assert Settled(ExpandOne(dtd, blocked, t, d));
      if t.EntityRef? && Resolve(dtd, blocked, t.name).Replace? && d > 0 {
        assert ExpandOne(dtd, blocked, t, d) == Expand(dtd, blocked, Resolve(dtd, blocked, t.name).text, d - 1);
        BlockedSame(dtd, blocked, name, Resolve(dtd, blocked, t.name).text, d - 1);
      }
      if ExpandOne(dtd, blocked, t, d).Flat? {
        BlockedSame(dtd, blocked, name, toks[1..], d);
      }
    }
  }

  lemma {:induction false} LeastDepth(dtd: Dtd, blocked: set<string>, toks: seq<Token>, d: nat) returns (m: nat)
    requires Settled(Expand(dtd, blocked, toks, d))
    ensures m <= d && Expand(dtd, blocked, toks, m) == Expand(dtd, blocked, toks, d)
    ensures forall e: nat :: e < m ==> !Settled(Expand(dtd, blocked, toks, e))
  {
    m := 0;
    while !Settled(Expand(dtd, blocked, toks, m))
      invariant m <= d
      invariant forall e: nat :: e < m ==> !Settled(Expand(dtd, blocked, toks, e))
      decreases d - m
    {
      m := m + 1;
    }
    DeeperSame(dtd, blocked, toks, m, d);
  }

  /** The text of an entity settles the same way whether or not the entity itself is open. */
  lemma OpenMarkIrrelevant(dtd: Dtd, blocked: set<string>, name: string, x: Expansion)
    requires Resolve(dtd, blocked, name).Replace?
    ensures var text := Resolve(dtd, blocked, name).text;
      Settles(dtd, blocked + {name}, text, x) <==> Settles(dtd, blocked, text, x)
  {
    var text := Resolve(dtd, blocked, name).text;
    if Settles(dtd, blocked + {name}, text, x) {
      var d: nat :| Expand(dtd, blocked + {name}, text, d) == x;
      UnblockedSame(dtd, blocked, name, text, d);
    }
    if Settles(dtd, blocked, text, x) {
      var d: nat :| Expand(dtd, blocked, text, d) == x;
      var m := LeastDepth(dtd, blocked, text, d);
      BlockedSame(dtd, blocked, name, text, m);
    }
  }

  // ---------- Token by token ----------

  ghost predicate SettlesOne(dtd: Dtd, blocked: set<string>, t: Token, x: Expansion) {
    Settled(x) && exists d: nat :: ExpandOne(dtd, blocked, t, d) == x
  }

  lemma {:induction false} ExpandConcat(dtd: Dtd, blocked: set<string>, a: seq<Token>, b: seq<Token>, d: nat)
    ensures Expand(dtd, blocked, a + b, d) == Then(Expand(dtd, blocked, a, d), Expand(dtd, blocked, b, d))
    decreases |a|
  {
    if a == [] {
      assert a + b == b;
    } else {
      assert (a + b)[1..] == a[1..] + b;
      ExpandConcat(dtd, blocked, a[1..], b, d);
      hide ExpandOne;
      ThenAssociates(ExpandOne(dtd, blocked, a[0], d), Expand(dtd, blocked, a[1..], d), Expand(dtd, blocked, b, d));
    }
  }

  lemma ThenAssociates(a: Expansion, b: Expansion, c: Expansion)
    ensures Then(Then(a, b), c) == Then(a, Then(b, c))
  {}

  lemma OneDeeperSame(dtd: Dtd, blocked: set<string>, t: Token, d: nat, e: nat)
    requires d <= e && !ExpandOne(dtd, blocked, t, d).TooDeep?
    ensures ExpandOne(dtd, blocked, t, e) == ExpandOne(dtd, blocked, t, d)
  {
    if t.EntityRef? && Resolve(dtd, blocked, t.name).Replace? {
      DeeperSame(dtd, blocked, Resolve(dtd, blocked, t.name).text, d - 1, e - 1);
    }
  }

  lemma ExpandAt(dtd: Dtd, blocked: set<string>, toks: seq<Token>, i: nat, d: nat)
    requires i < |toks|
    ensures Expand(dtd, blocked, toks, d) ==
      Then(Expand(dtd, blocked, toks[..i], d),
        Then(ExpandOne(dtd, blocked, toks[i], d), Expand(dtd, blocked, toks[i + 1..], d)))
    ensures Expand(dtd, blocked, toks[..i + 1], d) ==
      Then(Expand(dtd, blocked, toks[..i], d), ExpandOne(dtd, blocked, toks[i], d))
  {
    hide ExpandOne;
    assert toks == toks[..i] + toks[i..] && toks[i..][1..] == toks[i + 1..];
    ExpandConcat(dtd, blocked, toks[..i], toks[i..], d);
    assert toks[..i + 1] == toks[..i] + [toks[i]];
    ExpandConcat(dtd, blocked, toks[..i], [toks[i]], d);
    OneAlone(dtd, blocked, toks[i], d);
  }

  lemma OneAlone(dtd: Dtd, blocked: set<string>, t: Token, d: nat)
    ensures Expand(dtd, blocked, [t], d) == ExpandOne(dtd, blocked, t, d)
  {
    hide ExpandOne;
    assert [t][1..] == [];
    var x := ExpandOne(dtd, blocked, t, d);
    if x.Flat? {
      assert x.tokens + [] == x.tokens;
    }
  }

  /** The next token settles, after a prefix that expanded to `flat`. */
  lemma TokenSettles(dtd: Dtd, blocked: set<string>, toks: seq<Token>, i: nat, flat: seq<Token>, y: Expansion)
    requires i < |toks| && Settles(dtd, blocked, toks[..i], Flat(flat)) && SettlesOne(dtd, blocked, toks[i], y)
    ensures y.Flat? ==> Settles(dtd, blocked, toks[..i + 1], Flat(flat + y.tokens))
    ensures y.Fault? ==> Settles(dtd, blocked, toks, y)
  {
    hide ExpandOne;
    var d: nat :| Expand(dtd, blocked, toks[..i], d) == Flat(flat);
    var e: nat :| ExpandOne(dtd, blocked, toks[i], e) == y;
    var m := if d <= e then e else d;
    DeeperSame(dtd, blocked, toks[..i], d, m);
    OneDeeperSame(dtd, blocked, toks[i], e, m);
    ExpandAt(dtd, blocked, toks, i, m);
  }

  /** The next token does not settle, so the whole does not. */
  lemma TokenNeverSettles(dtd: Dtd, blocked: set<string>, toks: seq<Token>, i: nat, flat: seq<Token>)
    requires i < |toks| && Settles(dtd, blocked, toks[..i], Flat(flat))
    requires forall y :: !SettlesOne(dtd, blocked, toks[i], y)
    ensures forall x :: !Settles(dtd, blocked, toks, x)
  {
    hide ExpandOne;
    forall d: nat ensures !Settled(Expand(dtd, blocked, toks, d)) {
      ExpandAt(dtd, blocked, toks, i, d);
      assert !SettlesOne(dtd, blocked, toks[i], ExpandOne(dtd, blocked, toks[i], d));
      if Settled(Expand(dtd, blocked, toks[..i], d)) {
        SettlesOnce(dtd, blocked, toks[..i], Flat(flat), Expand(dtd, blocked, toks[..i], d));
      }
    }
  }

  lemma ReferenceSettles(dtd: Dtd, blocked: set<string>, name: string, x: Expansion)
    requires Resolve(dtd, blocked, name).Replace?
    ensures SettlesOne(dtd, blocked, EntityRef(name), x) <==>
      Settles(dtd, blocked + {name}, Resolve(dtd, blocked, name).text, x)
  {
    var text := Resolve(dtd, blocked, name).text;
    OpenMarkIrrelevant(dtd, blocked, name, x);
    if Settles(dtd, blocked, text, x) {
      var d: nat :| Expand(dtd, blocked, text, d) == x;
      assert ExpandOne(dtd, blocked, EntityRef(name), d + 1) == x;
    }
    if SettlesOne(dtd, blocked, EntityRef(name), x) {
      var d: nat :| ExpandOne(dtd, blocked, EntityRef(name), d) == x;
      assert d > 0 && Expand(dtd, blocked, text, d - 1) == x;
    }
  }

  lemma LiteralSettles(dtd: Dtd, blocked: set<string>, t: Token)
    requires !t.EntityRef?
    ensures SettlesOne(dtd, blocked, t, Literal(t))
  {
    assert ExpandOne(dtd, blocked, t, 0) == Literal(t);
  }

  lemma UnresolvedSettles(dtd: Dtd, blocked: set<string>, name: string)
    ensures var r := Resolve(dtd, blocked, name);
      && (r.Skip? ==> SettlesOne(dtd, blocked, EntityRef(name), Flat([])))
      && (r.Wrong? && r.error != RecursiveEntityRef ==> SettlesOne(dtd, blocked, EntityRef(name), Fault(r.error)))
      && (r == Wrong(RecursiveEntityRef) ==> forall y :: !SettlesOne(dtd, blocked, EntityRef(name), y))
  {
    var r := Resolve(dtd, blocked, name);
    assert r.Skip? ==> ExpandOne(dtd, blocked, EntityRef(name), 0) == Flat([]);
    assert r.Wrong? ==> ExpandOne(dtd, blocked, EntityRef(name), 0) == Fault(r.error);
    assert r.Wrong? ==> forall d: nat :: ExpandOne(dtd, blocked, EntityRef(name), d) == Fault(r.error);
  }

  lemma ReferenceNeverSettles(dtd: Dtd, blocked: set<string>, name: string)
    requires Resolve(dtd, blocked, name).Replace?
    requires forall x :: !Settles(dtd, blocked + {name}, Resolve(dtd, blocked, name).text, x)
    ensures forall x :: !SettlesOne(dtd, blocked, EntityRef(name), x)
  {
    hide Settles, SettlesOne;
    forall x ensures !SettlesOne(dtd, blocked, EntityRef(name), x) {
      ReferenceSettles(dtd, blocked, name, x);
    }
  }

  // ---------- Recursion and cycles ----------

  /** p is a chain of references: the first is made in toks, each next one in the text of the one before. */
  ghost predicate Chain(dtd: Dtd, toks: seq<Token>, p: seq<string>)
    decreases |p|
  {
    p == [] ||
    (EntityRef(p[0]) in toks && Resolve(dtd, {}, p[0]).Replace? && Chain(dtd, Resolve(dtd, {}, p[0]).text, p[1..]))
  }

  lemma {:induction false} TooDeepHasChain(dtd: Dtd, toks: seq<Token>, d: nat) returns (p: seq<string>)
    requires Expand(dtd, {}, toks, d).TooDeep?
    ensures |p| == d + 1 && Chain(dtd, toks, p)
    decreases d, |toks|
  {
    var t := toks[0];
    if ExpandOne(dtd, {}, t, d).TooDeep? {
      if d == 0 {
        p := [t.name];
        assert p[1..] == [];
      } else {
        var q := TooDeepHasChain(dtd, Resolve(dtd, {}, t.name).text, d - 1);
        p := [t.name] + q;
        assert p[1..] == q;
      }
    } else {
      p := TooDeepHasChain(dtd, toks[1..], d);
    }
  }

  lemma {:induction false} ChainNamesDeclared(dtd: Dtd, toks: seq<Token>, p: seq<string>)
    requires Chain(dtd, toks, p)
    ensures forall n | n in p :: n in dtd.entities
    decreases |p|
  {
    if p != [] {
      ChainNamesDeclared(dtd, Resolve(dtd, {}, p[0]).text, p[1..]);
    }
  }

  lemma {:induction false} NothingBlocked(dtd: Dtd, toks: seq<Token>, d: nat)
    ensures Expand(dtd, {}, toks, d) != Fault(RecursiveEntityRef)
    decreases d, |toks|
  {
    if toks != [] {
      var t := toks[0];
      NothingBlocked(dtd, toks[1..], d);
      if t.EntityRef? && Resolve(dtd, {}, t.name).Replace? && d > 0 {
        NothingBlocked(dtd, Resolve(dtd, {}, t.name).text, d - 1);
      }
    }
  }

  /** When no entity is open, expansion that never settles has a cycle of references to blame. */
  lemma NeverSettlingIsCyclic(dtd: Dtd, toks: seq<Token>) returns (p: seq<string>)
    requires forall x :: !Settles(dtd, {}, toks, x)
    ensures Chain(dtd, toks, p) && Cyclic(p)
  {
    var d := |dtd.entities|;
    NothingBlocked(dtd, toks, d);
    assert !Settles(dtd, {}, toks, Expand(dtd, {}, toks, d));
    p := TooDeepHasChain(dtd, toks, d);
    ChainNamesDeclared(dtd, toks, p);
    assert |dtd.entities.Keys| == |dtd.entities|;
    Pigeonhole(p, dtd.entities.Keys);
  }

  lemma {:induction false} FlatMembers(dtd: Dtd, toks: seq<Token>, t: Token, d: nat)
    requires Expand(dtd, {}, toks, d).Flat? && t in toks
    ensures ExpandOne(dtd, {}, t, d).Flat?
    decreases |toks|
  {
    if t != toks[0] {
      FlatMembers(dtd, toks[1..], t, d);
    }
  }

  /** The texts along a chain expand to ever smaller depths. */
  lemma {:induction false} FlatAlong(dtd: Dtd, toks: seq<Token>, p: seq<string>, d: nat, k: nat)
    requires Expand(dtd, {}, toks, d).Flat? && Chain(dtd, toks, p) && k < |p|
    ensures k < d && Resolve(dtd, {}, p[k]).Replace?
    ensures Expand(dtd, {}, Resolve(dtd, {}, p[k]).text, d - 1 - k).Flat?
    ensures Chain(dtd, Resolve(dtd, {}, p[k]).text, p[k + 1..])
    decreases k
  {
    FlatMembers(dtd, toks, EntityRef(p[0]), d);
    if k > 0 {
      FlatAlong(dtd, Resolve(dtd, {}, p[0]).text, p[1..], d - 1, k - 1);
      assert p[1..][k..] == p[k + 1..];
    }
  }

  /** Where a cycle of references can be reached, expansion never succeeds. */
  lemma {:induction false} CyclesDoNotExpand(dtd: Dtd, toks: seq<Token>, p: seq<string>, d: nat)
    requires Chain(dtd, toks, p) && Cyclic(p)
    ensures !Expand(dtd, {}, toks, d).Flat?
  {
    if Expand(dtd, {}, toks, d).Flat? {
      var i, j :| 0 <= i < j < |p| && p[i] == p[j];
      FlatAlong(dtd, toks, p, d, i);
      var text := Resolve(dtd, {}, p[i]).text;
      var m := LeastDepth(dtd, {}, text, d - 1 - i);
      FlatAlong(dtd, text, p[i + 1..], m, j - i - 1);
    }
  }

  // ---------- The string built ----------

  predicate EndsInSpace(pool: string) {
    pool == "" || pool[|pool| - 1] == ' '
  }

  /** What one token appends. Unless the attribute is CDATA, a space does not follow a space or
      start the value. */
  function AppendOne(pool: string, t: Token, isCdata: bool): string {
    match t
    case CharRef(number, encoded) =>
      if number == 0x20 then AppendSpace(pool, isCdata) else pool + encoded
    case DataChars(chars) => pool + chars
    case PredefinedRef(ch) => pool + [ch]
    case _ => AppendSpace(pool, isCdata)
  }

  function AppendSpace(pool: string, isCdata: bool): string {
    if !isCdata && EndsInSpace(pool) then pool else pool + " "
  }

  function AppendAll(pool: string, toks: seq<Token>, isCdata: bool): string
    decreases |toks|
  {
    if toks == [] then pool else AppendAll(AppendOne(pool, toks[0], isCdata), toks[1..], isCdata)
  }

  lemma {:induction false} AppendConcat(pool: string, a: seq<Token>, b: seq<Token>, isCdata: bool)
    ensures AppendAll(pool, a + b, isCdata) == AppendAll(AppendAll(pool, a, isCdata), b, isCdata)
    decreases |a|
  {
    hide AppendOne;
    if a == [] {
      assert a + b == b;
    } else {
      assert (a + b)[1..] == a[1..] + b;
      AppendConcat(AppendOne(pool, a[0], isCdata), a[1..], b, isCdata);
    }
  }

  lemma AppendSingle(pool: string, t: Token, isCdata: bool)
    ensures AppendAll(pool, [t], isCdata) == AppendOne(pool, t, isCdata)
  {
    hide AppendOne;
    assert [t][1..] == [];
  }

  /** A normalized value has no space at its start and no two together (XML 1.0 section 3.3.3). */
  predicate NoLooseSpace(s: string) {
    (s != "" ==> s[0] != ' ') && forall i :: 0 < i < |s| ==> !(s[i - 1] == ' ' && s[i] == ' ')
  }

  /** Characters that the tokenizer does not report as white space. */
  predicate SolidText(t: Token) {
    match t
    case DataChars(chars) => ' ' !in chars
    case CharRef(number, encoded) => number != 0x20 ==> ' ' !in encoded
    case PredefinedRef(ch) => ch != ' '
    case _ => true
  }

  lemma {:induction false} AppendKeepsNormal(pool: string, toks: seq<Token>)
    requires NoLooseSpace(pool) && forall t | t in toks :: SolidText(t)
    ensures NoLooseSpace(AppendAll(pool, toks, false))
    decreases |toks|
  {
    if toks != [] {
      AppendOneKeepsNormal(pool, toks[0]);
      AppendKeepsNormal(AppendOne(pool, toks[0], false), toks[1..]);
    }
  }

  lemma AppendOneKeepsNormal(pool: string, t: Token)
    requires NoLooseSpace(pool) && SolidText(t)
    ensures NoLooseSpace(AppendOne(pool, t, false))
  {
    var s := AppendOne(pool, t, false);
    if t.DataChars? || (t.CharRef? && t.number != 0x20) || t.PredefinedRef? {
      var more := if t.DataChars? then t.chars else if t.CharRef? then t.encoded else [t.ch];
      assert s == pool + more;
      assert forall i :: 0 <= i < |more| ==> more[i] in more;
    }
  }

  /** storeAttributeValue cuts the last space of a value that is not CDATA. */
  function Trim(s: string, isCdata: bool): string {
    if !isCdata && s != "" && s[|s| - 1] == ' ' then s[..|s| - 1] else s
  }

  /** A value that is not CDATA is stored normalized, whatever entities it came from. */
  lemma {:induction false} StoredNormalized(toks: seq<Token>)
    requires forall t | t in toks :: SolidText(t)
    ensures var s := Trim(AppendAll("", toks, false), false);
      NoLooseSpace(s) && (s != "" ==> s[|s| - 1] != ' ')
  {
    AppendKeepsNormal("", toks);
  }

  // ---------- What is kept ----------

  /** The characters that a token stands for; white space is one space. */
  function CharsOf(t: Token): string {
    match t
    case CharRef(number, encoded) => if number == 0x20 then " " else encoded
    case DataChars(chars) => chars
    case PredefinedRef(ch) => [ch]
    case _ => " "
  }

  function TextOf(toks: seq<Token>): string {
    if toks == [] then "" else CharsOf(toks[0]) + TextOf(toks[1..])
  }

  /** The parts between spaces. */
  function Words(s: string): (words: seq<string>)
    ensures EndsInSpace(s) || (words != [] && words[|words| - 1] != "")
  {
    if s == "" then []
    else
      var words, c := Words(s[..|s| - 1]), s[|s| - 1];
      if c == ' ' then words
      else if EndsInSpace(s[..|s| - 1]) then words + [[c]]
      else words[..|words| - 1] + [words[|words| - 1] + [c]]
  }

  /** The words with one space between any two. */
  function Spaced(words: seq<string>): string {
    if words == [] then ""
    else Spaced(words[..|words| - 1]) + (if |words| > 1 then " " else "") + words[|words| - 1]
  }

  /** A CDATA value is the text of its tokens. Any other has the words of the text, in order, and one
      space between them if the tokenizer reports all white space. */
  predicate Stores(s: string, flat: seq<Token>, isCdata: bool) {
    if isCdata then s == TextOf(flat)
    else
      && Words(s) == Words(TextOf(flat))
      && ((forall t | t in flat :: SolidText(t)) ==> s == Spaced(Words(TextOf(flat))))
  }

  lemma {:induction false} CdataKept(pool: string, toks: seq<Token>)
    ensures AppendAll(pool, toks, true) == pool + TextOf(toks)
    decreases |toks|
  {
    if toks == [] {
      assert pool + "" == pool;
    } else {
      CdataKept(AppendOne(pool, toks[0], true), toks[1..]);
      assert AppendOne(pool, toks[0], true) == pool + CharsOf(toks[0]);
      assert pool + CharsOf(toks[0]) + TextOf(toks[1..]) == pool + (CharsOf(toks[0]) + TextOf(toks[1..]));
    }
  }

  /** Two strings that have the same words and both go on with the same, or with the next, word. */
  predicate Alike(a: string, b: string) {
    Words(a) == Words(b) && (EndsInSpace(a) <==> EndsInSpace(b))
  }

  lemma AlikeMore(a: string, b: string, c: char)
    requires Alike(a, b)
    ensures Alike(a + [c], b + [c])
  {
    WordsMore(a, c);
    WordsMore(b, c);
  }

  lemma WordsMore(s: string, c: char)
    ensures Words(s + [c]) ==
      if c == ' ' then Words(s)
      else if EndsInSpace(s) then Words(s) + [[c]]
      else Words(s)[..|Words(s)| - 1] + [Words(s)[|Words(s)| - 1] + [c]]
  {
    assert (s + [c])[..|s|] == s;
  }

  lemma {:induction false} AlikeAppended(a: string, b: string, x: string)
    requires Alike(a, b)
    ensures Alike(a + x, b + x)
    decreases |x|
  {
    hide Words, Alike, EndsInSpace;
    if x == "" {
      assert a + x == a && b + x == b;
    } else {
      AlikeMore(a, b, x[0]);
      AlikeAppended(a + [x[0]], b + [x[0]], x[1..]);
      assert a + [x[0]] + x[1..] == a + x && b + [x[0]] + x[1..] == b + x;
    }
  }

  /** Leaving out a space after a space makes no difference to the words. */
  lemma OneKept(pool: string, text: string, t: Token)
    requires Alike(pool, text)
    ensures Alike(AppendOne(pool, t, false), text + CharsOf(t))
  {
    hide Words;
    AlikeAppended(pool, text, CharsOf(t));
    WordsMore(text, ' ');
    WordsMore(pool, ' ');
  }

  lemma {:induction false} WordsKept(pool: string, text: string, toks: seq<Token>)
    requires Alike(pool, text)
    ensures Alike(AppendAll(pool, toks, false), text + TextOf(toks))
    decreases |toks|
  {
    hide Alike, AppendOne, CharsOf;
    if toks == [] {
      assert text + "" == text;
    } else {
      OneKept(pool, text, toks[0]);
      WordsKept(AppendOne(pool, toks[0], false), text + CharsOf(toks[0]), toks[1..]);
      assert text + CharsOf(toks[0]) + TextOf(toks[1..]) == text + (CharsOf(toks[0]) + TextOf(toks[1..]));
    }
  }

  /** A normalized value is its words with one space between any two. */
  lemma {:induction false} NormalIsSpaced(s: string)
    requires NoLooseSpace(s) && (s != "" ==> s[|s| - 1] != ' ')
    ensures s == Spaced(Words(s))
    decreases |s|
  {
    hide Words, Spaced, NoLooseSpace;
    if s == "" {
      NoWords();
    } else {
      var front, c := s[..|s| - 1], s[|s| - 1];
      assert s == front + [c];
      NormalFront(front, c);
      WordsMore(front, c);
      if EndsInSpace(front) {
        var before := Trim(front, false);
        NormalIsSpaced(before);
        TrimmedWords(front);
        SpacedMore(Words(before), [c]);
        NoWords();
      } else {
        NormalIsSpaced(front);
        LongerWord(Words(front), c);
      }
    }
  }

  lemma NormalFront(s: string, c: char)
    requires NoLooseSpace(s + [c]) && c != ' '
    ensures NoLooseSpace(s) && NoLooseSpace(Trim(s, false))
    ensures s != "" ==> Trim(s, false) != "" && !EndsInSpace(Trim(s, false))
    ensures |Trim(s, false)| <= |s|
  {
    assert forall i :: 0 <= i < |s| ==> (s + [c])[i] == s[i];
  }

  lemma NoWords()
    ensures Words("") == [] && Spaced([]) == ""
  {}

  lemma SpacedMore(words: seq<string>, word: string)
    ensures Spaced(words + [word]) == Spaced(words) + (if words != [] then " " else "") + word
  {
    assert (words + [word])[..|words|] == words;
  }

  lemma Associative(a: string, b: string, c: string)
    ensures a + b + c == a + (b + c)
  {}

  lemma LongerWord(words: seq<string>, c: char)
    requires words != []
    ensures Spaced(words[..|words| - 1] + [words[|words| - 1] + [c]]) == Spaced(words) + [c]
  {
    hide Spaced;
    var front, last := words[..|words| - 1], words[|words| - 1];
    assert words == front + [last];
    SpacedMore(front, last);
    SpacedMore(front, last + [c]);
    var before := Spaced(front) + (if front != [] then " " else "");
    Associative(before, last, [c]);
  }

  lemma ValuesStored(isCdata: bool)
    ensures forall flat :: Stores(Trim(AppendAll("", flat, isCdata), isCdata), flat, isCdata)
  {
    hide Stores, AppendAll, Trim;
    forall flat ensures Stores(Trim(AppendAll("", flat, isCdata), isCdata), flat, isCdata) {
      ValueStored(flat, isCdata);
    }
  }

  /** What the value keeps of the tokens. */
  lemma ValueStored(flat: seq<Token>, isCdata: bool)
    ensures Stores(Trim(AppendAll("", flat, isCdata), isCdata), flat, isCdata)
  {
    hide Words, AppendAll, Spaced, NoLooseSpace;
    assert "" + TextOf(flat) == TextOf(flat);
    if isCdata {
      CdataKept("", flat);
    } else {
      var s := AppendAll("", flat, false);
      WordsKept("", "", flat);
      TrimmedWords(s);
      if forall t | t in flat :: SolidText(t) {
        StoredNormalized(flat);
        NormalIsSpaced(Trim(s, false));
      }
    }
  }

  lemma TrimmedWords(s: string)
    ensures Words(Trim(s, false)) == Words(s)
  {
    if s != "" && s[|s| - 1] == ' ' {
      WordsMore(s[..|s| - 1], ' ');
    }
  }

  // ---------- One token at a time ----------

  /** What is left of each token that is not a reference to an entity, or which error it is. */
  lemma PlainTokens(dtd: Dtd, blocked: set<string>, chars: string, ch: char, number: int)
    ensures SettlesOne(dtd, blocked, DataChars(chars), Flat([DataChars(chars)]))
    ensures SettlesOne(dtd, blocked, PredefinedRef(ch), Flat([PredefinedRef(ch)]))
    ensures SettlesOne(dtd, blocked, ValueSpace, Flat([ValueSpace]))
    ensures SettlesOne(dtd, blocked, DataNewline, Flat([DataNewline]))
    ensures SettlesOne(dtd, blocked, TrailingCr, Flat([TrailingCr]))
    ensures SettlesOne(dtd, blocked, Invalid, Fault(InvalidToken))
    ensures SettlesOne(dtd, blocked, Partial, Fault(InvalidToken))
    ensures SettlesOne(dtd, blocked, OtherToken, Fault(UnexpectedState))
    ensures number < 0 || (number != 0x20 && chars == "") ==>
      SettlesOne(dtd, blocked, CharRef(number, chars), Fault(BadCharRef))
    ensures number == 0x20 || (number >= 0 && chars != "") ==>
      SettlesOne(dtd, blocked, CharRef(number, chars), Flat([CharRef(number, chars)]))
  {
    hide SettlesOne;
    LiteralSettles(dtd, blocked, DataChars(chars));
    LiteralSettles(dtd, blocked, PredefinedRef(ch));
    LiteralSettles(dtd, blocked, ValueSpace);
    LiteralSettles(dtd, blocked, DataNewline);
    LiteralSettles(dtd, blocked, TrailingCr);
    LiteralSettles(dtd, blocked, Invalid);
    LiteralSettles(dtd, blocked, Partial);
    LiteralSettles(dtd, blocked, OtherToken);
    LiteralSettles(dtd, blocked, CharRef(number, chars));
  }

  /** Declared, and if that is checked, not in an external part. */
  predicate Usable(dtd: Dtd, name: string) {
    name in dtd.entities && (dtd.entities[name].isInternal || !dtd.checkEntityDecl)
  }

  /** A reference to an entity: skipped, one of four errors, or replaced by the entity's text. */
  lemma ReferenceOutcomes(dtd: Dtd, blocked: set<string>, name: string, x: Expansion)
    ensures name !in dtd.entities && dtd.checkEntityDecl ==>
      SettlesOne(dtd, blocked, EntityRef(name), Fault(UndefinedEntity))
    ensures name !in dtd.entities && !dtd.checkEntityDecl ==> SettlesOne(dtd, blocked, EntityRef(name), Flat([]))
    ensures name in dtd.entities && !dtd.entities[name].isInternal && dtd.checkEntityDecl ==>
      SettlesOne(dtd, blocked, EntityRef(name), Fault(EntityDeclaredInPe))
    ensures Usable(dtd, name) && name in blocked ==> !SettlesOne(dtd, blocked, EntityRef(name), x)
    ensures Usable(dtd, name) && name !in blocked && dtd.entities[name].notation ==>
      SettlesOne(dtd, blocked, EntityRef(name), Fault(BinaryEntityRef))
    ensures Usable(dtd, name) && name !in blocked && !dtd.entities[name].notation ==>
      match dtd.entities[name].text
      case External => SettlesOne(dtd, blocked, EntityRef(name), Fault(AttributeExternalEntityRef))
      case Internal(text) => SettlesOne(dtd, blocked, EntityRef(name), x) <==> Settles(dtd, blocked, text, x)
  {
    hide SettlesOne, Settles;
    UnresolvedSettles(dtd, blocked, name);
    if Resolve(dtd, blocked, name).Replace? {
      ReferenceSettles(dtd, blocked, name, x);
      OpenMarkIrrelevant(dtd, blocked, name, x);
    }
  }

  /** Token strings are expanded one after the other. */
  lemma ExpandedInTurn(dtd: Dtd, blocked: set<string>, a: seq<Token>, x: seq<Token>, b: seq<Token>, y: Expansion)
    requires Settles(dtd, blocked, a, Flat(x)) && Settles(dtd, blocked, b, y)
    ensures Settles(dtd, blocked, a + b, if y.Flat? then Flat(x + y.tokens) else y)
  {
    hide Expand;
    var d: nat :| Expand(dtd, blocked, a, d) == Flat(x);
    var e: nat :| Expand(dtd, blocked, b, e) == y;
    var m := if d <= e then e else d;
    DeeperSame(dtd, blocked, a, d, m);
    DeeperSame(dtd, blocked, b, e, m);
    ExpandConcat(dtd, blocked, a, b, m);
  }

  /** Without references to entities the tokens are left as they are. */
  lemma NothingReplaced(dtd: Dtd, blocked: set<string>, toks: seq<Token>, flat: seq<Token>)
    requires Settles(dtd, blocked, toks, Flat(flat)) && forall t | t in toks :: !t.EntityRef?
    ensures flat == toks
  {
    var d: nat :| Expand(dtd, blocked, toks, d) == Flat(flat);
    NothingExpanded(dtd, blocked, toks, d);
  }

  lemma {:induction false} NothingExpanded(dtd: Dtd, blocked: set<string>, toks: seq<Token>, d: nat)
    requires forall t | t in toks :: !t.EntityRef?
    ensures Expand(dtd, blocked, toks, d).Flat? ==> Expand(dtd, blocked, toks, d).tokens == toks
    decreases |toks|
  {
    if toks != [] {
      NothingExpanded(dtd, blocked, toks[1..], d);
      assert toks == [toks[0]] + toks[1..];
    }
  }

  // ---------- The parser ----------

  class ValueBuilder {
    const entities: map<string, Entity>
    const checkEntityDecl: bool
    var pool: string

    ghost predicate Valid() {
      forall m, n :: m in entities && n in entities && m != n ==> entities[m] != entities[n]
    }

    ghost function Declared(): Dtd {
      Dtd(map n | n in entities :: Decl(entities[n].text, entities[n].notation, entities[n].isInternal),
        checkEntityDecl)
    }

    ghost function OpenNames(): set<string>
      reads entities.Values
    {
      set n | n in entities && entities[n].open
    }

    /** The check for a declaration is decided by where the value stands and by the DTD. */
    constructor (entities: map<string, Entity>, fromProlog: bool, standalone: bool, hasParamEntityRefs: bool,
                 insideInternalEntity: bool)
      ensures this.entities == entities && pool == ""
      ensures fromProlog && standalone ==> (checkEntityDecl <==> !insideInternalEntity)
      ensures fromProlog && !standalone ==> (checkEntityDecl <==> !hasParamEntityRefs)
      ensures !fromProlog ==> (checkEntityDecl <==> !hasParamEntityRefs || standalone)
    {
      this.entities, pool := entities, "";
      checkEntityDecl := CheckEntityDecl(fromProlog, standalone, hasParamEntityRefs, insideInternalEntity);
    }

    /** The outcome of expanding toks with `blocked` open, starting from the string `before`. */
    ghost predicate Outcome(error: Error, toks: seq<Token>, isCdata: bool, blocked: set<string>, before: string)
      reads this
    {
      if error == NoError then
        exists flat :: Settles(Declared(), blocked, toks, Flat(flat)) && pool == AppendAll(before, flat, isCdata)
      else if error == RecursiveEntityRef then
        forall x :: !Settles(Declared(), blocked, toks, x)
      else
        Settles(Declared(), blocked, toks, Fault(error))
    }

    /** RECURSIVE_ENTITY_REF says that references run in a circle, and success that none do. */
    ghost predicate CycleReported(error: Error, toks: seq<Token>) {
      && (error == RecursiveEntityRef ==> exists p :: Chain(Declared(), toks, p) && Cyclic(p))
      && (error == NoError ==> forall p :: Chain(Declared(), toks, p) ==> !Cyclic(p))
    }

    lemma CyclesReported(error: Error, toks: seq<Token>, isCdata: bool, before: string)
      requires Outcome(error, toks, isCdata, {}, before)
      ensures CycleReported(error, toks)
    {
      if error == RecursiveEntityRef {
        var p := NeverSettlingIsCyclic(Declared(), toks);
      } else if error == NoError {
        var flat :| Settles(Declared(), {}, toks, Flat(flat));
        var d: nat :| Expand(Declared(), {}, toks, d) == Flat(flat);
        forall p | Chain(Declared(), toks, p) ensures !Cyclic(p) {
          if Cyclic(p) {
            CyclesDoNotExpand(Declared(), toks, p, d);
          }
        }
      }
    }

    twostate lemma OneMoreOpen(name: string)
      requires Valid() && name in entities && entities[name].open
      requires forall n :: n in entities && n != name ==> entities[n].open == old(entities[n].open)
      ensures OpenNames() == old(OpenNames()) + {name}
    {}

    lemma IsOpen(name: string)
      requires name in entities
      ensures entities[name].open <==> name in OpenNames()
    {}

    twostate lemma SameOpen()
      requires forall n :: n in entities ==> entities[n].open == old(entities[n].open)
      ensures OpenNames() == old(OpenNames())
    {}

    method AppendAttributeValue(toks: seq<Token>, isCdata: bool) returns (error: Error)
      requires Valid()
      modifies this`pool, entities.Values`open
      ensures forall n :: n in entities ==> entities[n].open == old(entities[n].open)
      ensures Outcome(error, toks, isCdata, old(OpenNames()), old(pool))
      decreases |entities.Keys - OpenNames()|, 3
    {
      hide Settles, SettlesOne, AppendAll, OpenNames;
      ghost var blocked, before, flat := OpenNames(), pool, [];
      NothingSettled(Declared(), blocked, before, isCdata);
      var i := 0;
      assert toks[..0] == [];
      while i < |toks|
        invariant i <= |toks|
        invariant forall n :: n in entities ==> entities[n].open == old(entities[n].open)
        invariant Settles(Declared(), blocked, toks[..i], Flat(flat))
        invariant pool == AppendAll(before, flat, isCdata)
      {
        SameOpen();
        ghost var more: seq<Token>;
        error, more := AppendToken(toks[i], isCdata);
        if error != NoError {
          if error == RecursiveEntityRef {
            TokenNeverSettles(Declared(), blocked, toks, i, flat);
          } else {
            TokenSettles(Declared(), blocked, toks, i, flat, Fault(error));
          }
          return;
        }
        TokenSettles(Declared(), blocked, toks, i, flat, Flat(more));
        AppendConcat(before, flat, more, isCdata);
        flat := flat + more;
        i := i + 1;
      }
      assert toks[..i] == toks;
      error := NoError;
    }

    /** storeAttributeValue, on an empty string: the finished value ends in a NUL. */
    method StoreAttributeValue(toks: seq<Token>, isCdata: bool) returns (error: Error)
      requires Valid() && pool == ""
      modifies this`pool, entities.Values`open
      ensures forall n :: n in entities ==> entities[n].open == old(entities[n].open)
      ensures error == NoError ==> exists flat ::
        && Settles(Declared(), old(OpenNames()), toks, Flat(flat))
        && pool == Trim(AppendAll("", flat, isCdata), isCdata) + ['\0']
        && Stores(pool[..|pool| - 1], flat, isCdata)
      ensures error != NoError ==> Outcome(error, toks, isCdata, old(OpenNames()), "")
      ensures old(OpenNames()) == {} ==> CycleReported(error, toks)
    {
      hide Settles, AppendAll, Stores;
      ValuesStored(isCdata);
      error := AppendAttributeValue(toks, isCdata);
      if old(OpenNames()) == {} {
        CyclesReported(error, toks, isCdata, "");
      }
      if error != NoError {
        return;
      }
      if !isCdata && |pool| > 0 && pool[|pool| - 1] == ' ' {
        pool := pool[..|pool| - 1];
      }
      pool := pool + ['\0'];
    }

    /** One token: the switch inside the loop of appendAttributeValue. */
    method AppendToken(t: Token, isCdata: bool) returns (error: Error, ghost more: seq<Token>)
      requires Valid()
      modifies this`pool, entities.Values`open
      ensures forall n :: n in entities ==> entities[n].open == old(entities[n].open)
      ensures error == NoError ==>
        SettlesOne(Declared(), old(OpenNames()), t, Flat(more)) && pool == AppendAll(old(pool), more, isCdata)
      ensures error == RecursiveEntityRef ==> forall y :: !SettlesOne(Declared(), old(OpenNames()), t, y)
      ensures error != NoError && error != RecursiveEntityRef ==>
        SettlesOne(Declared(), old(OpenNames()), t, Fault(error))
      decreases |entities.Keys - OpenNames()|, 2
    {
      hide Settles, SettlesOne, AppendAll;
      more := [t];
      AppendSingle(pool, t, isCdata);
      if !t.EntityRef? {
        LiteralSettles(Declared(), OpenNames(), t);
      }
      error := NoError;
      match t
      case Invalid => error := InvalidToken;
      case Partial => error := InvalidToken;
      case CharRef(number, encoded) =>
        if number < 0 {
          error := BadCharRef;
        } else if !isCdata && number == 0x20 && (pool == "" || pool[|pool| - 1] == ' ') {
        } else if number != 0x20 && encoded == "" {
          error := BadCharRef;
        } else {
          pool := pool + if number == 0x20 then " " else encoded;
        }
      case DataChars(chars) => pool := pool + chars;
      case TrailingCr => AppendCollapsed(isCdata);
      case ValueSpace => AppendCollapsed(isCdata);
      case DataNewline => AppendCollapsed(isCdata);
      case PredefinedRef(ch) => pool := pool + [ch];
      case EntityRef(name) => error, more := AppendReference(name, isCdata);
      case OtherToken => error := UnexpectedState;
    }

    method AppendCollapsed(isCdata: bool)
      modifies this`pool
      ensures pool == AppendSpace(old(pool), isCdata)
    {
      if !isCdata && (pool == "" || pool[|pool| - 1] == ' ') {
        return;
      }
      pool := pool + " ";
    }

    /** A reference to an entity that is not predefined. */
    method AppendReference(name: string, isCdata: bool) returns (error: Error, ghost more: seq<Token>)
      requires Valid()
      modifies this`pool, entities.Values`open
      ensures forall n :: n in entities ==> entities[n].open == old(entities[n].open)
      ensures error == NoError ==>
        SettlesOne(Declared(), old(OpenNames()), EntityRef(name), Flat(more)) &&
          pool == AppendAll(old(pool), more, isCdata)
      ensures error == RecursiveEntityRef ==> forall y :: !SettlesOne(Declared(), old(OpenNames()), EntityRef(name), y)
      ensures error != NoError && error != RecursiveEntityRef ==>
        SettlesOne(Declared(), old(OpenNames()), EntityRef(name), Fault(error))
      decreases |entities.Keys - OpenNames()|, 1
    {
      hide Settles, SettlesOne, AppendAll;
      UnresolvedSettles(Declared(), OpenNames(), name);
      AppendNothing(pool, isCdata);
      more := [];
      if name !in entities {
        return if checkEntityDecl then UndefinedEntity else NoError, more;
      }
      var e := entities[name];
      if checkEntityDecl && !e.isInternal {
        return EntityDeclaredInPe, more;
      }
      if e.open {
        return RecursiveEntityRef, more;
      }
      if e.notation {
        return BinaryEntityRef, more;
      }
      if e.text.External? {
        return AttributeExternalEntityRef, more;
      }
      error, more := ExpandEntity(name, isCdata);
    }

    /** The text of an internal entity, while the entity is marked open. */
    method ExpandEntity(name: string, isCdata: bool) returns (error: Error, ghost more: seq<Token>)
      requires Valid() && name in entities && entities[name].text.Internal?
      requires Resolve(Declared(), OpenNames(), name) == Replace(entities[name].text.tokens)
      modifies this`pool, entities.Values`open
      ensures forall n :: n in entities ==> entities[n].open == old(entities[n].open)
      ensures error == NoError ==>
        SettlesOne(Declared(), old(OpenNames()), EntityRef(name), Flat(more)) &&
          pool == AppendAll(old(pool), more, isCdata)
      ensures error == RecursiveEntityRef ==> forall y :: !SettlesOne(Declared(), old(OpenNames()), EntityRef(name), y)
      ensures error != NoError && error != RecursiveEntityRef ==>
        SettlesOne(Declared(), old(OpenNames()), EntityRef(name), Fault(error))
      decreases |entities.Keys - OpenNames()|, 0
    {
      hide Settles, SettlesOne, AppendAll, OpenNames;
      ghost var blocked, before, dtd := OpenNames(), pool, Declared();
      IsOpen(name);
      var e := entities[name];
      ghost var text := e.text.tokens;
      e.open := true;
      OneMoreOpen(name);
      FewerClosed(entities.Keys, blocked, OpenNames(), name);
      error := AppendAttributeValue(e.text.tokens, isCdata);
      e.open := false;
      more := [];
      if error == NoError {
        more :| Settles(dtd, blocked + {name}, text, Flat(more)) && pool == AppendAll(before, more, isCdata);
        ReferenceSettles(dtd, blocked, name, Flat(more));
      } else if error == RecursiveEntityRef {
        ReferenceNeverSettles(dtd, blocked, name);
      } else {
        ReferenceSettles(dtd, blocked, name, Fault(error));
      }
    }
  }

  lemma FewerClosed(names: set<string>, blocked: set<string>, blocked': set<string>, name: string)
    requires name in names && name !in blocked && blocked' == blocked + {name}
    ensures |names - blocked'| < |names - blocked|
  {
    assert names - blocked == (names - blocked') + {name};
  }

  lemma NothingSettled(dtd: Dtd, blocked: set<string>, pool: string, isCdata: bool)
    ensures Settles(dtd, blocked, [], Flat([])) && AppendAll(pool, [], isCdata) == pool
  {
    assert Expand(dtd, blocked, [], 0) == Flat([]);
  }

  lemma AppendNothing(pool: string, isCdata: bool)
    ensures AppendAll(pool, [], isCdata) == pool
  {}
}
