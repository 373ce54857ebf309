/** The fields of the DTD and the parser that build content models, updated in place: the
    groupConnector, scaffIndex and scaffold arrays and the group roles of doProlog. Each role has
    the effect of ContentModel.Act, and a finished model is handed out as a block that holds it
    exactly. */
module ScaffoldDtd {
  import opened XmlRole
  import opened ContentModel
  import opened Scaffold

  const INIT_SCAFFOLD_ELEMENTS: nat := 32
  const INIT_GROUP_SIZE: nat := 32

  // ---------- Sizes ----------

  /** Scaffold cells taken by the open groups. */
  ghost function CellCount(groups: seq<Group>): nat {
    if groups == [] then 0
    else var g := groups[|groups| - 1]; CellCount(groups[..|groups| - 1]) + 1 + |g.members| + BelowAll(g.members)
  }

  /** Characters taken by their names. */
  ghost function NameChars(groups: seq<Group>): nat {
    if groups == [] then 0
    else NameChars(groups[..|groups| - 1]) + CharsAll(groups[|groups| - 1].members)
  }

  lemma CountsOnOpen(groups: seq<Group>, connector: Connector)
    ensures CellCount(groups + [Group(SEQ, connector, [])]) == CellCount(groups) + 1
    ensures NameChars(groups + [Group(SEQ, connector, [])]) == NameChars(groups)
  {
    assert (groups + [Group(SEQ, connector, [])])[..|groups|] == groups;
  }

  lemma CountsOnMember(groups: seq<Group>, c: Content)
    requires groups != []
    ensures CellCount(AddMember(groups, c)) == CellCount(groups) + 1 + Below(c)
    ensures NameChars(AddMember(groups, c)) == NameChars(groups) + Chars(c)
  {
    var n := |groups| - 1;
    assert AddMember(groups, c)[..n] == groups[..n];
    assert (groups[n].members + [c])[..|groups[n].members|] == groups[n].members;
    hide Below, Chars;
  }

  lemma CountsOnClose(groups: seq<Group>, q: Quant)
    requires groups != [] && groups[|groups| - 1].ctype != NAME
    ensures var g := groups[|groups| - 1];
      var c := Content(g.ctype, q, "", g.members);
      && CellCount(groups) == CellCount(groups[..|groups| - 1]) + 1 + Below(c)
      && NameChars(groups) == NameChars(groups[..|groups| - 1]) + Chars(c)
  {}

  lemma CountsOnChange(groups: seq<Group>, g: Group)
    requires groups != [] && g.members == groups[|groups| - 1].members
    ensures CellCount(groups[|groups| - 1 := g]) == CellCount(groups)
    ensures NameChars(groups[|groups| - 1 := g]) == NameChars(groups)
  {
    var n := |groups| - 1;
    assert groups[n := g][..n] == groups[..n];
    hide BelowAll, CharsAll;
  }

  lemma NoGroups()
    ensures CellCount([]) == 0 && NameChars([]) == 0
  {}

  lemma NothingOpen(cells: seq<Cell>, kids: seq<seq<nat>>, parent: seq<nat>, pos: seq<nat>, open: seq<nat>,
                    groups: seq<Group>)
    requires Shape(cells, kids, parent, pos, open, groups)
    ensures groups == [] ==> |cells| == CellCount(groups)
  {}

  // ---------- What the handler is given ----------

  /** EMPTY and ANY come as a lone cell, everything else as a block without a cell or a
      character to spare. */
  ghost predicate Reported(model: seq<XCell>, chars: seq<char>, c: Content) {
    if c.ctype == EMPTY || c.ctype == ANY then
      c == Content(c.ctype, None, "", []) && model == [XCell(c.ctype, None, -1, 0, -1)] && chars == []
    else
      |model| == 1 + Below(c) && |chars| == Chars(c) && LaidOut(model, chars, c, 0, 1, 0)
  }

  /** A block as the handler was given it. */
  datatype Block = Block(cells: seq<XCell>, chars: seq<char>)

  /** Every call of the handler was given a block that holds the declared model exactly. */
  ghost predicate AllReported(blocks: seq<Block>, ds: seq<Declaration>) {
    |blocks| == |ds| && forall i :: 0 <= i < |ds| ==> Reported(blocks[i].cells, blocks[i].chars, ds[i].model)
  }

  lemma HandedMore(blocks: seq<Block>, ds: seq<Declaration>, block: Block, d: Declaration)
    requires AllReported(blocks, ds) && Reported(block.cells, block.chars, d.model)
    ensures AllReported(blocks + [block], ds + [d])
  {
    hide Reported;
  }

  /** When each role comes: the level has already been adjusted by the role handler. */
  ghost predicate Fits(b: Builder, role: Role, level: int) {
    match role
    case RoleNone => true
    case ElementNone => true
    case RoleError => true
    case ElementName => b.groups == []
    case ContentAny => b.inEldecl && b.groups == []
    case ContentEmpty => b.inEldecl && b.groups == []
    case GroupOpen => b.inEldecl && level == |b.groups| + 1
    case _ => b.inEldecl && b.groups != [] && (role == GroupSequence || role == GroupChoice ==> level == |b.groups|)
  }

  method Resize<T>(a: array<T>, size: nat, fill: T) returns (b: array<T>)
    requires a.Length <= size
    ensures fresh(b) && b.Length == size && b[..a.Length] == a[..]
  {
    b := new T[size](i requires 0 <= i reads a => if i < a.Length then a[i] else fill);
    assert forall i :: 0 <= i < a.Length ==> b[i] == a[i];
  }

  lemma AppendedIs(cells: seq<Cell>, p: int, cells': seq<Cell>)
    requires p < |cells| && |cells'| == |cells| + 1
    requires forall j :: 0 <= j < |cells| ==> cells'[j] == Relinked(cells, p, j)
    requires var c := cells'[|cells|]; c.firstchild == 0 && c.lastchild == 0 && c.childcnt == 0 && c.nextsib == 0
    ensures Appended(cells, p, cells')
  {}

  /** Labelling the new cell leaves the links alone. */
  lemma RelabelKeepsAppended(cells: seq<Cell>, p: int, cells1: seq<Cell>, cells2: seq<Cell>)
    requires p < |cells| && Appended(cells, p, cells1) && |cells2| == |cells1|
    requires cells2[..|cells|] == cells1[..|cells|]
    requires var c, d := cells1[|cells|], cells2[|cells|]; d == c.(ctype := d.ctype, quant := d.quant, name := d.name)
    ensures Appended(cells, p, cells2)
  {
    assert forall j :: 0 <= j < |cells| ==> cells2[j] == cells2[..|cells|][j] == cells1[j];
  }

  lemma NameSizes(name: string, q: Quant)
    ensures Below(Content(NAME, q, name, [])) == 0 && Chars(Content(NAME, q, name, [])) == |name| + 1
  {}

  lemma GroupIsNoName(ctype: ContentType)
    requires IsGroupType(ctype)
    ensures ctype != NAME
  {}

  lemma NothingShaped(cells: seq<Cell>, open: seq<nat>)
    requires cells == [] && open == []
    ensures Shape(cells, [], [], [], open, [])
  {}

  /** The type of the innermost open group is in its cell. */
  lemma TopType(cells: seq<Cell>, kids: seq<seq<nat>>, parent: seq<nat>, pos: seq<nat>, open: seq<nat>,
                groups: seq<Group>)
    requires Shape(cells, kids, parent, pos, open, groups) && open != []
    ensures |groups| == |open| && open[|open| - 1] < |cells|
    ensures cells[open[|open| - 1]].ctype == groups[|open| - 1].ctype && IsGroupType(groups[|open| - 1].ctype)
    ensures |open| == 1 ==> open[0] == 0
  {
    assert GroupAt(cells, kids, open, groups, |open| - 1);
  }

  /** The shape does not depend on connectors. */
  lemma ConnectorOnly(cells: seq<Cell>, kids: seq<seq<nat>>, parent: seq<nat>, pos: seq<nat>, open: seq<nat>,
                      groups: seq<Group>, g: Group)
    requires Shape(cells, kids, parent, pos, open, groups) && open != []
    requires g.ctype == groups[|groups| - 1].ctype && g.members == groups[|groups| - 1].members
    ensures Shape(cells, kids, parent, pos, open, groups[|groups| - 1 := g])
  {
    hide Linked, Ordered;
    var groups' := groups[|groups| - 1 := g];
    forall k | 0 <= k < |open| ensures GroupAt(cells, kids, open, groups', k) {
      assert GroupAt(cells, kids, open, groups, k);
    }
  }

  /** The innermost group once `|` has been read in it. */
  ghost function Choosing(g: Group): Group {
    g.(ctype := if g.connector == NoConnector && g.ctype != MIXED then CHOICE else g.ctype, connector := BarConnector)
  }

  /** The builder once its innermost group is closed. */
  ghost function Leaving(b: Builder, q: Quant): Builder
    requires b.groups != []
  {
    var n := |b.groups| - 1;
    var c := Content(b.groups[n].ctype, q, "", b.groups[n].members);
    if n == 0 then Report(b.(groups := []), c) else b.(groups := AddMember(b.groups[..n], c))
  }

  /** Make cell `next` the last child of cell i. */
  method LinkToParent(scaffold: array<Cell>, i: nat, next: nat)
    requires i < next < scaffold.Length
    requires scaffold[i].lastchild != 0 ==> i < scaffold[i].lastchild < next
    modifies scaffold
    ensures forall j :: 0 <= j < next ==> scaffold[j] == Relinked(old(scaffold[..next]), i, j)
  {
    var above := scaffold[i];
    if above.lastchild != 0 {
      scaffold[above.lastchild] := scaffold[above.lastchild].(nextsib := next);
    }
    scaffold[i] := above.(firstchild := if above.childcnt == 0 then next else above.firstchild,
                          lastchild := next, childcnt := above.childcnt + 1);
  }

  /** The last child of a cell lies after it. */
  lemma LinkedAt(cells: seq<Cell>, kids: seq<seq<nat>>, parent: seq<nat>, pos: seq<nat>, p: int)
    requires Linked(cells, kids, parent, pos) && p < |cells|
    ensures p >= 0 && cells[p].lastchild != 0 ==> p < cells[p].lastchild < |cells|
  {
    if p >= 0 {
      assert HasKids(cells[p], kids[p]);
      if kids[p] != [] {
        assert LinkAt(cells, kids, parent, pos, p, |kids[p]| - 1);
      }
    }
  }

  lemma InnermostLast(cells: seq<Cell>, kids: seq<seq<nat>>, parent: seq<nat>, pos: seq<nat>, open: seq<nat>,
                      groups: seq<Group>)
    requires Shape(cells, kids, parent, pos, open, groups) && Innermost(open) < |cells|
    ensures var p := Innermost(open); p >= 0 && cells[p].lastchild != 0 ==> p < cells[p].lastchild < |cells|
  {
    LinkedAt(cells, kids, parent, pos, Innermost(open));
  }

  class Dtd {
    var groupConnector: array<Connector>
    var scaffIndex: array<nat>
    var scaffold: array<Cell>
    var scaffCount: nat
    var scaffLevel: nat
    var contentStringLen: nat
    var inEldecl: bool
    var element: string
    /** The blocks that the element declaration handler was given. */
    var handed: seq<Block>

    ghost var groups: seq<Group>
    ghost var reports: seq<Declaration>
    ghost var kids: seq<seq<nat>>
    ghost var parent: seq<nat>
    ghost var pos: seq<nat>

    ghost function Cells(): seq<Cell>
      requires scaffCount <= scaffold.Length
      reads this`scaffCount, this`scaffold, scaffold
    {
      scaffold[..scaffCount]
    }

    ghost function Open(): seq<nat>
      requires scaffLevel <= scaffIndex.Length
      reads this`scaffLevel, this`scaffIndex, scaffIndex
    {
      scaffIndex[..scaffLevel]
    }

    ghost function Value(): Builder
      reads this`element, this`inEldecl, this`groups, this`reports
    {
      Builder(element, inEldecl, groups, reports)
    }

    ghost predicate Sized()
      reads this`scaffCount, this`scaffold, this`scaffLevel, this`scaffIndex, this`groupConnector, this`groups
    {
      && scaffCount <= scaffold.Length && scaffLevel <= scaffIndex.Length
      && (scaffLevel > 0 ==> scaffLevel < groupConnector.Length)
      && (scaffIndex.Length == 0 || scaffIndex.Length == groupConnector.Length)
      && |groups| == scaffLevel
    }

    ghost predicate Connected()
      requires |groups| == scaffLevel && (scaffLevel > 0 ==> scaffLevel < groupConnector.Length)
      reads this`groups, this`scaffLevel, this`groupConnector, groupConnector
    {
      forall k :: 0 <= k < scaffLevel ==> groupConnector[k + 1] == groups[k].connector
    }

    ghost predicate Counted()
      reads this`contentStringLen, this`groups, this`scaffCount
    {
      contentStringLen == NameChars(groups) && (groups != [] ==> scaffCount == CellCount(groups))
    }

    ghost predicate Shaped()
      requires scaffCount <= scaffold.Length && scaffLevel <= scaffIndex.Length
      reads this`scaffCount, this`scaffold, this`scaffLevel, this`scaffIndex, this`inEldecl, this`kids, this`parent,
        this`pos, this`groups
      reads scaffold, scaffIndex
    {
      if inEldecl then Shape(Cells(), kids, parent, pos, Open(), groups) else groups == []
    }

    ghost predicate Told()
      reads this`reports, this`handed
    {
      AllReported(handed, reports)
    }

    ghost predicate Valid()
      reads this, groupConnector, scaffIndex, scaffold
    {
      Sized() && Connected() && Counted() && Shaped() && Told()
    }

    constructor ()
      ensures Valid() && Value() == Builder("", false, [], [])
      ensures fresh(groupConnector) && fresh(scaffIndex) && fresh(scaffold)
    {
      groupConnector, scaffIndex, scaffold := new Connector[0], new nat[0], new Cell[0];
      scaffCount, scaffLevel, contentStringLen := 0, 0, 0;
      inEldecl, element := false, "";
      groups, reports, handed := [], [], [];
      NoGroups();
    }

    /** The part of nextScaffoldPart that makes room for one more cell. */
    method ReserveCell()
      requires Sized() && scaffLevel < groupConnector.Length
      modifies this`scaffIndex, this`scaffold
      ensures Sized() && scaffCount < scaffold.Length && scaffIndex.Length == groupConnector.Length
      ensures Cells() == old(Cells()) && Open() == old(Open())
      ensures (scaffold == old(scaffold) || fresh(scaffold)) && (scaffIndex == old(scaffIndex) || fresh(scaffIndex))
    {
      if scaffIndex.Length == 0 {
        scaffIndex := new nat[groupConnector.Length];
        scaffIndex[0] := 0;
      }
      if scaffCount >= scaffold.Length {
        var filler := Cell(SEQ, None, "", 0, 0, 0, 0);
        var before := scaffold;
        var size := if scaffold.Length > 0 then 2 * scaffold.Length else INIT_SCAFFOLD_ELEMENTS;
        scaffold := Resize(scaffold, size, filler);
        assert scaffold[..scaffCount] == before[..scaffCount];
      }
    }

    /** nextScaffoldPart: a new last child of the innermost open group. */
    method NextScaffoldPart() returns (next: nat)
      requires Sized() && scaffLevel < groupConnector.Length
      requires Shape(Cells(), kids, parent, pos, Open(), groups)
      modifies this`scaffIndex, this`scaffold, this`scaffCount, scaffold
      ensures Sized() && next == old(scaffCount) && scaffCount == next + 1 && scaffIndex.Length == groupConnector.Length
      ensures Innermost(old(Open())) < |old(Cells())|
      ensures Appended(old(Cells()), Innermost(old(Open())), Cells()) && Open() == old(Open())
      ensures (scaffold == old(scaffold) || fresh(scaffold)) && (scaffIndex == old(scaffIndex) || fresh(scaffIndex))
    {
      hide Shape, Appended;
      ghost var cells := Cells();
      ghost var p := Innermost(Open());
      InnermostFacts(cells, kids, parent, pos, Open(), groups);
      InnermostLast(cells, kids, parent, pos, Open(), groups);
      ReserveCell();
      next := scaffCount;
      scaffCount := scaffCount + 1;
      if scaffLevel > 0 {
        assert scaffIndex[scaffLevel - 1] == p;
        LinkToParent(scaffold, scaffIndex[scaffLevel - 1], next);
      }
      scaffold[next] := scaffold[next].(firstchild := 0, lastchild := 0, childcnt := 0, nextsib := 0);
      AppendedIs(cells, p, Cells());
    }

    /** Clear the connector of one more level; if the arrays are too short, double them or make
        the first ones. */
    method ClearConnector(level: nat)
      requires Sized() && Connected() && level == scaffLevel + 1
      modifies this`groupConnector, this`scaffIndex, groupConnector
      ensures Sized() && Connected() && level < groupConnector.Length && groupConnector[level] == NoConnector
      ensures Open() == old(Open())
      ensures (groupConnector == old(groupConnector) || fresh(groupConnector)) &&
        (scaffIndex == old(scaffIndex) || fresh(scaffIndex))
    {
      if level >= groupConnector.Length {
        if groupConnector.Length > 0 {
          var size := 2 * groupConnector.Length;
          var connectors := Resize(groupConnector, size, NoConnector);
          assert forall k :: 0 <= k < groupConnector.Length ==> connectors[k] == groupConnector[k] by {
            assert forall k :: 0 <= k < groupConnector.Length ==>
              connectors[k] == connectors[..groupConnector.Length][k];
          }
          groupConnector := connectors;
          if scaffIndex.Length > 0 {
            ghost var n, open := scaffIndex.Length, Open();
            scaffIndex := Resize(scaffIndex, size, 0);
            assert Open() == scaffIndex[..n][..scaffLevel];
          }
        } else {
          groupConnector := new Connector[INIT_GROUP_SIZE];
        }
      }
      groupConnector[level] := NoConnector;
    }

    /** A new cell for a group, on top of the open ones. */
    method PushCell()
      requires Sized() && Shape(Cells(), kids, parent, pos, Open(), groups) && scaffLevel + 1 < groupConnector.Length
      modifies this`scaffIndex, this`scaffold, this`scaffCount, this`scaffLevel, scaffold, scaffIndex
      ensures scaffCount == old(scaffCount) + 1 <= scaffold.Length && scaffLevel == old(scaffLevel) + 1
      ensures scaffIndex.Length == groupConnector.Length
      ensures var p := Innermost(old(Open())); p < |old(Cells())| && Appended(old(Cells()), p, Cells())
      ensures Open() == old(Open()) + [old(scaffCount)] && Cells()[old(scaffCount)].ctype == SEQ
      ensures (scaffold == old(scaffold) || fresh(scaffold)) && (scaffIndex == old(scaffIndex) || fresh(scaffIndex))
    {
      hide Shape, Appended, Innermost;
      ghost var cells, open := Cells(), Open();
      var myindex := NextScaffoldPart();
      ghost var cells1 := Cells();
      scaffIndex[scaffLevel] := myindex;
      scaffLevel := scaffLevel + 1;
      scaffold[myindex] := scaffold[myindex].(ctype := SEQ);
      assert Cells() == cells1[myindex := cells1[myindex].(ctype := SEQ)];
      assert Open() == open + [myindex];
      RelabelKeepsAppended(cells, Innermost(open), cells1, Cells());
    }

    /** A new part for a group: it becomes the innermost open cell. */
    method PushGroupPart()
      requires Sized() && Shape(Cells(), kids, parent, pos, Open(), groups) && scaffLevel + 1 < groupConnector.Length
      modifies this`scaffIndex, this`scaffold, this`scaffCount, this`scaffLevel, this`kids, this`parent, this`pos,
        this`groups, scaffold, scaffIndex
      ensures Sized() && scaffCount == old(scaffCount) + 1 && scaffLevel == old(scaffLevel) + 1
      ensures groups == old(groups) + [Group(SEQ, NoConnector, [])]
      ensures Shape(Cells(), kids, parent, pos, Open(), groups)
      ensures (scaffold == old(scaffold) || fresh(scaffold)) && (scaffIndex == old(scaffIndex) || fresh(scaffIndex))
    {
      hide Shape, Appended, KidsAfter, ParentAfter, PosAfter, Innermost;
      ghost var cells, open := Cells(), Open();
      InnermostFacts(cells, kids, parent, pos, open, groups);
      PushCell();
      ShapeOpens(cells, kids, parent, pos, open, groups, Cells(), NoConnector);
      kids, parent, pos := KidsAfter(kids, Innermost(open)), ParentAfter(parent, Innermost(open)),
        PosAfter(kids, pos, Innermost(open));
      groups := groups + [Group(SEQ, NoConnector, [])];
    }

    /** The role GROUP_OPEN. */
    method OpenGroup(level: nat)
      requires Valid() && Fits(Value(), GroupOpen, level)
      modifies this`groupConnector, this`scaffIndex, this`scaffold, this`scaffCount, this`scaffLevel,
               this`kids, this`parent, this`pos, this`groups, groupConnector, scaffIndex, scaffold
      ensures Valid()
      ensures Value() == old(Value()).(groups := old(groups) + [Group(SEQ, NoConnector, [])])
      ensures groupConnector == old(groupConnector) || fresh(groupConnector)
      ensures (scaffold == old(scaffold) || fresh(scaffold)) && (scaffIndex == old(scaffIndex) || fresh(scaffIndex))
    {
      hide Shape, CellCount, NameChars, Told, LaidOut, Below, Chars;
      ghost var gs := groups;
      NothingOpen(Cells(), kids, parent, pos, Open(), groups);
      ClearConnector(level);
      PushGroupPart();
      CountsOnOpen(gs, NoConnector);
    }

    /** A new part for a name with its quantifier. */
    method AddNamePart(name: string, q: Quant)
      requires Sized() && scaffLevel > 0 && Shape(Cells(), kids, parent, pos, Open(), groups)
      modifies this`scaffIndex, this`scaffold, this`scaffCount, this`kids, this`parent, this`pos, this`groups, scaffold
      ensures Sized() && scaffCount == old(scaffCount) + 1
      ensures groups == AddMember(old(groups), Content(NAME, q, name, []))
      ensures Shape(Cells(), kids, parent, pos, Open(), groups)
      ensures (scaffold == old(scaffold) || fresh(scaffold)) && (scaffIndex == old(scaffIndex) || fresh(scaffIndex))
    {
      hide Shape, Appended, KidsAfter, ParentAfter, PosAfter, Innermost, AddMember;
      ghost var cells, open := Cells(), Open();
      ghost var p := Innermost(open);
      InnermostFacts(cells, kids, parent, pos, open, groups);
      var myindex := NextScaffoldPart();
      ghost var cells1 := Cells();
      scaffold[myindex] := scaffold[myindex].(ctype := NAME, quant := q, name := name);
      assert Cells() == cells1[myindex := cells1[myindex].(ctype := NAME, quant := q, name := name)];
      RelabelKeepsAppended(cells, p, cells1, Cells());
      ShapeGainsName(cells, kids, parent, pos, open, groups, Cells(), q, name);
      kids, parent, pos := KidsAfter(kids, p), ParentAfter(parent, p), PosAfter(kids, pos, p);
      groups := AddMember(groups, Content(NAME, q, name, []));
    }

    /** The roles CONTENT_ELEMENT. */
    method AddName(name: string, q: Quant)
      requires Valid() && inEldecl && groups != []
      modifies this`scaffIndex, this`scaffold, this`scaffCount, this`contentStringLen,
               this`kids, this`parent, this`pos, this`groups, scaffold
      ensures Valid()
      ensures Value() == old(Value()).(groups := AddMember(old(groups), Content(NAME, q, name, [])))
      ensures (scaffold == old(scaffold) || fresh(scaffold)) && (scaffIndex == old(scaffIndex) || fresh(scaffIndex))
    {
      hide Shape, CellCount, NameChars, Told;
      ghost var gs, c := groups, Content(NAME, q, name, []);
      AddNamePart(name, q);
      contentStringLen := contentStringLen + |name| + 1;
      NameSizes(name, q);
      CountsOnMember(gs, c);
    }

    /** Set the type of the innermost open group. */
    method SetType(ctype: ContentType, ghost g: Group)
      requires Sized() && scaffLevel > 0 && Shape(Cells(), kids, parent, pos, Open(), groups)
      requires g.ctype == ctype && IsGroupType(ctype) && g.members == groups[scaffLevel - 1].members
      modifies this`groups, scaffold
      ensures Sized() && groups == old(groups)[scaffLevel - 1 := g]
      ensures Shape(Cells(), kids, parent, pos, Open(), groups)
    {
      hide Shape;
      ghost var cells := Cells();
      InnermostFacts(cells, kids, parent, pos, Open(), groups);
      var i := scaffIndex[scaffLevel - 1];
      assert i == Innermost(Open());
      scaffold[i] := scaffold[i].(ctype := ctype);
      assert Cells() == cells[i := cells[i].(ctype := ctype)];
      ShapeRetyped(cells, kids, parent, pos, Open(), groups, Cells(), g);
      groups := groups[scaffLevel - 1 := g];
    }

    /** The type of the innermost open group: the role CONTENT_PCDATA, and part of GROUP_CHOICE. */
    method MarkType(ctype: ContentType)
      requires Valid() && inEldecl && groups != [] && IsGroupType(ctype)
      modifies this`groups, scaffold
      ensures Valid()
      ensures Value() == SetTop(old(Value()), old(groups)[|old(groups)| - 1].(ctype := ctype))
    {
      hide Shape, CellCount, NameChars, Told;
      CountsOnChange(groups, groups[|groups| - 1].(ctype := ctype));
      SetType(ctype, groups[|groups| - 1].(ctype := ctype));
    }

    method SetConnector(level: nat, connector: Connector)
      requires Valid() && inEldecl && groups != [] && level == |groups|
      modifies this`groups, groupConnector
      ensures Valid() && Value() == SetTop(old(Value()), old(groups)[level - 1].(connector := connector))
    {
      hide CellCount, NameChars, Told, Linked, Ordered;
      groupConnector[level] := connector;
      ghost var g := groups[level - 1].(connector := connector);
      CountsOnChange(groups, g);
      ConnectorOnly(Cells(), kids, parent, pos, Open(), groups, g);
      groups := groups[level - 1 := g];
    }

    /** The role GROUP_SEQUENCE. */
    method MarkSequence(level: nat) returns (ok: bool)
      requires Valid() && inEldecl && groups != [] && level == |groups|
      modifies this`groups, groupConnector
      ensures ok <==> old(groups)[level - 1].connector != BarConnector
      ensures ok ==> Valid() && Value() == SetTop(old(Value()), old(groups)[level - 1].(connector := CommaConnector))
    {
      hide Counted, Shaped, Told;
      if groupConnector[level] == BarConnector {
        return false;
      }
      SetConnector(level, CommaConnector);
      ok := true;
    }

    /** The role GROUP_CHOICE. */
    method MarkChoice(level: nat) returns (ok: bool)
      requires Valid() && inEldecl && groups != [] && level == |groups|
      modifies this`groups, groupConnector, scaffold
      ensures ok <==> old(groups)[level - 1].connector != CommaConnector
      ensures ok ==> Valid() && Value() == SetTop(old(Value()), Choosing(old(groups)[level - 1]))
    {
      hide Shape, Counted, Told;
      if groupConnector[level] == CommaConnector {
        return false;
      }
      ghost var g, gs := groups[level - 1], groups;
      TopType(Cells(), kids, parent, pos, Open(), groups);
      if groupConnector[level] == NoConnector && scaffold[scaffIndex[scaffLevel - 1]].ctype != MIXED {
        MarkType(CHOICE);
      }
      SetConnector(level, BarConnector);
      assert groups == gs[level - 1 := Choosing(g)];
      ok := true;
    }

    /** build_model: one block for the finished scaffold. */
    method BuildModel(ghost c: Content) returns (ret: array<XCell>, str: array<char>)
      requires scaffCount <= scaffold.Length && scaffCount > 0
      requires Readable(scaffold, Cells(), kids, parent, pos)
      requires c == Tree(Cells(), kids, 0) && c.ctype != EMPTY && c.ctype != ANY
      requires scaffCount == 1 + Below(c) && contentStringLen == Chars(c)
      ensures fresh(ret) && fresh(str) && Reported(ret[..], str[..], c)
    {
      hide Readable, Tree, LaidOut, Below, Chars;
      ret := new XCell[scaffCount];
      str := new char[contentStringLen];
      var contpos, strpos := BuildNode(scaffold, 0, ret, str, 0, 1, 0, Cells(), kids, parent, pos);
    }

    /** The end of the outermost group: the handler gets the model. */
    method FinishModel(ghost c: Content)
      requires Sized() && scaffLevel == 0 && Finished(c) && IsGroupType(c.ctype)
      requires scaffCount == 1 + Below(c) && contentStringLen == Chars(c)
      requires Told()
      modifies this`handed, this`reports, this`groups, this`inEldecl, this`contentStringLen
      ensures Valid() && Value() == Report(old(Value()).(groups := []), c)
    {
      hide Readable, Tree, LaidOut, Below, Chars, Shape, Reported, AllReported;
      var ret, str := BuildModel(c);
      HandedMore(handed, reports, Block(ret[..], str[..]), Declaration(element, c));
      handed := handed + [Block(ret[..], str[..])];
      reports := reports + [Declaration(element, c)];
      groups := [];
      inEldecl := false;
      contentStringLen := 0;
      NoGroups();
    }

    /** The scaffold holds the tree of a finished model. */
    ghost predicate Finished(c: Content)
      requires scaffCount <= scaffold.Length
      reads this`scaffCount, this`scaffold, this`kids, this`parent, this`pos, scaffold
    {
      scaffCount > 0 && Readable(scaffold, Cells(), kids, parent, pos) && c == Tree(Cells(), kids, 0)
    }

    /** The innermost group gets its quantifier and is open no more. */
    method LeaveGroup(q: Quant) returns (ghost c: Content)
      requires Sized() && scaffLevel > 0 && Shape(Cells(), kids, parent, pos, Open(), groups)
      modifies this`scaffLevel, this`groups, scaffold
      ensures Sized() && scaffLevel == old(scaffLevel) - 1 && groups == old(groups)[..scaffLevel]
      ensures var g := old(groups)[scaffLevel]; c == Content(g.ctype, q, "", g.members) && IsGroupType(g.ctype)
      ensures if scaffLevel == 0 then Finished(c) else Shape(Cells(), kids, parent, pos, Open(), AddMember(groups, c))
    {
      hide Shape, Tree, Linked, Ordered, AddMember, IsGroupType;
      ghost var cells, open, gs := Cells(), Open(), groups;
      InnermostFacts(cells, kids, parent, pos, open, gs);
      TopType(cells, kids, parent, pos, open, gs);
      scaffLevel := scaffLevel - 1;
      var i := scaffIndex[scaffLevel];
      scaffold[i] := scaffold[i].(quant := q);
      c := Content(gs[scaffLevel].ctype, q, "", gs[scaffLevel].members);
      assert Cells() == cells[i := cells[i].(quant := q)];
      ClosedTree(cells, kids, parent, pos, open, gs, Cells(), q);
      groups := gs[..scaffLevel];
      if scaffLevel > 0 {
        assert Open() == open[..scaffLevel];
        ShapeCloses(cells, kids, parent, pos, open, gs, Cells(), q);
      }
    }

    /** The roles GROUP_CLOSE. */
    method CloseGroup(q: Quant)
      requires Valid() && inEldecl && groups != []
      modifies this`scaffLevel, this`groups, this`handed, this`reports, this`inEldecl, this`contentStringLen, scaffold
      ensures Valid()
      ensures Value() == Leaving(old(Value()), q)
    {
      hide Shape, CellCount, NameChars, Told, Finished, Below, Chars, AddMember, IsGroupType;
      ghost var gs := groups;
      TopType(Cells(), kids, parent, pos, Open(), gs);
      GroupIsNoName(gs[|gs| - 1].ctype);
      CountsOnClose(gs, q);
      ghost var c := LeaveGroup(q);
      if scaffLevel == 0 {
        NoGroups();
        FinishModel(c);
      } else {
        CountsOnMember(groups, c);
        groups := AddMember(groups, c);
      }
    }

    /** The roles CONTENT_EMPTY and CONTENT_ANY. */
    method ReportBare(ctype: ContentType)
      requires Valid() && inEldecl && groups == [] && (ctype == EMPTY || ctype == ANY)
      modifies this`handed, this`reports, this`inEldecl
      ensures Valid() && Value() == Report(old(Value()), Content(ctype, None, "", []))
    {
      hide AllReported;
      var c := Content(ctype, None, "", []);
      var content := Block([XCell(ctype, None, -1, 0, -1)], []);
      HandedMore(handed, reports, content, Declaration(element, c));
      handed := handed + [content];
      reports := reports + [Declaration(element, c)];
      inEldecl := false;
    }

    /** The role ELEMENT_NAME. */
    method StartElement(name: string)
      requires Valid() && groups == []
      modifies this`element, this`scaffLevel, this`scaffCount, this`inEldecl, this`kids, this`parent, this`pos,
        this`groups
      ensures Valid() && Value() == old(Value()).(element := name, inEldecl := true, groups := [])
    {
      hide Sized, Connected, Shaped, Told, CellCount, NameChars;
      NoGroups();
      Reset(name);
    }

    method Reset(name: string)
      requires Sized() && contentStringLen == 0
      modifies this`element, this`scaffLevel, this`scaffCount, this`inEldecl, this`kids, this`parent, this`pos,
        this`groups
      ensures Sized() && Connected() && Counted() && Shaped()
      ensures element == name && inEldecl && groups == []
    {
      hide Shape, CellCount, NameChars;
      NoGroups();
      element := name;
      scaffLevel := 0;
      scaffCount := 0;
      inEldecl := true;
      kids, parent, pos, groups := [], [], [], [];
      NothingShaped(Cells(), Open());
    }

    /** One role in doProlog. */
    method Process(role: Role, name: string, level: int) returns (ok: bool)
      requires Valid() && Fits(Value(), role, level)
      modifies this, groupConnector, scaffIndex, scaffold
      ensures groupConnector == old(groupConnector) || fresh(groupConnector)
      ensures scaffIndex == old(scaffIndex) || fresh(scaffIndex)
      ensures scaffold == old(scaffold) || fresh(scaffold)
      ensures ok <==> Act(old(Value()), role, name).Fine?
      ensures ok ==> Valid() && Fine(Value()) == Act(old(Value()), role, name)
    {
      hide Shape, Counted, Connected, Told, Shaped, Sized;
      ok := true;
      match role
      case RoleNone =>
      case ElementNone =>
      case RoleError => ok := false;
      case ElementName => StartElement(name);
      case ContentAny => ReportBare(ANY);
      case ContentEmpty => ReportBare(EMPTY);
      case GroupOpen => OpenGroup(level);
      case ContentPcdata => MarkType(MIXED);
      case ContentElement(q) => AddName(name, q);
      case GroupSequence => ok := MarkSequence(level);
      case GroupChoice => ok := MarkChoice(level);
      case GroupClose(q) => CloseGroup(q);
    }
  }
}
