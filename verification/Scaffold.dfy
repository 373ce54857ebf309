/** How the DTD records a content model while it is read, and how it hands the model out: the
    scaffold of first-child and next-sibling links built by nextScaffoldPart, and the single block
    of XML_Content cells and characters that build_model lays out from it. */
module Scaffold {
  import opened XmlRole
  import opened ContentModel

  /** CONTENT_SCAFFOLD. */
  datatype Cell = Cell(ctype: ContentType, quant: Quant, name: string,
                       firstchild: nat, lastchild: nat, childcnt: nat, nextsib: nat)

  // ---------- The links of a scaffold ----------

  /** The links of the cells describe these lists of children; parent and pos say where a cell
      occurs in them. */
  ghost predicate Linked(cells: seq<Cell>, kids: seq<seq<nat>>, parent: seq<nat>, pos: seq<nat>) {
    && |kids| == |cells| && |parent| == |cells| && |pos| == |cells|
    && (forall i :: 0 <= i < |cells| ==> HasKids(cells[i], kids[i]))
    && (forall i, k :: 0 <= i < |kids| && 0 <= k < |kids[i]| ==> LinkAt(cells, kids, parent, pos, i, k))
  }

  ghost predicate LinkAt(cells: seq<Cell>, kids: seq<seq<nat>>, parent: seq<nat>, pos: seq<nat>, i: nat, k: nat)
    requires i < |kids| && k < |kids[i]| && |parent| == |cells| && |pos| == |cells|
  {
    var c := kids[i][k];
    && i < c < |cells| && parent[c] == i && pos[c] == k
    && cells[c].nextsib == if k + 1 < |kids[i]| then kids[i][k + 1] else 0
  }

  ghost predicate HasKids(c: Cell, kids: seq<nat>) {
    && c.childcnt == |kids|
    && c.firstchild == (if kids == [] then 0 else kids[0])
    && c.lastchild == (if kids == [] then 0 else kids[|kids| - 1])
  }

  /** Cell j after a new last cell was made the last child of p (of nothing, if p < 0). */
  function Relinked(cells: seq<Cell>, p: int, j: nat): Cell
    requires p < |cells| && j < |cells|
  {
    var c, next := cells[j], |cells|;
    if j == p then
      c.(firstchild := if c.childcnt == 0 then next else c.firstchild, lastchild := next, childcnt := c.childcnt + 1)
    else if p >= 0 && cells[p].lastchild != 0 && j == cells[p].lastchild then c.(nextsib := next)
    else c
  }

  ghost predicate Appended(cells: seq<Cell>, p: int, cells': seq<Cell>)
    requires p < |cells|
  {
    && |cells'| == |cells| + 1
    && (forall j :: 0 <= j < |cells| ==> cells'[j] == Relinked(cells, p, j))
    && HasKids(cells'[|cells|], []) && cells'[|cells|].nextsib == 0
  }

  ghost function KidsAfter(kids: seq<seq<nat>>, p: int): seq<seq<nat>>
    requires p < |kids|
  {
    (if p < 0 then kids else kids[p := kids[p] + [|kids|]]) + [[]]
  }

  lemma AppendLinks(cells: seq<Cell>, kids: seq<seq<nat>>, parent: seq<nat>, pos: seq<nat>, p: int, cells': seq<Cell>)
    requires Linked(cells, kids, parent, pos) && p < |cells| && Appended(cells, p, cells')
    ensures Linked(cells', KidsAfter(kids, p), parent + [if p < 0 then 0 else p],
                   pos + [if p < 0 then 0 else |kids[p]|])
  {
    var kids', parent', pos' := KidsAfter(kids, p), parent + [if p < 0 then 0 else p],
      pos + [if p < 0 then 0 else |kids[p]|];
    forall i | 0 <= i < |cells'| ensures HasKids(cells'[i], kids'[i]) {
      AppendHasKids(cells, kids, parent, pos, p, cells', i);
    }
    forall i, k | 0 <= i < |kids'| && 0 <= k < |kids'[i]|
      ensures LinkAt(cells', kids', parent', pos', i, k)
    {
      if i < |cells| && k < |kids[i]| {
        assert LinkAt(cells, kids, parent, pos, i, k);
        AppendSibling(cells, kids, parent, pos, p, cells', i, k);
      }
    }
  }

  lemma AppendHasKids(cells: seq<Cell>, kids: seq<seq<nat>>, parent: seq<nat>, pos: seq<nat>, p: int,
                      cells': seq<Cell>, i: nat)
    requires Linked(cells, kids, parent, pos) && p < |cells| && Appended(cells, p, cells')
    requires i < |cells'|
    ensures HasKids(cells'[i], KidsAfter(kids, p)[i])
  {
    if i < |cells| {
      assert HasKids(cells[i], kids[i]);
    }
  }

  /** Only the previous last child of p gets a sibling. */
  lemma AppendSibling(cells: seq<Cell>, kids: seq<seq<nat>>, parent: seq<nat>, pos: seq<nat>, p: int,
                      cells': seq<Cell>, i: nat, k: nat)
    requires Linked(cells, kids, parent, pos) && p < |cells| && Appended(cells, p, cells')
    requires i < |cells| && k < |kids[i]| && LinkAt(cells, kids, parent, pos, i, k)
    ensures var kids' := KidsAfter(kids, p);
      && kids'[i][k] == kids[i][k]
      && cells'[kids[i][k]].nextsib == if k + 1 < |kids'[i]| then kids'[i][k + 1] else 0
  {
    var c := kids[i][k];
    assert cells'[c] == Relinked(cells, p, c);
    if p >= 0 && kids[p] != [] {
      assert LinkAt(cells, kids, parent, pos, p, |kids[p]| - 1);
      assert HasKids(cells[p], kids[p]);
    } else if p >= 0 {
      assert HasKids(cells[p], kids[p]);
    }
  }

  // ---------- The trees in a scaffold ----------

  ghost predicate Ordered(cells: seq<Cell>, kids: seq<seq<nat>>) {
    && |kids| == |cells|
    && forall i, k :: 0 <= i < |kids| && 0 <= k < |kids[i]| ==> i < kids[i][k] < |cells|
  }

  /** The content particle whose cell is i. */
  ghost function Tree(cells: seq<Cell>, kids: seq<seq<nat>>, i: nat): Content
    requires Ordered(cells, kids) && i < |cells|
    decreases |cells| - i, 0
  {
    var c := cells[i];
    Content(c.ctype, c.quant, if c.ctype == NAME then c.name else "", Trees(cells, kids, i, |kids[i]|))
  }

  /** The first n children of cell i. */
  ghost function Trees(cells: seq<Cell>, kids: seq<seq<nat>>, i: nat, n: nat): (ts: seq<Content>)
    requires Ordered(cells, kids) && i < |cells| && n <= |kids[i]|
    ensures |ts| == n
    decreases |cells| - i - 1, 1, n
  {
    if n == 0 then [] else Trees(cells, kids, i, n - 1) + [Tree(cells, kids, kids[i][n - 1])]
  }

  ghost predicate SameLabel(c: Cell, d: Cell) {
    c.ctype == d.ctype && c.quant == d.quant && c.name == d.name
  }

  /** Outside the open cells nothing that a tree consists of has changed. */
  ghost predicate SameClosed(cells: seq<Cell>, kids: seq<seq<nat>>, cells': seq<Cell>, kids': seq<seq<nat>>,
                             open: seq<nat>) {
    && Ordered(cells, kids) && Ordered(cells', kids') && |cells| <= |cells'|
    && (forall i, k :: 0 <= i < |kids| && 0 <= k < |kids[i]| && i !in open ==> kids[i][k] !in open)
    && (forall i :: 0 <= i < |cells| && i !in open ==> SameLabel(cells[i], cells'[i]) && kids[i] == kids'[i])
  }

  lemma {:induction false} SameTree(cells: seq<Cell>, kids: seq<seq<nat>>, cells': seq<Cell>, kids': seq<seq<nat>>,
                                    open: seq<nat>, i: nat)
    requires SameClosed(cells, kids, cells', kids', open)
    requires i < |cells| && i !in open
    ensures Tree(cells, kids, i) == Tree(cells', kids', i)
    decreases |cells| - i, 0
  {
    SameTrees(cells, kids, cells', kids', open, i, |kids[i]|);
  }

  lemma {:induction false} SameTrees(cells: seq<Cell>, kids: seq<seq<nat>>, cells': seq<Cell>, kids': seq<seq<nat>>,
                                     open: seq<nat>, i: nat, n: nat)
    requires SameClosed(cells, kids, cells', kids', open)
    requires i < |cells| && n <= |kids[i]| && n <= |kids'[i]|
    requires forall k :: 0 <= k < n ==> kids[i][k] == kids'[i][k] && kids[i][k] !in open
    ensures Trees(cells, kids, i, n) == Trees(cells', kids', i, n)
    decreases |cells| - i - 1, 1, n
  {
    if n > 0 {
      SameTrees(cells, kids, cells', kids', open, i, n - 1);
      SameTree(cells, kids, cells', kids', open, kids[i][n - 1]);
    }
  }

  // ---------- The block laid out by build_model ----------

  /** XML_Content: name is an offset into the characters after the cells (-1 for NULL), children
      the index of the first child cell (-1 for NULL). */
  datatype XCell = XCell(ctype: ContentType, quant: Quant, name: int, numchildren: nat, children: int)

  /** Proper descendants of c. */
  ghost function Below(c: Content): nat
    decreases c, 1
  {
    |c.children| + BelowAll(c.children)
  }

  ghost function BelowAll(cs: seq<Content>): nat
    decreases cs, 0
  {
    if cs == [] then 0 else BelowAll(cs[..|cs| - 1]) + Below(cs[|cs| - 1])
  }

  /** Characters of the names in c, each with its terminating NUL. */
  ghost function Chars(c: Content): nat
    decreases c, 1
  {
    if c.ctype == NAME then |c.name| + 1 else CharsAll(c.children)
  }

  ghost function CharsAll(cs: seq<Content>): nat
    decreases cs, 0
  {
    if cs == [] then 0 else CharsAll(cs[..|cs| - 1]) + Chars(cs[|cs| - 1])
  }

  /** c lies in the block: its own cell at d, its descendants in the cells from n on, its names in
      the characters from s on. */
  ghost predicate LaidOut(cells: seq<XCell>, chars: seq<char>, c: Content, d: nat, n: nat, s: nat)
    decreases c, 1
  {
    && d < |cells| && n + Below(c) <= |cells| && s + Chars(c) <= |chars|
    && cells[d].ctype == c.ctype && cells[d].quant == c.quant
    && if c.ctype == NAME then
         && c.children == [] && cells[d] == XCell(NAME, c.quant, s, 0, -1)
         && chars[s..s + |c.name| + 1] == c.name + ['\0']
       else
         && cells[d] == XCell(c.ctype, c.quant, -1, |c.children|, n)
         && AllLaidOut(cells, chars, c.children, n, n + |c.children|, s)
  }

  /** The cells of cs are consecutive from d on. */
  ghost predicate AllLaidOut(cells: seq<XCell>, chars: seq<char>, cs: seq<Content>, d: nat, n: nat, s: nat)
    decreases cs, 0
  {
    cs == [] ||
    var rest, last := cs[..|cs| - 1], cs[|cs| - 1];
    && AllLaidOut(cells, chars, rest, d, n, s)
    && LaidOut(cells, chars, last, d + |rest|, n + BelowAll(rest), s + CharsAll(rest))
  }

  /** Two blocks agree on a cell and on ranges of cells and characters. */
  ghost predicate Agree(cells: seq<XCell>, cells': seq<XCell>, chars: seq<char>, chars': seq<char>,
                        d: nat, n: nat, m: nat, s: nat, t: nat)
  {
    && |cells| == |cells'| && |chars| == |chars'|
    && (d < |cells| ==> cells[d] == cells'[d])
    && (forall j :: n <= j < m && j < |cells| ==> cells[j] == cells'[j])
    && (forall j :: s <= j < t && j < |chars| ==> chars[j] == chars'[j])
  }

  lemma {:induction false} LaidOutFrame(cells: seq<XCell>, cells': seq<XCell>, chars: seq<char>, chars': seq<char>,
                                        c: Content, d: nat, n: nat, s: nat)
    requires LaidOut(cells, chars, c, d, n, s)
    requires Agree(cells, cells', chars, chars', d, n, n + Below(c), s, s + Chars(c))
    ensures LaidOut(cells', chars', c, d, n, s)
    decreases c, 1
  {
    if c.ctype == NAME {
      assert chars[s..s + |c.name| + 1] == chars'[s..s + |c.name| + 1];
    } else {
      AllLaidOutFrame(cells, cells', chars, chars', c.children, n, n + |c.children|, s);
    }
  }

  lemma {:induction false} AllLaidOutFrame(cells: seq<XCell>, cells': seq<XCell>, chars: seq<char>, chars': seq<char>,
                                           cs: seq<Content>, d: nat, n: nat, s: nat)
    requires AllLaidOut(cells, chars, cs, d, n, s)
    requires |cells| == |cells'| && |chars| == |chars'|
    requires forall j :: d <= j < d + |cs| && j < |cells| ==> cells[j] == cells'[j]
    requires forall j :: n <= j < n + BelowAll(cs) && j < |cells| ==> cells[j] == cells'[j]
    requires forall j :: s <= j < s + CharsAll(cs) && j < |chars| ==> chars[j] == chars'[j]
    ensures AllLaidOut(cells', chars', cs, d, n, s)
    decreases cs, 0
  {
    if cs != [] {
      var rest, last := cs[..|cs| - 1], cs[|cs| - 1];
      AllLaidOutFrame(cells, cells', chars, chars', rest, d, n, s);
      LaidOutFrame(cells, cells', chars, chars', last, d + |rest|, n + BelowAll(rest), s + CharsAll(rest));
    }
  }

  /** A loop step of build_node: one more child is in place, the earlier ones untouched. */
  lemma OneMoreLaidOut(cells: seq<XCell>, cells': seq<XCell>, chars: seq<char>, chars': seq<char>, cs: seq<Content>,
                       c: Content, d: nat, n: nat, s: nat)
    requires AllLaidOut(cells, chars, cs, d, n, s) && d + |cs| < n
    requires |cells| == |cells'| && |chars| == |chars'|
    requires LaidOut(cells', chars', c, d + |cs|, n + BelowAll(cs), s + CharsAll(cs))
    requires forall j :: 0 <= j < |cells| && j != d + |cs| && j < n + BelowAll(cs) ==> cells[j] == cells'[j]
    requires forall j :: 0 <= j < |chars| && j < s + CharsAll(cs) ==> chars[j] == chars'[j]
    ensures AllLaidOut(cells', chars', cs + [c], d, n, s)
    ensures BelowAll(cs + [c]) == BelowAll(cs) + Below(c) && CharsAll(cs + [c]) == CharsAll(cs) + Chars(c)
  {
    AllLaidOutFrame(cells, cells', chars, chars', cs, d, n, s);
    assert (cs + [c])[..|cs|] == cs;
  }

  /** The scaffold array holds these cells, linked like this; names have no children. */
  ghost predicate Readable(scaffold: array<Cell>, cells: seq<Cell>, kids: seq<seq<nat>>, parent: seq<nat>,
                           pos: seq<nat>)
    reads scaffold
  {
    && |cells| <= scaffold.Length && scaffold[..|cells|] == cells
    && Linked(cells, kids, parent, pos) && Ordered(cells, kids)
    && forall i :: 0 <= i < |cells| && cells[i].ctype == NAME ==> kids[i] == []
  }

  lemma TreeIs(scaffold: array<Cell>, cells: seq<Cell>, kids: seq<seq<nat>>, parent: seq<nat>, pos: seq<nat>, src: nat)
    requires Readable(scaffold, cells, kids, parent, pos) && src < |cells|
    ensures |kids| == |cells| && Trees(cells, kids, src, 0) == []
    ensures var c, t := scaffold[src], Tree(cells, kids, src);
      && (c.ctype == NAME ==> Below(t) == 0 && Chars(t) == |c.name| + 1)
      && t.ctype == c.ctype && t.quant == c.quant && (c.ctype == NAME ==> t.name == c.name)
      && c.childcnt == |kids[src]| && t.children == Trees(cells, kids, src, c.childcnt)
      && (c.ctype == NAME ==> t.children == [])
      && (c.childcnt > 0 ==> c.firstchild == kids[src][0])
      && Below(t) == c.childcnt + BelowAll(t.children)
      && (c.ctype != NAME ==> Chars(t) == CharsAll(t.children))
  {
    assert scaffold[src] == cells[src];
    assert HasKids(cells[src], kids[src]);
  }

  lemma SiblingIs(scaffold: array<Cell>, cells: seq<Cell>, kids: seq<seq<nat>>, parent: seq<nat>, pos: seq<nat>,
                  src: nat, i: nat)
    requires Readable(scaffold, cells, kids, parent, pos) && src < |cells| && i < |kids[src]|
    ensures src < kids[src][i] < |cells|
    ensures i + 1 < |kids[src]| ==> scaffold[kids[src][i]].nextsib == kids[src][i + 1]
    ensures Trees(cells, kids, src, i + 1) == Trees(cells, kids, src, i) + [Tree(cells, kids, kids[src][i])]
    ensures BelowAll(Trees(cells, kids, src, i)) + Below(Tree(cells, kids, kids[src][i])) <=
      BelowAll(Trees(cells, kids, src, |kids[src]|))
    ensures CharsAll(Trees(cells, kids, src, i)) + Chars(Tree(cells, kids, kids[src][i])) <=
      CharsAll(Trees(cells, kids, src, |kids[src]|))
  {
    assert LinkAt(cells, kids, parent, pos, src, i);
    assert scaffold[kids[src][i]] == cells[kids[src][i]];
    TreesGrow(cells, kids, src, i + 1, |kids[src]|);
    AllGrow(Trees(cells, kids, src, i), Tree(cells, kids, kids[src][i]));
  }

  lemma AllGrow(cs: seq<Content>, c: Content)
    ensures BelowAll(cs + [c]) == BelowAll(cs) + Below(c) && CharsAll(cs + [c]) == CharsAll(cs) + Chars(c)
  {
    hide Below, Chars;
    assert (cs + [c])[..|cs|] == cs;
  }

  lemma {:induction false} TreesGrow(cells: seq<Cell>, kids: seq<seq<nat>>, src: nat, i: nat, n: nat)
    requires Ordered(cells, kids) && src < |cells| && i <= n <= |kids[src]|
    ensures BelowAll(Trees(cells, kids, src, i)) <= BelowAll(Trees(cells, kids, src, n))
    ensures CharsAll(Trees(cells, kids, src, i)) <= CharsAll(Trees(cells, kids, src, n))
  {
    hide Tree, Below, Chars;
    if i < n {
      TreesGrow(cells, kids, src, i, n - 1);
      var last := Tree(cells, kids, kids[src][n - 1]);
      AllGrow(Trees(cells, kids, src, n - 1), last);
    }
  }

  /** build_node: src is a cell of the scaffold, dest its cell in the block; contpos and strpos
      are the next free cell and character. */
  method BuildNode(scaffold: array<Cell>, src: nat, ret: array<XCell>, str: array<char>, dest: nat, contpos: nat,
                   strpos: nat,
                   ghost cells: seq<Cell>, ghost kids: seq<seq<nat>>, ghost parent: seq<nat>, ghost pos: seq<nat>)
    returns (contpos': nat, strpos': nat)
    requires Readable(scaffold, cells, kids, parent, pos) && src < |cells|
    requires dest < contpos && contpos + Below(Tree(cells, kids, src)) <= ret.Length
    requires strpos + Chars(Tree(cells, kids, src)) <= str.Length
    modifies ret, str
    ensures contpos' == contpos + Below(Tree(cells, kids, src))
    ensures strpos' == strpos + Chars(Tree(cells, kids, src))
    ensures LaidOut(ret[..], str[..], Tree(cells, kids, src), dest, contpos, strpos)
    ensures forall j :: 0 <= j < ret.Length && j != dest && !(contpos <= j < contpos') ==> ret[j] == old(ret[j])
    ensures forall j :: 0 <= j < str.Length && !(strpos <= j < strpos') ==> str[j] == old(str[j])
    decreases |cells| - src, 0
  {
    hide Tree, Trees, AllLaidOut, Below, BelowAll, CharsAll, Linked, Ordered;
    var c := scaffold[src];
    TreeIs(scaffold, cells, kids, parent, pos, src);
    if c.ctype == NAME {
      ret[dest] := XCell(NAME, c.quant, strpos, 0, -1);
      contpos' := contpos;
      strpos' := CopyName(c.name, str, strpos);
    } else {
      ret[dest] := XCell(c.ctype, c.quant, -1, c.childcnt, contpos);
      contpos', strpos' := BuildChildren(scaffold, src, c.childcnt, ret, str, contpos, strpos, cells, kids, parent,
        pos);
    }
  }

  /** Copy a name and its NUL. */
  method CopyName(name: string, str: array<char>, strpos: nat) returns (end: nat)
    requires strpos + |name| + 1 <= str.Length
    modifies str
    ensures end == strpos + |name| + 1
    ensures str[strpos..end] == name + ['\0']
    ensures forall j :: 0 <= j < str.Length && !(strpos <= j < end) ==> str[j] == old(str[j])
  {
    var i := 0;
    while i < |name|
      invariant i <= |name|
      invariant str[strpos..strpos + i] == name[..i]
      invariant forall j :: 0 <= j < str.Length && !(strpos <= j < strpos + i) ==> str[j] == old(str[j])
    {
      str[strpos + i] := name[i];
      i := i + 1;
    }
    str[strpos + i] := '\0';
    end := strpos + i + 1;
  }

  /** The loop of build_node over the children of src: their cells are taken first, together. */
  method BuildChildren(scaffold: array<Cell>, src: nat, numchildren: nat, ret: array<XCell>, str: array<char>,
                       contpos: nat, strpos: nat,
                       ghost cells: seq<Cell>, ghost kids: seq<seq<nat>>, ghost parent: seq<nat>, ghost pos: seq<nat>)
    returns (contpos': nat, strpos': nat)
    requires Readable(scaffold, cells, kids, parent, pos) && src < |cells| && numchildren == |kids[src]|
    requires contpos + numchildren + BelowAll(Trees(cells, kids, src, numchildren)) <= ret.Length
    requires strpos + CharsAll(Trees(cells, kids, src, numchildren)) <= str.Length
    modifies ret, str
    ensures contpos' == contpos + numchildren + BelowAll(Trees(cells, kids, src, numchildren))
    ensures strpos' == strpos + CharsAll(Trees(cells, kids, src, numchildren))
    ensures AllLaidOut(ret[..], str[..], Trees(cells, kids, src, numchildren), contpos, contpos + numchildren, strpos)
    ensures forall j :: 0 <= j < ret.Length && !(contpos <= j < contpos') ==> ret[j] == old(ret[j])
    ensures forall j :: 0 <= j < str.Length && !(strpos <= j < strpos') ==> str[j] == old(str[j])
    decreases |cells| - src - 1, 1
  {
    hide Tree, Trees, AllLaidOut, LaidOut, Below, BelowAll, Chars, CharsAll, Linked, Ordered;
    TreeIs(scaffold, cells, kids, parent, pos, src);
    var i, cn := 0, scaffold[src].firstchild;
    contpos', strpos' := contpos + numchildren, strpos;
    NoneLaidOut(ret[..], str[..], contpos, contpos + numchildren, strpos);
    while i < numchildren
      invariant i <= numchildren
      invariant contpos' == contpos + numchildren + BelowAll(Trees(cells, kids, src, i))
      invariant strpos' == strpos + CharsAll(Trees(cells, kids, src, i))
      invariant i < numchildren ==> cn == kids[src][i]
      invariant AllLaidOut(ret[..], str[..], Trees(cells, kids, src, i), contpos, contpos + numchildren, strpos)
      invariant forall j :: 0 <= j < ret.Length && !(contpos <= j < contpos') ==> ret[j] == old(ret[j])
      invariant forall j :: 0 <= j < str.Length && !(strpos <= j < strpos') ==> str[j] == old(str[j])
    {
      ghost var before, charsBefore := ret[..], str[..];
      ghost var ts := Trees(cells, kids, src, i);
      SiblingIs(scaffold, cells, kids, parent, pos, src, i);
      contpos', strpos' := BuildNode(scaffold, cn, ret, str, contpos + i, contpos', strpos', cells, kids, parent, pos);
      OneMoreLaidOut(before, ret[..], charsBefore, str[..], ts, Tree(cells, kids, cn), contpos, contpos + numchildren,
        strpos);
      cn := scaffold[cn].nextsib;
      i := i + 1;
    }
  }

  lemma NoneLaidOut(cells: seq<XCell>, chars: seq<char>, d: nat, n: nat, s: nat)
    ensures AllLaidOut(cells, chars, [], d, n, s) && BelowAll([]) == 0 && CharsAll([]) == 0
  {}

  // ---------- The open groups of a scaffold ----------

  /** The members of the k-th open group: all children of its cell but the group open inside it. */
  ghost function MemberCount(kids: seq<seq<nat>>, open: seq<nat>, k: nat): int
    requires k < |open| && open[k] < |kids|
  {
    |kids[open[k]]| - if k + 1 < |open| then 1 else 0
  }

  predicate IsGroupType(ctype: ContentType) {
    ctype == SEQ || ctype == CHOICE || ctype == MIXED
  }

  ghost predicate GroupAt(cells: seq<Cell>, kids: seq<seq<nat>>, open: seq<nat>, groups: seq<Group>, k: nat)
    requires Ordered(cells, kids) && |groups| == |open| && k < |open|
  {
    && open[k] < |cells|
    && cells[open[k]].ctype == groups[k].ctype && IsGroupType(groups[k].ctype)
    && (k + 1 < |open| ==> kids[open[k]] != [] && kids[open[k]][|kids[open[k]]| - 1] == open[k + 1])
    && groups[k].members == Trees(cells, kids, open[k], MemberCount(kids, open, k))
  }

  /** The scaffold holds these open groups: their cells are open[0], open[1], ..., each the last
      child of the one before. */
  ghost predicate Shape(cells: seq<Cell>, kids: seq<seq<nat>>, parent: seq<nat>, pos: seq<nat>, open: seq<nat>,
                        groups: seq<Group>) {
    && |kids| == |cells| && |groups| == |open|
    && Linked(cells, kids, parent, pos) && Ordered(cells, kids)
    && (forall i :: 0 <= i < |cells| && cells[i].ctype == NAME ==> kids[i] == [])
    && (open == [] ==> cells == [])
    && (open != [] ==> open[0] == 0)
    && (forall k :: 0 <= k < |open| ==> GroupAt(cells, kids, open, groups, k))
  }

  /** An open cell below the outermost is the last child of the open cell before it. */
  lemma OpenChild(cells: seq<Cell>, kids: seq<seq<nat>>, parent: seq<nat>, pos: seq<nat>, open: seq<nat>,
                  groups: seq<Group>, i: nat, k: nat)
    requires Shape(cells, kids, parent, pos, open, groups)
    requires i < |kids| && k < |kids[i]| && kids[i][k] in open
    ensures exists m :: 0 <= m && m + 1 < |open| && open[m] == i && open[m + 1] == kids[i][k] && k == |kids[i]| - 1
  {
    var m :| 0 <= m < |open| && open[m] == kids[i][k];
    assert LinkAt(cells, kids, parent, pos, i, k);
    assert m > 0;
    var q := open[m - 1];
    assert GroupAt(cells, kids, open, groups, m - 1);
    assert LinkAt(cells, kids, parent, pos, q, |kids[q]| - 1);
    assert open[(m - 1) + 1] == kids[i][k];
  }

  /** Changing only open cells, and only adding children to them, keeps every closed tree. */
  lemma ClosedStay(cells: seq<Cell>, kids: seq<seq<nat>>, parent: seq<nat>, pos: seq<nat>, open: seq<nat>,
                   groups: seq<Group>, cells': seq<Cell>, kids': seq<seq<nat>>)
    requires Shape(cells, kids, parent, pos, open, groups)
    requires Ordered(cells', kids') && |cells| <= |cells'|
    requires forall i :: 0 <= i < |cells| && i !in open ==> SameLabel(cells[i], cells'[i]) && kids[i] == kids'[i]
    requires forall i :: 0 <= i < |cells| ==> kids[i] <= kids'[i]
    ensures SameClosed(cells, kids, cells', kids', open)
    ensures forall k :: 0 <= k < |open| ==> open[k] < |cells| && 0 <= MemberCount(kids, open, k) <= |kids[open[k]]|
    ensures forall k :: 0 <= k < |open| ==>
      Trees(cells', kids', open[k], MemberCount(kids, open, k)) ==
        Trees(cells, kids, open[k], MemberCount(kids, open, k))
  {
    forall i, k | 0 <= i < |kids| && 0 <= k < |kids[i]| && i !in open ensures kids[i][k] !in open {
      if kids[i][k] in open {
        OpenChild(cells, kids, parent, pos, open, groups, i, k);
      }
    }
    forall k | 0 <= k < |open|
      ensures open[k] < |cells| && 0 <= MemberCount(kids, open, k) <= |kids[open[k]]|
      ensures Trees(cells', kids', open[k], MemberCount(kids, open, k)) ==
        Trees(cells, kids, open[k], MemberCount(kids, open, k))
    {
      MembersStay(cells, kids, parent, pos, open, groups, cells', kids', k);
    }
  }

  lemma MembersStay(cells: seq<Cell>, kids: seq<seq<nat>>, parent: seq<nat>, pos: seq<nat>, open: seq<nat>,
                    groups: seq<Group>, cells': seq<Cell>, kids': seq<seq<nat>>, k: nat)
    requires Shape(cells, kids, parent, pos, open, groups)
    requires SameClosed(cells, kids, cells', kids', open)
    requires forall i :: 0 <= i < |cells| ==> kids[i] <= kids'[i]
    requires k < |open|
    ensures open[k] < |cells| && 0 <= MemberCount(kids, open, k) <= |kids[open[k]]|
    ensures Trees(cells', kids', open[k], MemberCount(kids, open, k)) ==
      Trees(cells, kids, open[k], MemberCount(kids, open, k))
  {
    assert GroupAt(cells, kids, open, groups, k);
    var i, n := open[k], MemberCount(kids, open, k);
    forall j | 0 <= j < n ensures kids[i][j] == kids'[i][j] && kids[i][j] !in open {
      assert kids[i] <= kids'[i];
      if kids[i][j] in open {
        OpenChild(cells, kids, parent, pos, open, groups, i, j);
        var m :| 0 <= m && m + 1 < |open| && open[m] == i && open[m + 1] == kids[i][j] && j == |kids[i]| - 1;
        OpenDistinct(cells, kids, parent, pos, open, groups, m, k);
      }
    }
    SameTrees(cells, kids, cells', kids', open, i, n);
  }

  lemma {:induction false} OpenDistinct(cells: seq<Cell>, kids: seq<seq<nat>>, parent: seq<nat>, pos: seq<nat>,
                                        open: seq<nat>, groups: seq<Group>, m: nat, k: nat)
    requires Shape(cells, kids, parent, pos, open, groups)
    requires m < |open| && k < |open|
    ensures m < k ==> open[m] < open[k]
    ensures k < m ==> open[k] < open[m]
  {
    if m < k {
      OpenDistinct(cells, kids, parent, pos, open, groups, m, k - 1);
      assert GroupAt(cells, kids, open, groups, k - 1);
    } else if k < m {
      OpenDistinct(cells, kids, parent, pos, open, groups, m - 1, k);
      assert GroupAt(cells, kids, open, groups, m - 1);
    }
  }

  ghost function Innermost(open: seq<nat>): int {
    if open == [] then -1 else open[|open| - 1]
  }

  ghost function ParentAfter(parent: seq<nat>, p: int): seq<nat> {
    parent + [if p < 0 then 0 else p]
  }

  ghost function PosAfter(kids: seq<seq<nat>>, pos: seq<nat>, p: int): seq<nat>
    requires p < |kids|
  {
    pos + [if p < 0 then 0 else |kids[p]|]
  }

  lemma AppendKeepsLabels(cells: seq<Cell>, p: int, cells': seq<Cell>)
    requires p < |cells| && Appended(cells, p, cells')
    ensures forall i :: 0 <= i < |cells| ==> SameLabel(cells[i], cells'[i])
  {
    forall i | 0 <= i < |cells| ensures SameLabel(cells[i], cells'[i]) {
      assert cells'[i] == Relinked(cells, p, i);
    }
  }

  lemma LinkedOrdered(cells: seq<Cell>, kids: seq<seq<nat>>, parent: seq<nat>, pos: seq<nat>)
    requires Linked(cells, kids, parent, pos)
    ensures Ordered(cells, kids)
  {
    forall i, k | 0 <= i < |kids| && 0 <= k < |kids[i]| ensures i < kids[i][k] < |cells| {
      assert LinkAt(cells, kids, parent, pos, i, k);
    }
  }

  /** A new cell inside the innermost open group: links, order and closed trees. */
  lemma NewCell(cells: seq<Cell>, kids: seq<seq<nat>>, parent: seq<nat>, pos: seq<nat>, open: seq<nat>,
                groups: seq<Group>, cells': seq<Cell>)
    requires Shape(cells, kids, parent, pos, open, groups)
    requires Innermost(open) < |cells| && Appended(cells, Innermost(open), cells')
    ensures var p := Innermost(open);
      var kids' := KidsAfter(kids, p);
      && Linked(cells', kids', ParentAfter(parent, p), PosAfter(kids, pos, p)) && Ordered(cells', kids')
      && |kids| == |cells| && |cells'| == |kids'| == |cells| + 1
      && (forall i :: 0 <= i < |cells| ==> SameLabel(cells[i], cells'[i]))
      && (forall i :: 0 <= i < |cells| ==> kids[i] <= kids'[i])
      && (forall i :: 0 <= i < |cells| && i != p ==> kids[i] == kids'[i])
      && SameClosed(cells, kids, cells', kids', open)
  {
    var p := Innermost(open);
    var kids' := KidsAfter(kids, p);
    AppendLinks(cells, kids, parent, pos, p, cells');
    LinkedOrdered(cells', kids', ParentAfter(parent, p), PosAfter(kids, pos, p));
    AppendKeepsLabels(cells, p, cells');
    hide Linked, Ordered, SameLabel, GroupAt;
    ClosedStay(cells, kids, parent, pos, open, groups, cells', kids');
  }

  lemma InnermostFacts(cells: seq<Cell>, kids: seq<seq<nat>>, parent: seq<nat>, pos: seq<nat>, open: seq<nat>,
                       groups: seq<Group>)
    requires Shape(cells, kids, parent, pos, open, groups)
    ensures Innermost(open) < |cells| == |kids|
    ensures forall k :: 0 <= k < |open| - 1 ==> open[k] != Innermost(open)
  {
    if open != [] {
      assert GroupAt(cells, kids, open, groups, |open| - 1);
      forall k | 0 <= k < |open| - 1 ensures open[k] != Innermost(open) {
        OpenDistinct(cells, kids, parent, pos, open, groups, k, |open| - 1);
      }
    }
  }

  /** The role GROUP_OPEN. */
  lemma ShapeOpens(cells: seq<Cell>, kids: seq<seq<nat>>, parent: seq<nat>, pos: seq<nat>, open: seq<nat>,
                   groups: seq<Group>, cells': seq<Cell>, connector: Connector)
    requires Shape(cells, kids, parent, pos, open, groups)
    requires Innermost(open) < |cells| && Appended(cells, Innermost(open), cells')
    requires cells'[|cells|].ctype == SEQ
    ensures var p := Innermost(open);
      Shape(cells', KidsAfter(kids, p), ParentAfter(parent, p), PosAfter(kids, pos, p),
            open + [|cells|], groups + [Group(SEQ, connector, [])])
  {
    hide Linked, KidsAfter, ParentAfter, PosAfter, Ordered, Appended, GroupAt;
    InnermostFacts(cells, kids, parent, pos, open, groups);
    var p := Innermost(open);
    var kids', open', groups' := KidsAfter(kids, p), open + [|cells|], groups + [Group(SEQ, connector, [])];
    NewCell(cells, kids, parent, pos, open, groups, cells');
    ClosedStay(cells, kids, parent, pos, open, groups, cells', kids');
    InnermostFacts(cells, kids, parent, pos, open, groups);
    NamesChildless(cells, kids, parent, pos, open, groups, cells');
    forall k | 0 <= k < |open'| ensures GroupAt(cells', kids', open', groups', k) {
      OpensAt(cells, kids, parent, pos, open, groups, cells', kids', open', groups', k);
    }
  }

  /** The open groups keep their members when a cell is added to the innermost one. */
  ghost predicate GainsCell(cells: seq<Cell>, kids: seq<seq<nat>>, parent: seq<nat>, pos: seq<nat>, open: seq<nat>,
                            groups: seq<Group>, cells': seq<Cell>, kids': seq<seq<nat>>)
  {
    && Shape(cells, kids, parent, pos, open, groups)
    && Ordered(cells', kids') && |cells'| == |cells| + 1
    && Innermost(open) < |cells| && kids' == KidsAfter(kids, Innermost(open))
    && (forall i :: 0 <= i < |cells| ==> SameLabel(cells[i], cells'[i]))
    && (forall k :: 0 <= k < |open| - 1 ==> open[k] != Innermost(open))
    && (forall k :: 0 <= k < |open| ==>
          && open[k] < |cells| && 0 <= MemberCount(kids, open, k) <= |kids[open[k]]|
          && Trees(cells', kids', open[k], MemberCount(kids, open, k)) ==
            Trees(cells, kids, open[k], MemberCount(kids, open, k)))
  }

  lemma OpensAt(cells: seq<Cell>, kids: seq<seq<nat>>, parent: seq<nat>, pos: seq<nat>, open: seq<nat>,
                groups: seq<Group>,
                cells': seq<Cell>, kids': seq<seq<nat>>, open': seq<nat>, groups': seq<Group>, k: nat)
    requires GainsCell(cells, kids, parent, pos, open, groups, cells', kids')
    requires |groups'| == |groups| + 1 && groups'[..|groups|] == groups && groups'[|groups|].ctype == SEQ &&
      groups'[|groups|].members == []
    requires open' == open + [|cells|] && k < |open'| && cells'[|cells|].ctype == SEQ
    ensures GroupAt(cells', kids', open', groups', k)
  {
    hide Linked, Ordered, KidsAfter;
    if k < |open| {
      assert GroupAt(cells, kids, open, groups, k);
      assert groups'[k] == groups[k];
      KidsAfterAt(kids, Innermost(open), open[k]);
    } else {
      KidsAfterAt(kids, Innermost(open), |cells|);
    }
  }

  lemma NameAt(cells: seq<Cell>, kids: seq<seq<nat>>, parent: seq<nat>, pos: seq<nat>, open: seq<nat>,
               groups: seq<Group>, cells': seq<Cell>, kids': seq<seq<nat>>, c: Content, k: nat)
    requires GainsCell(cells, kids, parent, pos, open, groups, cells', kids')
    requires k < |open| && Tree(cells', kids', |cells|) == c
    ensures GroupAt(cells', kids', open, AddMember(groups, c), k)
  {
    hide Linked, Ordered, KidsAfter, Tree, Trees, AddMember;
    assert GroupAt(cells, kids, open, groups, k);
    KidsAfterAt(kids, Innermost(open), open[k]);
    AddedTo(groups, c, k);
    if k + 1 == |open| {
      OneMoreTree(cells', kids', open[k], |kids[open[k]]|);
    }
  }

  lemma AddedTo(groups: seq<Group>, c: Content, k: nat)
    requires k < |groups|
    ensures AddMember(groups, c)[k].ctype == groups[k].ctype
    ensures AddMember(groups, c)[k].members == if k + 1 == |groups| then groups[k].members + [c] else groups[k].members
  {}

  lemma OneMoreTree(cells: seq<Cell>, kids: seq<seq<nat>>, i: nat, n: nat)
    requires Ordered(cells, kids) && i < |cells| && n < |kids[i]|
    ensures Trees(cells, kids, i, n + 1) == Trees(cells, kids, i, n) + [Tree(cells, kids, kids[i][n])]
  {
    hide Tree;
  }

  lemma KidsAfterAt(kids: seq<seq<nat>>, p: int, i: nat)
    requires p < |kids| && i <= |kids|
    ensures KidsAfter(kids, p)[i] ==
      if i == |kids| then [] else if i == p then kids[i] + [|kids|] else kids[i]
  {}

  lemma NamesChildless(cells: seq<Cell>, kids: seq<seq<nat>>, parent: seq<nat>, pos: seq<nat>, open: seq<nat>,
                       groups: seq<Group>, cells': seq<Cell>)
    requires Shape(cells, kids, parent, pos, open, groups)
    requires Innermost(open) < |cells| && Appended(cells, Innermost(open), cells')
    ensures forall i :: 0 <= i < |cells'| && cells'[i].ctype == NAME ==> KidsAfter(kids, Innermost(open))[i] == []
  {
    if open != [] {
      assert GroupAt(cells, kids, open, groups, |open| - 1);
    }
    hide Linked, Ordered;
    forall i | 0 <= i < |cells'| && cells'[i].ctype == NAME ensures KidsAfter(kids, Innermost(open))[i] == [] {
      if i < |cells| {
        assert cells'[i] == Relinked(cells, Innermost(open), i);
      }
    }
  }

  lemma TreeOfName(cells: seq<Cell>, kids: seq<seq<nat>>, i: nat)
    requires Ordered(cells, kids) && i < |cells| && cells[i].ctype == NAME && kids[i] == []
    ensures Tree(cells, kids, i) == Content(NAME, cells[i].quant, cells[i].name, [])
  {}

  /** The roles CONTENT_ELEMENT. */
  lemma ShapeGainsName(cells: seq<Cell>, kids: seq<seq<nat>>, parent: seq<nat>, pos: seq<nat>, open: seq<nat>,
                       groups: seq<Group>, cells': seq<Cell>, q: Quant, name: string)
    requires Shape(cells, kids, parent, pos, open, groups) && open != []
    requires Innermost(open) < |cells| && Appended(cells, Innermost(open), cells')
    requires cells'[|cells|].ctype == NAME && cells'[|cells|].quant == q && cells'[|cells|].name == name
    ensures var p := Innermost(open);
      Shape(cells', KidsAfter(kids, p), ParentAfter(parent, p), PosAfter(kids, pos, p),
            open, AddMember(groups, Content(NAME, q, name, [])))
  {
    hide Linked, KidsAfter, ParentAfter, PosAfter, Ordered, Appended, Tree, GroupAt;
    var p := Innermost(open);
    var kids', groups' := KidsAfter(kids, p), AddMember(groups, Content(NAME, q, name, []));
    NewCell(cells, kids, parent, pos, open, groups, cells');
    ClosedStay(cells, kids, parent, pos, open, groups, cells', kids');
    InnermostFacts(cells, kids, parent, pos, open, groups);
    NamesChildless(cells, kids, parent, pos, open, groups, cells');
    KidsAfterAt(kids, p, |cells|);
    TreeOfName(cells', kids', |cells|);
    forall k | 0 <= k < |open| ensures GroupAt(cells', kids', open, groups', k) {
      NameAt(cells, kids, parent, pos, open, groups, cells', kids', Content(NAME, q, name, []), k);
    }
  }

  /** Setting the type of the innermost open group. */
  lemma ShapeRetyped(cells: seq<Cell>, kids: seq<seq<nat>>, parent: seq<nat>, pos: seq<nat>, open: seq<nat>,
                     groups: seq<Group>, cells': seq<Cell>, g: Group)
    requires Shape(cells, kids, parent, pos, open, groups) && open != []
    requires g.members == groups[|groups| - 1].members && IsGroupType(g.ctype)
    requires open[|open| - 1] < |cells|
    requires var i := open[|open| - 1]; cells' == cells[i := cells[i].(ctype := g.ctype)]
    ensures Shape(cells', kids, parent, pos, open, groups[|groups| - 1 := g])
  {
    hide Linked, Ordered, Trees;
    var n := |open| - 1;
    var groups' := groups[n := g];
    assert GroupAt(cells, kids, open, groups, n);
    InnermostFacts(cells, kids, parent, pos, open, groups);
    SameLinks(cells, kids, parent, pos, cells');
    ClosedStay(cells, kids, parent, pos, open, groups, cells', kids);
    forall k | 0 <= k < |open| ensures GroupAt(cells', kids, open, groups', k) {
      assert GroupAt(cells, kids, open, groups, k);
    }
  }

  lemma SameLinks(cells: seq<Cell>, kids: seq<seq<nat>>, parent: seq<nat>, pos: seq<nat>, cells': seq<Cell>)
    requires Linked(cells, kids, parent, pos) && Ordered(cells, kids) && |cells'| == |cells|
    requires forall i :: 0 <= i < |cells| ==> cells'[i] == cells[i].(ctype := cells'[i].ctype, quant := cells'[i].quant)
    ensures Linked(cells', kids, parent, pos) && Ordered(cells', kids)
  {
    forall i | 0 <= i < |cells'| ensures HasKids(cells'[i], kids[i]) {
      assert HasKids(cells[i], kids[i]);
    }
    forall i, k | 0 <= i < |kids| && 0 <= k < |kids[i]| ensures LinkAt(cells', kids, parent, pos, i, k) {
      assert LinkAt(cells, kids, parent, pos, i, k);
    }
  }

  /** The roles GROUP_CLOSE: the innermost group becomes a tree. */
  lemma ClosedTree(cells: seq<Cell>, kids: seq<seq<nat>>, parent: seq<nat>, pos: seq<nat>, open: seq<nat>,
                   groups: seq<Group>, cells': seq<Cell>, q: Quant)
    requires Shape(cells, kids, parent, pos, open, groups) && open != []
    requires open[|open| - 1] < |cells|
    requires var i := open[|open| - 1]; cells' == cells[i := cells[i].(quant := q)]
    ensures Linked(cells', kids, parent, pos) && Ordered(cells', kids)
    ensures forall i :: 0 <= i < |cells'| && cells'[i].ctype == NAME ==> kids[i] == []
    ensures var top := groups[|groups| - 1];
      Tree(cells', kids, open[|open| - 1]) == Content(top.ctype, q, "", top.members)
  {
    SameLinks(cells, kids, parent, pos, cells');
    InnermostFacts(cells, kids, parent, pos, open, groups);
    ClosedStay(cells, kids, parent, pos, open, groups, cells', kids);
    assert GroupAt(cells, kids, open, groups, |open| - 1);
    hide Linked, Ordered, Trees;
  }

  lemma ShapeCloses(cells: seq<Cell>, kids: seq<seq<nat>>, parent: seq<nat>, pos: seq<nat>, open: seq<nat>,
                    groups: seq<Group>, cells': seq<Cell>, q: Quant)
    requires Shape(cells, kids, parent, pos, open, groups) && |open| >= 2
    requires open[|open| - 1] < |cells|
    requires var i := open[|open| - 1]; cells' == cells[i := cells[i].(quant := q)]
    ensures var n := |open| - 1;
      var c := Content(groups[n].ctype, q, "", groups[n].members);
      Shape(cells', kids, parent, pos, open[..n], AddMember(groups[..n], c))
  {
    var n := |open| - 1;
    var c := Content(groups[n].ctype, q, "", groups[n].members);
    var open', groups' := open[..n], AddMember(groups[..n], c);
    ClosedTree(cells, kids, parent, pos, open, groups, cells', q);
    InnermostFacts(cells, kids, parent, pos, open, groups);
    ClosedStay(cells, kids, parent, pos, open, groups, cells', kids);
    hide Linked, Ordered, Tree;
    forall k | 0 <= k < |open'| ensures GroupAt(cells', kids, open', groups', k) {
      assert GroupAt(cells, kids, open, groups, k);
    }
  }
}
