/** An element type declaration read from its first token to its last: the role automaton and the
    DTD's scaffold working together, against the notation of content models. */
module ElementDeclaration {
  import opened XmlRole
  import opened ContentModel
  import opened Scaffold
  import opened ScaffoldDtd

  // ---------- Reading a block back ----------

  /** The characters from i up to the next NUL. */
  function CString(chars: seq<char>, i: int): string
    decreases |chars| - i
  {
    if i < 0 || i >= |chars| || chars[i] == '\0' then "" else [chars[i]] + CString(chars, i + 1)
  }

  /** The content particle a handler finds at cell d by following `children` and `name`. */
  function Read(cells: seq<XCell>, chars: seq<char>, d: nat): Content
    requires d < |cells|
    decreases |cells| - d, 0
  {
    var c := cells[d];
    if c.ctype == NAME then Content(NAME, c.quant, CString(chars, c.name), [])
    else Content(c.ctype, c.quant, "",
                 if c.children <= d then [] else ReadRange(cells, chars, d, c.children, c.numchildren))
  }

  function ReadRange(cells: seq<XCell>, chars: seq<char>, above: nat, d: nat, n: nat): seq<Content>
    requires above < |cells| && above < d
    decreases |cells| - above - 1, 1, n
  {
    if n == 0 || d + n > |cells| then []
    else ReadRange(cells, chars, above, d, n - 1) + [Read(cells, chars, d + n - 1)]
  }

  predicate NulFree(c: Content) {
    (forall i :: 0 <= i < |c.name| ==> c.name[i] != '\0') && forall k | k in c.children :: NulFree(k)
  }

  lemma {:induction false} ReadsCString(chars: seq<char>, i: nat, name: string)
    requires i + |name| + 1 <= |chars| && chars[i..i + |name| + 1] == name + ['\0']
    requires forall j :: 0 <= j < |name| ==> name[j] != '\0'
    ensures CString(chars, i) == name
    decreases |name|
  {
    var s := chars[i..i + |name| + 1];
    assert chars[i] == s[0];
    if name != "" {
      assert chars[i + 1..i + |name| + 1] == s[1..] == name[1..] + ['\0'];
      ReadsCString(chars, i + 1, name[1..]);
    }
  }

  /** Following the pointers of a block gives back the model laid out in it. */
  lemma {:induction false} ReadsBack(cells: seq<XCell>, chars: seq<char>, c: Content, d: nat, n: nat, s: nat)
    requires LaidOut(cells, chars, c, d, n, s) && d < n && NulFree(c)
    requires forall k | k in c.children :: IsParticle(k)
    requires c.ctype != NAME ==> c.name == ""
    ensures Read(cells, chars, d) == c
    decreases c, 1
  {
    if c.ctype == NAME {
      ReadsCString(chars, s, c.name);
    } else {
      AllReadBack(cells, chars, c.children, d, n, n + |c.children|, s);
    }
  }

  lemma {:induction false} AllReadBack(cells: seq<XCell>, chars: seq<char>, cs: seq<Content>, above: nat, d: nat,
                                       n: nat, s: nat)
    requires AllLaidOut(cells, chars, cs, d, n, s) && above < d && above < |cells| && d + |cs| <= n
    requires forall k | k in cs :: IsParticle(k) && NulFree(k)
    ensures ReadRange(cells, chars, above, d, |cs|) == cs
    decreases cs, 0
  {
    hide Read, ReadRange, LaidOut, AllLaidOut, NulFree, IsParticle, Below, Chars, BelowAll, CharsAll;
    if cs == [] {
      ReadNone(cells, chars, above, d);
    } else {
      var rest, last := cs[..|cs| - 1], cs[|cs| - 1];
      LastLaidOut(cells, chars, cs, d, n, s);
      AllReadBack(cells, chars, rest, above, d, n, s);
      assert last in cs && cs == rest + [last] && forall k | k in rest :: k in cs;
      ParticleChildren(last);
      LaidOutBounds(cells, chars, last, d + |rest|, n + BelowAll(rest), s + CharsAll(rest));
      ReadsBack(cells, chars, last, d + |rest|, n + BelowAll(rest), s + CharsAll(rest));
      ReadOneMore(cells, chars, above, d, |rest|);
    }
  }

  lemma ReadNone(cells: seq<XCell>, chars: seq<char>, above: nat, d: nat)
    requires above < |cells| && above < d
    ensures ReadRange(cells, chars, above, d, 0) == []
  {}

  lemma ReadOneMore(cells: seq<XCell>, chars: seq<char>, above: nat, d: nat, n: nat)
    requires above < |cells| && above < d && d + n < |cells|
    ensures ReadRange(cells, chars, above, d, n + 1) ==
      ReadRange(cells, chars, above, d, n) + [Read(cells, chars, d + n)]
  {
    hide Read;
  }

  lemma LastLaidOut(cells: seq<XCell>, chars: seq<char>, cs: seq<Content>, d: nat, n: nat, s: nat)
    requires AllLaidOut(cells, chars, cs, d, n, s) && cs != []
    ensures var rest, last := cs[..|cs| - 1], cs[|cs| - 1];
      && AllLaidOut(cells, chars, rest, d, n, s)
      && LaidOut(cells, chars, last, d + |rest|, n + BelowAll(rest), s + CharsAll(rest))
  {
    hide LaidOut;
  }

  lemma LaidOutBounds(cells: seq<XCell>, chars: seq<char>, c: Content, d: nat, n: nat, s: nat)
    requires LaidOut(cells, chars, c, d, n, s)
    ensures d < |cells|
  {}

  lemma ParticleChildren(c: Content)
    requires IsParticle(c)
    ensures c.ctype != NAME ==> c.name == ""
    ensures forall k | k in c.children :: IsParticle(k)
  {}

  /** What the handler is given reads back as the declared model. */
  lemma HandlerReadsModel(model: seq<XCell>, chars: seq<char>, c: Content)
    requires Reported(model, chars, c) && IsModel(c) && NulFree(c)
    ensures model != [] && Read(model, chars, 0) == c
  {
    if c.ctype != EMPTY && c.ctype != ANY {
      if c.ctype == MIXED {
        forall k | k in c.children ensures IsParticle(k) {}
      } else {
        ParticleChildren(c);
      }
      hide IsModel, IsParticle, Read;
      LaidOutBounds(model, chars, c, 0, 1, 0);
      ReadsBack(model, chars, c, 0, 1, 0);
    }
  }

  // ---------- Every cell is the child of one group ----------

  ghost predicate Owns(cells: seq<XCell>, i: nat, j: nat)
    requires i < |cells|
  {
    cells[i].children >= 0 && cells[i].children <= j < cells[i].children + cells[i].numchildren
  }

  /** i is the cell of the particle at d or of a descendant. */
  ghost predicate InBlock(i: nat, d: nat, n: nat, below: nat) {
    i == d || n <= i < n + below
  }

  lemma {:induction false} RangesInside(cells: seq<XCell>, chars: seq<char>, c: Content, d: nat, n: nat, s: nat, i: nat)
    requires LaidOut(cells, chars, c, d, n, s) && d < n && InBlock(i, d, n, Below(c))
    ensures forall j: nat :: Owns(cells, i, j) ==> n <= j < n + Below(c)
    decreases c, 1
  {
    if c.ctype == NAME {
      assert BelowAll([]) == 0;
    } else if i != d {
      AllRangesInside(cells, chars, c.children, n, n + |c.children|, s, i);
    }
  }

  lemma {:induction false} AllRangesInside(cells: seq<XCell>, chars: seq<char>, cs: seq<Content>, d: nat, n: nat,
                                           s: nat, i: nat)
    requires AllLaidOut(cells, chars, cs, d, n, s) && d + |cs| <= n
    requires d <= i < d + |cs| || n <= i < n + BelowAll(cs)
    requires i < |cells|
    ensures forall j: nat :: Owns(cells, i, j) ==> n <= j < n + BelowAll(cs)
    decreases cs, 0
  {
    if cs != [] {
      var rest, last := cs[..|cs| - 1], cs[|cs| - 1];
      if InBlock(i, d + |rest|, n + BelowAll(rest), Below(last)) {
        RangesInside(cells, chars, last, d + |rest|, n + BelowAll(rest), s + CharsAll(rest), i);
      } else {
        AllRangesInside(cells, chars, rest, d, n, s, i);
      }
    }
  }

  /** Every cell of a block but the first is the child of exactly one cell: the child ranges are
      disjoint and leave nothing out. */
  lemma {:induction false} OneOwner(cells: seq<XCell>, chars: seq<char>, c: Content, d: nat, n: nat, s: nat,
                                    j: nat) returns (i: nat)
    requires LaidOut(cells, chars, c, d, n, s) && d < n <= j < n + Below(c)
    ensures i < |cells| && InBlock(i, d, n, Below(c)) && Owns(cells, i, j)
    ensures forall i': nat :: i' < |cells| && InBlock(i', d, n, Below(c)) && Owns(cells, i', j) ==> i' == i
    decreases c, 1
  {
    if j < n + |c.children| {
      i := d;
      forall i': nat | i' < |cells| && InBlock(i', d, n, Below(c)) && Owns(cells, i', j) ensures i' == d {
        if i' != d {
          AllRangesInside(cells, chars, c.children, n, n + |c.children|, s, i');
        }
      }
    } else {
      i := OneOwnerAmong(cells, chars, c.children, n, n + |c.children|, s, j);
    }
  }

  lemma {:induction false} OneOwnerAmong(cells: seq<XCell>, chars: seq<char>, cs: seq<Content>, d: nat, n: nat, s: nat,
                                         j: nat) returns (i: nat)
    requires AllLaidOut(cells, chars, cs, d, n, s) && d + |cs| <= n <= j < n + BelowAll(cs)
    ensures i < |cells| && (d <= i < d + |cs| || n <= i < n + BelowAll(cs)) && Owns(cells, i, j)
    ensures forall i': nat | i' < |cells| && (d <= i' < d + |cs| || n <= i' < n + BelowAll(cs)) ::
      Owns(cells, i', j) ==> i' == i
    decreases cs, 0
  {
    hide LaidOut, Owns;
    var rest, last := cs[..|cs| - 1], cs[|cs| - 1];
    var n', s' := n + BelowAll(rest), s + CharsAll(rest);
    if j < n' {
      i := OneOwnerAmong(cells, chars, rest, d, n, s, j);
    } else {
      i := OneOwner(cells, chars, last, d + |rest|, n', s', j);
    }
    forall i': nat | i' < |cells| && (d <= i' < d + |cs| || n <= i' < n + BelowAll(cs)) && Owns(cells, i', j)
      ensures i' == i {
      if InBlock(i', d + |rest|, n', Below(last)) {
        RangesInside(cells, chars, last, d + |rest|, n', s', i');
      } else {
        AllRangesInside(cells, chars, rest, d, n, s, i');
      }
    }
  }

  /** In a block handed to the handler every cell but the first has exactly one parent. */
  lemma EveryCellHasOneParent(model: seq<XCell>, chars: seq<char>, c: Content, j: nat) returns (i: nat)
    requires Reported(model, chars, c) && 1 <= j < |model|
    ensures i < |model| && Owns(model, i, j)
    ensures forall i': nat :: i' < |model| && Owns(model, i', j) ==> i' == i
  {
    hide LaidOut, Owns;
    i := OneOwner(model, chars, c, 0, 1, 0, j);
    forall i': nat | i' < |model| && Owns(model, i', j) ensures i' == i {
      assert InBlock(i', 0, 1, Below(c));
    }
  }

  // ---------- Whole declarations ----------

  /** A machine that has not failed is ready for the role of any token. */
  lemma ReadyForRole(m: Machine, tok: Token)
    requires m.Machine? && Good(m)
    ensures var (state, role) := Next(m.state, tok); Fits(m.builder, role, state.level)
  {
    hide GroupsTrail, GroupTrail, IsParticle, IsModel, GoodGroup;
  }

  /** Any token leads from a good machine to failure or to a good machine. */
  lemma StaysGood(m: Machine, tok: Token)
    requires m.Machine? && Good(m) && (tok.PrefixedName? ==> ':' in tok.name)
    ensures Step(m, tok).Machine? ==> Good(Step(m, tok))
  {
    hide Step, Good;
    if tok == Space {
      SpaceStays(m);
    } else if tok.PrefixedName? {
      PrefixedIsName(m, tok.name);
      EveryStepExtends(m, Name(tok.name));
    } else {
      EveryStepExtends(m, tok);
    }
  }

  lemma SpaceStays(m: Machine)
    requires m.Machine? && Good(m)
    ensures Step(m, Space) == m
  {
    hide IsModel, IsParticle, GoodGroup;
  }

  class DeclarationReader {
    const prolog: PrologState
    const dtd: Dtd

    ghost function Value(): Machine
      reads prolog, dtd
    {
      Machine(prolog.Value(), dtd.Value())
    }

    ghost predicate Valid()
      reads prolog, dtd, dtd.groupConnector, dtd.scaffIndex, dtd.scaffold
    {
      dtd.Valid() && Good(Value())
    }

    constructor ()
      ensures Valid() && Ready(Value(), InternalSubset) && Value().builder.reports == [] && fresh(prolog) && fresh(dtd)
      ensures fresh(dtd.groupConnector) && fresh(dtd.scaffIndex) && fresh(dtd.scaffold)
    {
      prolog := new PrologState();
      dtd := new Dtd();
    }

    /** One round of doProlog inside an element type declaration. */
    method ReadToken(tok: Token) returns (ok: bool)
      requires Valid() && (tok.PrefixedName? ==> ':' in tok.name)
      modifies prolog, dtd, dtd.groupConnector, dtd.scaffIndex, dtd.scaffold
      ensures dtd.groupConnector == old(dtd.groupConnector) || fresh(dtd.groupConnector)
      ensures dtd.scaffIndex == old(dtd.scaffIndex) || fresh(dtd.scaffIndex)
      ensures dtd.scaffold == old(dtd.scaffold) || fresh(dtd.scaffold)
      ensures ok <==> Step(old(Value()), tok).Machine?
      ensures ok ==> Valid() && Value() == Step(old(Value()), tok)
    {
      ReadyForRole(Value(), tok);
      StaysGood(Value(), tok);
      hide Next, Act, Good, Fits;
      var role := prolog.TokenRole(tok);
      ok := dtd.Process(role, NameOf(tok), prolog.level);
    }

    /** The rounds of doProlog for these tokens. */
    method ReadTokens(toks: seq<Token>) returns (ok: bool)
      requires Valid() && Tokenized(toks)
      modifies prolog, dtd, dtd.groupConnector, dtd.scaffIndex, dtd.scaffold
      ensures dtd.groupConnector == old(dtd.groupConnector) || fresh(dtd.groupConnector)
      ensures dtd.scaffIndex == old(dtd.scaffIndex) || fresh(dtd.scaffIndex)
      ensures dtd.scaffold == old(dtd.scaffold) || fresh(dtd.scaffold)
      ensures ok <==> Run(old(Value()), toks).Machine?
      ensures ok ==> Valid() && Value() == Run(old(Value()), toks)
    {
      hide Step, Good;
      var i := 0;
      while i < |toks|
        invariant i <= |toks| && Valid() && Run(Value(), toks[i..]) == Run(old(Value()), toks)
        invariant dtd.groupConnector == old(dtd.groupConnector) || fresh(dtd.groupConnector)
        invariant dtd.scaffIndex == old(dtd.scaffIndex) || fresh(dtd.scaffIndex)
        invariant dtd.scaffold == old(dtd.scaffold) || fresh(dtd.scaffold)
      {
        assert toks[i..][1..] == toks[i + 1..];
        ok := ReadToken(toks[i]);
        if !ok {
          FailedStays(toks[i + 1..]);
          return false;
        }
        i := i + 1;
      }
      ok := true;
    }

    /** A whole declaration, whatever was declared before it: it is accepted, with one more call of
        the handler, exactly when its tokens, white space aside, are the notation of a well-formed
        model. Then the block of that call holds the model, and the next declaration can be read. */
    method ReadDeclaration(toks: seq<Token>) returns (accepted: bool)
      requires Valid() && prolog.handler == Element0 && Tokenized(toks)
      modifies prolog, dtd, dtd.groupConnector, dtd.scaffIndex, dtd.scaffold
      ensures accepted <==> exists element, c :: IsModel(c) && Strip(toks) == PrintDeclaration(element, c)
      ensures accepted ==>
        && Valid() && Ready(Value(), InternalSubset) && AllReported(dtd.handed, dtd.reports)
        && |dtd.reports| == |old(dtd.reports)| + 1 && dtd.reports[..|dtd.reports| - 1] == old(dtd.reports)
        && var d := dtd.reports[|dtd.reports| - 1];
           IsModel(d.model) && Strip(toks) == PrintDeclaration(d.name, d.model)
    {
      hide Run, Step, IsModel, PrintDeclaration, Strip, AllReported;
      Verdict(Value(), toks);
      ReadyToRead(Value());
      HandedEach(dtd.handed, dtd.reports);
      var before := |dtd.handed|;
      var ok := ReadTokens(toks);
      if !ok {
        return false;
      }
      HandedEach(dtd.handed, dtd.reports);
      accepted := prolog.handler == InternalSubset && |dtd.handed| == before + 1;
    }

    /** Any number of declarations: they are accepted exactly when the tokens, white space aside,
        are the notation of well-formed models, and then every block holds its model. */
    method ReadSubset(toks: seq<Token>) returns (accepted: bool)
      requires Valid() && prolog.handler == InternalSubset && Tokenized(toks)
      modifies prolog, dtd, dtd.groupConnector, dtd.scaffIndex, dtd.scaffold
      ensures accepted <==> exists ds :: AllModels(ds) && Strip(toks) == PrintSubset(ds)
      ensures accepted ==>
        && Valid() && Ready(Value(), InternalSubset) && AllReported(dtd.handed, dtd.reports)
        && old(dtd.reports) <= dtd.reports
        && var ds := dtd.reports[|old(dtd.reports)|..]; AllModels(ds) && Strip(toks) == PrintSubset(ds)
    {
      hide Run, Step, AllModels, PrintSubset, Strip, AllReported;
      SubsetVerdict(Value(), toks);
      ReadyToRead(Value());
      var ok := ReadTokens(toks);
      accepted := ok && prolog.handler == InternalSubset;
    }
  }

  lemma ReadyToRead(m: Machine)
    requires m.Machine? && Good(m)
    ensures m.state.handler == Element0 ==> Ready(m, Element0)
    ensures m.state.handler == InternalSubset ==> Ready(m, InternalSubset)
  {}

  lemma HandedEach(blocks: seq<Block>, ds: seq<Declaration>)
    requires AllReported(blocks, ds)
    ensures |blocks| == |ds|
  {}

  /** Reports are never taken back, and outside of a declaration another one can begin. */
  lemma RunReports(m: Machine, toks: seq<Token>)
    requires m.Machine? && Good(m) && Tokenized(toks)
    ensures var m' := Run(m, toks);
      && (m'.Machine? ==> m.builder.reports <= m'.builder.reports)
      && (m'.Machine? && m'.state.handler == InternalSubset ==> Ready(m', InternalSubset))
  {
    hide Run, Strip, IsModel;
    GoodIsQuiet(m);
    RunStrip(m, toks);
    StripStrips(toks);
    RunExtends(m, Strip(toks));
  }

  lemma GoodIsQuiet(m: Machine)
    requires m.Machine? && Good(m)
    ensures Quiet(m)
  {}

  /** DeclarationParsing, for whatever the run ends with. */
  lemma Verdict(m: Machine, toks: seq<Token>)
    requires m.Machine? && Good(m) && m.state.handler == Element0 && Tokenized(toks)
    ensures var m' := Run(m, toks);
      var n := |m.builder.reports|;
      && ((exists element, c :: IsModel(c) && Strip(toks) == PrintDeclaration(element, c)) <==>
          m'.Machine? && m'.state.handler == InternalSubset && |m'.builder.reports| == n + 1)
      && (m'.Machine? && m'.state.handler == InternalSubset && |m'.builder.reports| == n + 1 ==>
          var d := m'.builder.reports[n];
          && Ready(m', InternalSubset) && m'.builder.reports[..n] == m.builder.reports
          && IsModel(d.model) && Strip(toks) == PrintDeclaration(d.name, d.model))
  {
    hide Run, IsModel, PrintDeclaration, Strip;
    var m', n := Run(m, toks), |m.builder.reports|;
    RunReports(m, toks);
    ReadyToRead(m);
    if m'.Machine? && m'.state.handler == InternalSubset && |m'.builder.reports| == n + 1 {
      var d := m'.builder.reports[n];
      assert m'.builder.reports == m.builder.reports + [Declaration(d.name, d.model)];
      DeclarationParsing(m, toks, d.name, d.model);
    }
    forall element, c | IsModel(c) && Strip(toks) == PrintDeclaration(element, c)
      ensures m'.Machine? && m'.state.handler == InternalSubset && |m'.builder.reports| == n + 1
    {
      DeclarationParsing(m, toks, element, c);
    }
  }

  /** SubsetParsing, for whatever the run ends with. */
  lemma SubsetVerdict(m: Machine, toks: seq<Token>)
    requires m.Machine? && Good(m) && m.state.handler == InternalSubset && Tokenized(toks)
    ensures var m' := Run(m, toks);
      && ((exists ds :: AllModels(ds) && Strip(toks) == PrintSubset(ds)) <==>
          m'.Machine? && m'.state.handler == InternalSubset)
      && (m'.Machine? && m'.state.handler == InternalSubset ==>
          && Ready(m', InternalSubset) && m.builder.reports <= m'.builder.reports
          && var ds := m'.builder.reports[|m.builder.reports|..];
             AllModels(ds) && Strip(toks) == PrintSubset(ds))
  {
    hide Run, AllModels, PrintSubset, Strip;
    var m' := Run(m, toks);
    RunReports(m, toks);
    ReadyToRead(m);
    if m'.Machine? && m'.state.handler == InternalSubset {
      var ds := m'.builder.reports[|m.builder.reports|..];
      assert m'.builder.reports == m.builder.reports + ds;
      SubsetParsing(m, toks, ds);
    }
    forall ds | AllModels(ds) && Strip(toks) == PrintSubset(ds)
      ensures m'.Machine? && m'.state.handler == InternalSubset
    {
      SubsetParsing(m, toks, ds);
    }
  }
}
