/** The context string handed to external entity handlers: getContext prints the namespace bindings
    in force and the open entities, setContext reads them into another parser. */
module Context {
  import opened Namespaces
  import opened Wrappers

  /** CONTEXT_SEP, a form feed. */
  const FF: char := 0x0C as char

  /** What a context carries: the default namespace, the bound prefixes, the open entities. */
  datatype State = State(default: Option<string>, bindings: map<string, string>, open: set<string>)

  const Fresh: State := State(None, map[], {})

  // ---------- The string ----------

  /** The pieces separated by form feeds. */
  function Joined(pieces: seq<string>): string {
    if pieces == [] then ""
    else Joined(pieces[..|pieces| - 1]) + (if |pieces| > 1 then [FF] else "") + pieces[|pieces| - 1]
  }

  function DefaultPieces(st: State): seq<string> {
    if st.default.Some? then ["=" + st.default.value] else []
  }

  /** One piece for each prefix that is bound, in the order of the table. */
  function BindingPieces(st: State, order: seq<string>): seq<string> {
    if order == [] then []
    else
      var rest, name := BindingPieces(st, order[..|order| - 1]), order[|order| - 1];
      if name in st.bindings then rest + [name + "=" + st.bindings[name]] else rest
  }

  /** One piece for each entity that is open, in the order of the table. */
  function EntityPieces(st: State, order: seq<string>): seq<string> {
    if order == [] then []
    else
      var rest, name := EntityPieces(st, order[..|order| - 1]), order[|order| - 1];
      if name in st.open then rest + [name] else rest
  }

  function Pieces(st: State, prefixOrder: seq<string>, entityOrder: seq<string>): seq<string> {
    DefaultPieces(st) + BindingPieces(st, prefixOrder) + EntityPieces(st, entityOrder)
  }

  // ---------- Reading a string ----------

  /** The first index of c, or the length. */
  function Find(s: string, c: char): (k: nat)
    ensures k <= |s| && (k < |s| ==> s[k] == c) && forall i :: 0 <= i < k ==> s[i] != c
  {
    if s == "" || s[0] == c then 0 else 1 + Find(s[1..], c)
  }

  lemma FindIs(s: string, c: char, k: nat)
    requires k <= |s| && (k < |s| ==> s[k] == c) && forall i :: 0 <= i < k ==> s[i] != c
    ensures Find(s, c) == k
  {
    hide Find;
  }

  datatype Maybe = Read(st: State) | Refused

  /** addBinding for the prefix of this name; an empty name stands for the default namespace. */
  function Bind(st: State, name: string, uri: string): Maybe {
    if name == "" then
      if !Legal(None, uri) then Refused
      else Read(st.(default := if uri == "" then None else Some(uri)))
    else if !Legal(Some(name), uri) then Refused
    else Read(st.(bindings := st.bindings[name := uri]))
  }

  /** Refused exactly if it is not legal. */
  lemma BindCases(st: State, name: string, uri: string)
    ensures Bind(st, name, uri) ==
      if !Legal(if name == "" then None else Some(name), uri) then Refused
      else if name == "" then Read(st.(default := if uri == "" then None else Some(uri)))
      else Read(st.(bindings := st.bindings[name := uri]))
  {
    hide Legal;
  }

  /** A piece with an equals sign is a binding, any other the name of an open entity. */
  function ReadPiece(st: State, entities: set<string>, piece: string): Maybe {
    var k := Find(piece, '=');
    if k < |piece| then Bind(st, piece[..k], piece[k + 1..])
    else Read(if piece in entities then st.(open := st.open + {piece}) else st)
  }

  /** A string is read piece by piece; a form feed at the end starts no further piece. */
  function ReadAll(st: State, entities: set<string>, s: string): Maybe
    decreases |s|
  {
    if s == "" then Read(st)
    else
      var k := Find(s, FF);
      match ReadPiece(st, entities, s[..k])
      case Refused => Refused
      case Read(st') => ReadAll(st', entities, if k < |s| then s[k + 1..] else "")
  }

  // ---------- The two functions ----------

  class ContextParser {
    /** The namespace separator, NUL if there is none; with one, every stored URI ends in it. */
    const namespaceSeparator: char
    /** The declared general entities, the same in both parsers. */
    const entities: set<string>

    var defaultBinding: Option<string>
    var bindings: map<string, string>
    var open: set<string>
    var tempPool: string

    constructor (namespaceSeparator: char, entities: set<string>)
      ensures Valid() && Value() == Fresh && tempPool == ""
      ensures this.namespaceSeparator == namespaceSeparator && this.entities == entities
    {
      this.namespaceSeparator, this.entities := namespaceSeparator, entities;
      defaultBinding, bindings, open, tempPool := None, map[], {}, "";
    }

    /** BINDING.uri as addBinding fills it, and its part before the separator. */
    function Stored(uri: string): string {
      if namespaceSeparator != '\0' then uri + [namespaceSeparator] else uri
    }

    function UriLen(stored: string): int {
      if namespaceSeparator != '\0' then |stored| - 1 else |stored|
    }

    ghost predicate Valid()
      reads this
    {
      && (defaultBinding.Some? ==> UriLen(defaultBinding.value) >= 0)
      && forall n :: n in bindings ==> UriLen(bindings[n]) >= 0
    }

    ghost function Value(): State
      requires Valid()
      reads this
    {
      State(if defaultBinding.None? then None else Some(defaultBinding.value[..UriLen(defaultBinding.value)]),
            map n | n in bindings :: bindings[n][..UriLen(bindings[n])],
            open)
    }

    lemma StoredBack(uri: string)
      ensures UriLen(Stored(uri)) == |uri| && Stored(uri)[..|uri|] == uri
    {}

    /** getContext, for tables iterated in these orders. */
    method GetContext(prefixOrder: seq<string>, entityOrder: seq<string>) returns (context: string)
      requires Valid() && tempPool == ""
      modifies this`tempPool
      ensures context == Joined(Pieces(Value(), prefixOrder, entityOrder)) && tempPool == context + ['\0']
    {
      hide Joined, BindingPieces, EntityPieces;
      ghost var pieces := DefaultPieces(Value());
      var needSep := false;
      JoinedOne(pieces);
      if defaultBinding.Some? {
        tempPool := tempPool + "=";
        tempPool := tempPool + defaultBinding.value[..UriLen(defaultBinding.value)];
        needSep := true;
      }
      needSep := PrintBindings(prefixOrder, pieces, needSep);
      needSep := PrintEntities(entityOrder, pieces + BindingPieces(Value(), prefixOrder), needSep);
      context := tempPool;
      tempPool := tempPool + ['\0'];
    }

    method PrintBindings(order: seq<string>, ghost before: seq<string>, needSep: bool) returns (sep: bool)
      requires Valid() && tempPool == Joined(before) && (needSep <==> before != [])
      modifies this`tempPool
      ensures var pieces := before + BindingPieces(Value(), order);
        tempPool == Joined(pieces) && (sep <==> pieces != [])
    {
      hide Joined, BindingPieces;
      sep := needSep;
      ghost var value, pieces := Value(), before;
      BindingPiecesEmpty(value);
      var i := 0;
      while i < |order|
        invariant i <= |order| && Valid() && Value() == value
        invariant pieces == before + BindingPieces(value, order[..i])
        invariant tempPool == Joined(pieces) && (sep <==> pieces != [])
      {
        var name := order[i];
        BindingPiecesStep(value, order, i);
        if name in bindings {
          tempPool := tempPool + (if sep then [FF] else "");
          tempPool := tempPool + name;
          tempPool := tempPool + "=";
          tempPool := tempPool + bindings[name][..UriLen(bindings[name])];
          ghost var piece := name + "=" + value.bindings[name];
          JoinedMore(pieces, piece);
          AppendMore(Joined(pieces), if sep then [FF] else "", name, "=", value.bindings[name]);
          pieces := pieces + [piece];
          sep := true;
        }
        i := i + 1;
      }
      assert order[..i] == order;
    }

    method PrintEntities(order: seq<string>, ghost before: seq<string>, needSep: bool) returns (sep: bool)
      requires Valid() && tempPool == Joined(before) && (needSep <==> before != [])
      modifies this`tempPool
      ensures var pieces := before + EntityPieces(Value(), order);
        tempPool == Joined(pieces) && (sep <==> pieces != [])
    {
      hide Joined, EntityPieces;
      sep := needSep;
      ghost var value, pieces := Value(), before;
      EntityPiecesEmpty(value);
      var i := 0;
      while i < |order|
        invariant i <= |order| && Valid() && Value() == value
        invariant pieces == before + EntityPieces(value, order[..i])
        invariant tempPool == Joined(pieces) && (sep <==> pieces != [])
      {
        var name := order[i];
        EntityPiecesStep(value, order, i);
        if name in open {
          tempPool := tempPool + (if sep then [FF] else "");
          tempPool := tempPool + name;
          JoinedMore(pieces, name);
          pieces := pieces + [name];
          sep := true;
        }
        i := i + 1;
      }
      assert order[..i] == order;
    }

    /** addBinding, as far as the context goes. */
    method AddBinding(name: string, uri: string) returns (ok: bool)
      requires Valid()
      modifies this`defaultBinding, this`bindings
      ensures Valid()
      ensures ok <==> Legal(if name == "" then None else Some(name), uri)
      ensures Bind(old(Value()), name, uri) == if ok then Read(Value()) else Refused
    {
      hide Legal, Forbidden, Bind;
      StoredBack(uri);
      BindCases(Value(), name, uri);
      ghost var value := Value();
      if name == "" {
        var error := Check(None, uri);
        if error != NoError {
          return false;
        }
        defaultBinding := if uri == "" then None else Some(Stored(uri));
      } else {
        var error := Check(Some(name), uri);
        if error != NoError {
          return false;
        }
        bindings := bindings[name := Stored(uri)];
        assert Value().bindings == value.bindings[name := uri];
      }
      ok := true;
    }

    /** setContext: two cursors and a string that collects the current name. */
    method SetContext(str: string) returns (ok: bool)
      requires Valid() && tempPool == ""
      modifies this
      ensures Valid()
      ensures ok <==> ReadAll(old(Value()), entities, str).Read?
      ensures ok ==> Read(Value()) == ReadAll(old(Value()), entities, str)
    {
      hide Bind, ReadAll, Find, ReadPiece, Legal;
      ghost var before, value := Value(), Value();
      var context, s := 0, 0;
      assert str[0..] == str;
      while context != |str|
        invariant context <= s <= |str| && Valid() && Value() == value
        invariant tempPool == str[context..s]
        invariant forall i :: context <= i < s ==> str[i] != FF && str[i] != '='
        invariant ReadAll(value, entities, str[context..]) == ReadAll(before, entities, str)
        decreases |str| - context, |str| - s
      {
        if s == |str| || str[s] == FF {
          EntityPiece(value, entities, str, context, s);
          if tempPool in entities {
            open := open + {tempPool};
            value := value.(open := value.open + {tempPool});
          }
          if s != |str| {
            s := s + 1;
          }
          context := s;
          tempPool := "";
        } else if str[s] == '=' {
          var name := tempPool;
          tempPool := "";
          ghost var start := context;
          context := CopyUri(str, s + 1);
          BindingPiece(value, entities, str, start, s, context);
          ok := AddBinding(name, tempPool);
          if !ok {
            return;
          }
          value := Value();
          tempPool := "";
          if context != |str| {
            context := context + 1;
          }
          s := context;
        } else {
          assert str[context..s + 1] == str[context..s] + [str[s]];
          tempPool := tempPool + [str[s]];
          s := s + 1;
        }
      }
      assert str[context..] == "";
      ReadAllEmpty(value, entities);
      ok := true;
    }

    /** The inner loop: everything up to the next form feed. */
    method CopyUri(str: string, from: nat) returns (e: nat)
      requires from <= |str| && tempPool == ""
      modifies this`tempPool
      ensures from <= e <= |str| && (e < |str| ==> str[e] == FF) && tempPool == str[from..e]
      ensures forall i :: from <= i < e ==> str[i] != FF
    {
      e := from;
      while e != |str| && str[e] != FF
        invariant from <= e <= |str|
        invariant tempPool == str[from..e]
        invariant forall i :: from <= i < e ==> str[i] != FF
      {
        tempPool := tempPool + [str[e]];
        e := e + 1;
      }
    }
  }

  lemma ReadAllEmpty(st: State, entities: set<string>)
    ensures ReadAll(st, entities, "") == Read(st)
  {}

  function After(str: string, e: nat): (next: nat)
    requires e <= |str|
    ensures next <= |str|
  {
    if e < |str| then e + 1 else e
  }

  lemma ReadAllSteps(st: State, entities: set<string>, str: string, context: nat, e: nat)
    requires context <= e <= |str| && context < |str| && (e < |str| ==> str[e] == FF)
    requires forall i :: context <= i < e ==> str[i] != FF
    ensures ReadAll(st, entities, str[context..]) ==
      match ReadPiece(st, entities, str[context..e])
      case Refused => Refused
      case Read(st') => ReadAll(st', entities, str[After(str, e)..])
  {
    hide ReadPiece, Find;
    var t, n := str[context..], e - context;
    FindIs(t, FF, n);
    assert t[..n] == str[context..e];
    if e < |str| {
      assert t[n + 1..] == str[e + 1..];
    } else {
      assert str[e..] == "";
    }
  }

  /** Where a piece without an equals sign ends. */
  lemma EntityPiece(st: State, entities: set<string>, str: string, context: nat, s: nat)
    requires context <= s <= |str| && context < |str| && (s < |str| ==> str[s] == FF)
    requires forall i :: context <= i < s ==> str[i] != FF && str[i] != '='
    ensures ReadAll(st, entities, str[context..]) ==
      var st' := if str[context..s] in entities then st.(open := st.open + {str[context..s]}) else st;
      ReadAll(st', entities, str[After(str, s)..])
  {
    hide ReadAll, Find, Bind;
    ReadAllSteps(st, entities, str, context, s);
    FindIs(str[context..s], '=', s - context);
  }

  lemma BindingPiece(st: State, entities: set<string>, str: string, context: nat, s: nat, e: nat)
    requires context <= s < e <= |str| && str[s] == '=' && (e < |str| ==> str[e] == FF)
    requires forall i :: context <= i < s ==> str[i] != FF && str[i] != '='
    requires forall i :: s < i < e ==> str[i] != FF
    ensures ReadAll(st, entities, str[context..]) ==
      match Bind(st, str[context..s], str[s + 1..e])
      case Refused => Refused
      case Read(st') => ReadAll(st', entities, str[After(str, e)..])
  {
    hide Bind, ReadAll, Find;
    ReadAllSteps(st, entities, str, context, e);
    var piece := str[context..e];
    FindIs(piece, '=', s - context);
    assert piece[..s - context] == str[context..s] && piece[s - context + 1..] == str[s + 1..e];
  }

  lemma JoinedOne(pieces: seq<string>)
    ensures pieces == [] ==> Joined(pieces) == ""
    ensures |pieces| == 1 ==> Joined(pieces) == pieces[0]
  {}

  lemma JoinedMore(pieces: seq<string>, piece: string)
    ensures Joined(pieces + [piece]) == Joined(pieces) + (if pieces != [] then [FF] else "") + piece
  {
    assert (pieces + [piece])[..|pieces|] == pieces;
  }

  /** The format of a context: "=" and the default namespace, prefix "=" URI for each prefix that is bound,
      the names of the open entities, with one form feed between any two. */
  lemma ContextFormat(default: string, p: string, uriP: string, q: string, uriQ: string, r: string, open: string,
                      closed: string)
    requires p != q && p != r && q != r && open != closed
    ensures
      var st := State(Some(default), map[p := uriP, q := uriQ], {open});
      Joined(Pieces(st, [p, r, q], [closed, open])) ==
        "=" + default + "\U{0C}" + (p + "=" + uriP) + "\U{0C}" + (q + "=" + uriQ) + "\U{0C}" + open
    ensures Joined(Pieces(State(None, map[p := uriP], {}), [p], [open])) == p + "=" + uriP
    ensures Joined(Pieces(Fresh, [p], [open])) == ""
  {
    hide Joined, BindingPieces, EntityPieces;
    var st := State(Some(default), map[p := uriP, q := uriQ], {open});
    ThreeBindings(st, p, r, q);
    TwoEntities(st, closed, open);
    assert Pieces(st, [p, r, q], [closed, open]) == ["=" + default, p + "=" + uriP, q + "=" + uriQ, open];
    FourJoined("=" + default, p + "=" + uriP, q + "=" + uriQ, open);
    var one := State(None, map[p := uriP], {});
    ThreeBindings(one, p, p, p);
    TwoEntities(one, open, open);
    assert Pieces(one, [p], [open]) == [p + "=" + uriP];
    JoinedOne(Pieces(one, [p], [open]));
    ThreeBindings(Fresh, p, p, p);
    TwoEntities(Fresh, open, open);
    JoinedOne([]);
  }

  lemma FourJoined(a: string, b: string, c: string, d: string)
    ensures Joined([a, b, c, d]) == a + [FF] + b + [FF] + c + [FF] + d
  {
    hide Joined;
    JoinedOne([a]);
    JoinedMore([a], b);
    JoinedMore([a, b], c);
    JoinedMore([a, b, c], d);
    assert [a] + [b] == [a, b] && [a, b] + [c] == [a, b, c] && [a, b, c] + [d] == [a, b, c, d];
  }

  lemma ThreeBindings(st: State, a: string, b: string, c: string)
    ensures BindingPieces(st, [a, b, c]) == BindingPieces(st, [a]) + BindingPieces(st, [b]) + BindingPieces(st, [c])
    ensures forall n :: BindingPieces(st, [n]) == if n in st.bindings then [n + "=" + st.bindings[n]] else []
  {
    hide BindingPieces;
    assert [a, b, c][..1] == [a] && [a, b, c][..2] == [a, b] && [a, b, c][..3] == [a, b, c];
    BindingPiecesEmpty(st);
    forall n: string ensures BindingPieces(st, [n]) == if n in st.bindings then [n + "=" + st.bindings[n]] else [] {
      BindingPiecesStep(st, [n], 0);
      assert [n][..1] == [n];
    }
    BindingPiecesStep(st, [a, b, c], 1);
    BindingPiecesStep(st, [a, b, c], 2);
  }

  lemma TwoEntities(st: State, a: string, b: string)
    ensures EntityPieces(st, [a, b]) == EntityPieces(st, [a]) + EntityPieces(st, [b])
    ensures EntityPieces(st, [a]) == if a in st.open then [a] else []
    ensures EntityPieces(st, [b]) == if b in st.open then [b] else []
  {
    hide EntityPieces;
    assert [a, b][..1] == [a] && [a, b][..2] == [a, b] && [a][..1] == [a] && [b][..1] == [b];
    EntityPiecesEmpty(st);
    EntityPiecesStep(st, [a], 0);
    EntityPiecesStep(st, [b], 0);
    EntityPiecesStep(st, [a, b], 1);
  }

  lemma AppendMore(a: string, b: string, c: string, d: string, e: string)
    ensures a + b + c + d + e == a + b + (c + d + e)
  {}

  lemma BindingPiecesEmpty(st: State)
    ensures BindingPieces(st, []) == []
  {}

  lemma BindingPiecesStep(st: State, order: seq<string>, i: nat)
    requires i < |order|
    ensures BindingPieces(st, order[..i + 1]) == BindingPieces(st, order[..i]) +
      if order[i] in st.bindings then [order[i] + "=" + st.bindings[order[i]]] else []
  {
    assert order[..i + 1][..i] == order[..i];
  }

  lemma EntityPiecesEmpty(st: State)
    ensures EntityPieces(st, []) == []
  {}

  lemma EntityPiecesStep(st: State, order: seq<string>, i: nat)
    requires i < |order|
    ensures EntityPieces(st, order[..i + 1]) == EntityPieces(st, order[..i]) +
      if order[i] in st.open then [order[i]] else []
  {
    assert order[..i + 1][..i] == order[..i];
  }

  // ---------- Reading back what was printed ----------

  function ReadPieces(st: State, entities: set<string>, pieces: seq<string>): Maybe {
    if pieces == [] then Read(st)
    else
      match ReadPieces(st, entities, pieces[..|pieces| - 1])
      case Refused => Refused
      case Read(st') => ReadPiece(st', entities, pieces[|pieces| - 1])
  }

  lemma {:induction false} ReadPiecesFront(st: State, entities: set<string>, pieces: seq<string>)
    requires pieces != []
    ensures ReadPieces(st, entities, pieces) ==
      match ReadPiece(st, entities, pieces[0])
      case Refused => Refused
      case Read(st') => ReadPieces(st', entities, pieces[1..])
  {
    hide ReadPiece;
    var front := pieces[..|pieces| - 1];
    if front == [] {
      assert ReadPieces(st, entities, front) == Read(st);
    } else {
      ReadPiecesFront(st, entities, front);
      assert pieces[1..][..|pieces| - 2] == front[1..];
    }
  }

  lemma {:induction false} ReadPiecesConcat(st: State, entities: set<string>, a: seq<string>, b: seq<string>)
    ensures ReadPieces(st, entities, a + b) ==
      match ReadPieces(st, entities, a)
      case Refused => Refused
      case Read(st') => ReadPieces(st', entities, b)
  {
    hide ReadPiece;
    if b == [] {
      assert a + b == a;
    } else {
      ReadPiecesConcat(st, entities, a, b[..|b| - 1]);
      assert (a + b)[..|a + b| - 1] == a + b[..|b| - 1];
    }
  }

  ghost predicate Readable(piece: string) {
    piece != "" && FF !in piece
  }

  lemma {:induction false} JoinedFront(pieces: seq<string>)
    requires |pieces| > 1
    ensures Joined(pieces) == pieces[0] + [FF] + Joined(pieces[1..])
  {
    var front, last := pieces[..|pieces| - 1], pieces[|pieces| - 1];
    if |pieces| == 2 {
      JoinedOne(front);
      JoinedOne(pieces[1..]);
    } else {
      JoinedFront(front);
      assert front[1..] == pieces[1..][..|pieces| - 2];
      assert Joined(pieces) == Joined(front) + [FF] + last;
    }
  }

  lemma {:induction false} ReadAllReadsPieces(st: State, entities: set<string>, pieces: seq<string>)
    requires forall i :: 0 <= i < |pieces| ==> Readable(pieces[i])
    ensures ReadAll(st, entities, Joined(pieces)) == ReadPieces(st, entities, pieces)
    decreases |pieces|
  {
    hide ReadPiece, Joined, ReadAll, ReadPieces;
    if pieces == [] {
      JoinedOne(pieces);
      ReadAllEmpty(st, entities);
      ReadPiecesEmpty(st, entities);
    } else {
      var str, e := Joined(pieces), |pieces[0]|;
      if |pieces| == 1 {
        JoinedOne(pieces);
        JoinedOne(pieces[1..]);
        assert str[After(str, e)..] == Joined(pieces[1..]);
      } else {
        JoinedFront(pieces);
        assert str[After(str, e)..] == Joined(pieces[1..]);
      }
      assert str[..e] == pieces[0] && str[0..] == str && str[0..e] == str[..e];
      ReadAllSteps(st, entities, str, 0, e);
      ReadPiecesFront(st, entities, pieces);
      match ReadPiece(st, entities, pieces[0]) {
        case Refused =>
        case Read(st') => ReadAllReadsPieces(st', entities, pieces[1..]);
      }
    }
  }

  /** What getContext may rely on: names without equals signs and form feeds, URIs without form
      feeds, and only declarations that addBinding let pass. */
  ghost predicate Printable(st: State, entities: set<string>) {
    && (st.default.Some? ==> st.default.value != "" && FF !in st.default.value)
    && (st.default.Some? ==> Legal(None, st.default.value))
    && (forall n :: n in st.bindings ==> Name(n) && FF !in st.bindings[n])
    && (forall n :: n in st.bindings ==> Legal(Some(n), st.bindings[n]))
    && (forall n :: n in st.open ==> Name(n) && n in entities)
  }

  ghost predicate Name(n: string) {
    n != "" && '=' !in n && FF !in n
  }

  function BoundIn(bindings: map<string, string>, order: seq<string>): map<string, string> {
    map n | n in bindings && n in order :: bindings[n]
  }

  function OpenIn(open: set<string>, order: seq<string>): set<string> {
    set n | n in open && n in order
  }

  lemma ReadBindingPiece(st: State, entities: set<string>, name: string, uri: string)
    requires '=' !in name
    ensures ReadPiece(st, entities, name + "=" + uri) == Bind(st, name, uri)
  {
    hide Bind, Find;
    var piece := name + "=" + uri;
    FindIs(piece, '=', |name|);
    assert piece[..|name|] == name && piece[|name| + 1..] == uri;
  }

  lemma OtherPiece(st: State, entities: set<string>, name: string)
    requires '=' !in name
    ensures ReadPiece(st, entities, name) == Read(if name in entities then st.(open := st.open + {name}) else st)
  {
    hide Find, Bind;
    FindIs(name, '=', |name|);
  }

  lemma {:induction false} BindingsReadBack(st: State, entities: set<string>, order: seq<string>, onto: State)
    requires Printable(st, entities) && onto.bindings == map[]
    ensures ReadPieces(onto, entities, BindingPieces(st, order)) ==
      Read(onto.(bindings := BoundIn(st.bindings, order)))
    ensures forall i :: 0 <= i < |BindingPieces(st, order)| ==> Readable(BindingPieces(st, order)[i])
  {
    hide Legal, ReadPiece, ReadPieces;
    if order == [] {
      ReadPiecesEmpty(onto, entities);
      assert BoundIn(st.bindings, order) == map[];
    } else {
      var front, name := order[..|order| - 1], order[|order| - 1];
      BindingsReadBack(st, entities, front, onto);
      if name in st.bindings {
        var piece := name + "=" + st.bindings[name];
        ReadPiecesMore(onto, entities, BindingPieces(st, front), piece);
        var read := onto.(bindings := BoundIn(st.bindings, front));
        ReadBindingPiece(read, entities, name, st.bindings[name]);
      }
      assert BoundIn(st.bindings, order) ==
        if name in st.bindings then BoundIn(st.bindings, front)[name := st.bindings[name]]
          else BoundIn(st.bindings, front);
    }
  }

  lemma ReadPiecesEmpty(st: State, entities: set<string>)
    ensures ReadPieces(st, entities, []) == Read(st)
  {}

  lemma ReadPiecesMore(st: State, entities: set<string>, pieces: seq<string>, piece: string)
    ensures ReadPieces(st, entities, pieces + [piece]) ==
      match ReadPieces(st, entities, pieces)
      case Refused => Refused
      case Read(st') => ReadPiece(st', entities, piece)
  {
    hide ReadPiece;
    assert (pieces + [piece])[..|pieces|] == pieces;
  }

  lemma {:induction false} EntitiesReadBack(st: State, entities: set<string>, order: seq<string>, onto: State)
    requires Printable(st, entities) && onto.open == {}
    ensures ReadPieces(onto, entities, EntityPieces(st, order)) == Read(onto.(open := OpenIn(st.open, order)))
    ensures forall i :: 0 <= i < |EntityPieces(st, order)| ==> Readable(EntityPieces(st, order)[i])
  {
    hide Legal, ReadPiece, ReadPieces;
    if order == [] {
      ReadPiecesEmpty(onto, entities);
      assert OpenIn(st.open, order) == {};
    } else {
      var front, name := order[..|order| - 1], order[|order| - 1];
      EntitiesReadBack(st, entities, front, onto);
      if name in st.open {
        ReadPiecesMore(onto, entities, EntityPieces(st, front), name);
        OtherPiece(onto.(open := OpenIn(st.open, front)), entities, name);
      }
      assert OpenIn(st.open, order) == if name in st.open then OpenIn(st.open, front) + {name}
        else OpenIn(st.open, front);
    }
  }

  lemma DefaultReadBack(st: State, entities: set<string>)
    requires Printable(st, entities)
    ensures ReadPieces(Fresh, entities, DefaultPieces(st)) == Read(Fresh.(default := st.default))
    ensures forall i :: 0 <= i < |DefaultPieces(st)| ==> Readable(DefaultPieces(st)[i])
  {
    hide Legal, ReadPiece, ReadPieces;
    ReadPiecesEmpty(Fresh, entities);
    if st.default.Some? {
      var uri := st.default.value;
      ReadBindingPiece(Fresh, entities, "", uri);
      assert "" + "=" + uri == "=" + uri;
      ReadPiecesMore(Fresh, entities, [], "=" + uri);
      assert [] + ["=" + uri] == ["=" + uri];
    }
  }

  /** What a context of one piece does: a binding is made, or refused if it is not legal; the name of a
      declared entity marks it open, any other name does nothing. */
  lemma OnePieceReads(st: State, entities: set<string>, name: string, uri: string)
    requires Name(name) && FF !in uri
    ensures ReadAll(st, entities, name + "=" + uri) ==
      if Legal(Some(name), uri) then Read(st.(bindings := st.bindings[name := uri])) else Refused
    ensures ReadAll(st, entities, "=" + uri) ==
      if Legal(None, uri) then Read(st.(default := if uri == "" then None else Some(uri))) else Refused
    ensures ReadAll(st, entities, name) == Read(if name in entities then st.(open := st.open + {name}) else st)
  {
    hide ReadAll, Legal, ReadPiece, Bind;
    OnePiece(st, entities, name + "=" + uri);
    OnePiece(st, entities, "=" + uri);
    OnePiece(st, entities, name);
    ReadBindingPiece(st, entities, name, uri);
    ReadBindingPiece(st, entities, "", uri);
    assert "" + "=" + uri == "=" + uri;
    BindCases(st, name, uri);
    BindCases(st, "", uri);
    OtherPiece(st, entities, name);
  }

  lemma OnePiece(st: State, entities: set<string>, piece: string)
    requires Readable(piece)
    ensures ReadAll(st, entities, piece) == ReadPiece(st, entities, piece)
  {
    hide ReadAll, ReadPiece;
    JoinedOne([piece]);
    ReadAllReadsPieces(st, entities, [piece]);
    ReadPiecesFront(st, entities, [piece]);
    assert [piece][1..] == [];
  }

  /** setContext undoes getContext, in whatever order the two tables are iterated. */
  lemma ContextRoundTrip(st: State, entities: set<string>, prefixOrder: seq<string>, entityOrder: seq<string>)
    requires Printable(st, entities)
    requires forall n :: n in st.bindings ==> n in prefixOrder
    requires forall n :: n in st.open ==> n in entityOrder
    ensures ReadAll(Fresh, entities, Joined(Pieces(st, prefixOrder, entityOrder))) == Read(st)
  {
    hide Printable, ReadPieces, ReadAll, Joined, BindingPieces, EntityPieces, DefaultPieces, ReadPiece;
    var d, b, e := DefaultPieces(st), BindingPieces(st, prefixOrder), EntityPieces(st, entityOrder);
    var st1 := Fresh.(default := st.default);
    var st2 := st1.(bindings := BoundIn(st.bindings, prefixOrder));
    DefaultReadBack(st, entities);
    BindingsReadBack(st, entities, prefixOrder, st1);
    EntitiesReadBack(st, entities, entityOrder, st2);
    ReadPiecesConcat(Fresh, entities, d, b);
    ReadPiecesConcat(Fresh, entities, d + b, e);
    ReadAllReadsPieces(Fresh, entities, d + b + e);
    assert BoundIn(st.bindings, prefixOrder) == st.bindings;
    assert OpenIn(st.open, entityOrder) == st.open;
  }

  /** A parser created for an external entity: it starts with a copy of the declarations and reads
      the context of its parent. */
  method HandOver(parent: ContextParser, child: ContextParser, prefixOrder: seq<string>, entityOrder: seq<string>)
    returns (ok: bool)
    requires parent != child && parent.Valid() && parent.tempPool == ""
    requires child.Valid() && child.tempPool == "" && child.Value() == Fresh && child.entities == parent.entities
    requires Printable(parent.Value(), parent.entities)
    requires forall n :: n in parent.bindings ==> n in prefixOrder
    requires forall n :: n in parent.open ==> n in entityOrder
    modifies parent`tempPool, child
    ensures ok && child.Valid() && child.Value() == old(parent.Value())
  {
    hide Printable, ReadAll, Joined, Pieces;
    ContextRoundTrip(parent.Value(), parent.entities, prefixOrder, entityOrder);
    var context := parent.GetContext(prefixOrder, entityOrder);
    ok := child.SetContext(context);
  }
}
