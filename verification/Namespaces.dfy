/** Namespace declarations in scope: the BINDING records that addBinding links into an element's
    list and in front of the older bindings of a prefix, and that the end of the element unlinks
    in the opposite order. */
module Namespaces {
  import opened Wrappers

  datatype Error = NoError | UndeclaringPrefix | ReservedPrefixXmlns | ReservedPrefixXml | ReservedNamespaceUri

  const XML_NAMESPACE := "http://www.w3.org/XML/1998/namespace"
  const XMLNS_NAMESPACE := "http://www.w3.org/2000/xmlns/"

  // ---------- Which declarations are allowed ----------

  /** Namespaces in XML 1.0: no prefix may be undeclared, `xmlns` may not be declared, and `xml`
      and its namespace belong together. The default namespace has no name. */
  function Forbidden(name: Option<string>, uri: string): Error {
    if uri == "" && name.Some? then UndeclaringPrefix
    else if name == Some("xmlns") then ReservedPrefixXmlns
    else if name == Some("xml") && uri != XML_NAMESPACE then ReservedPrefixXml
    else if name != Some("xml") && uri == XML_NAMESPACE then ReservedNamespaceUri
    else if uri == XMLNS_NAMESPACE then ReservedNamespaceUri
    else NoError
  }

  /** Namespaces in XML 1.0 section 3: the prefix `xml` and its namespace only go with each other, `xmlns`
      and its namespace with nothing, and only the default may be declared empty. */
  predicate Legal(name: Option<string>, uri: string) {
    && uri != "http://www.w3.org/2000/xmlns/"
    && (name == Some("xml") <==> uri == "http://www.w3.org/XML/1998/namespace")
    && (name.Some? ==> uri != "" && name != Some("xmlns"))
  }

  /** The error for a declaration, and that there is none exactly if it is legal. */
  predicate Reports(error: Error, name: Option<string>, uri: string) {
    && (error == NoError <==> Legal(name, uri))
    && (error == UndeclaringPrefix <==> name.Some? && uri == "")
    && (error == ReservedPrefixXmlns <==> name == Some("xmlns") && uri != "")
    && (error == ReservedPrefixXml <==>
        name == Some("xml") && uri != "" && uri != "http://www.w3.org/XML/1998/namespace")
    && (error == ReservedNamespaceUri <==>
        && name != Some("xml") && name != Some("xmlns")
        && (uri == "http://www.w3.org/XML/1998/namespace" || uri == "http://www.w3.org/2000/xmlns/"))
  }

  lemma ForbiddenReports(name: Option<string>, uri: string)
    ensures Reports(Forbidden(name, uri), name, uri)
  {
    assert |"http://www.w3.org/XML/1998/namespace"| == 36 && |"http://www.w3.org/2000/xmlns/"| == 29;
  }

  /** The loop of addBinding that compares a URI with both reserved ones at once. */
  method CompareReserved(uri: string, mustBeXML: bool, xmlNamespace: string, xmlnsNamespace: string)
    returns (isXML: bool, isXMLNS: bool)
    ensures isXML <==> uri == xmlNamespace
    ensures mustBeXML ==> (isXMLNS <==> |uri| == |xmlnsNamespace|)
    ensures !mustBeXML ==> (isXMLNS <==> uri == xmlnsNamespace)
  {
    isXML, isXMLNS := true, true;
    var len := 0;
    while len < |uri|
      invariant len <= |uri|
      invariant isXML <==> uri[..len] <= xmlNamespace
      invariant mustBeXML ==> isXMLNS
      invariant !mustBeXML ==> (isXMLNS <==> uri[..len] <= xmlnsNamespace)
    {
      if isXML && (len >= |xmlNamespace| || uri[len] != xmlNamespace[len]) {
        isXML := false;
      }
      if !mustBeXML && isXMLNS && (len >= |xmlnsNamespace| || uri[len] != xmlnsNamespace[len]) {
        isXMLNS := false;
      }
      assert uri[..len + 1] == uri[..len] + [uri[len]];
      len := len + 1;
    }
    assert uri[..len] == uri;
    isXML := isXML && len == |xmlNamespace|;
    isXMLNS := isXMLNS && len == |xmlnsNamespace|;
  }

  /** The checks at the start of addBinding. */
  method Check(name: Option<string>, uri: string) returns (error: Error)
    ensures error == Forbidden(name, uri) && Reports(error, name, uri)
  {
    ForbiddenReports(name, uri);
    if uri == "" && name.Some? {
      return UndeclaringPrefix;
    }
    if name == Some("xmlns") {
      return ReservedPrefixXmlns;
    }
    var mustBeXML := name == Some("xml");
    var isXML, isXMLNS := CompareReserved(uri, mustBeXML, XML_NAMESPACE, XMLNS_NAMESPACE);
    if mustBeXML != isXML {
      return if mustBeXML then ReservedPrefixXml else ReservedNamespaceUri;
    }
    if isXMLNS {
      return ReservedNamespaceUri;
    }
    error := NoError;
  }

  // ---------- Records and prefixes ----------

  /** PREFIX; the default prefix has no name. */
  class Prefix {
    const name: Option<string>
    var binding: Binding?

    constructor (name: Option<string>)
      ensures this.name == name && binding == null
    {
      this.name, binding := name, null;
    }
  }

  /** BINDING; uri without the separator that is stored after it. */
  class Binding {
    var prefix: Prefix
    var nextTagBinding: Binding?
    var prevPrefixBinding: Binding?
    var uri: string

    constructor (prefix: Prefix, uri: string)
      ensures this.prefix == prefix && this.uri == uri && nextTagBinding == null && prevPrefixBinding == null
    {
      this.prefix, this.uri, nextTagBinding, prevPrefixBinding := prefix, uri, null, null;
    }
  }

  /** What a declaration makes its prefix stand for: nothing, if it undeclares the default. */
  ghost function Effect(b: Binding): Binding?
    reads b
  {
    if b.uri == "" && b.prefix.name.None? then null else b
  }

  /** The first record of the prefix, from the newest on. */
  ghost function Newest(stack: seq<Binding>, p: Prefix): Binding?
    reads stack
  {
    if stack == [] then null
    else if stack[0].prefix == p then Effect(stack[0])
    else Newest(stack[1..], p)
  }

  /** A declaration in force, newest first, as a value. */
  datatype Declaration = Declaration(prefix: Prefix, uri: string)

  ghost function Declarations(stack: seq<Binding>): seq<Declaration>
    reads stack
  {
    if stack == [] then [] else [Declaration(stack[0].prefix, stack[0].uri)] + Declarations(stack[1..])
  }

  /** Namespaces in XML 1.0 section 6: the innermost declaration of the prefix counts, and an empty
      one takes the default namespace away. */
  ghost function InScope(ds: seq<Declaration>, p: Prefix): Option<string> {
    if ds == [] then None
    else if ds[0].prefix == p then if ds[0].uri == "" && p.name.None? then None else Some(ds[0].uri)
    else InScope(ds[1..], p)
  }

  ghost function Uri(b: Binding?): Option<string>
    reads b
  {
    if b == null then None else Some(b.uri)
  }

  lemma {:induction false} NewestIsInScope(stack: seq<Binding>, p: Prefix)
    ensures Uri(Newest(stack, p)) == InScope(Declarations(stack), p)
    decreases |stack|
  {
    if stack != [] {
      NewestIsInScope(stack[1..], p);
      assert Declarations(stack)[1..] == Declarations(stack[1..]);
    }
  }

  ghost predicate Distinct(s: seq<Binding>) {
    forall i, j :: 0 <= i < j < |s| ==> s[i] != s[j]
  }

  ghost predicate Separate(stack: seq<Binding>, free: seq<Binding>) {
    Distinct(stack) && Distinct(free) && forall b | b in stack :: b !in free
  }

  /** A list linked by nextTagBinding. */
  ghost predicate Chain(head: Binding?, s: seq<Binding>)
    reads s
  {
    if s == [] then head == null else head == s[0] && Chain(s[0].nextTagBinding, s[1..])
  }

  /** The lists split the stack from the newest record on. */
  ghost predicate LinkedFrom(stack: seq<Binding>, counts: seq<nat>, heads: seq<Binding?>)
    requires |counts| == |heads|
    reads stack
    decreases |counts|
  {
    if counts == [] then stack == []
    else
      && counts[0] <= |stack| && Chain(heads[0], stack[..counts[0]])
      && LinkedFrom(stack[counts[0]..], counts[1..], heads[1..])
  }

  class Scopes {
    /** The binding lists of the open elements, innermost first; the last is m_inheritedBindings. */
    var tagBindings: seq<Binding?>
    var freeBindingList: Binding?

    ghost const prefixes: set<Prefix>

    /** The records in force, newest first; how many each open element has; the free records. */
    ghost var stack: seq<Binding>
    ghost var counts: seq<nat>
    ghost var free: seq<Binding>

    ghost predicate Linked()
      requires |counts| == |tagBindings|
      reads this`stack, this`counts, this`tagBindings, stack
    {
      LinkedFrom(stack, counts, tagBindings)
    }

    ghost predicate Restorable()
      reads this`stack, prefixes, stack
    {
      && (forall i :: 0 <= i < |stack| ==> stack[i].prefix in prefixes)
      && (forall i :: 0 <= i < |stack| ==> stack[i].prevPrefixBinding == Newest(stack[i + 1..], stack[i].prefix))
      && (forall p :: p in prefixes ==> p.binding == Newest(stack, p))
    }

    ghost predicate Valid()
      reads this, prefixes, stack, free
    {
      && Separate(stack, free)
      && |counts| == |tagBindings| >= 1
      && Linked() && Restorable() && Chain(freeBindingList, free)
    }

    constructor (ghost prefixes: set<Prefix>)
      requires forall p :: p in prefixes ==> p.binding == null
      ensures Valid() && this.prefixes == prefixes && counts == [0] && stack == [] && free == []
    {
      tagBindings, freeBindingList := [null], null;
      this.prefixes := prefixes;
      stack, counts, free := [], [0], [];
    }

    /** The prefixes stand for what the declarations in scope say. */
    lemma BindingsInScope(p: Prefix)
      requires Valid() && p in prefixes
      ensures Uri(p.binding) == InScope(Declarations(stack), p)
    {
      NewestIsInScope(stack, p);
    }

    /** A start tag opens an empty list. */
    method StartElement()
      requires Valid()
      modifies this`tagBindings, this`counts
      ensures Valid() && tagBindings == [null] + old(tagBindings) && counts == [0] + old(counts)
    {
      tagBindings := [null] + tagBindings;
      counts := [0] + counts;
      assert stack[0..] == stack && counts[1..] == old(counts) && tagBindings[1..] == old(tagBindings);
    }

    /** A record from the free list, or a new one. */
    method Allocate(prefix: Prefix, uri: string) returns (b: Binding)
      requires Valid()
      modifies this`freeBindingList, this`free, if free != [] then {free[0]} else {}
      ensures Separate(stack, free) && b !in stack && b !in free && Chain(freeBindingList, free)
      ensures b.prefix == prefix && b.uri == uri
      ensures if old(free) != [] then b == old(free)[0] && free == old(free)[1..] else fresh(b) && free == []
    {
      if freeBindingList != null {
        b := freeBindingList;
        b.prefix := prefix;
        b.uri := uri;
        freeBindingList := b.nextTagBinding;
        free := free[1..];
      } else {
        b := new Binding(prefix, uri);
      }
    }

    /** Put a record in front of the list of the innermost element and of its prefix. */
    method Link(b: Binding)
      requires |counts| == |tagBindings| >= 1 && Linked() && Restorable()
      requires b !in stack && b.prefix in prefixes
      modifies this`tagBindings, this`stack, this`counts, b`nextTagBinding, b`prevPrefixBinding, b.prefix`binding
      ensures |counts| == |tagBindings| >= 1 && Linked() && Restorable()
      ensures stack == [b] + old(stack) && counts == [old(counts[0]) + 1] + old(counts[1..])
    {
      hide Newest, LinkedFrom, LinkedToPrefix, Restorable, Chain;
      ghost var below := stack;
      LinkPrefix(b);
      LinkTag(b);
      stack := [b] + stack;
      assert stack[1..] == below;
      PushRestores(b, below);
    }

    /** Put a record in front of the list of the innermost element. */
    method LinkTag(b: Binding)
      requires |counts| == |tagBindings| >= 1 && Linked() && b !in stack
      modifies this`tagBindings, this`counts, b`nextTagBinding
      ensures |counts| == |tagBindings| >= 1 && LinkedFrom([b] + stack, counts, tagBindings)
      ensures counts == [old(counts[0]) + 1] + old(counts[1..])
    {
      hide LinkedFrom, Chain;
      b.nextTagBinding := tagBindings[0];
      LinkedPush(b, stack, counts, tagBindings);
      tagBindings := [b] + tagBindings[1..];
      counts := [counts[0] + 1] + counts[1..];
    }

    /** Put a record in front of the older records of its prefix. */
    method LinkPrefix(b: Binding)
      requires Restorable() && b !in stack && b.prefix in prefixes
      modifies b`prevPrefixBinding, b.prefix`binding
      ensures LinkedToPrefix(b, stack)
    {
      hide Newest;
      b.prevPrefixBinding := b.prefix.binding;
      if b.uri == "" && b.prefix.name.None? {
        b.prefix.binding := null;
      } else {
        b.prefix.binding := b;
      }
    }

    /** b is in front of the records below it, as far as the prefixes are concerned. */
    ghost predicate LinkedToPrefix(b: Binding, below: seq<Binding>)
      reads prefixes, below, b`prefix, b`uri, b`prevPrefixBinding
    {
      && b.prefix in prefixes
      && (forall i :: 0 <= i < |below| ==> below[i].prefix in prefixes)
      && (forall i :: 0 <= i < |below| ==> below[i].prevPrefixBinding == Newest(below[i + 1..], below[i].prefix))
      && b.prevPrefixBinding == Newest(below, b.prefix)
      && (forall p :: p in prefixes && p != b.prefix ==> p.binding == Newest(below, p))
      && b.prefix.binding == if b.uri == "" && b.prefix.name.None? then null else b
    }

    lemma PushRestores(b: Binding, below: seq<Binding>)
      requires stack == [b] + below && stack[1..] == below && LinkedToPrefix(b, below)
      ensures Restorable()
    {
      forall i | 0 <= i < |stack| ensures stack[i].prevPrefixBinding == Newest(stack[i + 1..], stack[i].prefix) {
        if i > 0 {
          assert stack[i] == below[i - 1] && stack[i + 1..] == below[i..];
        }
      }
    }

    /** The rest of addBinding, once the declaration has passed the checks. */
    method Bind(prefix: Prefix, uri: string)
      requires Valid() && prefix in prefixes
      modifies this`tagBindings, this`freeBindingList, this`stack, this`counts, this`free, prefix`binding, free
      ensures Valid()
      ensures Declarations(stack) == [Declaration(prefix, uri)] + old(Declarations(stack))
      ensures counts == [old(counts[0]) + 1] + old(counts[1..])
      ensures Recycled(old(stack), old(free), stack, free) && (old(free) == [] ==> fresh(stack[0]))
    {
      hide Newest, LinkedFrom, Chain, Declarations, Restorable, Linked;
      ghost var below := stack;
      var b := Allocate(prefix, uri);
      Link(b);
      DeclarationsPush(b, below);
    }

    /** addBinding for the innermost open element. */
    method AddBinding(prefix: Prefix, uri: string) returns (error: Error)
      requires Valid() && prefix in prefixes
      modifies this`tagBindings, this`freeBindingList, this`stack, this`counts, this`free, prefix`binding, free
      ensures Reports(error, prefix.name, uri)
      ensures Valid()
      ensures error != NoError ==> unchanged(this) && prefix.binding == old(prefix.binding)
      ensures error == NoError ==>
        && Declarations(stack) == [Declaration(prefix, uri)] + old(Declarations(stack))
        && counts == [old(counts[0]) + 1] + old(counts[1..])
        && Recycled(old(stack), old(free), stack, free) && (old(free) == [] ==> fresh(stack[0]))
    {
      hide Newest, LinkedFrom, Chain, Declarations, Restorable, Linked, Separate, Forbidden, Legal;
      error := Check(prefix.name, uri);
      if error != NoError {
        return;
      }
      Bind(prefix, uri);
    }

    /** The records of the innermost open element. */
    ghost function Top(): seq<Binding>
      reads this`stack, this`counts
    {
      if counts != [] && counts[0] <= |stack| then stack[..counts[0]] else []
    }

    /** Unlink the newest record: back to the free list, and its prefix back to what it stood for
        before. */
    method Unlink()
      requires Valid() && counts[0] > 0
      modifies this`tagBindings, this`freeBindingList, this`stack, this`counts, this`free, prefixes`binding,
        Top()`nextTagBinding
      ensures Valid() && old(stack) != [] && stack == old(stack[1..]) && free == [old(stack)[0]] + old(free)
      ensures counts == [old(counts[0]) - 1] + old(counts[1..])
    {
      hide Newest, LinkedFrom, Chain, Restorable, Separate;
      var b := tagBindings[0];
      LinkedPop(stack, counts, tagBindings);
      SeparatePop(stack, free);
      ghost var below := stack[1..];
      PopRestores(b, below);
      tagBindings := [b.nextTagBinding] + tagBindings[1..];
      counts := [counts[0] - 1] + counts[1..];
      stack := below;
      b.nextTagBinding := freeBindingList;
      freeBindingList := b;
      ChainPush(b, free);
      free := [b] + free;
      b.prefix.binding := b.prevPrefixBinding;
      RestoresBelow(b.prefix);
    }

    lemma RestoresBelow(p: Prefix)
      requires p in prefixes && p.binding == Newest(stack, p)
      requires forall i :: 0 <= i < |stack| ==> stack[i].prefix in prefixes
      requires forall i :: 0 <= i < |stack| ==> stack[i].prevPrefixBinding == Newest(stack[i + 1..], stack[i].prefix)
      requires forall q :: q in prefixes && q != p ==> q.binding == Newest(stack, q)
      ensures Restorable()
    {}

    lemma PopRestores(b: Binding, below: seq<Binding>)
      requires Restorable() && stack == [b] + below
      ensures b.prefix in prefixes && b.prevPrefixBinding == Newest(below, b.prefix)
      ensures forall i :: 0 <= i < |below| ==> below[i].prefix in prefixes
      ensures forall i :: 0 <= i < |below| ==> below[i].prevPrefixBinding == Newest(below[i + 1..], below[i].prefix)
      ensures forall p :: p in prefixes && p != b.prefix ==> p.binding == Newest(below, p)
    {
      assert stack[1..] == below;
      assert stack[0] == b;
      forall i | 0 <= i < |below|
        ensures below[i].prefix in prefixes && below[i].prevPrefixBinding == Newest(below[i + 1..], below[i].prefix)
      {
        assert below[i] == stack[i + 1] && below[i + 1..] == stack[i + 2..];
      }
    }

    /** The end of an element, empty or not: its list is taken apart from the front. */
    method EndElement()
      requires Valid() && |counts| >= 2
      modifies this`tagBindings, this`freeBindingList, this`stack, this`counts, this`free, prefixes`binding,
        Top()`nextTagBinding
      ensures Valid() && counts == old(counts[1..])
      ensures old(counts[0]) <= old(|stack|) && stack == old(stack)[old(counts[0])..]
      ensures free == Freed(old(stack), old(free), old(counts[0]))
    {
      hide Newest, LinkedFrom, Restorable, Chain, Separate, Freed, Linked;
      UnlinkAll();
      LeaveScope();
    }

    method UnlinkAll()
      requires Valid()
      modifies this`tagBindings, this`freeBindingList, this`stack, this`counts, this`free, prefixes`binding,
        Top()`nextTagBinding
      ensures Valid() && counts == [0] + old(counts[1..])
      ensures old(counts[0]) <= old(|stack|) && stack == old(stack)[old(counts[0])..]
      ensures free == Freed(old(stack), old(free), old(counts[0]))
    {
      hide Newest, LinkedFrom, Restorable, Chain, Separate, Freed;
      ghost var s, f, c := stack, free, counts[1..];
      ghost var n, done := counts[0], 0;
      ScopeSize(stack, counts, tagBindings);
      FreedNone(s, f);
      while tagBindings[0] != null
        invariant Valid() && done <= n <= |s| && counts == [n - done] + c
        invariant stack == s[done..] && free == Freed(s, f, done)
        decreases n - done
      {
        HeadTells(stack, counts, tagBindings);
        FreedStep(s, f, done);
        Unlink();
        done := done + 1;
      }
      HeadTells(stack, counts, tagBindings);
    }

    method LeaveScope()
      requires Valid() && |counts| >= 2 && counts[0] == 0
      modifies this`tagBindings, this`counts
      ensures Valid() && counts == old(counts[1..])
    {
      hide Newest, LinkedFrom, Restorable, Chain, Separate;
      NextScope(stack, counts, tagBindings);
      tagBindings := tagBindings[1..];
      counts := counts[1..];
    }

    /** The declarations of one start tag. */
    method Declare(ds: seq<Declaration>) returns (error: Error)
      requires Valid() && counts[0] == 0 && forall i :: 0 <= i < |ds| ==> ds[i].prefix in prefixes
      modifies this`tagBindings, this`freeBindingList, this`stack, this`counts, this`free, prefixes`binding, free
      ensures Valid()
      ensures error == NoError <==> AllAllowed(ds)
      ensures error == NoError ==>
        counts == [|ds|] + old(counts[1..]) && |stack| == |old(stack)| + |ds| && stack[|ds|..] == old(stack)
      ensures error == NoError ==> Conserved(old(stack), old(free), stack, free, |ds|)
      ensures error == NoError ==> forall k :: 0 <= k < |ds| ==> stack[k] in old(free) || fresh(stack[k])
      ensures forall k :: 0 <= k < |free| ==> free[k] in old(free)
    {
      error := NoError;
      hide Newest, LinkedFrom, Chain, Legal, Declarations, Restorable, Linked, Separate, Recycled, Conserved;
      NothingMoved(stack, free);
      var i := 0;
      while i < |ds|
        invariant i <= |ds| && Valid() && error == NoError
        invariant counts == [i] + old(counts[1..]) && |stack| == |old(stack)| + i && stack[i..] == old(stack)
        invariant Conserved(old(stack), old(free), stack, free, i)
        invariant forall k :: 0 <= k < i ==> stack[k] in old(free) || fresh(stack[k])
        invariant forall k :: 0 <= k < |free| ==> free[k] in old(free)
        invariant AllAllowed(ds[..i])
      {
        ghost var s, f := stack, free;
        error := AddBinding(ds[i].prefix, ds[i].uri);
        if error != NoError {
          return;
        }
        RecycledConserves(old(stack), old(free), s, f, stack, free, i);
        assert ds[..i + 1] == ds[..i] + [ds[i]];
        i := i + 1;
      }
      assert ds[..i] == ds;
    }

    /** The elements inside another, one after the other. */
    method ProcessContent(ts: seq<Element>) returns (error: Error)
      requires Valid() && forall i :: 0 <= i < |ts| ==> Uses(ts[i], prefixes)
      modifies this`tagBindings, this`freeBindingList, this`stack, this`counts, this`free, prefixes`binding, free
      ensures Valid()
      ensures error == NoError <==> forall i :: 0 <= i < |ts| ==> Accepted(ts[i])
      ensures error == NoError ==> stack == old(stack) && counts == old(counts)
      ensures forall k :: 0 <= k < |free| ==> free[k] in old(free) || fresh(free[k])
      ensures error == NoError ==> forall k :: 0 <= k < |old(free)| ==> old(free)[k] in free
      decreases ts, 0
    {
      hide Newest, LinkedFrom, Chain, Restorable, Linked, Separate, Uses, Accepted;
      error := NoError;
      var i := 0;
      while i < |ts|
        invariant i <= |ts| && Valid() && error == NoError
        invariant stack == old(stack) && counts == old(counts)
        invariant forall k :: 0 <= k < |free| ==> free[k] in old(free) || fresh(free[k])
        invariant forall k :: 0 <= k < |old(free)| ==> old(free)[k] in free
        invariant forall j :: 0 <= j < i ==> Accepted(ts[j])
      {
        error := ProcessElement(ts[i]);
        if error != NoError {
          return;
        }
        i := i + 1;
      }
    }

    /** An element with everything inside it: its declarations, its content, its end tag. Unless a
        declaration is refused, every prefix stands afterwards for what it stood for before, and
        all records are still there. */
    method ProcessElement(t: Element) returns (error: Error)
      requires Valid() && Uses(t, prefixes)
      modifies this`tagBindings, this`freeBindingList, this`stack, this`counts, this`free, prefixes`binding, free
      ensures Valid()
      ensures error == NoError <==> Accepted(t)
      ensures error == NoError ==> stack == old(stack) && counts == old(counts)
      ensures error == NoError ==> forall p :: p in prefixes ==> p.binding == old(p.binding)
      ensures forall k :: 0 <= k < |free| ==> free[k] in old(free) || fresh(free[k])
      ensures error == NoError ==> forall k :: 0 <= k < |old(free)| ==> old(free)[k] in free
      decreases t, 1
    {
      hide LinkedFrom, Chain, Linked, Legal, Newest, Restorable;
      ghost var below, was := stack, free;
      assert forall k :: 0 <= k < |below| ==> below[k] !in free;
      BindingsAre();
      hide Separate;
      StartElement();
      error := Declare(t.declarations);
      if error != NoError {
        return;
      }
      ghost var n, s, f := |t.declarations|, stack, free;
      error := ProcessContent(t.children);
      if error != NoError {
        return;
      }
      TopIs();
      assert Top() == s[..n];
      CloseElement(n);
      BindingsAre();
      forall p | p in prefixes ensures p.binding == old(p.binding) {
        assert Newest(below, p) == old(Newest(stack, p));
      }
    }

    /** The end of an element, as far as the records go. */
    method CloseElement(ghost n: nat)
      requires Valid() && |counts| >= 2 && counts[0] == n <= |stack|
      modifies this`tagBindings, this`freeBindingList, this`stack, this`counts, this`free, prefixes`binding,
        Top()`nextTagBinding
      ensures Valid() && counts == old(counts[1..]) && stack == old(stack)[n..]
      ensures forall k :: 0 <= k < |free| ==> free[k] in old(free) || free[k] in old(stack)[..n]
      ensures forall k :: 0 <= k < |old(free)| ==> old(free)[k] in free
      ensures forall k :: 0 <= k < n ==> old(stack)[k] in free
    {
      hide Newest, LinkedFrom, Restorable, Chain, Separate, Freed, Linked;
      FreedAre(stack, free, n);
      EndElement();
    }

    /** An element that declares xmlns="" and nothing else: the default stands for nothing in it, and for
        what it stood for before when it ends. */
    method EmptyDefault(p: Prefix) returns (inner: Binding?)
      requires Valid() && p in prefixes && p.name.None?
      modifies this`tagBindings, this`freeBindingList, this`stack, this`counts, this`free, prefixes`binding, free
      ensures Valid() && inner == null && p.binding == old(p.binding)
      ensures stack == old(stack) && counts == old(counts)
    {
      hide LinkedFrom, Chain, Linked, Newest, Restorable;
      ghost var below := stack;
      assert forall k :: 0 <= k < |below| ==> below[k] !in free;
      BindingsAre();
      hide Separate;
      StartElement();
      var error := AddBinding(p, "");
      BindingsInScope(p);
      inner := p.binding;
      TopIs();
      CloseElement(1);
      BindingsAre();
      assert Newest(below, p) == old(Newest(stack, p));
    }

    lemma BindingsAre()
      requires Valid()
      ensures forall p :: p in prefixes ==> p.binding == Newest(stack, p)
    {}

    lemma TopIs()
      requires Valid()
      ensures counts[0] <= |stack| && Top() == stack[..counts[0]]
    {
      ScopeSize(stack, counts, tagBindings);
    }
  }

  /** A document with a default namespace: in scope in the outer element, taken away by the inner one,
      and in scope again after its end tag. */
  method InnerDefault(uri: string) returns (outer: Option<string>, inner: Binding?, after: Option<string>)
    requires Legal(None, uri) && uri != ""
    ensures outer == Some(uri) && inner == null && after == Some(uri)
  {
    hide Newest, LinkedFrom, Chain, Legal, Scopes.Linked, Scopes.Restorable, Separate;
    var p := new Prefix(None);
    var scopes := new Scopes({p});
    scopes.StartElement();
    var error := scopes.AddBinding(p, uri);
    scopes.BindingsInScope(p);
    assert InScope([Declaration(p, uri)], p) == Some(uri);
    outer := if p.binding == null then None else Some(p.binding.uri);
    inner := scopes.EmptyDefault(p);
    after := if p.binding == null then None else Some(p.binding.uri);
  }

  /** Records move from the free list to the n newest in force, and no other way. */
  ghost predicate Conserved(stack: seq<Binding>, free: seq<Binding>, stack': seq<Binding>, free': seq<Binding>,
                            n: nat) {
    n <= |stack'| && forall k :: 0 <= k < |free| ==> free[k] in stack'[..n] || free[k] in free'
  }

  lemma NothingMoved(stack: seq<Binding>, free: seq<Binding>)
    ensures Conserved(stack, free, stack, free, 0)
  {}

  lemma RecycledConserves(stack0: seq<Binding>, free0: seq<Binding>, stack: seq<Binding>, free: seq<Binding>,
                          stack': seq<Binding>, free': seq<Binding>, n: nat)
    requires Conserved(stack0, free0, stack, free, n) && Recycled(stack, free, stack', free')
    ensures Conserved(stack0, free0, stack', free', n + 1)
    ensures |stack'| == |stack| + 1 && stack'[1..] == stack && stack'[n + 1..] == stack[n..]
    ensures free != [] ==> stack'[0] == free[0]
    ensures forall k :: 0 <= k < |free'| ==> free'[k] in free
  {
    assert stack'[..n + 1] == [stack'[0]] + stack[..n];
  }

  ghost predicate AllAllowed(ds: seq<Declaration>) {
    forall i :: 0 <= i < |ds| ==> Legal(ds[i].prefix.name, ds[i].uri)
  }

  /** An element: what it declares, and the elements in it. */
  datatype Element = Element(declarations: seq<Declaration>, children: seq<Element>)

  ghost predicate Uses(t: Element, prefixes: set<Prefix>) {
    && (forall i :: 0 <= i < |t.declarations| ==> t.declarations[i].prefix in prefixes)
    && (forall i :: 0 <= i < |t.children| ==> Uses(t.children[i], prefixes))
  }

  /** All declarations in it are legal. */
  ghost predicate Accepted(t: Element) {
    && AllAllowed(t.declarations)
    && (forall i :: 0 <= i < |t.children| ==> Accepted(t.children[i]))
  }

  /** The free list once the first n records of the stack have come to it, one by one. */
  ghost function Freed(stack: seq<Binding>, free: seq<Binding>, n: nat): seq<Binding>
    requires n <= |stack|
  {
    if n == 0 then free else [stack[n - 1]] + Freed(stack, free, n - 1)
  }

  lemma FreedNone(stack: seq<Binding>, free: seq<Binding>)
    ensures Freed(stack, free, 0) == free && stack[0..] == stack
  {}

  lemma FreedStep(stack: seq<Binding>, free: seq<Binding>, n: nat)
    requires n <= |stack|
    ensures n < |stack| ==> Freed(stack, free, n + 1) == [stack[n]] + Freed(stack, free, n)
    ensures n < |stack| ==> stack[n..][0] == stack[n] && stack[n..][1..] == stack[n + 1..]
  {}

  lemma {:induction false} FreedAre(stack: seq<Binding>, free: seq<Binding>, n: nat)
    requires n <= |stack|
    ensures forall k :: 0 <= k < |Freed(stack, free, n)| ==>
      Freed(stack, free, n)[k] in free || Freed(stack, free, n)[k] in stack[..n]
    ensures forall k :: 0 <= k < n ==> stack[k] in Freed(stack, free, n)
    ensures forall k :: 0 <= k < |free| ==> free[k] in Freed(stack, free, n)
  {
    if n > 0 {
      FreedAre(stack, free, n - 1);
      assert stack[..n] == stack[..n - 1] + [stack[n - 1]];
    }
  }

  lemma SeparatePop(stack: seq<Binding>, free: seq<Binding>)
    requires Separate(stack, free) && stack != []
    ensures stack == [stack[0]] + stack[1..]
    ensures stack[0] !in stack[1..] && stack[0] !in free
    ensures Separate(stack[1..], [stack[0]] + free)
  {}

  lemma LinkedPop(stack: seq<Binding>, counts: seq<nat>, heads: seq<Binding?>)
    requires |counts| == |heads| >= 1 && LinkedFrom(stack, counts, heads) && counts[0] > 0
    ensures stack != [] && heads[0] == stack[0]
    ensures LinkedFrom(stack[1..], [counts[0] - 1] + counts[1..], [stack[0].nextTagBinding] + heads[1..])
  {
    var n := counts[0];
    assert stack[1..][..n - 1] == stack[..n][1..];
    assert stack[1..][n - 1..] == stack[n..];
  }

  lemma ChainPush(b: Binding, s: seq<Binding>)
    requires Chain(b.nextTagBinding, s)
    ensures Chain(b, [b] + s)
  {
    assert ([b] + s)[1..] == s;
  }

  lemma ScopeSize(stack: seq<Binding>, counts: seq<nat>, heads: seq<Binding?>)
    requires |counts| == |heads| >= 1 && LinkedFrom(stack, counts, heads)
    ensures counts[0] <= |stack|
  {}

  lemma HeadTells(stack: seq<Binding>, counts: seq<nat>, heads: seq<Binding?>)
    requires |counts| == |heads| >= 1 && LinkedFrom(stack, counts, heads)
    ensures heads[0] == null <==> counts[0] == 0
  {}

  lemma NextScope(stack: seq<Binding>, counts: seq<nat>, heads: seq<Binding?>)
    requires |counts| == |heads| >= 1 && LinkedFrom(stack, counts, heads) && counts[0] == 0
    ensures LinkedFrom(stack, counts[1..], heads[1..])
  {
    assert stack[0..] == stack;
  }

  /** A new declaration takes the first free record, if there is one; the others stay put. */
  ghost predicate Recycled(stack: seq<Binding>, free: seq<Binding>, stack': seq<Binding>, free': seq<Binding>) {
    if free == [] then |stack'| == |stack| + 1 && stack'[1..] == stack && free' == []
    else stack' == [free[0]] + stack && free' == free[1..]
  }

  lemma DeclarationsPush(b: Binding, stack: seq<Binding>)
    ensures Declarations([b] + stack) == [Declaration(b.prefix, b.uri)] + Declarations(stack)
  {
    assert ([b] + stack)[1..] == stack;
  }

  lemma LinkedPush(b: Binding, stack: seq<Binding>, counts: seq<nat>, heads: seq<Binding?>)
    requires |counts| == |heads| >= 1 && LinkedFrom(stack, counts, heads)
    requires b !in stack && b.nextTagBinding == heads[0]
    ensures LinkedFrom([b] + stack, [counts[0] + 1] + counts[1..], [b] + heads[1..])
  {
    hide Chain;
    var n, grown, counted, headed := counts[0], [b] + stack, [counts[0] + 1] + counts[1..], [b] + heads[1..];
    assert grown[..n + 1] == [b] + stack[..n] && grown[n + 1..] == stack[n..];
    assert counted[1..] == counts[1..] && headed[1..] == heads[1..];
    ChainPush(b, stack[..n]);
  }
}
