/** The adapter on top of the XML parser: three handlers keep one path string and a few flags, and
    turn a document into one callback for each element. */
module PathAdapter {
  import opened Wrappers

  type Attributes = seq<(string, string)>

  /** The arguments of a callback. */
  datatype Call = Call(path: string, name: string, attrs: Option<Attributes>, value: Option<string>)

  /** What the parser reports. */
  datatype Event = Start(el: string, xattr: Attributes) | End(el: string) | Characters(txt: string)

  // ---------- Documents ----------

  /** A list of elements and chunks of text; the parser may split text anywhere. */
  datatype Forest =
    | Nothing
    | Text(chunk: string, rest: Forest)
    | Element(name: string, attrs: Attributes, content: Forest, rest: Forest)

  function Events(f: Forest): seq<Event> {
    match f
    case Nothing => []
    case Text(chunk, rest) => [Characters(chunk)] + Events(rest)
    case Element(name, attrs, content, rest) => [Start(name, attrs)] + Events(content) + [End(name)] + Events(rest)
  }

  predicate HasElement(f: Forest) {
    match f
    case Nothing => false
    case Text(_, rest) => HasElement(rest)
    case Element(_, _, _, _) => true
  }

  /** The text directly in a list. */
  function TextOf(f: Forest): string {
    match f
    case Nothing => ""
    case Text(chunk, rest) => chunk + TextOf(rest)
    case Element(_, _, _, rest) => TextOf(rest)
  }

  /** An element with elements in it has no value, and neither has an empty one. */
  function ValueOf(content: Forest): Option<string> {
    if HasElement(content) || TextOf(content) == "" then None else Some(TextOf(content))
  }

  /** One callback for each element, parents first. */
  function Calls(f: Forest, prefix: string): seq<Call> {
    match f
    case Nothing => []
    case Text(_, rest) => Calls(rest, prefix)
    case Element(name, attrs, content, rest) =>
      var path := prefix + "/" + name;
      [Call(path, name, Some(attrs), ValueOf(content))] + Calls(content, path) + Calls(rest, prefix)
  }

  /** Names without slashes, text without null characters. */
  predicate Plain(f: Forest) {
    match f
    case Nothing => true
    case Text(chunk, rest) => '\0' !in chunk && Plain(rest)
    case Element(name, _, content, rest) => '/' !in name && Plain(content) && Plain(rest)
  }

  // ---------- What the handlers do to the state ----------

  /** strrchr(path, '/'), or the length. */
  function LastSlash(path: string): (k: nat)
    ensures k <= |path| && (k < |path| ==> path[k] == '/')
    ensures forall i :: (if k < |path| then k + 1 else 0) <= i < |path| ==> path[i] != '/'
  {
    if path == "" then 0
    else if path[|path| - 1] == '/' then |path| - 1
    else
      var k := LastSlash(path[..|path| - 1]);
      if k == |path| - 1 then |path| else k
  }

  /** The part of the chunk that strncat copies. */
  function UpToNull(txt: string): (s: string)
    ensures s <= txt && '\0' !in s && (|s| < |txt| ==> txt[|s|] == '\0')
    ensures '\0' !in txt ==> s == txt
  {
    if txt == "" || txt[0] == '\0' then "" else [txt[0]] + UpToNull(txt[1..])
  }

  /** xml_data_t; the name is a pointer into the path, here an offset. */
  datatype State = State(
    path: Option<string>, name: Option<nat>, value: Option<string>, attrs: Option<Attributes>, started: bool)

  const Initial: State := State(None, None, None, None, false)

  predicate Valid(s: State) {
    && (s.name.Some? <==> s.started)
    && (s.name.Some? ==> s.path.Some? && s.name.value <= |s.path.value|)
    && (s.path.Some? ==> s.path.value != "")
  }

  function Prefix(s: State): string {
    if s.path.Some? then s.path.value else ""
  }

  function Callback(s: State, value: Option<string>): Call
    requires Valid(s) && s.started
  {
    Call(s.path.value, s.path.value[s.name.value..], s.attrs, value)
  }

  /** The state after an event and the callbacks made, unless a handler follows a null pointer. */
  datatype Outcome = Crash | Did(s: State, calls: seq<Call>)

  function Step(s: State, ev: Event): (r: Outcome)
    requires Valid(s)
    ensures r.Did? ==> Valid(r.s)
  {
    match ev
    case Start(el, xattr) =>
      var path := Prefix(s) + "/" + el;
      assert path[|Prefix(s)|] == '/';
      Did(State(Some(path), Some(LastSlash(path) + 1), None, Some(xattr), true),
          if s.started then [Callback(s, None)] else [])
    case End(_) =>
      if s.path.None? then Crash
      else
        var path := s.path.value[..LastSlash(s.path.value)];
        Did(State(if path == "" then None else Some(path), None, None, None, false),
            if s.started then [Callback(s, s.value)] else [])
    case Characters(txt) =>
      if txt == "" || !s.started then Did(s, [])
      else Did(s.(value := Some((if s.value.Some? then s.value.value else "") + UpToNull(txt))), [])
  }

  function Run(s: State, evs: seq<Event>): (r: Outcome)
    requires Valid(s)
    ensures r.Did? ==> Valid(r.s)
    decreases |evs|
  {
    if evs == [] then Did(s, [])
    else
      match Step(s, evs[0])
      case Crash => Crash
      case Did(s', calls) => Then(calls, Run(s', evs[1..]))
  }

  function Then(calls: seq<Call>, r: Outcome): (t: Outcome)
    ensures t.Did? <==> r.Did?
    ensures t.Did? ==> t.s == r.s
  {
    match r
    case Crash => Crash
    case Did(s, more) => Did(s, calls + more)
  }

  function Continue(o: Outcome, evs: seq<Event>): Outcome
    requires o.Did? ==> Valid(o.s)
  {
    if o.Did? then Then(o.calls, Run(o.s, evs)) else Crash
  }

  // ---------- The handlers ----------

  class Adapter {
    var path: Option<string>
    var name: Option<nat>
    var value: Option<string>
    var attrs: Option<Attributes>
    var started: bool
    /** The callbacks made so far. */
    var calls: seq<Call>

    constructor ()
      ensures Current() == Initial && calls == []
    {
      path, name, value, attrs, started, calls := None, None, None, None, false, [];
    }

    function Current(): State
      reads this
    {
      State(path, name, value, attrs, started)
    }

    /** xml_parse_start. */
    method ParseStart(el: string, xattr: Attributes)
      requires Valid(Current())
      modifies this
      ensures var r := Step(old(Current()), Start(el, xattr));
        r.Did? && Current() == r.s && calls == old(calls) + r.calls
    {
      assert old(calls) + [] == old(calls);
      if started {
        calls := calls + [Call(path.value, path.value[name.value..], attrs, None)];
      }
      if path.None? {
        path := Some("");
      }
      path := Some(path.value + "/" + el);
      name := Some(LastSlash(path.value) + 1);
      value := None;
      var copy: Attributes := [];
      for p := 0 to |xattr|
        invariant copy == xattr[..p]
      {
        copy := copy + [xattr[p]];
      }
      assert xattr[..|xattr|] == xattr;
      attrs := Some(copy);
      started := true;
    }

    /** xml_parse_end. */
    method ParseEnd(el: string)
      requires Valid(Current()) && path.Some?
      modifies this
      ensures var r := Step(old(Current()), End(el));
        r.Did? && Current() == r.s && calls == old(calls) + r.calls
    {
      assert old(calls) + [] == old(calls);
      if name.Some? {
        calls := calls + [Call(path.value, path.value[name.value..], attrs, value)];
      }
      var ptr := LastSlash(path.value);
      assert path.value[..|path.value|] == path.value;
      if ptr != |path.value| {
        path := Some(path.value[..ptr]);
      }
      if path.value == "" {
        path := None;
      }
      started := false;
      attrs, name, value := None, None, None;
    }

    /** xml_parse_character. */
    method ParseCharacter(txt: string)
      requires Valid(Current())
      modifies this`value
      ensures var r := Step(old(Current()), Characters(txt));
        r.Did? && Current() == r.s && r.calls == []
    {
      if txt == "" || name.None? {
        return;
      }
      if value.None? {
        value := Some("");
      }
      value := Some(value.value + UpToNull(txt));
    }

    /** A whole parse: each event goes to its handler. */
    method Parse(evs: seq<Event>)
      requires Valid(Current()) && Run(Current(), evs).Did?
      modifies this
      ensures var r := Run(old(Current()), evs);
        Current() == r.s && calls == old(calls) + r.calls
    {
      hide Step, Run, Valid;
      ghost var s0 := Current();
      ghost var r := Run(s0, evs);
      ghost var done: seq<Call> := [];
      assert evs[0..] == evs;
      StartsEmpty(r);
      for i := 0 to |evs|
        invariant Valid(Current()) && Run(Current(), evs[i..]).Did?
        invariant calls == old(calls) + done
        invariant Then(done, Run(Current(), evs[i..])) == r
      {
        RunStep(Current(), evs, i);
        ghost var made := Step(Current(), evs[i]).calls;
        ghost var before, rest := calls, Run(Step(Current(), evs[i]).s, evs[i + 1..]);
        match evs[i] {
          case Start(el, xattr) => ParseStart(el, xattr);
          case End(el) =>
            HasPath(Current(), el);
            ParseEnd(el);
          case Characters(txt) => ParseCharacter(txt);
        }
        ThenThen(done, made, rest);
        done := done + made;
      }
      RunNothing(Current());
      assert evs[|evs|..] == [];
    }
  }

  lemma StartsEmpty(r: Outcome)
    ensures Then([], r) == r
  {
    if r.Did? {
      assert [] + r.calls == r.calls;
    }
  }

  lemma ThenThen(a: seq<Call>, b: seq<Call>, r: Outcome)
    ensures Then(a, Then(b, r)) == Then(a + b, r)
  {
    if r.Did? {
      assert a + (b + r.calls) == a + b + r.calls;
    }
  }

  lemma HasPath(s: State, el: string)
    requires Valid(s) && Step(s, End(el)).Did?
    ensures s.path.Some?
  {}

  lemma RunNothing(s: State)
    requires Valid(s)
    ensures Run(s, []) == Did(s, [])
  {}

  lemma RunStep(s: State, evs: seq<Event>, i: nat)
    requires Valid(s) && i < |evs|
    ensures Run(s, evs[i..]) == Continue(Step(s, evs[i]), evs[i + 1..])
  {
    hide Step;
    assert evs[i..][1..] == evs[i + 1..];
  }

  lemma {:induction false} RunConcat(s: State, a: seq<Event>, b: seq<Event>)
    requires Valid(s)
    ensures Run(s, a + b) == Continue(Run(s, a), b)
    decreases |a|
  {
    hide Step, Valid;
    if a == [] {
      assert a + b == b;
      StartsEmpty(Run(s, b));
    } else {
      assert (a + b)[1..] == a[1..] + b;
      var step := Step(s, a[0]);
      if step.Did? {
        RunConcat(step.s, a[1..], b);
        var first := Run(step.s, a[1..]);
        if first.Did? {
          ThenThen(step.calls, first.calls, Run(first.s, b));
        }
      }
    }
  }

  // ---------- One callback for each element ----------

  /** Between elements: no callback is due. */
  function Idle(path: string): (s: State)
    ensures Valid(s) && Prefix(s) == path
  {
    State(if path == "" then None else Some(path), None, None, None, false)
  }

  /** After a start tag, with this much text so far. */
  function Open(prefix: string, el: string, attrs: Attributes, text: string): (s: State)
    ensures Valid(s)
  {
    State(Some(prefix + "/" + el), Some(|prefix| + 1), if text == "" then None else Some(text), Some(attrs), true)
  }

  lemma LastSlashIs(path: string, k: nat)
    requires k < |path| && path[k] == '/' && forall i :: k < i < |path| ==> path[i] != '/'
    ensures LastSlash(path) == k
  {
    hide LastSlash;
  }

  lemma SlashIs(prefix: string, el: string)
    requires '/' !in el
    ensures LastSlash(prefix + "/" + el) == |prefix|
  {
    hide LastSlash;
    var path, n := prefix + "/" + el, |prefix|;
    assert path[n + 1..] == el;
    forall i | n < i < |path|
      ensures path[i] != '/'
    {
      assert path[i] == path[n + 1..][i - n - 1];
    }
    LastSlashIs(path, n);
  }

  lemma StartIdle(path: string, el: string, attrs: Attributes)
    requires '/' !in el
    ensures Step(Idle(path), Start(el, attrs)) == Did(Open(path, el, attrs, ""), [])
  {
    hide LastSlash;
    SlashIs(path, el);
  }

  lemma StartOpen(prefix: string, el0: string, attrs0: Attributes, text: string, el: string, attrs: Attributes)
    requires '/' !in el
    ensures Step(Open(prefix, el0, attrs0, text), Start(el, attrs)) ==
      Did(Open(prefix + "/" + el0, el, attrs, ""), [Call(prefix + "/" + el0, el0, Some(attrs0), None)])
  {
    hide LastSlash;
    SlashIs(prefix + "/" + el0, el);
    assert (prefix + "/" + el0)[|prefix| + 1..] == el0;
  }

  lemma EndOpen(prefix: string, el: string, attrs: Attributes, text: string)
    requires '/' !in el
    ensures Step(Open(prefix, el, attrs, text), End(el)) == Did(Idle(prefix),
      [Call(prefix + "/" + el, el, Some(attrs), if text == "" then None else Some(text))])
  {
    hide LastSlash;
    SlashIs(prefix, el);
    assert (prefix + "/" + el)[..|prefix|] == prefix && (prefix + "/" + el)[|prefix| + 1..] == el;
  }

  lemma EndIdle(prefix: string, el: string)
    requires '/' !in el
    ensures Step(Idle(prefix + "/" + el), End(el)) == Did(Idle(prefix), [])
  {
    hide LastSlash;
    SlashIs(prefix, el);
    assert (prefix + "/" + el)[..|prefix|] == prefix;
  }

  lemma TextIdle(path: string, txt: string)
    ensures Step(Idle(path), Characters(txt)) == Did(Idle(path), [])
  {}

  lemma TextOpen(prefix: string, el: string, attrs: Attributes, text: string, txt: string)
    requires '\0' !in txt
    ensures Step(Open(prefix, el, attrs, text), Characters(txt)) == Did(Open(prefix, el, attrs, text + txt), [])
  {
    assert text + "" == text && "" + txt == txt;
  }

  lemma RunFirst(s: State, ev: Event, rest: seq<Event>)
    requires Valid(s)
    ensures Run(s, [ev] + rest) == Continue(Step(s, ev), rest)
  {
    hide Step;
    assert ([ev] + rest)[1..] == rest;
  }

  lemma {:induction false} NoElementNoCalls(f: Forest, path: string)
    requires !HasElement(f)
    ensures Calls(f, path) == []
  {
    if f.Text? {
      NoElementNoCalls(f.rest, path);
    }
  }

  /** The events of a list when no callback is due: every element in it gets one. */
  lemma {:induction false} IdleForest(path: string, f: Forest)
    requires Plain(f)
    ensures Run(Idle(path), Events(f)) == Did(Idle(path), Calls(f, path))
    decreases f, 0
  {
    hide Step, Run, Idle, Open, ValueOf, Valid;
    match f {
      case Nothing => RunNothing(Idle(path));
      case Text(chunk, rest) =>
        TextIdle(path, chunk);
        RunFirst(Idle(path), Characters(chunk), Events(rest));
        IdleForest(path, rest);
        StartsEmpty(Run(Idle(path), Events(rest)));
      case Element(name, attrs, content, rest) =>
        StartIdle(path, name, attrs);
        OpenElement(path, name, attrs, content);
        IdleForest(path, rest);
        ElementRun(Idle(path), path, name, attrs, content, rest, []);
        StartsEmpty(Did(Idle(path), Calls(f, path)));
    }
  }

  /** The events of a list right after a start tag: with the first element in the list the parent
      gets its callback, without a value. */
  lemma {:induction false} OpenForest(prefix: string, el: string, attrs: Attributes, text: string, f: Forest)
    requires Plain(f) && '/' !in el
    ensures Run(Open(prefix, el, attrs, text), Events(f)) ==
      if HasElement(f) then
        Did(Idle(prefix + "/" + el), [Call(prefix + "/" + el, el, Some(attrs), None)] + Calls(f, prefix + "/" + el))
      else Did(Open(prefix, el, attrs, text + TextOf(f)), [])
    decreases f, 0
  {
    hide Step, Run, Idle, Open, ValueOf, Valid;
    var s, path := Open(prefix, el, attrs, text), prefix + "/" + el;
    match f {
      case Nothing =>
        RunNothing(s);
        assert text + "" == text;
      case Text(chunk, rest) =>
        TextOpen(prefix, el, attrs, text, chunk);
        RunFirst(s, Characters(chunk), Events(rest));
        OpenForest(prefix, el, attrs, text + chunk, rest);
        StartsEmpty(Run(Open(prefix, el, attrs, text + chunk), Events(rest)));
        assert text + chunk + TextOf(rest) == text + (chunk + TextOf(rest));
      case Element(name, attrs', content, rest) =>
        StartOpen(prefix, el, attrs, text, name, attrs');
        OpenElement(path, name, attrs', content);
        IdleForest(path, rest);
        ElementRun(s, path, name, attrs', content, rest, [Call(path, el, Some(attrs), None)]);
    }
  }

  /** One element from after its start tag to its end tag. */
  lemma {:induction false} OpenElement(prefix: string, el: string, attrs: Attributes, content: Forest)
    requires Plain(content) && '/' !in el
    ensures Run(Open(prefix, el, attrs, ""), Events(content) + [End(el)]) == Did(Idle(prefix),
      [Call(prefix + "/" + el, el, Some(attrs), ValueOf(content))] + Calls(content, prefix + "/" + el))
    decreases content, 1
  {
    hide Step, Run, Idle, Open, Valid;
    var s, path := Open(prefix, el, attrs, ""), prefix + "/" + el;
    OpenForest(prefix, el, attrs, "", content);
    RunConcat(s, Events(content), [End(el)]);
    if HasElement(content) {
      EndIdle(prefix, el);
      RunOne(Idle(path), End(el));
    } else {
      NoElementNoCalls(content, path);
      EndOpen(prefix, el, attrs, TextOf(content));
      RunOne(Open(prefix, el, attrs, TextOf(content)), End(el));
      assert "" + TextOf(content) == TextOf(content);
    }
  }

  lemma RunOne(s: State, ev: Event)
    requires Valid(s)
    ensures Run(s, [ev]) == Step(s, ev)
  {
    hide Step;
    RunFirst(s, ev, []);
    assert [ev] + [] == [ev];
  }

  /** Putting an element together from its start tag, its content and end tag, and what follows. */
  lemma ElementRun(s: State, path: string, name: string, attrs: Attributes, content: Forest, rest: Forest,
                   first: seq<Call>)
    requires Valid(s) && Step(s, Start(name, attrs)) == Did(Open(path, name, attrs, ""), first)
    requires Run(Open(path, name, attrs, ""), Events(content) + [End(name)]) == Did(Idle(path),
      [Call(path + "/" + name, name, Some(attrs), ValueOf(content))] + Calls(content, path + "/" + name))
    requires Run(Idle(path), Events(rest)) == Did(Idle(path), Calls(rest, path))
    ensures Run(s, Events(Element(name, attrs, content, rest))) ==
      Did(Idle(path), first + Calls(Element(name, attrs, content, rest), path))
  {
    hide Step, Run, Idle, Open, ValueOf, Valid;
    var body := Events(content) + [End(name)];
    var own := [Call(path + "/" + name, name, Some(attrs), ValueOf(content))] + Calls(content, path + "/" + name);
    assert Events(Element(name, attrs, content, rest)) == [Start(name, attrs)] + (body + Events(rest));
    RunFirst(s, Start(name, attrs), body + Events(rest));
    RunConcat(Open(path, name, attrs, ""), body, Events(rest));
    assert first + (own + Calls(rest, path)) == first + Calls(Element(name, attrs, content, rest), path);
  }

  /** The adapter on a document: one callback for each element, parents first, with the path of the
      open names, the element's own attributes, and its text if there are no elements in it. */
  lemma OneCallbackEach(f: Forest)
    requires Plain(f)
    ensures Run(Initial, Events(f)) == Did(Initial, Calls(f, ""))
  {
    IdleForest("", f);
  }

  /** However the parser splits the text. */
  method ParseDocument(f: Forest) returns (adapter: Adapter)
    requires Plain(f)
    ensures adapter.calls == Calls(f, "") && adapter.path == None
  {
    OneCallbackEach(f);
    adapter := new Adapter();
    adapter.Parse(Events(f));
    assert [] + Calls(f, "") == Calls(f, "");
  }
}
