/** The cache of do_findpath: a bounded list of records, newest first, searched by path. */
module PathCache {
  import opened LinkedList
  import opened PathMeaning
  import opened PathWalk
  import opened Wrappers

  // ---------- The cache as a sequence ----------

  /** The index of the first record with this path, or the length. */
  function FindRecord(records: seq<Answer>, path: string): (k: nat)
    ensures k <= |records| && (k < |records| ==> records[k].path == path)
    ensures forall i :: 0 <= i < k ==> records[i].path != path
  {
    if records == [] || records[0].path == path then 0 else 1 + FindRecord(records[1..], path)
  }

  function Lookup(records: seq<Answer>, path: string): Option<Answer> {
    var k := FindRecord(records, path);
    if k < |records| then Some(records[k]) else None
  }

  /** do_insertcache makes room before it knows whether there is anything to insert. */
  function Evicted(records: seq<Answer>, cacheSize: nat): seq<Answer> {
    if |records| > cacheSize then records[..|records| - 1] else records
  }

  function Inserted(records: seq<Answer>, cacheSize: nat, a: Answer): seq<Answer> {
    if Lookup(records, a.path).Some? then records
    else if Checked(a).Some? then [a] + Evicted(records, cacheSize)
    else Evicted(records, cacheSize)
  }

  function Returned(records: seq<Answer>, a: Answer): Option<Answer> {
    if Lookup(records, a.path).Some? then Lookup(records, a.path) else Checked(a)
  }

  /** No path twice, at most one record more than the size, every record valid. */
  ghost predicate Bounded(records: seq<Answer>, cacheSize: nat) {
    && |records| <= cacheSize + 1
    && (forall i :: 0 <= i < |records| ==> Checked(records[i]).Some?)
    && forall i, j :: 0 <= i < j < |records| ==> records[i].path != records[j].path
  }

  /** Every record is that of the place its path and a slash lead to. */
  ghost predicate Placed(server: Server, records: seq<Answer>) {
    forall i :: 0 <= i < |records| ==> AtPlace(server, records[i])
  }

  lemma FindIs(records: seq<Answer>, path: string, k: nat)
    requires k <= |records| && (k < |records| ==> records[k].path == path)
    requires forall i :: 0 <= i < k ==> records[i].path != path
    ensures FindRecord(records, path) == k
  {
    hide FindRecord;
  }

  lemma InsertedCases(records: seq<Answer>, cacheSize: nat, a: Answer)
    ensures var k := FindRecord(records, a.path);
      if k < |records| then
        Inserted(records, cacheSize, a) == records && Returned(records, a) == Some(records[k])
      else
        && Returned(records, a) == Checked(a)
        && Inserted(records, cacheSize, a) ==
           if Checked(a).Some? then [a] + Evicted(records, cacheSize) else Evicted(records, cacheSize)
  {
    hide FindRecord, Checked;
  }

  /** What one insertion changes: nothing if the path is there; otherwise the oldest of more than
      `cacheSize` records goes, and the new one comes first if it can be answered. */
  lemma InsertedExactly(server: Server, records: seq<Answer>, cacheSize: nat, at: Spot)
    ensures var after, kept := Inserted(records, cacheSize, RecordAt(at)),
                               if |records| <= cacheSize then records else records[..|records| - 1];
      && ((exists i :: 0 <= i < |records| && records[i].path == at.path) ==> after == records)
      && ((forall i :: 0 <= i < |records| ==> records[i].path != at.path) ==>
            if Answerable(at.entry)
            then after == [RecordAt(at)] + kept && Describes(after[0], at.device, at.entry) && after[0].path == at.path
            else after == kept)
  {
    hide FindRecord, Checked, Record, Answerable, Describes;
    RecordDescribes(at);
    InsertedCases(records, cacheSize, RecordAt(at));
  }

  lemma InsertedBounded(records: seq<Answer>, cacheSize: nat, a: Answer)
    requires Bounded(records, cacheSize)
    ensures Bounded(Inserted(records, cacheSize, a), cacheSize)
  {
    hide FindRecord, Checked;
    var k := FindRecord(records, a.path);
  }

  /** Inserting the record of a place keeps every record that of its place, and returns the record
      if it is valid, whatever the cache holds. */
  lemma InsertedPlaced(server: Server, records: seq<Answer>, cacheSize: nat, a: Answer)
    requires Bounded(records, cacheSize) && Placed(server, records) && AtPlace(server, a)
    ensures Placed(server, Inserted(records, cacheSize, a))
    ensures Returned(records, a) == Checked(a)
  {
    hide FindRecord, AtPlace;
    var after, k := Inserted(records, cacheSize, a), FindRecord(records, a.path);
    if k < |records| {
      OneAtPlace(server, records[k], a);
    }
    forall i | 0 <= i < |after| ensures AtPlace(server, after[i]) {
      if after != records && Checked(a).Some? && i > 0 {
        assert after[i] == records[i - 1];
      }
    }
  }

  lemma OneAtPlace(server: Server, a: Answer, b: Answer)
    requires AtPlace(server, a) && AtPlace(server, b) && a.path == b.path
    ensures a == b
  {
    hide Locate;
  }

  /** After an insertion the path finds what the insertion returned. */
  lemma LookupInserted(records: seq<Answer>, cacheSize: nat, a: Answer)
    requires Bounded(records, cacheSize)
    ensures Lookup(Inserted(records, cacheSize, a), a.path) == Returned(records, a)
  {
    hide FindRecord, Checked;
    InsertedCases(records, cacheSize, a);
    CheckedIs(a);
    var k := FindRecord(records, a.path);
    if k == |records| {
      var left := Evicted(records, cacheSize);
      if Checked(a).Some? {
        FindIs([a] + left, a.path, 0);
      } else {
        FindIs(left, a.path, |left|);
      }
    }
  }

  /** What is left is always the most recent part of all records ever inserted. */
  lemma InsertedNewest(records: seq<Answer>, cacheSize: nat, a: Answer, log: seq<Answer>)
    requires records <= log
    ensures Inserted(records, cacheSize, a) <=
      if FindRecord(records, a.path) == |records| && Checked(a).Some? then [a] + log else log
  {
    hide FindRecord, Checked;
  }

  // ---------- What a request leaves in the cache ----------

  ghost function InsertAll(records: seq<Answer>, cacheSize: nat, answers: seq<Answer>): seq<Answer>
    decreases |answers|
  {
    if answers == [] then records
    else InsertAll(Inserted(records, cacheSize, answers[0]), cacheSize, answers[1..])
  }

  /** The records of the places that a walk visits after this one. */
  ghost function VisitedFrom(server: Server, at: Spot, rest: string): seq<Answer>
    decreases |rest|
  {
    if rest == "" then []
    else
      match Child(server, at, Head(rest))
      case None => []
      case Some(next) => [RecordAt(next)] + VisitedFrom(server, next, Tail(rest))
  }

  ghost function Visited(server: Server, path: string): seq<Answer> {
    match Device(path)
    case None => []
    case Some((d, rest)) =>
      match server.Metadata(d, "0")
      case None => []
      case Some(e) =>
        var at := Spot(d, e, "/" + d);
        [RecordAt(at)] + VisitedFrom(server, at, rest)
  }

  /** A miss files every place on the way, the last one newest. */
  ghost function AfterFind(server: Server, records: seq<Answer>, cacheSize: nat, path: string): seq<Answer> {
    if Hidden(path) || Lookup(records, path).Some? then records
    else InsertAll(records, cacheSize, Visited(server, path))
  }

  ghost function ChildRecords(path: string, device: string, entries: seq<Entry>): seq<Answer> {
    if entries == [] then []
    else
      var e := entries[|entries| - 1];
      ChildRecords(path, device, entries[..|entries| - 1]) + [Record(path + "/" + e.title, device, e)]
  }

  /** What a directory read files for the children. */
  ghost function FiledFor(server: Server, path: string): seq<Answer> {
    if Hidden(path) then []
    else
      match Walk(server, path)
      case None => []
      case Some(c) => ChildRecords(path, c.device, server.Children(c.device, c.objectId))
  }

  /** A directory read files what the lookup of the directory files, and then every child. */
  ghost function AfterRead(server: Server, records: seq<Answer>, cacheSize: nat, path: string): seq<Answer> {
    var t := Search(path, METADATA);
    if t + |METADATA| == |path| then AfterFind(server, records, cacheSize, path[..t])
    else InsertAll(AfterFind(server, records, cacheSize, path), cacheSize, FiledFor(server, path))
  }

  lemma InsertNone(records: seq<Answer>, cacheSize: nat)
    ensures InsertAll(records, cacheSize, []) == records
  {}

  lemma InsertStep(records: seq<Answer>, cacheSize: nat, a: Answer, more: seq<Answer>)
    ensures InsertAll(records, cacheSize, [a] + more) == InsertAll(Inserted(records, cacheSize, a), cacheSize, more)
  {
    hide Inserted;
    assert ([a] + more)[1..] == more;
  }

  lemma {:induction false} InsertLast(records: seq<Answer>, cacheSize: nat, answers: seq<Answer>, a: Answer)
    ensures InsertAll(records, cacheSize, answers + [a]) ==
      Inserted(InsertAll(records, cacheSize, answers), cacheSize, a)
    decreases |answers|
  {
    hide Inserted;
    if answers == [] {
      assert [] + [a] == [a] + [];
      InsertStep(records, cacheSize, a, []);
      InsertNone(Inserted(records, cacheSize, a), cacheSize);
    } else {
      assert (answers + [a])[1..] == answers[1..] + [a];
      InsertLast(Inserted(records, cacheSize, answers[0]), cacheSize, answers[1..], a);
    }
  }

  lemma VisitedCases(server: Server, path: string)
    ensures Device(path).None? ==> Visited(server, path) == []
    ensures Device(path).Some? ==>
      var (d, rest) := Device(path).value;
      match server.Metadata(d, "0")
      case None => Visited(server, path) == []
      case Some(e) =>
        var at := Spot(d, e, "/" + d);
        Visited(server, path) == [RecordAt(at)] + VisitedFrom(server, at, rest)
  {
    hide VisitedFrom, Record, Device;
  }

  lemma VisitedStep(server: Server, at: Spot, p: string)
    requires p != ""
    ensures VisitedFrom(server, at, p) ==
      match Child(server, at, Head(p))
      case None => []
      case Some(next) => [RecordAt(next)] + VisitedFrom(server, next, Tail(p))
  {
    hide Child, Record, Head, Tail;
  }

  lemma VisitedEnd(server: Server, at: Spot)
    ensures VisitedFrom(server, at, "") == []
  {}

  lemma NoChildRecords(path: string, device: string)
    ensures ChildRecords(path, device, []) == []
  {}

  lemma ChildRecordsStep(path: string, device: string, e: seq<Entry>, k: nat)
    requires k < |e|
    ensures ChildRecords(path, device, e[..k + 1]) ==
      ChildRecords(path, device, e[..k]) + [Record(path + "/" + e[k].title, device, e[k])]
  {
    hide Record;
    assert e[..k + 1][..k] == e[..k];
  }

  /** One atomic insertion by some thread. */
  datatype Insertion = Insertion(path: string, device: string, entry: Entry)

  ghost predicate Proper(server: Server, op: Insertion) {
    AtPlace(server, Record(op.path, op.device, op.entry))
  }

  // ---------- The cache in memory ----------

  /** priv.cache with its size; a record of the list head means nothing. */
  class Cache {
    const server: Server
    const head: Link<Answer>
    const cacheSize: nat
    /** The entries in list order. */
    ghost var nodes: seq<Link<Answer>>
    /** All records ever inserted, newest first. */
    ghost var log: seq<Answer>

    ghost function Records(): seq<Answer>
      reads this
    {
      Values(nodes)
    }

    ghost predicate Valid()
      reads this, head, nodes
    {
      && Ring(head, nodes)
      && Bounded(Records(), cacheSize)
      && Records() <= log
    }

    constructor (server: Server, cacheSize: nat)
      ensures Valid() && Records() == [] && this.cacheSize == cacheSize && this.server == server && fresh(head)
    {
      head := new Link(Answer("", "", "", false, None, 0));
      this.server, this.cacheSize, nodes, log := server, cacheSize, [], [];
      new;
      ListInit(head);
    }

    /** The loop over the list that both cache functions begin with. */
    method Scan(path: string) returns (c: Link<Answer>, ghost k: nat)
      requires Valid()
      ensures k == FindRecord(Records(), path) && (c == head <==> k == |Records()|)
      ensures c != head ==> c.value == Records()[k]
    {
      hide FindRecord, Bounded;
      k := 0;
      assert Joint(head, nodes, -1);
      c := head.next;
      while c != head
        invariant k <= |nodes| && c == At(head, nodes, k)
        invariant forall j :: 0 <= j < k ==> Records()[j].path != path
        decreases |nodes| - k
      {
        if c.value.path == path {
          break;
        }
        assert Joint(head, nodes, k);
        k := k + 1;
        c := c.next;
      }
      FindIs(Records(), path, k);
    }

    /** do_findcache, one step under the lock. */
    method FindCache(path: string) returns (found: Option<Answer>)
      requires Valid()
      ensures found == Lookup(Records(), path)
    {
      hide FindRecord, Bounded, Checked;
      ghost var k;
      var c;
      c, k := Scan(path);
      if c != head {
        ValidRecord(Records(), cacheSize, k);
        found := Checked(c.value);
      } else {
        found := None;
      }
    }

    /** do_insertcache, one step under the lock. */
    method InsertCache(path: string, device: string, entry: Entry) returns (n: Option<Answer>)
      requires Valid()
      modifies this, head, nodes
      ensures Valid() && forall i :: 0 <= i < |nodes| ==> nodes[i] in old(nodes) || fresh(nodes[i])
      ensures var a := Record(path, device, entry);
        Records() == Inserted(old(Records()), cacheSize, a) && n == Returned(old(Records()), a)
      ensures var a := Record(path, device, entry);
        log == if FindRecord(old(Records()), path) == |old(Records())| && Checked(a).Some? then [a] + old(log)
          else old(log)
    {
      hide FindRecord, Bounded, Checked, Ring, Record, Inserted, Returned, Evicted, Lookup, Values;
      ghost var k;
      var c;
      var a := Record(path, device, entry);
      RecordPath(path, device, entry);
      ghost var records := Records();
      InsertedBounded(records, cacheSize, a);
      InsertedNewest(records, cacheSize, a, log);
      c, k := Scan(path);
      InsertedCases(records, cacheSize, a);
      if c != head {
        ValidRecord(records, cacheSize, k);
        return Checked(c.value);
      }
      MakeRoom();
      n := Checked(a);
      if n.Some? {
        CheckedIs(a);
        Push(a);
      }
    }

    twostate predicate OwnNodes()
      reads this
    {
      forall i :: 0 <= i < |nodes| ==> nodes[i] in old(nodes) || fresh(nodes[i])
    }

    ghost predicate Sound()
      reads this, head, nodes
    {
      Valid() && Placed(server, Records())
    }

    /** The insertion of a record of a place; what comes back does not depend on the cache. */
    method InsertProper(op: Insertion) returns (n: Option<Answer>)
      requires Sound() && Proper(server, op)
      modifies this, head, nodes
      ensures Sound() && OwnNodes() && n == Checked(Record(op.path, op.device, op.entry))
      ensures Records() == Inserted(old(Records()), cacheSize, Record(op.path, op.device, op.entry))
    {
      hide FindRecord, Bounded, Checked, Ring, Record, Inserted, Returned, Values, AtPlace;
      ghost var records := Records();
      RecordPath(op.path, op.device, op.entry);
      InsertedPlaced(server, records, cacheSize, Record(op.path, op.device, op.entry));
      n := InsertCache(op.path, op.device, op.entry);
    }

    /** What other threads do between two steps of this one. */
    method Others(ops: seq<Insertion>)
      requires Sound() && AllProper(server, ops)
      modifies this, head, nodes
      ensures Sound() && OwnNodes() && (ops == [] ==> Records() == old(Records()))
    {
      hide Sound, Proper, Values, Inserted, Record;
      for i := 0 to |ops|
        invariant Sound() && OwnNodes() && (i == 0 ==> Records() == old(Records()))
      {
        var n := InsertProper(ops[i]);
      }
    }

    /** do_findpath; others[i] is what other threads insert before its i-th access to the cache. Only
        below a place without a title can the answer differ from the walk. */
    method FindPath(path: string, others: seq<seq<Insertion>>) returns (c: Option<Answer>)
      requires Sound()
      requires forall i :: 0 <= i < |others| ==> AllProper(server, others[i])
      modifies this, head, nodes
      ensures Sound() && OwnNodes()
      ensures c == Unhidden(server, path) || (EndsInSlash(path) && Nameless(server, path + "/"))
      ensures AnswerOf(server, path, c)
      ensures others == [] ==>
        c == Answered(server, old(Records()), path) && Records() == AfterFind(server, old(Records()), cacheSize, path)
    {
      hide Sound, Walk, Proper, AllProper, FindRecord, Values, Locate, Device, Record, Checked, WalkFrom, Hidden;
      hide Lookup, Inserted, InsertAll, Visited, VisitedFrom, Child, Leads, Nameless, EndsInSlash, AnswerOf;
      HiddenAnswers(server, path);
      if Hidden(path) {
        return None;
      }
      WalkAnswers(server, path);
      VisitedCases(server, path);
      InsertNone(Records(), cacheSize);
      TurnProper(server, others);
      Others(Turn(others, 0));
      c := FindSound(path);
      if c.Some? {
        return;
      }
      var d, p := FirstSegment(path);
      if d == "" {
        NoDevice(server, path);
        return;
      }
      var found := server.Metadata(d, "0");
      if found.None? {
        NoRoot(server, path);
        return;
      }
      var at := Spot(d, found.value, "/" + d);
      RootSpot(server, path);
      Others(Turn(others, 1));
      InsertStep(Records(), cacheSize, RecordAt(at), VisitedFrom(server, at, p));
      c := InsertProper(Insertion(at.path, d, at.entry));
      c := WalkDown(path, at, p, c, others);
    }

    /** The second loop of do_findpath: down the listings, with a record for every place. */
    method WalkDown(path: string, root: Spot, rest: string, first: Option<Answer>, others: seq<seq<Insertion>>)
      returns (c: Option<Answer>)
      requires Sound()
      requires forall i :: AllProper(server, Turn(others, i))
      requires WalkFrom(server, root, rest) == Locate(server, path)
      requires Leads(server, root) && first == Checked(RecordAt(root))
      modifies this, head, nodes
      ensures Sound() && OwnNodes() && c == Walk(server, path)
      ensures others == [] ==> Records() == InsertAll(old(Records()), cacheSize, VisitedFrom(server, root, rest))
    {
      hide Sound, Walk, Proper, AllProper, FindRecord, Values, Locate, Device, Record, Checked, WalkFrom, Leads;
      hide Inserted, InsertAll, VisitedFrom, Child;
      var at, p, turn := root, rest, 2;
      ghost var after := InsertAll(Records(), cacheSize, VisitedFrom(server, root, rest));
      c := first;
      while p != ""
        invariant Sound() && OwnNodes()
        invariant WalkFrom(server, at, p) == Locate(server, path)
        invariant Leads(server, at) && c == Checked(RecordAt(at))
        invariant others == [] ==> InsertAll(Records(), cacheSize, VisitedFrom(server, at, p)) == after
        decreases |p|
      {
        var dir := Head(p);
        WalkStep(server, path, at, p);
        VisitedStep(server, at, p);
        ShorterTail(p);
        p := Tail(p);
        var next := Step(server, at, dir);
        InsertNone(Records(), cacheSize);
        if next.None? {
          return None;
        }
        at := next.value;
        Others(Turn(others, turn));
        turn := turn + 1;
        InsertStep(Records(), cacheSize, RecordAt(at), VisitedFrom(server, at, p));
        c := InsertProper(Insertion(at.path, at.device, at.entry));
      }
      WalkEnds(server, path, at);
      VisitedEnd(server, at);
      InsertNone(Records(), cacheSize);
    }

    /** The last two branches of op_readdir, for a directory of a device: the names, and a record in
        the cache for every child; or the names of the metadata files. */
    method ReadDir(path: string, others: Turns) returns (names: seq<string>)
      requires Sound() && Honest(server) && Canonical(path) && path != DEVICES && ProperTurns(server, others)
      modifies this, head, nodes
      ensures Sound() && OwnNodes() && names == Listing(server, path) && Shows(server, path, names)
      ensures others == Turns([], []) ==> Records() == AfterRead(server, old(Records()), cacheSize, path)
    {
      hide Sound, Walk, Honest, Locate, Hidden, Canonical, Titles, TextNames, Search, AfterFind, AllProper, EndsInSlash;
      hide Shows;
      ListingShows(server, path);
      names := [".", ".."];
      if Search(path, METADATA) + |METADATA| == |path| {
        NoSlashBefore(path, Search(path, METADATA));
        var more := ReadMetadata(path[..Search(path, METADATA)], others.lookup);
        names := names + more;
      } else {
        var more := ReadChildren(path, others);
        names := names + more;
      }
    }

    /** The branch for metadata files. */
    method ReadMetadata(dir: string, others: seq<seq<Insertion>>) returns (names: seq<string>)
      requires Sound() && !EndsInSlash(dir)
      requires forall i :: 0 <= i < |others| ==> AllProper(server, others[i])
      modifies this, head, nodes
      ensures Sound() && OwnNodes() && names == TextNames(Entries(server, dir))
      ensures others == [] ==> Records() == AfterFind(server, old(Records()), cacheSize, dir)
    {
      hide Sound, Walk, Proper, AllProper, Locate, Hidden, TextNames, AfterFind, Values, EndsInSlash, Nameless;
      names := [];
      NoTextNames();
      var c := FindPath(dir, others);
      if c.None? {
        return;
      }
      var e := server.Children(c.value.device, c.value.objectId);
      var k := 0;
      assert e[..0] == [];
      while k < |e|
        invariant k <= |e| && Sound() && OwnNodes() && names == TextNames(e[..k])
        invariant others == [] ==> Records() == AfterFind(server, old(Records()), cacheSize, dir)
      {
        TextNamesStep(e, k);
        names := names + [e[k].title + ".txt"];
        k := k + 1;
      }
      assert e[..k] == e;
    }

    /** The branch for children. */
    method ReadChildren(path: string, others: Turns) returns (names: seq<string>)
      requires Sound() && Honest(server) && Canonical(path) && ProperTurns(server, others)
      modifies this, head, nodes
      ensures Sound() && OwnNodes()
      ensures var e := Entries(server, path); names == if e == [] then [] else [".metadata"] + Titles(e)
      ensures others == Turns([], []) ==>
        Records() == InsertAll(AfterFind(server, old(Records()), cacheSize, path), cacheSize, FiledFor(server, path))
    {
      hide Sound, Walk, Proper, AllProper, Honest, Values, Locate, Record, Checked, Hidden, Canonical, Titles;
      hide Inserted, InsertAll, AfterFind, ChildRecords, EndsInSlash, Nameless, Answered;
      CanonicalEnd(path);
      TurnProper(server, others.children);
      names := [];
      var c := FindPath(path, others.lookup);
      ghost var found := Records();
      InsertNone(found, cacheSize);
      if c.None? {
        return;
      }
      FoundSpot(server, path);
      var e := server.Children(c.value.device, c.value.objectId);
      NoChildRecords(path, c.value.device);
      if e == [] {
        return;
      }
      names := [".metadata"];
      var k := 0;
      assert e[..0] == [];
      NoTitles();
      while k < |e|
        invariant k <= |e| && Sound() && OwnNodes()
        invariant others == Turns([], []) ==>
          Records() == InsertAll(found, cacheSize, ChildRecords(path, c.value.device, e[..k]))
        invariant names == [".metadata"] + Titles(e[..k])
      {
        PrefillSpot(server, path, k);
        Others(Turn(others.children, k));
        var n := InsertProper(Insertion(path + "/" + e[k].title, c.value.device, e[k]));
        TitlesStep(e, k);
        ChildRecordsStep(path, c.value.device, e, k);
        InsertLast(found, cacheSize, ChildRecords(path, c.value.device, e[..k]),
                   Record(path + "/" + e[k].title, c.value.device, e[k]));
        names := names + [e[k].title];
        k := k + 1;
      }
      assert e[..k] == e;
    }

    /** Any number of requests, one after the other; others[i] is what other threads insert during
        request i. Titles may be empty; the only replies that can differ from those without a cache
        are lookups below a place without a title. */
    method Serve(requests: seq<Request>, others: seq<Turns>) returns (replies: seq<Reply>)
      requires Sound() && Honest(server) && |others| == |requests| && Allowed(requests, true)
      requires forall i :: 0 <= i < |others| ==> ProperTurns(server, others[i])
      modifies this, head, nodes
      ensures Sound() && OwnNodes() && |replies| == |requests|
      ensures forall i :: 0 <= i < |replies| ==>
        || replies[i] == Uncached(server, requests[i])
        || (requests[i].Find? && EndsInSlash(requests[i].path) && Nameless(server, requests[i].path + "/"))
      ensures (forall path :: !Nameless(server, path)) ==>
        forall i :: 0 <= i < |replies| ==> replies[i] == Uncached(server, requests[i])
      ensures (forall i :: 0 <= i < |others| ==> others[i] == Turns([], [])) ==>
        replies == Replies(server, old(Records()), cacheSize, requests)
    {
      hide Sound, AllProper, ProperTurns, Honest, Canonical, Values, EndsInSlash, Nameless, Uncached, Replied;
      hide AfterRequest;
      replies := [];
      assert requests[0..] == requests;
      for i := 0 to |requests|
        invariant Sound() && OwnNodes() && |replies| == i
        invariant forall j :: 0 <= j < i ==>
          || replies[j] == Uncached(server, requests[j])
          || (requests[j].Find? && EndsInSlash(requests[j].path) && Nameless(server, requests[j].path + "/"))
        invariant (forall j :: 0 <= j < |others| ==> others[j] == Turns([], [])) ==>
          Replies(server, old(Records()), cacheSize, requests) ==
          replies + Replies(server, Records(), cacheSize, requests[i..])
      {
        assert requests[i..][0] == requests[i] && requests[i..][1..] == requests[i + 1..];
        ghost var before := replies;
        var reply := ServeOne(requests[i], others[i]);
        replies := replies + [reply];
        RepliesStep(before, reply, Replies(server, Records(), cacheSize, requests[i + 1..]));
      }
    }

    method ServeOne(request: Request, others: Turns) returns (reply: Reply)
      requires Sound() && Honest(server) && AllowedOne(request, true) && ProperTurns(server, others)
      modifies this, head, nodes
      ensures Sound() && OwnNodes()
      ensures
        || reply == Uncached(server, request)
        || (request.Find? && EndsInSlash(request.path) && Nameless(server, request.path + "/"))
      ensures others == Turns([], []) ==>
        && reply == Replied(server, old(Records()), request)
        && Records() == AfterRequest(server, old(Records()), cacheSize, request)
    {
      hide Sound, AllProper, Honest, Canonical, Values, EndsInSlash, Nameless, Unhidden, Listing, AfterFind, AfterRead;
      hide Answered;
      match request {
        case Find(path) =>
          var c := FindPath(path, others.lookup);
          reply := Found(c);
        case List(path) =>
          var names := ReadDir(path, others);
          reply := Listed(names);
      }
    }

    method FindSound(path: string) returns (c: Option<Answer>)
      requires Sound()
      ensures c == Lookup(Records(), path)
      ensures c.Some? && !Hidden(path) ==>
        (c == Walk(server, path) || (EndsInSlash(path) && Nameless(server, path + "/"))) && AnswerOf(server, path, c)
    {
      hide FindRecord, Walk, Ring, Bounded, Values, Placed, EndsInSlash, Nameless, Hidden, AnswerOf;
      c := FindCache(path);
      if c.Some? && !Hidden(path) {
        HitCases(server, Records(), cacheSize, path);
      }
    }

    method MakeRoom()
      requires Ring(head, nodes)
      modifies this`nodes, head, nodes
      ensures Ring(head, nodes) && Records() == Evicted(old(Records()), cacheSize)
      ensures |nodes| <= |old(nodes)| && forall i :: 0 <= i < |nodes| ==> nodes[i] == old(nodes)[i]
    {
      hide Ring;
      var count := ListCount(head, nodes);
      if count > cacheSize {
        Evict();
      }
    }

    /** The oldest entry goes. */
    method Evict()
      requires Ring(head, nodes) && nodes != []
      modifies this`nodes, head, nodes
      ensures Ring(head, nodes) && nodes == old(nodes[..|nodes| - 1])
      ensures Records() == old(Records()[..|Records()| - 1])
    {
      ghost var k := |nodes| - 1;
      assert Joint(head, nodes, k);
      ListDel(head.prev, head, nodes, k);
      assert nodes[..k] + nodes[k + 1..] == nodes[..k];
      nodes := nodes[..k];
    }

    /** The new record becomes the first. */
    method Push(a: Answer)
      requires Ring(head, nodes)
      modifies this`nodes, this`log, head, nodes
      ensures Ring(head, nodes) && log == [a] + old(log) && Records() == [a] + old(Records())
      ensures |nodes| == |old(nodes)| + 1 && fresh(nodes[0]) && forall i :: 1 <= i < |nodes| ==>
        nodes[i] == old(nodes)[i - 1]
    {
      hide Ring;
      var c := new Link(a);
      ListAdd(c, head, nodes);
      nodes, log := [c] + nodes, [a] + log;
    }
  }

  const DEVICES: string := "/.devices"
  const METADATA: string := "/.metadata"

  /** strstr: where t starts first, or the length if it does not. */
  function Search(s: string, t: string): (k: nat)
    ensures k <= |s|
    ensures k < |s| ==> t <= s[k..]
    ensures forall i :: 0 <= i < k ==> !(t <= s[i..])
  {
    if s == "" || t <= s then 0
    else
      assert forall i :: 0 < i <= |s| ==> s[i..] == s[1..][i - 1..];
      1 + Search(s[1..], t)
  }

  /** What is listed for a path, without any cache. */
  function Entries(server: Server, path: string): seq<Entry> {
    if Hidden(path) then []
    else
      match Walk(server, path)
      case None => []
      case Some(c) => server.Children(c.device, c.objectId)
  }

  /** The names in a directory without any cache. */
  function Listing(server: Server, path: string): seq<string> {
    var none, t := [".", ".."], Search(path, METADATA);
    if t + |METADATA| == |path| then none + TextNames(Entries(server, path[..t]))
    else
      var e := Entries(server, path);
      none + if e == [] then [] else [".metadata"] + Titles(e)
  }

  function Titles(entries: seq<Entry>): seq<string> {
    if entries == [] then [] else Titles(entries[..|entries| - 1]) + [entries[|entries| - 1].title]
  }

  lemma NoTitles()
    ensures Titles([]) == []
  {}

  lemma TitlesStep(e: seq<Entry>, k: nat)
    requires k < |e|
    ensures Titles(e[..k + 1]) == Titles(e[..k]) + [e[k].title]
  {
    assert e[..k + 1][..k] == e[..k];
  }

  function TextNames(entries: seq<Entry>): seq<string> {
    if entries == [] then [] else TextNames(entries[..|entries| - 1]) + [entries[|entries| - 1].title + ".txt"]
  }

  lemma NoTextNames()
    ensures TextNames([]) == []
  {}

  lemma TextNamesStep(e: seq<Entry>, k: nat)
    requires k < |e|
    ensures TextNames(e[..k + 1]) == TextNames(e[..k]) + [e[k].title + ".txt"]
  {
    assert e[..k + 1][..k] == e[..k];
  }

  /** Only at the end of a path that is not hidden does the name of a metadata directory start where it is
      first found. */
  lemma MetadataFound(path: string)
    ensures (forall p :: path != p + "/.metadata") ==> Search(path, METADATA) + |METADATA| != |path|
    ensures forall p :: path == p + "/.metadata" ==>
      if Search(path, METADATA) + |METADATA| == |path| then path[..Search(path, METADATA)] == p
      else Hidden(p) && Hidden(path)
  {
    hide Search, Hidden;
    if Search(path, METADATA) + |METADATA| == |path| {
      FoundAtEnd(path);
    }
    forall p | path == p + "/.metadata"
      ensures if Search(path, METADATA) + |METADATA| == |path| then path[..Search(path, METADATA)] == p
              else Hidden(p) && Hidden(path)
    {
      SearchFirst(p);
      assert path[..|p|] == p;
    }
  }

  lemma FoundAtEnd(path: string)
    requires Search(path, METADATA) + |METADATA| == |path|
    ensures path == path[..Search(path, METADATA)] + "/.metadata"
  {
    hide Search;
    var t := Search(path, METADATA);
    assert path[t..] == METADATA;
  }

  lemma SearchFirst(p: string)
    ensures var path := p + "/.metadata";
      Search(path, METADATA) != |p| ==> Hidden(p) && Hidden(path)
  {
    hide Search;
    var path := p + "/.metadata";
    var t := Search(path, METADATA);
    assert path[|p|..] == METADATA;
    if t != |p| {
      assert !(|p| < t);
      assert METADATA <= path[t..] && METADATA[0] == '/' && METADATA[1] == '.';
      assert path[t..][0] == '/' && path[t..][1] == '.';
      assert path[t + 1] == '.' && path[|p|] == '/';
      assert p[t] == '/' && p[t + 1] == '.';
    }
  }

  /** The names listed, said without the listing. */
  lemma ListingShows(server: Server, path: string)
    ensures Shows(server, path, Listing(server, path))
  {
    hide Walk, Hidden, Titles, TextNames, Search;
    MetadataFound(path);
    forall e: seq<Entry> ensures Names([".", ".."] + TextNames(e), [".", ".."], e, ".txt") {
      TextNamesAre(e);
    }
    forall e: seq<Entry> ensures Names([".", ".."] + ([".metadata"] + Titles(e)), [".", "..", ".metadata"], e, "") {
      TitlesAre(e);
    }
    NoTextNames();
  }

  lemma {:induction false} TextNamesAre(e: seq<Entry>)
    ensures |TextNames(e)| == |e| && forall i :: 0 <= i < |e| ==> TextNames(e)[i] == e[i].title + ".txt"
  {
    if e != [] {
      TextNamesAre(e[..|e| - 1]);
    }
  }

  lemma {:induction false} TitlesAre(e: seq<Entry>)
    ensures |Titles(e)| == |e| && forall i :: 0 <= i < |e| ==> Titles(e)[i] == e[i].title + ""
  {
    if e != [] {
      TitlesAre(e[..|e| - 1]);
    }
  }

  datatype Request = Find(path: string) | List(path: string)
  datatype Reply = Found(answer: Option<Answer>) | Listed(names: seq<string>)

  function Unhidden(server: Server, path: string): Option<Answer> {
    if Hidden(path) then None else Walk(server, path)
  }

  function Uncached(server: Server, request: Request): Reply {
    match request
    case Find(path) => Found(Unhidden(server, path))
    case List(path) => Listed(Listing(server, path))
  }

  /** The place this path leads to was reached through an entry without a title, and a record is filed
      for it when the path is looked up. */
  ghost predicate Nameless(server: Server, path: string) {
    && path != "" && path[0] == '/' && !Hidden(path) && Locate(server, path).Some?
    && var at := Locate(server, path).value;
    && EndsInSlash(at.path) && Checked(RecordAt(at)).Some?
  }

  /** The answer of do_findpath with these records in the cache. */
  ghost function Answered(server: Server, records: seq<Answer>, path: string): Option<Answer> {
    if Hidden(path) then None
    else if Lookup(records, path).Some? then Lookup(records, path)
    else Walk(server, path)
  }

  ghost function Replied(server: Server, records: seq<Answer>, request: Request): Reply {
    match request
    case Find(path) => Found(Answered(server, records, path))
    case List(path) => Listed(Listing(server, path))
  }

  ghost function AfterRequest(server: Server, records: seq<Answer>, cacheSize: nat, request: Request): seq<Answer> {
    match request
    case Find(path) => AfterFind(server, records, cacheSize, path)
    case List(path) => AfterRead(server, records, cacheSize, path)
  }

  /** The replies of a run that starts with these records in the cache. */
  ghost function Replies(server: Server, records: seq<Answer>, cacheSize: nat, requests: seq<Request>): seq<Reply>
    decreases |requests|
  {
    if requests == [] then []
    else
      [Replied(server, records, requests[0])]
      + Replies(server, AfterRequest(server, records, cacheSize, requests[0]), cacheSize, requests[1..])
  }

  /** The replies without any cache. */
  ghost function Uncacheds(server: Server, requests: seq<Request>): seq<Reply>
    decreases |requests|
  {
    if requests == [] then [] else [Uncached(server, requests[0])] + Uncacheds(server, requests[1..])
  }

  /** Lookups of any path; directory reads, if there are any, of canonical paths below a device. */
  ghost predicate AllowedOne(request: Request, listings: bool) {
    request.List? ==> listings && Canonical(request.path) && request.path != DEVICES
  }

  ghost predicate Allowed(requests: seq<Request>, listings: bool) {
    forall i :: 0 <= i < |requests| ==> AllowedOne(requests[i], listings)
  }

  lemma RepliesStep(before: seq<Reply>, reply: Reply, more: seq<Reply>)
    ensures before + ([reply] + more) == before + [reply] + more
  {}

  lemma HiddenSlash(path: string)
    ensures Hidden(path + "/") <==> Hidden(path)
  {
    if i :| 0 <= i < |path| - 1 && path[i] == '/' && path[i + 1] == '.' {
      assert (path + "/")[i] == '/' && (path + "/")[i + 1] == '.';
    }
    if i :| 0 <= i < |path + "/"| - 1 && (path + "/")[i] == '/' && (path + "/")[i + 1] == '.' {
      assert path[i] == '/' && path[i + 1] == '.';
    }
  }

  /** A record that is found is right, or it is that of a place without a title. */
  lemma HitCases(server: Server, records: seq<Answer>, cacheSize: nat, path: string)
    requires Bounded(records, cacheSize) && Placed(server, records) && !Hidden(path) && Lookup(records, path).Some?
    ensures Lookup(records, path) == Walk(server, path) || (EndsInSlash(path) && Nameless(server, path + "/"))
    ensures AnswerOf(server, path, Lookup(records, path))
  {
    hide Locate, Walk, Hidden, EndsInSlash, FindRecord, AnswerOf;
    var a := Lookup(records, path).value;
    RecordAnswers(server, path, a);
    CheckedIs(a);
    PlaceExact(server, a);
    HiddenSlash(path);
    PlacePath(server, path + "/");
    assert Locate(server, path + "/").value.path == path;
  }

  lemma HiddenAnswers(server: Server, path: string)
    ensures Hidden(path) ==> AnswerOf(server, path, None)
  {}

  lemma CanonicalEnd(path: string)
    requires Canonical(path)
    ensures !EndsInSlash(path)
  {}

  lemma NoSlashBefore(path: string, k: nat)
    requires Canonical(path) && k < |path| && path[k] == '/'
    ensures !EndsInSlash(path[..k])
  {}

  lemma FoundSpot(server: Server, path: string)
    requires Walk(server, path).Some?
    ensures Locate(server, path).Some?
    ensures Walk(server, path).value.device == Locate(server, path).value.device
    ensures Walk(server, path).value.objectId == Locate(server, path).value.entry.id
  {
    hide Locate;
  }

  lemma PrefillSpot(server: Server, path: string, k: nat)
    requires Honest(server) && Canonical(path) && Walk(server, path).Some?
    requires k < |server.Children(Walk(server, path).value.device, Walk(server, path).value.objectId)|
    ensures var c := Walk(server, path).value;
      var e := server.Children(c.device, c.objectId)[k];
      Proper(server, Insertion(path + "/" + e.title, c.device, e))
  {
    hide Locate, Walk, Canonical, Honest, AtPlace;
    FoundSpot(server, path);
    PrefillPlaced(server, path, k);
  }

  ghost predicate AllProper(server: Server, ops: seq<Insertion>) {
    forall i :: 0 <= i < |ops| ==> Proper(server, ops[i])
  }

  /** What other threads insert during a request: between the steps of a lookup, and ahead of each
      child of a directory. */
  datatype Turns = Turns(lookup: seq<seq<Insertion>>, children: seq<seq<Insertion>>)

  ghost predicate ProperTurns(server: Server, others: Turns) {
    && (forall i :: 0 <= i < |others.lookup| ==> AllProper(server, others.lookup[i]))
    && forall i :: 0 <= i < |others.children| ==> AllProper(server, others.children[i])
  }

  function Turn(others: seq<seq<Insertion>>, i: nat): seq<Insertion> {
    if i < |others| then others[i] else []
  }

  lemma TurnProper(server: Server, others: seq<seq<Insertion>>)
    requires forall i :: 0 <= i < |others| ==> AllProper(server, others[i])
    ensures forall i :: AllProper(server, Turn(others, i))
  {
    hide AllProper;
    NoneImproper(server);
  }

  lemma NoneImproper(server: Server)
    ensures AllProper(server, [])
  {}

  /** The first loop of do_findpath. */
  method FirstSegment(path: string) returns (d: string, p: string)
    ensures d == "" <==> Device(path).None?
    ensures d != "" ==> Device(path) == Some((d, p))
  {
    p, d := path, "";
    while p != ""
      invariant d == "" && Device(p) == Device(path)
      decreases |p|
    {
      var dir := Head(p);
      if dir == "" {
        p := Tail(p);
        continue;
      }
      d, p := dir, Tail(p);
      break;
    }
  }

  /** One round of the second loop: the listing is searched for the title. */
  method Step(server: Server, at: Spot, dir: string) returns (next: Option<Spot>)
    ensures next == Child(server, at, dir)
  {
    var e := server.Children(at.device, at.entry.id);
    var k := 0;
    while k < |e|
      invariant k <= |e| && forall i :: 0 <= i < k ==> e[i].title != dir
    {
      if e[k].title == dir {
        break;
      }
      k := k + 1;
    }
    TitleIs(e, dir, k);
    if k == |e| {
      return None;
    }
    var m := server.Metadata(at.device, e[k].id);
    if m.None? {
      return None;
    }
    next := Some(Spot(at.device, m.value, at.path + "/" + dir));
  }

  lemma TitleIs(entries: seq<Entry>, title: string, k: nat)
    requires k <= |entries| && (k < |entries| ==> entries[k].title == title)
    requires forall i :: 0 <= i < k ==> entries[i].title != title
    ensures FindTitle(entries, title) == k
  {
    hide FindTitle;
  }

  lemma NoDevice(server: Server, path: string)
    requires Device(path).None?
    ensures Walk(server, path) == None
  {}

  lemma NoRoot(server: Server, path: string)
    requires Device(path).Some? && server.Metadata(Device(path).value.0, "0").None?
    ensures Walk(server, path) == None
  {}

  /** The root of the device is where its path leads. */
  lemma RootSpot(server: Server, path: string)
    requires Device(path).Some? && server.Metadata(Device(path).value.0, "0").Some?
    ensures var (d, rest) := Device(path).value;
      var at := Spot(d, server.Metadata(d, "0").value, "/" + d);
      && WalkFrom(server, at, rest) == Locate(server, path)
      && Leads(server, at) && Proper(server, Insertion(at.path, d, at.entry))
  {
    hide WalkFrom, Leads, AtPlace;
    var (d, rest) := Device(path).value;
    DeviceIsSegment(path);
    RootLeads(server, d);
    LeadsHome(server, Spot(d, server.Metadata(d, "0").value, "/" + d));
  }

  /** A step of the walk leads to a place further down. */
  lemma WalkStep(server: Server, path: string, at: Spot, p: string)
    requires p != "" && WalkFrom(server, at, p) == Locate(server, path) && Leads(server, at)
    ensures match Child(server, at, Head(p))
      case None => Walk(server, path) == None
      case Some(next) =>
        && WalkFrom(server, next, Tail(p)) == Locate(server, path)
        && Leads(server, next) && Proper(server, Insertion(next.path, next.device, next.entry))
  {
    hide Leads, Child, Head, Tail, Device, AtPlace;
    match Child(server, at, Head(p)) {
      case None =>
      case Some(next) =>
        HeadFree(p);
        ChildLeads(server, at, Head(p));
        LeadsHome(server, next);
    }
  }

  /** At the end of the walk the record is the one for the whole path. */
  lemma WalkEnds(server: Server, path: string, at: Spot)
    requires WalkFrom(server, at, "") == Locate(server, path)
    ensures Checked(RecordAt(at)) == Walk(server, path)
  {
    WalkNone(server, at);
  }

  lemma ValidRecord(records: seq<Answer>, cacheSize: nat, k: nat)
    requires Bounded(records, cacheSize) && k < |records|
    ensures Checked(records[k]) == Some(records[k])
  {}

  lemma CheckedIs(a: Answer)
    ensures Checked(a).Some? ==> Checked(a) == Some(a)
  {}

  lemma RecordPath(path: string, device: string, e: Entry)
    ensures Record(path, device, e).path == path && Record(path, device, e).device == device
    ensures Record(path, device, e).objectId == e.id
  {}

  ghost function Values(nodes: seq<Link<Answer>>): (records: seq<Answer>)
    ensures |records| == |nodes| && forall i :: 0 <= i < |nodes| ==> records[i] == nodes[i].value
  {
    if nodes == [] then [] else Values(nodes[..|nodes| - 1]) + [nodes[|nodes| - 1].value]
  }

  // ---------- Exactly when runs agree with the walk ----------

  lemma {:induction false} InsertAllKeeps(server: Server, records: seq<Answer>, cacheSize: nat, answers: seq<Answer>)
    requires Bounded(records, cacheSize) && Placed(server, records) && Placed(server, answers)
    ensures Bounded(InsertAll(records, cacheSize, answers), cacheSize)
    ensures Placed(server, InsertAll(records, cacheSize, answers))
    decreases |answers|
  {
    hide Bounded, AtPlace, Inserted, Returned;
    if answers != [] {
      InsertedBounded(records, cacheSize, answers[0]);
      InsertedPlaced(server, records, cacheSize, answers[0]);
      InsertAllKeeps(server, Inserted(records, cacheSize, answers[0]), cacheSize, answers[1..]);
    }
  }

  /** The places that a walk visits, and that the last one is where it ends. */
  lemma {:induction false} VisitedFromPlaced(server: Server, at: Spot, rest: string)
    requires Leads(server, at)
    ensures var visited := [RecordAt(at)] + VisitedFrom(server, at, rest);
      && Placed(server, visited)
      && (WalkFrom(server, at, rest).Some? ==>
            visited[|visited| - 1] == RecordAt(WalkFrom(server, at, rest).value))
    decreases |rest|
  {
    hide Leads, Child, AtPlace, Record, Head, Tail;
    LeadsHome(server, at);
    if rest != "" && Child(server, at, Head(rest)).Some? {
      HeadFree(rest);
      ShorterTail(rest);
      ChildLeads(server, at, Head(rest));
      VisitedFromPlaced(server, Child(server, at, Head(rest)).value, Tail(rest));
    }
  }

  lemma VisitedPlaced(server: Server, path: string)
    ensures Placed(server, Visited(server, path))
    ensures Locate(server, path).Some? ==>
      var visited := Visited(server, path);
      visited != [] && visited[|visited| - 1] == RecordAt(Locate(server, path).value)
  {
    hide Leads, VisitedFrom, WalkFrom, AtPlace, Device, Record;
    match Device(path) {
      case None =>
      case Some((d, rest)) =>
        if server.Metadata(d, "0").Some? {
          DeviceIsSegment(path);
          RootLeads(server, d);
          VisitedFromPlaced(server, Spot(d, server.Metadata(d, "0").value, "/" + d), rest);
        }
    }
  }

  lemma {:induction false} ChildRecordsPlaced(server: Server, path: string, n: nat)
    requires Honest(server) && Canonical(path) && Walk(server, path).Some?
    requires n <= |server.Children(Walk(server, path).value.device, Walk(server, path).value.objectId)|
    ensures var c := Walk(server, path).value;
      Placed(server, ChildRecords(path, c.device, server.Children(c.device, c.objectId)[..n]))
  {
    hide Honest, Canonical, Walk, AtPlace, Record;
    var c := Walk(server, path).value;
    var e := server.Children(c.device, c.objectId);
    if n > 0 {
      ChildRecordsPlaced(server, path, n - 1);
      PrefillSpot(server, path, n - 1);
      ChildRecordsStep(path, c.device, e, n - 1);
    }
  }

  lemma FiledForPlaced(server: Server, path: string)
    requires Honest(server) && Canonical(path)
    ensures Placed(server, FiledFor(server, path))
  {
    hide Honest, Canonical, Walk, AtPlace, Hidden, ChildRecords;
    if !Hidden(path) && Walk(server, path).Some? {
      var c := Walk(server, path).value;
      var e := server.Children(c.device, c.objectId);
      ChildRecordsPlaced(server, path, |e|);
      assert e[..|e|] == e;
    }
  }

  lemma FindKeeps(server: Server, records: seq<Answer>, cacheSize: nat, path: string)
    requires Bounded(records, cacheSize) && Placed(server, records)
    ensures Bounded(AfterFind(server, records, cacheSize, path), cacheSize)
    ensures Placed(server, AfterFind(server, records, cacheSize, path))
  {
    hide Bounded, Placed, Hidden, Lookup, Visited, InsertAll;
    VisitedPlaced(server, path);
    InsertAllKeeps(server, records, cacheSize, Visited(server, path));
  }

  lemma RequestKeeps(server: Server, records: seq<Answer>, cacheSize: nat, request: Request, listings: bool)
    requires Bounded(records, cacheSize) && Placed(server, records)
    requires AllowedOne(request, listings) && (listings ==> Honest(server))
    ensures Bounded(AfterRequest(server, records, cacheSize, request), cacheSize)
    ensures Placed(server, AfterRequest(server, records, cacheSize, request))
  {
    hide Bounded, Placed, AfterFind, InsertAll, FiledFor, Honest, Canonical, Search;
    match request {
      case Find(path) => FindKeeps(server, records, cacheSize, path);
      case List(path) =>
        var t := Search(path, METADATA);
        if t + |METADATA| == |path| {
          FindKeeps(server, records, cacheSize, path[..t]);
        } else {
          FindKeeps(server, records, cacheSize, path);
          FiledForPlaced(server, path);
          InsertAllKeeps(server, AfterFind(server, records, cacheSize, path), cacheSize, FiledFor(server, path));
        }
    }
  }

  lemma RepliedRight(server: Server, records: seq<Answer>, cacheSize: nat, request: Request)
    requires Bounded(records, cacheSize) && Placed(server, records) && forall path :: !Nameless(server, path)
    ensures Replied(server, records, request) == Uncached(server, request)
  {
    hide Bounded, Placed, Nameless, Hidden, Lookup, Walk;
    if request.Find? && !Hidden(request.path) && Lookup(records, request.path).Some? {
      HitCases(server, records, cacheSize, request.path);
    }
  }

  lemma {:induction false} RepliesRight(server: Server, records: seq<Answer>, cacheSize: nat, requests: seq<Request>,
                                        listings: bool)
    requires Bounded(records, cacheSize) && Placed(server, records) && forall path :: !Nameless(server, path)
    requires Allowed(requests, listings) && (listings ==> Honest(server))
    ensures Replies(server, records, cacheSize, requests) == Uncacheds(server, requests)
    decreases |requests|
  {
    hide Bounded, Placed, Nameless, Honest, AllowedOne, Replied, AfterRequest, Uncached;
    if requests != [] {
      RepliedRight(server, records, cacheSize, requests[0]);
      RequestKeeps(server, records, cacheSize, requests[0], listings);
      RepliesRight(server, AfterRequest(server, records, cacheSize, requests[0]), cacheSize, requests[1..], listings);
    }
  }

  /** A path that is not hidden does not lead to a hidden one. */
  lemma HiddenBuilt(server: Server, path: string)
    requires path != "" && path[0] == '/' && !Hidden(path) && Locate(server, path).Some?
    ensures !Hidden(Locate(server, path).value.path)
  {
    hide Device, WalkFrom, Hidden;
    var (d, rest) := Device(path).value;
    var n := DeviceSplits(path);
    WalkBuilds(server, Spot(d, server.Metadata(d, "0").value, "/" + d), rest);
    BuiltWithin(path, n, d, rest);
    if Hidden("/" + d + Suffix(rest)) {
      HiddenWithin("/" + d + Suffix(rest), path, n - 1);
    }
  }

  lemma BuiltWithin(path: string, n: nat, d: string, rest: string)
    requires path != "" && path[0] == '/' && d != "" && '/' !in d && n <= |path|
    requires forall i :: 0 <= i < n ==> path[i] == '/'
    requires path[n..] == d + "/" + rest || (rest == "" && path[n..] == d)
    ensures n > 0 && "/" + d + Suffix(rest) <= path[n - 1..]
  {
    assert path[n] == path[n..][0] == d[0] && d[0] in d;
    assert path[n - 1..] == "/" + path[n..];
    if rest != "" {
      assert Chop(rest) <= rest;
      assert "/" + d + ("/" + rest) == path[n - 1..];
    }
  }

  lemma HiddenWithin(s: string, path: string, k: nat)
    requires k <= |path| && s <= path[k..] && Hidden(s)
    ensures Hidden(path)
  {
    var i :| 0 <= i < |s| - 1 && s[i] == '/' && s[i + 1] == '.';
    assert path[k + i] == '/' && path[k + i + 1] == '.';
  }

  lemma LookupNone(path: string)
    ensures Lookup([], path) == None
  {}

  /** After all places on the way have been filed, the record of the last one is found under its path. */
  lemma FiledPlace(server: Server, records: seq<Answer>, cacheSize: nat, path: string)
    requires Bounded(records, cacheSize) && Placed(server, records) && Locate(server, path).Some?
    ensures var at := Locate(server, path).value;
      Lookup(InsertAll(records, cacheSize, Visited(server, path)), at.path) == Checked(RecordAt(at))
  {
    hide Locate, Visited, InsertAll, Inserted, Bounded, Placed, AtPlace, Lookup, FindRecord, Leads, Record, Returned;
    var at, visited := Locate(server, path).value, Visited(server, path);
    VisitedPlaced(server, path);
    var n := |visited| - 1;
    var before := InsertAll(records, cacheSize, visited[..n]);
    assert visited == visited[..n] + [visited[n]];
    InsertLast(records, cacheSize, visited[..n], visited[n]);
    PlacedPart(server, visited, n);
    InsertAllKeeps(server, records, cacheSize, visited[..n]);
    PlaceLeads(server, path);
    LeadsHome(server, at);
    InsertedPlaced(server, before, cacheSize, RecordAt(at));
    LookupInserted(before, cacheSize, RecordAt(at));
    RecordPath(at.path, at.device, at.entry);
  }

  /** What was looked up once is in the cache, and what is found there is what the walk finds. */
  lemma FoundAgain(server: Server, records: seq<Answer>, cacheSize: nat, path: string)
    requires Bounded(records, cacheSize) && Placed(server, records)
    requires Anchored(path) && !EndsInSlash(path) && !Hidden(path)
    ensures Lookup(AfterFind(server, records, cacheSize, path), path).Some? || Walk(server, path) == None
    ensures Lookup(AfterFind(server, records, cacheSize, path), path).Some? ==>
      Lookup(AfterFind(server, records, cacheSize, path), path) == Walk(server, path)
  {
    hide Locate, Visited, InsertAll, Bounded, Placed, Lookup, Hidden, Anchored, EndsInSlash, Record, Checked;
    var after := AfterFind(server, records, cacheSize, path);
    FindKeeps(server, records, cacheSize, path);
    if Lookup(after, path).Some? {
      HitCases(server, after, cacheSize, path);
    } else if Locate(server, path).Some? {
      FiledPlace(server, records, cacheSize, path);
      BuiltPath(server, path);
    }
  }

  /** What a directory read files is found: the record of the last child, if it has a title, is in the cache
      and is what the walk finds. */
  lemma ListedFound(server: Server, records: seq<Answer>, cacheSize: nat, path: string)
    requires Bounded(records, cacheSize) && Placed(server, records) && Honest(server)
    requires Canonical(path) && !Hidden(path) && Walk(server, path).Some? && Search(path, METADATA) == |path|
    ensures var c := Walk(server, path).value;
      var e := server.Children(c.device, c.objectId);
      e != [] && e[|e| - 1].title != "" ==>
        var child := path + "/" + e[|e| - 1].title;
        Lookup(AfterRead(server, records, cacheSize, path), child) == Walk(server, child)
  {
    hide Walk, Locate, Hidden, Canonical, Honest, Bounded, Placed, AfterFind, InsertAll, Inserted, Returned, Lookup;
    hide ChildRecords, Record, Checked, Search;
    var c := Walk(server, path).value;
    var e := server.Children(c.device, c.objectId);
    if e != [] && e[|e| - 1].title != "" {
      var n := |e| - 1;
      var a := Record(path + "/" + e[n].title, c.device, e[n]);
      var found, front := AfterFind(server, records, cacheSize, path), ChildRecords(path, c.device, e[..n]);
      FindKeeps(server, records, cacheSize, path);
      ChildRecordsPlaced(server, path, n);
      InsertAllKeeps(server, found, cacheSize, front);
      ChildRecordsStep(path, c.device, e, n);
      assert e[..n + 1] == e;
      InsertLast(found, cacheSize, front, a);
      FoundSpot(server, path);
      PrefillSpot(server, path, n);
      RecordPath(path + "/" + e[n].title, c.device, e[n]);
      InsertedPlaced(server, InsertAll(found, cacheSize, front), cacheSize, a);
      LookupInserted(InsertAll(found, cacheSize, front), cacheSize, a);
      PrefillRight(server, path, n);
    }
  }

  /** A lookup of a place without a title leaves its record where a later lookup takes it for that of
      another place: the answer differs from the walk. */
  lemma NamelessOvershadows(server: Server, cacheSize: nat, path: string)
    requires Nameless(server, path)
    ensures var at := Locate(server, path).value;
      && !Hidden(at.path)
      && Lookup(AfterFind(server, [], cacheSize, path), at.path) == Some(RecordAt(at))
      && Walk(server, at.path) != Some(RecordAt(at))
  {
    hide Locate, Walk, Hidden, EndsInSlash, Visited, InsertAll, Bounded, Placed, Lookup, Record;
    var at := Locate(server, path).value;
    HiddenBuilt(server, path);
    LookupNone(path);
    NothingPlaced(server, cacheSize);
    FiledPlace(server, [], cacheSize, path);
    CheckedIs(RecordAt(at));
    VisitedExact(server, path);
  }

  lemma NothingPlaced(server: Server, cacheSize: nat)
    ensures Bounded([], cacheSize) && Placed(server, [])
  {}

  lemma PlacedPart(server: Server, answers: seq<Answer>, n: nat)
    requires Placed(server, answers) && n <= |answers|
    ensures Placed(server, answers[..n])
  {
    hide AtPlace;
  }

  /** On any server all lookups of all runs from an empty cache agree with the walk exactly if no
      place that can be looked up was reached through an entry without a title and has a valid record.
      Where titles have no slashes, are different within a listing, and listings agree with the
      metadata, the same holds of runs with directory reads. */
  lemma RunsAgree(server: Server, cacheSize: nat, listings: bool)
    requires listings ==> Honest(server)
    ensures
      (forall requests :: Allowed(requests, listings) ==>
         Replies(server, [], cacheSize, requests) == Uncacheds(server, requests)) <==>
      forall path :: !Nameless(server, path)
  {
    hide Allowed, Nameless, Honest, Replies, Uncacheds;
    if forall path :: !Nameless(server, path) {
      NothingPlaced(server, cacheSize);
      forall requests | Allowed(requests, listings)
        ensures Replies(server, [], cacheSize, requests) == Uncacheds(server, requests)
      {
        RepliesRight(server, [], cacheSize, requests, listings);
      }
    } else {
      var path :| Nameless(server, path);
      var requests := NamelessRun(server, cacheSize, path, listings);
    }
  }

  /** The run that goes wrong: the place without a title, and then the path its record is filed under. */
  lemma NamelessRun(server: Server, cacheSize: nat, path: string, listings: bool) returns (requests: seq<Request>)
    requires Nameless(server, path)
    ensures Allowed(requests, listings) && Replies(server, [], cacheSize, requests) != Uncacheds(server, requests)
  {
    NamelessOvershadows(server, cacheSize, path);
    hide Nameless, Hidden, Lookup, Walk, AfterFind, Locate;
    var at := Locate(server, path).value;
    requests := [Find(path), Find(at.path)];
    TwoReplies(server, cacheSize, path, at.path);
  }

  lemma TwoReplies(server: Server, cacheSize: nat, p: string, q: string)
    ensures var requests, records := [Find(p), Find(q)], AfterFind(server, [], cacheSize, p);
      && Replies(server, [], cacheSize, requests) ==
         [Found(Answered(server, [], p)), Found(Answered(server, records, q))]
      && Uncacheds(server, requests) == [Found(Unhidden(server, p)), Found(Unhidden(server, q))]
  {
    hide Answered, Unhidden, AfterFind;
    var requests, more := [Find(p), Find(q)], [Find(q)];
    assert requests[1..] == more && more[1..] == [];
    assert Replies(server, AfterFind(server, [], cacheSize, p), cacheSize, more) ==
      [Found(Answered(server, AfterFind(server, [], cacheSize, p), q))];
    assert Uncacheds(server, more) == [Found(Unhidden(server, q))];
  }
}
