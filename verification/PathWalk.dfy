/** What a path of the file system stands for: the walk from the device down the listings of the
    media server, without any cache. */
module PathWalk {
  import opened Wrappers

  /** The parts of entry_t that the file system looks at. */
  datatype Entry = Entry(id: string, title: string, objectClass: string, source: Option<string>, size: nat)

  /** upnpfs_cache_t without its list links. */
  datatype Answer = Answer(path: string, device: string, objectId: string, container: bool, source: Option<string>,
    size: nat)

  /** An unchanging server: browse_metadata and browse_children by device and object; an empty
      listing is returned as NULL. */
  datatype Server = Server(metadata: map<(string, string), Entry>, children: map<(string, string), seq<Entry>>)
  {
    function Metadata(device: string, id: string): Option<Entry> {
      if (device, id) in metadata then Some(metadata[(device, id)]) else None
    }

    function Children(device: string, id: string): seq<Entry> {
      if (device, id) in children then children[(device, id)] else []
    }
  }

  // ---------- Records ----------

  /** The record for an entry, before it is validated. */
  function Record(path: string, device: string, e: Entry): Answer {
    if "object.container" <= e.objectClass then Answer(path, device, e.id, true, None, 0)
    else if "object.item" <= e.objectClass then Answer(path, device, e.id, false, e.source, e.size)
    else Answer(path, device, e.id, false, None, 0)
  }

  /** do_validatecache: a record that is no container needs a source. */
  function Checked(a: Answer): Option<Answer> {
    if a.container || a.source.Some? then Some(a) else None
  }

  // ---------- Paths ----------

  /** Where strsep ends the first segment. */
  function Index(s: string): (k: nat)
    ensures k <= |s| && (k < |s| ==> s[k] == '/') && forall i :: 0 <= i < k ==> s[i] != '/'
  {
    if s == "" || s[0] == '/' then 0 else 1 + Index(s[1..])
  }

  function Head(s: string): string {
    s[..Index(s)]
  }

  /** What strsep leaves; nothing and the empty string end the loops alike. */
  function Tail(s: string): string {
    if Index(s) < |s| then s[Index(s) + 1..] else ""
  }

  /** The first segment that is not empty, and the rest of the path. */
  function Device(path: string): Option<(string, string)>
    decreases |path|
  {
    if path == "" then None
    else if Head(path) != "" then Some((Head(path), Tail(path)))
    else Device(Tail(path))
  }

  predicate Hidden(path: string) {
    exists i :: 0 <= i < |path| - 1 && path[i] == '/' && path[i + 1] == '.'
  }

  // ---------- The walk ----------

  /** A place in the tree, with the path that do_findpath builds for it. */
  datatype Spot = Spot(device: string, entry: Entry, path: string)

  /** The index of the first entry with this title, or the length. */
  function FindTitle(entries: seq<Entry>, title: string): (k: nat)
    ensures k <= |entries| && (k < |entries| ==> entries[k].title == title)
    ensures forall i :: 0 <= i < k ==> entries[i].title != title
  {
    if entries == [] || entries[0].title == title then 0 else 1 + FindTitle(entries[1..], title)
  }

  function Child(server: Server, at: Spot, dir: string): Option<Spot> {
    var entries := server.Children(at.device, at.entry.id);
    var k := FindTitle(entries, dir);
    if k == |entries| then None
    else
      match server.Metadata(at.device, entries[k].id)
      case None => None
      case Some(e) => Some(Spot(at.device, e, at.path + "/" + dir))
  }

  function WalkFrom(server: Server, at: Spot, rest: string): Option<Spot>
    decreases |rest|
  {
    if rest == "" then Some(at)
    else
      match Child(server, at, Head(rest))
      case None => None
      case Some(next) => WalkFrom(server, next, Tail(rest))
  }

  function Locate(server: Server, path: string): Option<Spot> {
    match Device(path)
    case None => None
    case Some((d, rest)) =>
      match server.Metadata(d, "0")
      case None => None
      case Some(e) => WalkFrom(server, Spot(d, e, "/" + d), rest)
  }

  /** do_findpath without a cache, and without the test for hidden names. */
  function Walk(server: Server, path: string): Option<Answer> {
    match Locate(server, path)
    case None => None
    case Some(at) => Checked(RecordAt(at))
  }

  /** The record filed for a place. */
  function RecordAt(at: Spot): Answer {
    Record(at.path, at.device, at.entry)
  }

  // ---------- Extending a path ----------

  /** Every slash is followed by the start of a segment, and the path starts with a slash. */
  ghost predicate Canonical(path: string) {
    path != "" && path[0] == '/' && SlashesStart(path)
  }

  ghost predicate SlashesStart(s: string) {
    forall i :: 0 <= i < |s| && s[i] == '/' ==> i + 1 < |s| && s[i + 1] != '/'
  }

  ghost predicate IsSegment(s: string) {
    s != "" && '/' !in s
  }

  lemma IndexIs(s: string, k: nat)
    requires k <= |s| && (k < |s| ==> s[k] == '/') && forall i :: 0 <= i < k ==> s[i] != '/'
    ensures Index(s) == k
  {
    hide Index;
  }

  lemma SegmentAlone(t: string)
    requires '/' !in t
    ensures Head(t) == t && Tail(t) == ""
  {
    IndexIs(t, |t|);
  }

  /** Appending a segment to a string that does not end in a slash leaves the first one alone. */
  lemma SplitMore(s: string, t: string)
    requires s != "" && s[|s| - 1] != '/'
    ensures Head(s + "/" + t) == Head(s)
    ensures Tail(s + "/" + t) == if Tail(s) == "" then t else Tail(s) + "/" + t
    ensures Tail(s) != "" ==> Tail(s)[|Tail(s)| - 1] == s[|s| - 1]
  {
    hide Index;
    var k, long := Index(s), s + "/" + t;
    IndexIs(long, k);
    if k < |s| {
      assert long[k + 1..] == s[k + 1..] + "/" + t;
    } else {
      assert long[k + 1..] == t;
    }
  }

  /** Below a string that does not end in a slash the walk goes on from where that string leads. */
  lemma {:induction false} WalkMore(server: Server, at: Spot, s: string, t: string)
    requires s != "" && s[|s| - 1] != '/'
    ensures WalkFrom(server, at, s + "/" + t) ==
      match WalkFrom(server, at, s)
      case None => None
      case Some(end) => WalkFrom(server, end, t)
    decreases |s|
  {
    hide Child, Head, Tail;
    SplitMore(s, t);
    match Child(server, at, Head(s)) {
      case None =>
      case Some(next) =>
        WalkNone(server, next);
        if Tail(s) != "" {
          ShorterTail(s);
          WalkMore(server, next, Tail(s), t);
        }
    }
  }

  lemma ShorterTail(s: string)
    requires s != ""
    ensures |Tail(s)| < |s|
  {}

  lemma WalkOne(server: Server, at: Spot, t: string)
    requires IsSegment(t)
    ensures WalkFrom(server, at, t) == Child(server, at, t)
  {
    hide Child;
    SegmentAlone(t);
    match Child(server, at, t) {
      case None =>
      case Some(next) => assert WalkFrom(server, next, "") == Some(next);
    }
  }

  lemma {:induction false} DeviceMore(path: string, t: string)
    requires path != "" && path[|path| - 1] != '/'
    ensures Device(path).Some?
    ensures var (d, rest) := Device(path).value;
      && IsSegment(d) && (rest != "" ==> rest[|rest| - 1] != '/')
      && Device(path + "/" + t) == Some((d, if rest == "" then t else rest + "/" + t))
    decreases |path|
  {
    SplitMore(path, t);
    ShorterTail(path);
    if Head(path) == "" {
      assert Tail(path) != "";
      DeviceMore(Tail(path), t);
    }
  }

  /** Below a path that does not end in a slash the walk goes on from where that path leads. */
  lemma LocateBelow(server: Server, path: string, t: string)
    requires path != "" && path[|path| - 1] != '/'
    ensures Locate(server, path + "/" + t) ==
      match Locate(server, path)
      case None => None
      case Some(end) => WalkFrom(server, end, t)
  {
    hide Child, Device, WalkFrom;
    DeviceMore(path, t);
    var (d, rest) := Device(path).value;
    match server.Metadata(d, "0") {
      case None =>
      case Some(e) =>
        var at := Spot(d, e, "/" + d);
        WalkNone(server, at);
        if rest != "" {
          WalkMore(server, at, rest, t);
        }
    }
  }

  lemma WalkNone(server: Server, at: Spot)
    ensures WalkFrom(server, at, "") == Some(at)
  {}

  /** One more segment is one more step. */
  lemma LocateMore(server: Server, path: string, t: string)
    requires path != "" && path[|path| - 1] != '/' && IsSegment(t)
    ensures Locate(server, path + "/" + t) ==
      match Locate(server, path)
      case None => None
      case Some(end) => Child(server, end, t)
  {
    hide Locate, Child, WalkFrom;
    LocateBelow(server, path, t);
    match Locate(server, path) {
      case None =>
      case Some(end) => WalkOne(server, end, t);
    }
  }

  // ---------- Servers ----------

  /** The titles in a listing are names of files. */
  ghost predicate Titled(server: Server) {
    forall key, i :: key in server.children && 0 <= i < |server.children[key]| ==>
      IsSegment(server.children[key][i].title)
  }

  /** What the walk takes from the metadata is what the listing says. */
  ghost predicate Agrees(server: Server, device: string, e: Entry) {
    match server.Metadata(device, e.id)
    case None => false
    case Some(m) => m.(title := e.title) == e
  }

  ghost predicate HonestListing(server: Server, device: string, entries: seq<Entry>) {
    && (forall i, j :: 0 <= i < j < |entries| ==> entries[i].title != entries[j].title)
    && forall i :: 0 <= i < |entries| ==> Agrees(server, device, entries[i])
  }

  /** Titles without slashes, but perhaps empty. */
  ghost predicate SlashFree(server: Server) {
    forall key, i :: key in server.children && 0 <= i < |server.children[key]| ==>
      '/' !in server.children[key][i].title
  }

  ghost predicate Honest(server: Server) {
    SlashFree(server) && forall key :: key in server.children ==> HonestListing(server, key.0, server.children[key])
  }

  lemma ChildIsSegment(server: Server, at: Spot, dir: string)
    requires Titled(server) && Child(server, at, dir).Some?
    ensures IsSegment(dir) && Child(server, at, dir).value.path == at.path + "/" + dir
  {
    hide IsSegment;
    assert (at.device, at.entry.id) in server.children;
  }

  lemma CanonicalMore(path: string, t: string)
    requires '/' !in t && t != ""
    ensures path != "" ==> (Canonical(path + "/" + t) <==> Canonical(path))
    ensures Canonical("/" + t)
  {
    if path != "" && Canonical(path + "/" + t) {
      forall i | 0 <= i < |path| && path[i] == '/'
        ensures i + 1 < |path| && path[i + 1] != '/'
      {
        assert (path + "/" + t)[i] == '/' && (path + "/" + t)[i + 1] != '/';
      }
    }
  }

  /** Without empty segments, what is left after a segment is nothing or starts a segment. */
  lemma SlashesTail(s: string)
    requires s != "" && s[0] != '/' && SlashesStart(s)
    ensures IsSegment(Head(s)) && SlashesStart(Tail(s)) && (Tail(s) != "" ==> Tail(s)[0] != '/')
    ensures s == if Tail(s) == "" then Head(s) else Head(s) + "/" + Tail(s)
  {
    hide Index;
    var k := Index(s);
    if k < |s| {
      assert s[k + 1] != '/';
      forall i | 0 <= i < |Tail(s)| && Tail(s)[i] == '/'
        ensures i + 1 < |Tail(s)| && Tail(s)[i + 1] != '/'
      {
        assert s[k + 1 + i] == '/';
      }
    }
  }

  lemma {:induction false} WalkFromPath(server: Server, at: Spot, rest: string)
    requires Titled(server) && Canonical(at.path) && WalkFrom(server, at, rest).Some?
    ensures Canonical(WalkFrom(server, at, rest).value.path)
    ensures rest == "" ==> WalkFrom(server, at, rest).value.path == at.path
    ensures rest != "" && rest[0] != '/' && SlashesStart(rest) ==>
      WalkFrom(server, at, rest).value.path == at.path + "/" + rest
    decreases |rest|
  {
    hide Titled, Child, Canonical, SlashesStart, Head, Tail;
    if rest != "" {
      ShorterTail(rest);
      ChildIsSegment(server, at, Head(rest));
      CanonicalIsNonempty(at.path);
      CanonicalMore(at.path, Head(rest));
      var next := Child(server, at, Head(rest)).value;
      WalkFromPath(server, next, Tail(rest));
      if rest[0] != '/' && SlashesStart(rest) {
        SlashesTail(rest);
      }
    }
  }

  lemma CanonicalIsNonempty(path: string)
    requires Canonical(path)
    ensures path != "" && path[|path| - 1] != '/'
  {}

  lemma {:induction false} DeviceIsSegment(path: string)
    requires Device(path).Some?
    ensures IsSegment(Device(path).value.0)
    decreases |path|
  {
    if Head(path) == "" {
      DeviceIsSegment(Tail(path));
    }
  }

  /** The walk builds canonical paths, and for a canonical path it builds that path again. */
  lemma LocatedPath(server: Server, path: string)
    requires Titled(server) && Locate(server, path).Some?
    ensures Canonical(Locate(server, path).value.path)
    ensures Canonical(path) ==> Locate(server, path).value.path == path
  {
    hide Titled, WalkFrom, Device, Canonical, SlashesStart;
    var (d, rest) := Device(path).value;
    var at := Spot(d, server.Metadata(d, "0").value, "/" + d);
    DeviceIsSegment(path);
    CanonicalMore("", d);
    WalkFromPath(server, at, rest);
    if Canonical(path) {
      CanonicalDevice(path);
    }
  }

  lemma CanonicalDevice(path: string)
    requires Canonical(path) && Device(path).Some?
    ensures var (d, rest) := Device(path).value;
      && SlashesStart(rest) && (rest != "" ==> rest[0] != '/')
      && path == "/" + if rest == "" then d else d + "/" + rest
  {
    IndexIs(path, 0);
    var tail := path[1..];
    assert Tail(path) == tail && Device(path) == Device(tail);
    assert path[0] == '/' && tail[0] != '/';
    forall i | 0 <= i < |tail| && tail[i] == '/'
      ensures i + 1 < |tail| && tail[i + 1] != '/'
    {
      assert path[i + 1] == '/';
    }
    SlashesTail(tail);
  }

  // ---------- The path that the walk builds ----------

  predicate EndsInSlash(s: string) {
    s != "" && s[|s| - 1] == '/'
  }

  /** One slash in front of the first segment. */
  predicate Anchored(path: string) {
    |path| > 1 && path[0] == '/' && path[1] != '/'
  }

  /** One slash less at the end. */
  function Chop(s: string): string {
    if EndsInSlash(s) then s[..|s| - 1] else s
  }

  /** What the walk over `rest` appends to the path it builds. */
  function Suffix(rest: string): string {
    if rest == "" then "" else "/" + Chop(rest)
  }

  lemma {:induction false} WalkBuilds(server: Server, at: Spot, rest: string)
    requires WalkFrom(server, at, rest).Some?
    ensures WalkFrom(server, at, rest).value.path == at.path + Suffix(rest)
    decreases |rest|
  {
    hide Child, Head, Tail;
    if rest != "" {
      var next := Child(server, at, Head(rest)).value;
      ShorterTail(rest);
      ChildPath(server, at, Head(rest));
      WalkBuilds(server, next, Tail(rest));
      SuffixSplits(rest);
      JoinRight(at.path, "/", Head(rest), Suffix(Tail(rest)));
      hide Suffix;
    }
  }

  lemma JoinRight(a: string, b: string, c: string, d: string)
    ensures a + b + c + d == a + (b + c + d)
  {}

  lemma ChildPath(server: Server, at: Spot, dir: string)
    requires Child(server, at, dir).Some?
    ensures Child(server, at, dir).value.path == at.path + "/" + dir
  {}

  lemma SuffixSplits(s: string)
    requires s != ""
    ensures Suffix(s) == "/" + Head(s) + Suffix(Tail(s))
  {
    hide Head;
    SplitAtSlash(s);
    var head, tail := Head(s), Tail(s);
    if s == head {
      assert head + "" == head && ("/" + head) + "" == "/" + head;
    } else {
      assert s == head + ("/" + tail);
      ChopMore(head, tail);
      assert "/" + (head + Suffix(tail)) == ("/" + head) + Suffix(tail);
    }
  }

  lemma SplitAtSlash(s: string)
    requires s != ""
    ensures s == Head(s) + "/" + Tail(s) || (s == Head(s) && Tail(s) == "" && !EndsInSlash(s))
  {
    hide Index;
    var k := Index(s);
    if k < |s| {
      assert s == s[..k] + [s[k]] + s[k + 1..];
    } else {
      assert s[|s| - 1] != '/';
    }
  }

  lemma ChopMore(head: string, tail: string)
    ensures Chop(head + ("/" + tail)) == head + Suffix(tail)
  {
    var s := head + ("/" + tail);
    if tail == "" {
      assert s[..|s| - 1] == head;
    } else if EndsInSlash(tail) {
      assert s[|s| - 1] == tail[|tail| - 1];
      assert s[..|s| - 1] == head + ("/" + tail[..|tail| - 1]);
    } else {
      assert s[|s| - 1] == tail[|tail| - 1];
    }
  }

  /** A path is slashes, the device, and the rest after one more slash. */
  lemma {:induction false} DeviceSplits(path: string) returns (n: nat)
    requires Device(path).Some?
    ensures var (d, rest) := Device(path).value;
      && d != "" && '/' !in d
      && n <= |path| && (forall i :: 0 <= i < n ==> path[i] == '/')
      && (path[n..] == d + "/" + rest || (rest == "" && path[n..] == d))
    decreases |path|
  {
    hide Index;
    var k := Index(path);
    if k == 0 {
      n := DeviceSplits(path[1..]);
      n := n + 1;
    } else {
      n := 0;
      if k < |path| {
        assert path == path[..k] + "/" + path[k + 1..];
      }
    }
  }

  /** The walk builds the path it was given exactly if that has one slash in front and none at
      the end; empty segments between do no harm. */
  lemma BuiltPath(server: Server, path: string)
    requires Locate(server, path).Some?
    ensures Locate(server, path).value.path == path <==> Anchored(path) && !EndsInSlash(path)
  {
    hide Device, WalkFrom;
    var (d, rest) := Device(path).value;
    var n := DeviceSplits(path);
    WalkBuilds(server, Spot(d, server.Metadata(d, "0").value, "/" + d), rest);
    var built := "/" + d + Suffix(rest);
    assert Locate(server, path).value.path == built;
    BuiltIs(path, n, d, rest);
  }

  lemma BuiltIs(path: string, n: nat, d: string, rest: string)
    requires d != "" && '/' !in d
    requires n <= |path| && forall i :: 0 <= i < n ==> path[i] == '/'
    requires path[n..] == d + "/" + rest || (rest == "" && path[n..] == d)
    ensures "/" + d + Suffix(rest) == path <==> Anchored(path) && !EndsInSlash(path)
  {
    hide Suffix, EndsInSlash;
    var below := path[n..];
    assert path[n] == below[0] == d[0] && d[0] in d;
    if n == 1 {
      assert path == "/" + below;
      EndOf(below, d, rest);
    } else if n == 0 {
      assert ("/" + d + Suffix(rest))[0] == '/';
    } else {
      assert path[1] == '/' && ("/" + d + Suffix(rest))[1] == d[0];
    }
  }

  lemma EndOf(below: string, d: string, rest: string)
    requires d != "" && '/' !in d
    requires below == d + "/" + rest || (rest == "" && below == d)
    ensures "/" + d + Suffix(rest) == "/" + below <==> !EndsInSlash("/" + below)
  {
    hide Suffix;
    EndOfRest(below, d, rest);
    assert below != "" && ("/" + below)[|below|] == below[|below| - 1];
    assert "/" + d + Suffix(rest) == "/" + (d + Suffix(rest));
    SamePrefix("/", d + Suffix(rest), below);
  }

  lemma EndOfRest(below: string, d: string, rest: string)
    requires d != "" && '/' !in d
    requires below == d + "/" + rest || (rest == "" && below == d)
    ensures d + Suffix(rest) == below <==> !EndsInSlash(below)
  {
    if rest != "" {
      assert below == d + ("/" + rest) && below[|below| - 1] == rest[|rest| - 1];
      SamePrefix(d, Suffix(rest), "/" + rest);
      SamePrefix("/", Chop(rest), rest);
    } else {
      assert d[|d| - 1] in d && d + "" == d;
    }
  }

  lemma SamePrefix(a: string, b: string, c: string)
    ensures a + b == a + c <==> b == c
  {
    if a + b == a + c {
      assert b == (a + b)[|a|..] == c;
    }
  }

  lemma DeviceFirst(path: string, d: string, rest: string)
    requires IsSegment(d) && path == "/" + d + "/" + rest
    ensures Device(path) == Some((d, rest))
  {
    hide Index;
    var below := d + "/" + rest;
    IndexIs(path, 0);
    assert path[1..] == below;
    IndexIs(below, |d|);
    assert below[..|d|] == d && below[|d| + 1..] == rest;
    assert Device(path) == Device(below);
  }

  lemma HeadFree(s: string)
    ensures '/' !in Head(s)
  {}

  /** The path of a place, with a slash, leads to it and on below it. */
  ghost predicate Leads(server: Server, at: Spot) {
    forall t :: Locate(server, at.path + "/" + t) == WalkFrom(server, at, t)
  }

  lemma RootLeads(server: Server, d: string)
    requires IsSegment(d) && server.Metadata(d, "0").Some?
    ensures Leads(server, Spot(d, server.Metadata(d, "0").value, "/" + d))
  {
    hide WalkFrom, Device, IsSegment;
    var at := Spot(d, server.Metadata(d, "0").value, "/" + d);
    forall t ensures Locate(server, at.path + "/" + t) == WalkFrom(server, at, t) {
      DeviceFirst(at.path + "/" + t, d, t);
    }
  }

  lemma WalkHead(server: Server, at: Spot, dir: string, t: string)
    requires '/' !in dir
    ensures WalkFrom(server, at, dir + "/" + t) ==
      match Child(server, at, dir)
      case None => None
      case Some(next) => WalkFrom(server, next, t)
  {
    hide Child, Index;
    var s := dir + "/" + t;
    IndexIs(s, |dir|);
    assert s[..|dir|] == dir && s[|dir| + 1..] == t;
  }

  lemma ChildLeads(server: Server, at: Spot, dir: string)
    requires Leads(server, at) && '/' !in dir && Child(server, at, dir).Some?
    ensures Leads(server, Child(server, at, dir).value)
  {
    hide Locate, WalkFrom, Child;
    var next := Child(server, at, dir).value;
    ChildPath(server, at, dir);
    forall t ensures Locate(server, next.path + "/" + t) == WalkFrom(server, next, t) {
      JoinLeft(at.path, dir, t);
      WalkHead(server, at, dir, t);
    }
  }

  lemma JoinLeft(a: string, b: string, c: string)
    ensures a + "/" + b + "/" + c == a + "/" + (b + "/" + c)
  {}

  lemma {:induction false} WalkLeads(server: Server, at: Spot, rest: string)
    requires Leads(server, at) && WalkFrom(server, at, rest).Some?
    ensures Leads(server, WalkFrom(server, at, rest).value)
    decreases |rest|
  {
    hide Leads, Child, Head, Tail;
    if rest != "" {
      ShorterTail(rest);
      HeadFree(rest);
      ChildLeads(server, at, Head(rest));
      WalkLeads(server, Child(server, at, Head(rest)).value, Tail(rest));
    }
  }

  lemma PlaceLeads(server: Server, path: string)
    requires Locate(server, path).Some?
    ensures Leads(server, Locate(server, path).value)
  {
    hide Leads, Device, WalkFrom, IsSegment;
    var (d, rest) := Device(path).value;
    DeviceIsSegment(path);
    RootLeads(server, d);
    WalkLeads(server, Spot(d, server.Metadata(d, "0").value, "/" + d), rest);
  }

  lemma PlacePath(server: Server, path: string)
    requires Locate(server, path).Some?
    ensures var p := Locate(server, path).value.path; p != "" && p[0] == '/'
  {
    hide Device, WalkFrom;
    var (d, rest) := Device(path).value;
    WalkBuilds(server, Spot(d, server.Metadata(d, "0").value, "/" + d), rest);
  }

  /** The record of the place that the record's path, with a slash, leads to. */
  ghost predicate AtPlace(server: Server, a: Answer) {
    match Locate(server, a.path + "/")
    case None => false
    case Some(at) => RecordAt(at) == a
  }

  lemma LeadsHome(server: Server, at: Spot)
    requires Leads(server, at)
    ensures Locate(server, at.path + "/") == Some(at) && AtPlace(server, RecordAt(at))
  {
    hide Locate, WalkFrom;
    WalkNone(server, at);
    assert at.path + "/" + "" == at.path + "/";
    assert Locate(server, at.path + "/" + "") == WalkFrom(server, at, "");
    assert RecordAt(at).path == at.path;
  }

  /** A slash at the end makes no difference, unless there is one already. */
  lemma SlashAtEnd(server: Server, path: string)
    requires path != "" && !EndsInSlash(path)
    ensures Locate(server, path + "/") == Locate(server, path)
  {
    hide Locate, WalkFrom;
    LocateBelow(server, path, "");
    assert path + "/" + "" == path + "/";
    match Locate(server, path) {
      case None =>
      case Some(end) => WalkNone(server, end);
    }
  }

  /** The record of a place is what the walk finds under the record's path exactly if that does not
      end in a slash. */
  lemma PlaceExact(server: Server, a: Answer)
    requires AtPlace(server, a) && Checked(a).Some?
    ensures Walk(server, a.path) == Some(a) <==> !EndsInSlash(a.path)
  {
    hide Locate, Anchored, EndsInSlash;
    var at := Locate(server, a.path + "/").value;
    assert at.path == a.path;
    PlacePath(server, a.path + "/");
    if !EndsInSlash(a.path) {
      SlashAtEnd(server, a.path);
    } else if Locate(server, a.path).Some? {
      BuiltPath(server, a.path);
    }
  }

  /** On any server: the record that the second loop of do_findpath files for a place is what the
      walk finds under the record's path exactly if the last title on the way was not empty. */
  lemma VisitedExact(server: Server, path: string)
    requires Locate(server, path).Some? && Checked(RecordAt(Locate(server, path).value)).Some?
    ensures var at := Locate(server, path).value;
      Walk(server, at.path) == Checked(RecordAt(at)) <==> !EndsInSlash(at.path)
  {
    hide Locate, Walk, Leads, EndsInSlash;
    var at := Locate(server, path).value;
    PlaceLeads(server, path);
    LeadsHome(server, at);
    PlaceExact(server, RecordAt(at));
  }

  lemma SplitSlash(s: string, t: string)
    requires EndsInSlash(s)
    ensures Head(s + "/" + t) == Head(s) && Tail(s + "/" + t) == Tail(s) + "/" + t
    ensures Tail(s) == "" || EndsInSlash(Tail(s))
  {
    hide Index;
    var k, long := Index(s), s + "/" + t;
    IndexIs(long, k);
    assert long[k + 1..] == s[k + 1..] + "/" + t;
  }

  lemma {:induction false} WalkSlash(server: Server, at: Spot, s: string, t: string)
    requires s == "" || EndsInSlash(s)
    ensures WalkFrom(server, at, s + "/" + t) ==
      match WalkFrom(server, at, s)
      case None => None
      case Some(end) => WalkFrom(server, end, "/" + t)
    decreases |s|
  {
    hide Child, Head, Tail;
    if s == "" {
      assert s + "/" + t == "/" + t;
    } else {
      SplitSlash(s, t);
      ShorterTail(s);
      match Child(server, at, Head(s)) {
        case None =>
        case Some(next) => WalkSlash(server, next, Tail(s), t);
      }
    }
  }

  lemma {:induction false} DeviceSlash(path: string, t: string)
    requires EndsInSlash(path) && Device(path).Some?
    ensures var (d, rest) := Device(path).value;
      && (rest == "" || EndsInSlash(rest))
      && Device(path + "/" + t) == Some((d, rest + "/" + t))
    decreases |path|
  {
    SplitSlash(path, t);
    ShorterTail(path);
    if Head(path) == "" {
      DeviceSlash(Tail(path), t);
    }
  }

  /** Below a path that ends in a slash the walk first looks for a child without a title. */
  lemma LocateSlash(server: Server, path: string, t: string)
    requires EndsInSlash(path) && Locate(server, path).Some? && IsSegment(t)
    ensures Locate(server, path + "/" + t) ==
      match Child(server, Locate(server, path).value, "")
      case None => None
      case Some(nameless) => Child(server, nameless, t)
  {
    hide Child, Device, WalkFrom;
    DeviceSlash(path, t);
    var (d, rest) := Device(path).value;
    WalkSlash(server, Spot(d, server.Metadata(d, "0").value, "/" + d), rest, t);
    var end := Locate(server, path).value;
    WalkNameless(server, end, t);
    match Child(server, end, "") {
      case None =>
      case Some(nameless) => WalkOne(server, nameless, t);
    }
  }

  lemma WalkNameless(server: Server, at: Spot, t: string)
    ensures WalkFrom(server, at, "/" + t) ==
      match Child(server, at, "")
      case None => None
      case Some(next) => WalkFrom(server, next, t)
  {
    hide Child;
    IndexIs("/" + t, 0);
    assert ("/" + t)[1..] == t;
  }

  // ---------- Filling the cache from a listing ----------

  lemma ListedChild(server: Server, at: Spot, k: nat)
    requires Honest(server) && k < |server.Children(at.device, at.entry.id)|
    ensures var e := server.Children(at.device, at.entry.id)[k];
      && '/' !in e.title && Child(server, at, e.title).Some?
      && var next := Child(server, at, e.title).value;
      && next.path == at.path + "/" + e.title && next.device == at.device
      && forall path :: Record(path, at.device, next.entry) == Record(path, at.device, e)
  {
    var entries := server.Children(at.device, at.entry.id);
    assert HonestListing(server, at.device, entries);
    var e := entries[k];
    assert FindTitle(entries, e.title) == k;
    assert Agrees(server, at.device, e);
  }

  lemma CanonicalPath(server: Server, path: string)
    requires Canonical(path) && Locate(server, path).Some?
    ensures path != "" && !EndsInSlash(path) && Locate(server, path).value.path == path
  {
    hide Locate;
    LocatedLength(server, path);
    BuiltPath(server, path);
  }

  /** Where titles have no slashes, are different within a listing, and listings agree with the
      metadata: the record that op_readdir files for a child, with or without a title, is that of the
      place that its path and a slash lead to. */
  lemma PrefillPlaced(server: Server, path: string, k: nat)
    requires Honest(server) && Canonical(path) && Locate(server, path).Some?
    requires k < |server.Children(Locate(server, path).value.device, Locate(server, path).value.entry.id)|
    ensures var at := Locate(server, path).value;
      var e := server.Children(at.device, at.entry.id)[k];
      AtPlace(server, Record(path + "/" + e.title, at.device, e))
  {
    hide Locate, Child, Canonical, Honest, Leads;
    var at := Locate(server, path).value;
    var e := server.Children(at.device, at.entry.id)[k];
    ListedChild(server, at, k);
    CanonicalPath(server, path);
    PlaceLeads(server, path);
    ChildLeads(server, at, e.title);
    LeadsHome(server, Child(server, at, e.title).value);
  }

  /** If it has a title, it is what the walk finds there. */
  lemma PrefillRight(server: Server, path: string, k: nat)
    requires Honest(server) && Canonical(path) && Locate(server, path).Some?
    requires k < |server.Children(Locate(server, path).value.device, Locate(server, path).value.entry.id)|
    requires server.Children(Locate(server, path).value.device, Locate(server, path).value.entry.id)[k].title != ""
    ensures var at := Locate(server, path).value;
      var e := server.Children(at.device, at.entry.id)[k];
      Walk(server, path + "/" + e.title) == Checked(Record(path + "/" + e.title, at.device, e))
  {
    hide Locate, Child, Canonical, Honest, Record, Checked;
    var at := Locate(server, path).value;
    var e := server.Children(at.device, at.entry.id)[k];
    ListedChild(server, at, k);
    CanonicalPath(server, path);
    LocateMore(server, path, e.title);
  }

  // ---------- When that record is right ----------

  /** The child without a title has itself a child of e's title that gives e's record. */
  predicate Repeated(server: Server, at: Spot, e: Entry) {
    match Child(server, at, "")
    case None => false
    case Some(nameless) =>
      match Child(server, nameless, e.title)
      case None => false
      case Some(again) => Record("", at.device, again.entry) == Record("", at.device, e)
  }

  /** An entry that the listing gives first under its title, that the metadata agrees with, and for
      which a valid record is filed. */
  ghost predicate Filed(server: Server, at: Spot, k: nat) {
    var entries := server.Children(at.device, at.entry.id);
    && k < |entries| && '/' !in entries[k].title && FindTitle(entries, entries[k].title) == k
    && Agrees(server, at.device, entries[k]) && Checked(Record("", at.device, entries[k])).Some?
  }

  /** On any server, for any path that leads to a directory: the record that op_readdir files for a
      child is what the walk finds exactly if the child has a title and the path has one slash in
      front and none at the end (or what follows the slash happens to list the same child again). */
  lemma PrefillExact(server: Server, path: string, k: nat)
    requires Locate(server, path).Some? && Filed(server, Locate(server, path).value, k)
    ensures var at := Locate(server, path).value;
      var e := server.Children(at.device, at.entry.id)[k];
      Walk(server, path + "/" + e.title) == Checked(Record(path + "/" + e.title, at.device, e)) <==>
      e.title != "" && Anchored(path) && (EndsInSlash(path) ==> Repeated(server, at, e))
  {
    hide Locate, Child, Agrees;
    var at := Locate(server, path).value;
    var e := server.Children(at.device, at.entry.id)[k];
    var key := path + "/" + e.title;
    LocatedLength(server, path);
    AnchoredMore(path, e.title);
    FiledChild(server, at, k);
    if Locate(server, key).Some? {
      BuiltPath(server, key);
    }
    if e.title != "" && EndsInSlash(path) {
      LocateSlash(server, path, e.title);
      SameDevice(server, at, e.title);
    } else if e.title != "" {
      LocateMore(server, path, e.title);
    }
  }

  lemma LocatedLength(server: Server, path: string)
    requires Locate(server, path).Some?
    ensures path != "" && path != "/"
  {
    assert Device("/") == Device("");
  }

  lemma AnchoredMore(path: string, t: string)
    requires path != "" && path != "/" && '/' !in t
    ensures var key := path + "/" + t;
      (Anchored(key) <==> Anchored(path)) && (EndsInSlash(key) <==> t == "")
  {
    if t != "" {
      assert t[|t| - 1] in t;
    }
  }

  lemma FiledChild(server: Server, at: Spot, k: nat)
    requires Filed(server, at, k)
    ensures var e := server.Children(at.device, at.entry.id)[k];
      && Child(server, at, e.title).Some?
      && var next := Child(server, at, e.title).value;
      && next.device == at.device
      && forall path :: Record(path, at.device, next.entry) == Record(path, at.device, e)
  {}

  /** Steps stay on the device. */
  lemma SameDevice(server: Server, at: Spot, t: string)
    ensures Child(server, at, "").Some? ==> Child(server, at, "").value.device == at.device
    ensures Child(server, at, "").Some? && Child(server, Child(server, at, "").value, t).Some? ==>
      Child(server, Child(server, at, "").value, t).value.device == at.device
  {}

  /** Where every title is a file name, that is: the record is right exactly if the path is
      canonical. On a canonical path only the child's own title matters. */
  lemma PrefillCanonical(server: Server, path: string, k: nat)
    requires Locate(server, path).Some? && Filed(server, Locate(server, path).value, k)
    ensures var at := Locate(server, path).value;
      var e := server.Children(at.device, at.entry.id)[k];
      var right := Walk(server, path + "/" + e.title) == Checked(Record(path + "/" + e.title, at.device, e));
      && (Canonical(path) ==> (right <==> e.title != ""))
      && (Titled(server) ==> (right <==> Canonical(path)))
  {
    hide Locate, Walk, Child, IsSegment, Record, Checked, FindTitle, Agrees;
    var at := Locate(server, path).value;
    var e := server.Children(at.device, at.entry.id)[k];
    FiledTitle(server, at, k);
    PrefillExact(server, path, k);
    BuiltPath(server, path);
    if Titled(server) {
      LocatedPath(server, path);
      NothingRepeated(server, at, e);
    }
  }

  lemma FiledTitle(server: Server, at: Spot, k: nat)
    requires Filed(server, at, k)
    ensures Titled(server) ==> server.Children(at.device, at.entry.id)[k].title != ""
  {
    if Titled(server) {
      FiledChild(server, at, k);
      ChildIsSegment(server, at, server.Children(at.device, at.entry.id)[k].title);
    }
  }

  lemma NothingRepeated(server: Server, at: Spot, e: Entry)
    requires Titled(server)
    ensures !Repeated(server, at, e)
  {
    if Child(server, at, "").Some? {
      ChildIsSegment(server, at, "");
    }
  }

  const ROOT: Entry := Entry("0", "d", "object.container", None, 0)
  const SONG: Entry := Entry("1", "x", "object.item", Some("http"), 7)
  const FOLDER: Entry := Entry("2", "a", "object.container", None, 0)
  const NAMELESS: Entry := Entry("3", "", "object.container", None, 0)

  /** A slash too many at the end: the walk finds the directory, but nothing below it. */
  lemma TrailingSlashMisleads()
    ensures var server := Server(map[("d", "0") := ROOT, ("d", "1") := SONG], map[("d", "0") := [SONG]]);
      && Locate(server, "/d/") == Some(Spot("d", ROOT, "/d")) && Filed(server, Spot("d", ROOT, "/d"), 0)
      && Walk(server, "/d//x") != Checked(Record("/d//x", "d", SONG))
  {
    hide Walk, Record, Checked, Device;
    var server := Server(map[("d", "0") := ROOT, ("d", "1") := SONG], map[("d", "0") := [SONG]]);
    DeviceFirst("/d/", "d", "");
    SongFiled(server, Spot("d", ROOT, "/d"));
    WalkNone(server, Spot("d", ROOT, "/d"));
    assert "/" + "d" == "/d" && Locate(server, "/d/") == Some(Spot("d", ROOT, "/d"));
    assert "/d/" + "/" + SONG.title == "/d//x";
    PrefillExact(server, "/d/", 0);
  }

  lemma SongFiled(server: Server, at: Spot)
    requires at.device == "d" && server.Children("d", at.entry.id) == [SONG] && server.Metadata("d", "1") == Some(SONG)
    ensures Filed(server, at, 0) && Child(server, at, "").None?
  {
    assert SONG.title[0] == 'x';
  }

  /** An empty segment inside a path, from a folder without a title, does no harm further down. */
  lemma EmptySegmentHarmless()
    ensures var server := Server(
        map[("d", "0") := ROOT, ("d", "1") := SONG, ("d", "2") := FOLDER, ("d", "3") := NAMELESS],
        map[("d", "0") := [NAMELESS], ("d", "2") := [SONG], ("d", "3") := [FOLDER]]);
      && !Canonical("/d//a") && Locate(server, "/d//a") == Some(Spot("d", FOLDER, "/d//a"))
      && Filed(server, Spot("d", FOLDER, "/d//a"), 0)
      && Walk(server, "/d//a/x") == Checked(Record("/d//a/x", "d", SONG))
  {
    hide Walk, WalkFrom, Record, Checked, Device, Repeated;
    var server := Server(
      map[("d", "0") := ROOT, ("d", "1") := SONG, ("d", "2") := FOLDER, ("d", "3") := NAMELESS],
      map[("d", "0") := [NAMELESS], ("d", "2") := [SONG], ("d", "3") := [FOLDER]]);
    DeviceFirst("/d//a", "d", "/a");
    var root, nameless, folder := Spot("d", ROOT, "/d"), Spot("d", NAMELESS, "/d/"), Spot("d", FOLDER, "/d//a");
    WalkNameless(server, root, "a");
    assert "/d" + "/" + "" == "/d/" && Child(server, root, "") == Some(nameless);
    WalkOne(server, nameless, "a");
    assert "/d/" + "/" + "a" == "/d//a" && Child(server, nameless, "a") == Some(folder);
    assert "/" + "a" == "/a" && "/" + "d" == "/d" && Locate(server, "/d//a") == Some(folder);
    SongFiled(server, folder);
    assert "/d//a"[2] == "/d//a"[3] == '/';
    assert "/d//a" + "/" + SONG.title == "/d//a/x";
    PrefillExact(server, "/d//a", 0);
  }
}
