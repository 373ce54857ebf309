/** What the walk and its answers mean, said without the walk: which entry a path leads to, what the
    record of an entry says, and which names a directory has. */
module PathMeaning {
  import opened PathWalk
  import opened Wrappers

  // ---------- Which entry a path leads to ----------

  /** The path of a device and titles. */
  function PathTo(device: string, titles: seq<string>): string {
    if titles == [] then "/" + device
    else PathTo(device, titles[..|titles| - 1]) + "/" + titles[|titles| - 1]
  }

  /** The metadata of the first entry with the title among the children of `at`. */
  ghost predicate Below(server: Server, device: string, at: Entry, title: string, next: Entry) {
    && (device, at.id) in server.children
    && var listing := server.children[(device, at.id)];
    exists k ::
      && 0 <= k < |listing| && listing[k].title == title && (forall i :: 0 <= i < k ==> listing[i].title != title)
      && (device, listing[k].id) in server.metadata && server.metadata[(device, listing[k].id)] == next
  }

  /** From the object "0" of the device one entry further down for each title. */
  ghost predicate Chain(server: Server, device: string, titles: seq<string>, chain: seq<Entry>) {
    && |chain| == |titles| + 1
    && (device, "0") in server.metadata && server.metadata[(device, "0")] == chain[0]
    && forall i :: 0 <= i < |titles| ==> Below(server, device, chain[i], titles[i], chain[i + 1])
  }

  ghost predicate Arrives(server: Server, device: string, titles: seq<string>, e: Entry) {
    exists chain :: Chain(server, device, titles, chain) && chain[|titles|] == e
  }

  lemma ChildBelow(server: Server, at: Spot, title: string)
    ensures forall e :: Below(server, at.device, at.entry, title, e) <==>
      Child(server, at, title) == Some(Spot(at.device, e, at.path + "/" + title))
    ensures Child(server, at, title).Some? ==>
      Child(server, at, title) == Some(Spot(at.device, Child(server, at, title).value.entry, at.path + "/" + title))
  {
    var listing := server.Children(at.device, at.entry.id);
    var k := FindTitle(listing, title);
  }

  lemma ArrivesAtRoot(server: Server, device: string, e: Entry)
    ensures Arrives(server, device, [], e) <==> server.Metadata(device, "0") == Some(e)
  {
    if server.Metadata(device, "0") == Some(e) {
      assert Chain(server, device, [], [e]);
    }
  }

  lemma ArrivesFurther(server: Server, device: string, titles: seq<string>, e: Entry)
    requires titles != []
    ensures var n := |titles| - 1;
      Arrives(server, device, titles, e) <==>
      exists at :: Arrives(server, device, titles[..n], at) && Below(server, device, at, titles[n], e)
  {
    hide Below;
    var n := |titles| - 1;
    var front := titles[..n];
    if Arrives(server, device, titles, e) {
      var chain :| Chain(server, device, titles, chain) && chain[|titles|] == e;
      assert Below(server, device, chain[n], titles[n], e);
      assert Chain(server, device, front, chain[..n + 1]);
      assert Arrives(server, device, front, chain[n]);
    }
    if at :| Arrives(server, device, front, at) && Below(server, device, at, titles[n], e) {
      var chain :| Chain(server, device, front, chain) && chain[n] == at;
      assert Chain(server, device, titles, chain + [e]);
    }
  }

  lemma PathToEnds(device: string, titles: seq<string>)
    requires IsSegment(device) && forall t | t in titles :: IsSegment(t)
    ensures PathTo(device, titles) != "" && PathTo(device, titles)[|PathTo(device, titles)| - 1] != '/'
  {
    var last := if titles == [] then device else titles[|titles| - 1];
    assert titles != [] ==> last in titles;
    assert IsSegment(last) && last[|last| - 1] in last;
  }

  /** The walk leads to an entry exactly if a chain of listings does. */
  lemma {:induction false} PathLeads(server: Server, device: string, titles: seq<string>)
    requires IsSegment(device) && forall t | t in titles :: IsSegment(t)
    ensures var path := PathTo(device, titles);
      && (forall e :: Locate(server, path) == Some(Spot(device, e, path)) <==> Arrives(server, device, titles, e))
      && (Locate(server, path).Some? ==>
            Locate(server, path) == Some(Spot(device, Locate(server, path).value.entry, path)))
    decreases |titles|
  {
    hide Locate, Child, Arrives, Below, IsSegment;
    var path := PathTo(device, titles);
    if titles == [] {
      RootLocated(server, device);
      forall e ensures Arrives(server, device, [], e) <==> server.Metadata(device, "0") == Some(e) {
        ArrivesAtRoot(server, device, e);
      }
    } else {
      var n := |titles| - 1;
      var front := titles[..n];
      assert titles[n] in titles;
      PathLeads(server, device, front);
      PathToEnds(device, front);
      LocateMore(server, PathTo(device, front), titles[n]);
      match Locate(server, PathTo(device, front)) {
        case None =>
        case Some(at) => ChildBelow(server, at, titles[n]);
      }
      forall e
        ensures Arrives(server, device, titles, e) <==>
          exists at :: Arrives(server, device, front, at) && Below(server, device, at, titles[n], e)
      {
        ArrivesFurther(server, device, titles, e);
      }
    }
  }

  lemma RootLocated(server: Server, device: string)
    requires IsSegment(device)
    ensures Locate(server, "/" + device) ==
      match server.Metadata(device, "0")
      case None => None
      case Some(e) => Some(Spot(device, e, "/" + device))
  {
    hide Index;
    IndexIs("/" + device, 0);
    assert ("/" + device)[1..] == device;
    SegmentAlone(device);
    assert Device("/" + device) == Device(device) == Some((device, ""));
  }

  /** Slashes in front make no difference. */
  lemma LeadingSlash(server: Server, path: string)
    ensures Locate(server, "/" + path) == Locate(server, path)
  {
    hide Index;
    IndexIs("/" + path, 0);
    assert ("/" + path)[1..] == path;
  }

  // ---------- What is hidden ----------

  lemma HiddenExactly(path: string)
    ensures Hidden(path) <==> exists a, b :: path == a + "/." + b
  {
    if Hidden(path) {
      var i :| 0 <= i < |path| - 1 && path[i] == '/' && path[i + 1] == '.';
      assert path == path[..i] + "/." + path[i + 2..];
    }
    if a, b :| path == a + "/." + b {
      assert path[|a|] == '/' && path[|a| + 1] == '.';
    }
  }

  // ---------- What an answer says ----------

  /** A record says of an entry: its id and device, whether it is a container, and of an item, and of
      nothing else, the source and the size. */
  predicate Describes(a: Answer, device: string, e: Entry) {
    && a.objectId == e.id && a.device == device
    && (a.container <==> "object.container" <= e.objectClass)
    && if "object.item" <= e.objectClass then a.source == e.source && a.size == e.size
       else a.source == None && a.size == 0
  }

  /** A container, or an item with a source. */
  predicate Answerable(e: Entry) {
    "object.container" <= e.objectClass || ("object.item" <= e.objectClass && e.source.Some?)
  }

  lemma RecordDescribes(at: Spot)
    ensures RecordAt(at).path == at.path && Describes(RecordAt(at), at.device, at.entry)
    ensures Checked(RecordAt(at)) == if Answerable(at.entry) then Some(RecordAt(at)) else None
  {
    assert "object.container"[7] == 'c' && "object.item"[7] == 'i';
  }

  /** The walk answers for exactly the places that are containers or items with a source, and what it
      answers is what the metadata says. */
  lemma WalkDescribes(server: Server, path: string)
    ensures Walk(server, path).Some? <==>
      Locate(server, path).Some? && Answerable(Locate(server, path).value.entry)
    ensures Walk(server, path).Some? ==>
      var a, at := Walk(server, path).value, Locate(server, path).value;
      a.path == at.path && Describes(a, at.device, at.entry)
  {
    hide Locate, Describes, Answerable, Record, Checked;
    if Locate(server, path).Some? {
      RecordDescribes(Locate(server, path).value);
    }
  }

  /** What do_findpath may answer: nothing for a hidden path and for a place without a valid record, and
      otherwise what the metadata says of the place the path leads to, or, if it ends in a slash, of the
      one it leads to with one more. */
  ghost predicate AnswerOf(server: Server, path: string, c: Option<Answer>) {
    match c
    case None =>
      Hidden(path) || Locate(server, path).None? || !Answerable(Locate(server, path).value.entry)
    case Some(a) =>
      && !Hidden(path)
      && exists at: Spot ::
           && (Locate(server, path) == Some(at) || (EndsInSlash(path) && Locate(server, path + "/") == Some(at)))
           && a.path == at.path && Describes(a, at.device, at.entry)
  }

  lemma WalkAnswers(server: Server, path: string)
    ensures !Hidden(path) ==> AnswerOf(server, path, Walk(server, path))
  {
    hide Locate, Describes, Answerable, Walk, Hidden;
    WalkDescribes(server, path);
    if !Hidden(path) && Walk(server, path).Some? {
      assert Locate(server, path) == Some(Locate(server, path).value);
    }
  }

  lemma RecordAnswers(server: Server, path: string, a: Answer)
    requires AtPlace(server, a) && a.path == path && !Hidden(path)
    ensures AnswerOf(server, path, Some(a))
  {
    hide Locate, Describes, Hidden, EndsInSlash, Record;
    var at := Locate(server, path + "/").value;
    RecordDescribes(at);
    PlacePath(server, path + "/");
    if !EndsInSlash(path) {
      SlashAtEnd(server, path);
      assert Locate(server, path) == Some(at);
    } else {
      assert Locate(server, path + "/") == Some(at);
    }
  }

  // ---------- Which names a directory has ----------

  /** The first names and then one for each child, its title with the suffix. */
  ghost predicate Names(names: seq<string>, first: seq<string>, children: seq<Entry>, suffix: string) {
    && |names| == |first| + |children| && first <= names
    && forall i :: 0 <= i < |children| ==> names[|first| + i] == children[i].title + suffix
  }

  /** The children of the object an answer names. */
  function ChildrenOf(server: Server, a: Answer): seq<Entry> {
    if (a.device, a.objectId) in server.children then server.children[(a.device, a.objectId)] else []
  }

  /** The names of a directory: ".metadata" below it has a text file for each child, and itself the
      children, with ".metadata" if there are any. What is hidden or has no valid record is empty. */
  ghost predicate Shows(server: Server, path: string, names: seq<string>) {
    && (forall p :: path == p + "/.metadata" ==>
          if !Hidden(p) && Walk(server, p).Some?
          then Names(names, [".", ".."], ChildrenOf(server, Walk(server, p).value), ".txt")
          else names == [".", ".."])
    && ((forall p :: path != p + "/.metadata") ==>
          if !Hidden(path) && Walk(server, path).Some? && ChildrenOf(server, Walk(server, path).value) != []
          then Names(names, [".", "..", ".metadata"], ChildrenOf(server, Walk(server, path).value), "")
          else names == [".", ".."])
  }
}
