/** The stream index as the ring keeps it, in a red-black tree: a map, as long as only absent ids are inserted, and the map
    that the ring's history calls for, after any writes. */
module StreamTree {
  import opened LittleEndian
  import opened Options
  import opened OrdinalStrings
  import opened RedBlackTree
  import opened RingTypes
  import opened RingHistory
  import opened RingIndex
  import opened RingBuffer
  import opened RingFiles

  type StreamNode = RBNode<Entry>

  /** The nodes hold the map: one for each key, with its value. */
  ghost predicate Maps(nodes: set<StreamNode>, index: map<string, Entry>)
    reads nodes`data
  {
    && (forall n :: n in nodes ==> n.key in index && n.data == Some(index[n.key]))
    && (forall sid :: sid in index ==> HasKey(nodes, sid))
    && (forall n, n' :: n in nodes && n' in nodes && n.key == n'.key ==> n == n')
  }

  ghost predicate HasKey(nodes: set<StreamNode>, sid: string) {
    exists n :: n in nodes && n.key == sid
  }

  /** A tree that holds the map. */
  ghost predicate Holds(tree: RBTree<Entry>, index: map<string, Entry>)
    reads tree, tree.nodes, tree.nil
  {
    tree.Valid() && Maps(tree.nodes, index)
  }

  lemma MapsAdd(nodes: set<StreamNode>, index: map<string, Entry>, node: StreamNode, stream: Entry)
    requires Maps(nodes, index) && node.key == stream.streamId && node.data == Some(stream) && stream.streamId !in index
    ensures Maps(nodes + {node}, index[stream.streamId := stream])
  {
    forall sid | sid in index ensures HasKey(nodes + {node}, sid) {
      assert HasKey(nodes, sid);
      var n :| n in nodes && n.key == sid;
      assert n in nodes + {node};
    }
    assert node in nodes + {node} && HasKey(nodes + {node}, stream.streamId);
  }

  lemma MapsRemove(nodes: set<StreamNode>, index: map<string, Entry>, node: StreamNode)
    requires Maps(nodes, index) && node in nodes
    ensures Maps(nodes - {node}, index - {node.key})
  {
    forall sid | sid in index - {node.key} ensures HasKey(nodes - {node}, sid) {
      assert HasKey(nodes, sid);
      var n :| n in nodes && n.key == sid;
      assert n in nodes - {node};
    }
  }

  /** GetStreamIdx. */
  method GetStreamIdx(tree: RBTree<Entry>, streamid: string, ghost index: map<string, Entry>) returns (stream: Option<Entry>)
    requires Holds(tree, index)
    ensures stream == if streamid in index then Some(index[streamid]) else None
  {
    var node := tree.Find(streamid);
    assert streamid in index ==> HasKey(tree.nodes, streamid);
    stream := if node == null then None else node.data;
  }

  /** Inserting a stream that is not in the index yet. */
  method AddStreamIdx(tree: RBTree<Entry>, stream: Entry, ghost index: map<string, Entry>)
    requires Holds(tree, index) && stream.streamId !in index
    modifies tree, tree.nodes`left, tree.nodes`right, tree.nodes`parent, tree.nodes`isRed
    ensures Holds(tree, index[stream.streamId := stream]) && fresh(tree.nodes - old(tree.nodes))
  {
    hide Maps, RBTree.Valid;
    ghost var nodes := tree.nodes;
    var node := tree.Insert(stream.streamId, Some(stream));
    MapsAdd(nodes, index, node, stream);
  }

  /** DelStreamIdx: whether the id was there; and the index without it. */
  method DelStreamIdx(tree: RBTree<Entry>, streamid: string, ghost index: map<string, Entry>) returns (found: bool)
    requires Holds(tree, index)
    modifies tree, tree.nodes`left, tree.nodes`right, tree.nodes`parent, tree.nodes`isRed, tree.nil`parent, tree.nil`isRed
    ensures found == (streamid in index)
    ensures Holds(tree, index - {streamid}) && tree.nodes <= old(tree.nodes)
  {
    ghost var nodes := tree.nodes;
    var node := tree.Find(streamid);
    assert streamid in index ==> HasKey(nodes, streamid);
    if node == null {
      assert index - {streamid} == index;
      return false;
    }
    MapsRemove(nodes, index, node);
    tree.Delete(node);
    found := true;
  }

  /** Updating a stream's entry in its node, as the ring does on nearly every write. */
  method SetStream(tree: RBTree<Entry>, stream: Entry, ghost index: map<string, Entry>)
    requires Holds(tree, index) && stream.streamId in index
    modifies tree.nodes`data
    ensures Holds(tree, index[stream.streamId := stream])
  {
    hide RedBlackTree.Sorted;
    assert HasKey(tree.nodes, stream.streamId);
    var node := tree.Find(stream.streamId);
    node.data := Some(stream);
    assert tree.Table() == old(tree.Table());
    forall sid | sid in index[stream.streamId := stream] ensures HasKey(tree.nodes, sid) {
      assert old(HasKey(tree.nodes, sid));
    }
  }

  // ---------- the ring's writes on the tree ----------

  /** RingWrite on evicting packet b, e in the buffer: its stream goes on to the packet that e links to, or is gone. */
  method Evict(tree: RBTree<Entry>, e: Header, next: Header, ghost g: Geometry, ghost h: seq<Packet>, ghost b: nat)
    requires Sound(g) && b < |h| <= b + g.maxPackets && Holds(tree, IndexOf(g, h, b))
    requires e == HeaderAt(g, h, b) && (NextOf(h, e.streamId, b + 1) < |h| ==> next == HeaderAt(g, h, NextOf(h, e.streamId, b + 1)))
    modifies tree, tree.nodes, tree.nil
    ensures Holds(tree, IndexOf(g, h, b + 1)) && tree.nodes <= old(tree.nodes)
  {
    hide SlotAt, IndexOf, NextOf, LastOf, Sound, Holds, Maps, RBTree.Valid;
    ghost var index := IndexOf(g, h, b);
    IndexEvict(g, h, b);
    OnlyPacket(g, h, b);
    EntryKey(g, h, b, e.streamId);
    LinkTells(g, h, b);
    var stream := GetStreamIdx(tree, e.streamId, index);
    if stream.Some? {
      if e.offset == stream.value.earliest.offset && e.offset == stream.value.latest.offset {
        var _ := DelStreamIdx(tree, e.streamId, index);
      } else if e.nextInStream >= 0 {
        SetStream(tree, stream.value.(earliest := HeaderMark(next)), index);
      }
    }
  }

  /** RingWrite on a new packet, f in the buffer: find or create its stream, and make it the latest. */
  method Append(tree: RBTree<Entry>, f: Header, ghost g: Geometry, ghost h: seq<Packet>, ghost b: nat, ghost p: Packet)
    requires Sound(g) && b <= |h| && Holds(tree, IndexOf(g, h, b)) && f == HeaderAt(g, h + [p], |h|)
    modifies tree, tree.nodes
    ensures Holds(tree, IndexOf(g, h + [p], b)) && fresh(tree.nodes - old(tree.nodes))
  {
    hide SlotAt, IndexOf, NextOf, LastOf, Sound, Holds, Maps, RBTree.Valid, HeaderAt;
    ghost var index := IndexOf(g, h, b);
    NewMark(g, h, p);
    IndexAppend(g, h, b, p);
    EntryKey(g, h, b, p.sid);
    var mark := HeaderMark(f);
    var found := GetStreamIdx(tree, f.streamId, index);
    var stream;
    if found.None? {
      stream := Entry(f.streamId, mark, Mark(0, 0, 0, 0, -1));
      AddStreamIdx(tree, stream, index);
      index := index[f.streamId := stream];
    } else {
      stream := found.value;
    }
    SetStream(tree, stream.(latest := mark), index);
    assert index[f.streamId := stream.(latest := mark)] == IndexOf(g, h + [p], b);
  }

  lemma EntryKey(g: Geometry, h: seq<Packet>, b: nat, sid: string)
    requires Sound(g) && b <= |h|
    ensures sid in IndexOf(g, h, b) ==> IndexOf(g, h, b)[sid].streamId == sid
  {
  }

  lemma LinkTells(g: Geometry, h: seq<Packet>, b: nat)
    requires Sound(g) && b < |h|
    ensures HeaderAt(g, h, b).streamId == h[b].sid && HeaderAt(g, h, b).offset == SlotAt(g, b)
    ensures HeaderAt(g, h, b).nextInStream >= 0 <==> NextOf(h, h[b].sid, b + 1) < |h|
    ensures NextOf(h, h[b].sid, b + 1) < |h| ==>
      HeaderMark(HeaderAt(g, h, NextOf(h, h[b].sid, b + 1))) == MarkOf(g, h, NextOf(h, h[b].sid, b + 1))
  {
    hide SlotAt, NextOf;
  }

  /** The index steps of a write: e is the earliest packet in the buffer, and next the one that it links to. The tree that held
      the index of the ring holds that of the ring with packet p written. */
  method Write(tree: RBTree<Entry>, e: Option<Header>, next: Header, f: Header, ghost g: Geometry, ghost h: seq<Packet>, ghost p: Packet)
    requires Sound(g) && Holds(tree, IndexOf(g, h, FirstLive(g, h))) && f == HeaderAt(g, h + [p], |h|)
    requires Earliest(g, h, e, next)
    modifies tree, tree.nodes, tree.nil
    ensures Holds(tree, IndexOf(g, h + [p], FirstLive(g, h + [p]))) && fresh(tree.nodes - old(tree.nodes))
  {
    hide SlotAt, IndexOf, NextOf, Sound, Holds, HeaderAt;
    LastSlotTaken(g, h, p);
    if e.Some? && f.offset == e.value.offset {
      Evict(tree, e.value, next, g, h, FirstLive(g, h));
    }
    Append(tree, f, g, h, FirstLive(g, h + [p]), p);
  }

  /** What the buffer tells of the earliest packet. */
  ghost predicate Earliest(g: Geometry, h: seq<Packet>, e: Option<Header>, next: Header)
    requires Sound(g)
  {
    var b := FirstLive(g, h);
    && (e.None? <==> h == [])
    && (h != [] ==> e.value == HeaderAt(g, h, b) && (NextOf(h, h[b].sid, b + 1) < |h| ==> next == HeaderAt(g, h, NextOf(h, h[b].sid, b + 1))))
  }

  /** The new packet takes the earliest one's slot exactly when all slots are in use. */
  lemma LastSlotTaken(g: Geometry, h: seq<Packet>, p: Packet)
    requires Sound(g)
    ensures HeaderAt(g, h + [p], |h|).offset == SlotAt(g, |h|) && FirstLive(g, h + [p]) <= |h|
    ensures h != [] ==> var b := FirstLive(g, h);
      HeaderAt(g, h, b).offset == SlotAt(g, b) && HeaderAt(g, h, b).streamId == h[b].sid
      && (SlotAt(g, |h|) == SlotAt(g, b) <==> FirstLive(g, h + [p]) == b + 1)
      && (SlotAt(g, |h|) != SlotAt(g, b) ==> FirstLive(g, h + [p]) == b)
  {
    hide SlotAt;
    if h != [] { SlotsDiffer(g, FirstLive(g, h), |h|); }
  }

  /** Any history, written from the start: a tree that went through its index steps holds the index of a ring with that history. */
  method Replay(g: Geometry, h: seq<Packet>) returns (tree: RBTree<Entry>)
    requires Sound(g)
    ensures fresh(tree) && Holds(tree, IndexOf(g, h, FirstLive(g, h)))
  {
    hide IndexOf, Holds, Earliest, HeaderAt;
    tree := new RBTree<Entry>();
    NoStreams(tree, g);
    var n := 0;
    assert h[..0] == [];
    while n < |h|
      invariant 0 <= n <= |h| && fresh(tree) && fresh(tree.nil) && fresh(tree.nodes)
      invariant Holds(tree, IndexOf(g, h[..n], FirstLive(g, h[..n])))
    {
      var was := h[..n];
      assert h[..n + 1] == was + [h[n]];
      var f := HeaderAt(g, h[..n + 1], n);
      var (e, next) := EarliestIn(g, was, f);
      Write(tree, e, next, f, g, was, h[n]);
      n := n + 1;
    }
    assert h[..n] == h;
  }

  /** The two packets that a write looks up. */
  function EarliestIn(g: Geometry, h: seq<Packet>, other: Header): (r: (Option<Header>, Header))
    requires Sound(g)
    ensures Earliest(g, h, r.0, r.1)
  {
    var b := FirstLive(g, h);
    if h == [] then (None, other)
    else
      var m := NextOf(h, h[b].sid, b + 1);
      (Some(HeaderAt(g, h, b)), if m < |h| then HeaderAt(g, h, m) else other)
  }

  lemma NoStreams(tree: RBTree<Entry>, g: Geometry)
    requires Sound(g) && tree.Valid() && tree.tree.Leaf?
    ensures Holds(tree, IndexOf(g, [], FirstLive(g, []))) && tree.nodes == {}
  {
    tree.ValidMeans();
    assert tree.nodes == {};
  }

  // ---------- the stream file ----------

  /** What Shutdown writes to the stream file: BuildStack gives each entry of the index exactly once, in the order of the ids. */
  method StackOfStreams(tree: RBTree<Entry>, ghost index: map<string, Entry>) returns (stack: seq<Option<Entry>>, ghost sids: seq<string>)
    requires Holds(tree, index)
    ensures |stack| == |sids| == |index|
    ensures forall sid :: sid in sids <==> sid in index
    ensures forall i, j :: 0 <= i < j < |sids| ==> Compare(sids[i], sids[j]) < 0
    ensures forall i, j :: 0 <= i < j < |sids| ==> ComesBefore(sids[i], sids[j])
    ensures forall i :: 0 <= i < |stack| ==> stack[i] == Some(index[sids[i]])
  {
    ghost var visited;
    stack, visited := tree.BuildStack();
    tree.ValidMeans();
    sids := StackMaps(tree.nodes, index, visited, stack);
    Ascending(sids);
  }

  lemma Ascending(sids: seq<string>)
    requires forall i, j :: 0 <= i < j < |sids| ==> Compare(sids[i], sids[j]) < 0
    ensures forall i, j :: 0 <= i < j < |sids| ==> ComesBefore(sids[i], sids[j])
  {
    hide Compare, ComesBefore;
    forall i, j | 0 <= i < j < |sids| ensures ComesBefore(sids[i], sids[j]) {
      CompareIsOrdinal(sids[i], sids[j]);
    }
  }

  lemma StackMaps(nodes: set<StreamNode>, index: map<string, Entry>, visited: seq<StreamNode>, stack: seq<Option<Entry>>) returns (sids: seq<string>)
    requires Maps(nodes, index) && |visited| == |nodes| && forall n :: n in visited <==> n in nodes
    requires Sorted(visited) && (forall i, j :: 0 <= i < j < |visited| ==> visited[i] != visited[j])
    requires |stack| == |visited| && forall i :: 0 <= i < |stack| ==> stack[i] == visited[i].data
    ensures |stack| == |sids| == |index|
    ensures forall sid :: sid in sids <==> sid in index
    ensures forall i, j :: 0 <= i < j < |sids| ==> Compare(sids[i], sids[j]) < 0
    ensures forall i :: 0 <= i < |stack| ==> stack[i] == Some(index[sids[i]])
  {
    sids := seq(|visited|, i requires 0 <= i < |visited| => visited[i].key);
    forall sid | sid in index ensures sid in sids {
      assert HasKey(nodes, sid);
      var n :| n in nodes && n.key == sid;
      assert n in visited;
      var i :| 0 <= i < |visited| && visited[i] == n;
      assert sids[i] == sid;
    }
    forall i, j | 0 <= i < j < |sids| ensures Compare(sids[i], sids[j]) < 0 {
      CompareEqual(sids[i], sids[j]);
      assert visited[i] in nodes && visited[j] in nodes;
    }
    KeysCount(nodes, index);
  }

  /** As many keys as nodes. */
  lemma {:induction false} KeysCount(nodes: set<StreamNode>, index: map<string, Entry>)
    requires Maps(nodes, index)
    ensures |nodes| == |index|
    decreases |nodes|
  {
    if nodes == {} {
      assert forall sid :: sid in index ==> HasKey(nodes, sid);
      assert index == map[];
    } else {
      var n :| n in nodes;
      MapsRemove(nodes, index, n);
      KeysCount(nodes - {n}, index - {n.key});
      assert (index - {n.key}).Keys == index.Keys - {n.key};
      assert |index| == |index.Keys| && |index - {n.key}| == |(index - {n.key}).Keys|;
    }
  }

  /** Pop the stack and write what comes: its last entry first. */
  method WriteStack(stack: seq<Option<Entry>>) returns (streams: seq<byte>, ghost es: seq<Entry>)
    requires forall i :: 0 <= i < |stack| ==> stack[i].Some? && GoodEntry(stack[i].value)
    ensures |es| == |stack| && (forall k {:trigger es[k]} :: 0 <= k < |es| ==> Some(es[k]) == stack[|stack| - 1 - k])
    ensures (forall e :: e in es ==> GoodEntry(e)) && streams == Records(es)
  {
    hide GoodEntry, Records, MapOf, StreamRecord;
    streams, es := [], [];
    var left := |stack|;
    NothingWritten();
    while left > 0
      invariant 0 <= left <= |stack| && |es| == |stack| - left
      invariant (forall e :: e in es ==> GoodEntry(e)) && streams == Records(es)
      invariant forall k :: 0 <= k < |es| ==> Some(es[k]) == stack[|stack| - 1 - k]
    {
      left := left - 1;
      var stream := stack[left].value;
      OneMore(es, stream);
      streams, es := streams + StreamRecord(stream), es + [stream];
    }
  }

  /** The stream file, written from the tree: in descending order of the ids. */
  method SaveTree(tree: RBTree<Entry>, ghost index: map<string, Entry>) returns (streams: seq<byte>, ghost es: seq<Entry>)
    requires Holds(tree, index) && forall sid :: sid in index ==> index[sid].streamId == sid && GoodEntry(index[sid])
    ensures Lists(es, index) && streams == Records(es)
    ensures forall i, j :: 0 <= i < j < |es| ==> ComesBefore(es[j].streamId, es[i].streamId)
  {
    hide Holds, GoodEntry, Records, MapOf, Compare, ComesBefore;
    var stack;
    ghost var sids;
    stack, sids := StackOfStreams(tree, index);
    StackGood(index, sids, stack);
    streams, es := WriteStack(stack);
    SavedLists(index, sids, stack, es);
  }

  lemma SavedLists(index: map<string, Entry>, sids: seq<string>, stack: seq<Option<Entry>>, es: seq<Entry>)
    requires |es| == |stack| == |sids| == |index| && (forall sid :: sid in sids <==> sid in index)
    requires forall sid :: sid in index ==> index[sid].streamId == sid
    requires forall i, j :: 0 <= i < j < |sids| ==> Compare(sids[i], sids[j]) < 0
    requires forall i, j :: 0 <= i < j < |sids| ==> ComesBefore(sids[i], sids[j])
    requires forall i :: 0 <= i < |stack| ==> sids[i] in index && stack[i] == Some(index[sids[i]])
    requires forall k {:trigger es[k]} :: 0 <= k < |es| ==> Some(es[k]) == stack[|stack| - 1 - k]
    ensures MapOf(es) == index
    ensures forall i, j :: 0 <= i < j < |es| ==> ComesBefore(es[j].streamId, es[i].streamId)
  {
    hide MapOf, Compare, ComesBefore;
    var ids := Reversed(sids);
    SavedKeys(index, sids, stack, ids, es);
    assert MapOf(es) == index by {
      MapOfListed(es, ids, index);
    }
    assert forall i, j :: 0 <= i < j < |es| ==> ComesBefore(es[j].streamId, es[i].streamId) by {
      Descending(index, sids, ids, es);
    }
  }

  lemma SavedKeys(index: map<string, Entry>, sids: seq<string>, stack: seq<Option<Entry>>, ids: seq<string>, es: seq<Entry>)
    requires |es| == |stack| == |sids| == |ids| && forall sid :: sid in index ==> index[sid].streamId == sid
    requires forall i :: 0 <= i < |stack| ==> sids[i] in index && stack[i] == Some(index[sids[i]])
    requires forall k {:trigger es[k]} :: 0 <= k < |es| ==> Some(es[k]) == stack[|stack| - 1 - k]
    requires forall k {:trigger ids[k]} :: 0 <= k < |ids| ==> ids[k] == sids[|sids| - 1 - k]
    ensures forall k {:trigger ids[k]} :: 0 <= k < |ids| ==> ids[k] in index && es[k] == index[ids[k]] && es[k].streamId == ids[k]
  {
    forall k {:trigger ids[k]} | 0 <= k < |ids| ensures ids[k] in index && es[k] == index[ids[k]] && es[k].streamId == ids[k] {
      assert Some(es[k]) == stack[|stack| - 1 - k];
    }
  }

  lemma StackGood(index: map<string, Entry>, sids: seq<string>, stack: seq<Option<Entry>>)
    requires (forall sid :: sid in index ==> GoodEntry(index[sid])) && |stack| == |sids| && forall sid :: sid in sids ==> sid in index
    requires forall i :: 0 <= i < |stack| ==> sids[i] in sids && stack[i] == Some(index[sids[i]])
    ensures forall i :: 0 <= i < |stack| ==> stack[i].Some? && GoodEntry(stack[i].value)
  {
    hide GoodEntry;
  }

  /** The ids from last to first: each still once. */
  lemma Reversed(sids: seq<string>) returns (ids: seq<string>)
    requires forall i, j :: 0 <= i < j < |sids| ==> Compare(sids[i], sids[j]) < 0
    ensures |ids| == |sids| && forall k {:trigger ids[k]} :: 0 <= k < |ids| ==> ids[k] == sids[|sids| - 1 - k]
    ensures forall i, j :: 0 <= i < |ids| && 0 <= j < |ids| && i != j ==> ids[i] != ids[j]
    ensures forall sid :: sid in sids ==> sid in ids
  {
    AscendingDistinct(sids);
    hide Compare;
    ids := seq(|sids|, k requires 0 <= k < |sids| => sids[|sids| - 1 - k]);
    forall sid | sid in sids ensures sid in ids {
      var i :| 0 <= i < |sids| && sids[i] == sid;
      assert ids[|sids| - 1 - i] == sid;
    }
  }

  lemma Descending(index: map<string, Entry>, sids: seq<string>, ids: seq<string>, es: seq<Entry>)
    requires |es| == |ids| == |sids| && forall k {:trigger ids[k]} :: 0 <= k < |ids| ==> ids[k] == sids[|sids| - 1 - k]
    requires forall k {:trigger ids[k]} :: 0 <= k < |ids| ==> ids[k] in index && es[k] == index[ids[k]] && es[k].streamId == ids[k]
    requires forall i, j :: 0 <= i < j < |sids| ==> ComesBefore(sids[i], sids[j])
    ensures forall i, j :: 0 <= i < j < |es| ==> ComesBefore(es[j].streamId, es[i].streamId)
  {
    hide ComesBefore;
    forall i, j | 0 <= i < j < |es| ensures ComesBefore(es[j].streamId, es[i].streamId) {
      assert es[i].streamId == ids[i] && es[j].streamId == ids[j];
    }
  }

  lemma NothingWritten()
    ensures Records([]) == [] && MapOf([]) == map[]
  {
  }

  lemma AscendingDistinct(sids: seq<string>)
    requires forall i, j :: 0 <= i < j < |sids| ==> Compare(sids[i], sids[j]) < 0
    ensures forall i, j :: 0 <= i < |sids| && 0 <= j < |sids| && i != j ==> sids[i] != sids[j]
  {
    forall i, j | 0 <= i < |sids| && 0 <= j < |sids| && i != j ensures sids[i] != sids[j] {
      CompareEqual(sids[i], sids[j]);
      CompareEqual(sids[j], sids[i]);
    }
  }

  /** No id occurs twice. */
  ghost predicate DistinctIds(es: seq<Entry>) {
    forall i, j :: 0 <= i < |es| && 0 <= j < |es| && i != j ==> es[i].streamId != es[j].streamId
  }

  /** The map of entries with distinct ids. */
  lemma {:induction false} MapOfIs(es: seq<Entry>)
    ensures forall sid :: sid in MapOf(es) <==> exists k :: 0 <= k < |es| && es[k].streamId == sid
    ensures DistinctIds(es) ==> forall k :: 0 <= k < |es| ==> es[k].streamId in MapOf(es) && MapOf(es)[es[k].streamId] == es[k]
  {
    if es != [] {
      var before, last := es[..|es| - 1], es[|es| - 1];
      MapOfIs(before);
      forall sid ensures sid in MapOf(es) <==> exists k :: 0 <= k < |es| && es[k].streamId == sid {
        if exists k :: 0 <= k < |es| && es[k].streamId == sid {
          var k :| 0 <= k < |es| && es[k].streamId == sid;
          if k < |es| - 1 { assert before[k].streamId == sid; }
        }
        if sid in MapOf(before) {
          var k :| 0 <= k < |before| && before[k].streamId == sid;
          assert es[k].streamId == sid;
        }
        if sid == last.streamId { assert es[|es| - 1].streamId == sid; }
      }
    }
  }

  lemma MapOfListed(es: seq<Entry>, ids: seq<string>, index: map<string, Entry>)
    requires |es| == |ids| && forall i, j :: 0 <= i < |ids| && 0 <= j < |ids| && i != j ==> ids[i] != ids[j]
    requires (forall sid :: sid in index ==> sid in ids && index[sid].streamId == sid)
    requires forall k :: 0 <= k < |ids| ==> ids[k] in index && es[k] == index[ids[k]]
    ensures MapOf(es) == index
  {
    hide MapOf;
    MapOfIs(es);
    forall k | 0 <= k < |es| ensures es[k].streamId == ids[k] {
      assert ids[k] in index;
    }
    forall sid | sid in index ensures sid in MapOf(es) && MapOf(es)[sid] == index[sid] {
      var k :| 0 <= k < |ids| && ids[k] == sid;
      assert es[k].streamId == sid;
    }
    forall sid | sid in MapOf(es) ensures sid in index {
      var k :| 0 <= k < |es| && es[k].streamId == sid;
    }
  }

  // ---------- starting again ----------

  /** The nodes are one for each entry. */
  ghost predicate Lines(nodes: set<StreamNode>, order: seq<StreamNode>, es: seq<Entry>)
    reads nodes`data
  {
    && |order| == |es| && (forall n :: n in nodes ==> n in order)
    && (forall i :: 0 <= i < |es| ==> order[i] in nodes && order[i].key == es[i].streamId && order[i].data == Some(es[i]))
    && (forall i, j :: 0 <= i < j < |order| ==> order[i] != order[j])
  }

  lemma LinesAdd(nodes: set<StreamNode>, order: seq<StreamNode>, es: seq<Entry>, node: StreamNode, stream: Entry)
    requires Lines(nodes, order, es) && node !in nodes && node.key == stream.streamId && node.data == Some(stream)
    ensures Lines(nodes + {node}, order + [node], es + [stream])
  {
  }

  method InsertRecord(tree: RBTree<Entry>, stream: Entry, ghost order: seq<StreamNode>, ghost es: seq<Entry>) returns (ghost order': seq<StreamNode>)
    requires tree.Valid() && Lines(tree.nodes, order, es)
    modifies tree, tree.nodes`left, tree.nodes`right, tree.nodes`parent, tree.nodes`isRed
    ensures tree.Valid() && fresh(tree.nodes - old(tree.nodes)) && Lines(tree.nodes, order', es + [stream])
  {
    hide RBTree.Valid, Lines;
    ghost var nodes := tree.nodes;
    var node := tree.Insert(stream.streamId, Some(stream));
    LinesAdd(nodes, order, es, node, stream);
    order' := order + [node];
  }

  /** Insert the records of any stream file, one after the other, and count them: the tree has one node for each. */
  method LoadTree(streams: seq<byte>) returns (tree: RBTree<Entry>, streamCount: nat, ghost order: seq<StreamNode>)
    ensures fresh(tree) && tree.Valid() && streamCount == |streams| / RECORD_SIZE
    ensures Lines(tree.nodes, order, DecodeAll(streams))
  {
    hide RBTree.Valid, DecodeRecord, Lines;
    tree := new RBTree<Entry>();
    streamCount, order := 0, [];
    ghost var es := DecodeAll(streams);
    NoLines(tree);
    assert es[..0] == [];
    while RECORD_SIZE * (streamCount + 1) <= |streams|
      invariant streamCount <= |es| && tree.Valid() && fresh(tree) && fresh(tree.nil) && fresh(tree.nodes)
      invariant Lines(tree.nodes, order, es[..streamCount])
      decreases |es| - streamCount
    {
      var stream := DecodeRecord(streams[RECORD_SIZE * streamCount..RECORD_SIZE * (streamCount + 1)]);
      order := InsertRecord(tree, stream, order, es[..streamCount]);
      assert es[..streamCount + 1] == es[..streamCount] + [stream];
      streamCount := streamCount + 1;
    }
    assert es[..streamCount] == es;
  }

  lemma NoLines(tree: RBTree<Entry>)
    requires tree.Valid() && tree.tree.Leaf?
    ensures tree.nodes == {} && Lines(tree.nodes, [], [])
  {
    tree.ValidMeans();
    assert tree.nodes == {};
  }

  /** The tree then holds the map of the records exactly when no id occurs twice. */
  lemma LoadedHolds(nodes: set<StreamNode>, order: seq<StreamNode>, es: seq<Entry>)
    requires Lines(nodes, order, es)
    ensures Maps(nodes, MapOf(es)) <==> DistinctIds(es)
  {
    MapOfIs(es);
    if DistinctIds(es) {
      forall n | n in nodes ensures n.key in MapOf(es) && n.data == Some(MapOf(es)[n.key]) {
        var i :| 0 <= i < |order| && order[i] == n;
      }
      forall sid | sid in MapOf(es) ensures HasKey(nodes, sid) {
        var k :| 0 <= k < |es| && es[k].streamId == sid;
        assert order[k] in nodes && order[k].key == sid;
      }
    } else {
      var i, j :| 0 <= i < |es| && 0 <= j < |es| && i != j && es[i].streamId == es[j].streamId;
      assert order[i] in nodes && order[j] in nodes && order[i] != order[j];
    }
  }

  /** As many entries as keys: no id occurs twice. */
  lemma {:induction false} ListsDistinct(es: seq<Entry>)
    ensures |MapOf(es)| <= |es|
    ensures |MapOf(es)| == |es| ==> DistinctIds(es)
  {
    if es != [] {
      var before, last := es[..|es| - 1], es[|es| - 1];
      ListsDistinct(before);
      MapOfIs(before);
      CountWith(MapOf(before), last.streamId, last);
      if |MapOf(es)| == |es| {
        assert last.streamId !in MapOf(before);
        forall i, j | 0 <= i < j < |es| ensures es[i].streamId != es[j].streamId {
          assert es[i] == before[i];
          if j < |es| - 1 { assert es[j] == before[j]; }
        }
      }
    }
  }

  /** Saving a tree and loading the file gives a tree, of whatever shape, that holds the same index. */
  method Reload(tree: RBTree<Entry>, ghost index: map<string, Entry>) returns (again: RBTree<Entry>, streamCount: nat)
    requires Holds(tree, index) && forall sid :: sid in index ==> index[sid].streamId == sid && GoodEntry(index[sid])
    ensures fresh(again) && Holds(again, index) && streamCount == |index|
  {
    hide GoodEntry, Records, MapOf, DecodeAll;
    var streams;
    ghost var es, order;
    streams, es := SaveTree(tree, index);
    again, streamCount, order := LoadTree(streams);
    RecordsDecode(es);
    ListsDistinct(es);
    LoadedHolds(again.nodes, order, es);
  }
}
