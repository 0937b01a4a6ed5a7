/**
 * The data half of `generate_html_report` (script.py:219-260): the two
 * parsed connection dictionaries are merged into one ordered map keyed by
 * `(pinfunction, ref)`, each key becomes one report row, and the rows are
 * sorted on whether they match.
 *
 * The specification is `Fold` (what adding a sequence of connections does
 * to the map), `Rows` (one row per key, in key order) and `MismatchesFirst`
 * (the result of the stable sort).  The methods are the source's loops,
 * proved to compute those functions; the lemmas say what the resulting
 * report means.
 */
module Comparator {
  import opened Wrappers
  import opened OrderedMaps
  import opened Parser

  /**
   * The map key `(conn[1], conn[2])`.  A connection tuple is
   * `(pin, pinfunction, ref)`, so the key is the pin function and the
   * reference; the pin number is not part of it.
   */
  datatype Key = Key(pinfunction: string, ref: string)

  /** Which of the two netlists a connection comes from: label `net1` or `net2`. */
  datatype Side = First | Second

  /**
   * The record kept per key: the net each netlist last put the key on (None
   * while that netlist has not), and the references each netlist listed for it.
   */
  datatype Entry = Entry(net1: Option<string>, net2: Option<string>, refs1: seq<string>, refs2: seq<string>)

  type ConnectionMap = OMap<Key, Entry>

  /** One connection as the nested loop visits it: the net's name and the node. */
  datatype Pair = Pair(net: string, node: Node)

  datatype RowClass = Match | Mismatch

  /**
   * One report row.  The source unpacks the key as `pin, pinfunction`, so
   * `pin1`/`pin2` hold the key's pin function and `pinfunction1`/`pinfunction2`
   * hold its reference.
   */
  datatype Row = Row(
    pin1: string, pinfunction1: string, ref1: string, net1Name: string,
    pin2: string, pinfunction2: string, ref2: string, net2Name: string,
    cls: RowClass)

  function KeyOf(n: Node): Key {
    Key(n.pinfunction, n.ref)
  }

  /** The record a new key starts with. */
  function NoEntry(): Entry {
    Entry(None, None, [], [])
  }

  /** The record of k, or the initial record when k is not yet a key. */
  function Lookup(m: ConnectionMap, k: Key): Entry {
    if k in m.entries then m.entries[k] else NoEntry()
  }

  /**
   * One side's part of the record after that side's net (when there is
   * one) overwrites its net and its references are appended; the other
   * side's part is untouched.
   */
  function Update(e: Entry, side: Side, net: Option<string>, refs: seq<string>): Entry {
    match side
    case First => e.(net1 := if net.Some? then net else e.net1, refs1 := e.refs1 + refs)
    case Second => e.(net2 := if net.Some? then net else e.net2, refs2 := e.refs2 + refs)
  }

  /** One iteration of the inner loop of `add_connections_to_map`. */
  function AddConnection(m: ConnectionMap, side: Side, p: Pair): ConnectionMap {
    var k := KeyOf(p.node);
    m.Put(k, Update(Lookup(m, k), side, Some(p.net), [p.node.ref]))
  }

  /** The nodes of a net, as `connections.items()` yields them. */
  function Nodes(c: Connections, net: string): seq<Node> {
    if net in c.entries then c.entries[net] else []
  }

  function NetPairs(net: string, nodes: seq<Node>): (r: seq<Pair>)
    ensures |r| == |nodes|
  {
    seq(|nodes|, j requires 0 <= j < |nodes| => Pair(net, nodes[j]))
  }

  /** The connections of the nets listed, net by net and node by node. */
  function PairsOf(c: Connections, nets: seq<string>): seq<Pair> {
    if nets == [] then []
    else
      var last := nets[|nets| - 1];
      PairsOf(c, nets[..|nets| - 1]) + NetPairs(last, Nodes(c, last))
  }

  /** Every connection of a connections dictionary, in iteration order. */
  function Pairs(c: Connections): seq<Pair> {
    PairsOf(c, c.keys)
  }

  /** The map after adding the connections ps, in order, under one label. */
  function Fold(m: ConnectionMap, side: Side, ps: seq<Pair>): ConnectionMap {
    if ps == [] then m
    else AddConnection(Fold(m, side, ps[..|ps| - 1]), side, ps[|ps| - 1])
  }

  /** `connection_map` after both calls of `add_connections_to_map`. */
  function MapOf(c1: Connections, c2: Connections): ConnectionMap {
    Fold(Fold(Empty(), First, Pairs(c1)), Second, Pairs(c2))
  }

  /** `'N/A'` stands in for a net name that is None or empty. */
  function NameOrNA(net: Option<string>): string {
    if net.None? || net.value == "" then "N/A" else net.value
  }

  /** The first listed reference, or `'N/A'`. */
  function FirstOrNA(refs: seq<string>): string {
    if refs == [] then "N/A" else refs[0]
  }

  /** The row the source appends for one key and its record. */
  function RowFor(k: Key, e: Entry): Row {
    var name1 := NameOrNA(e.net1);
    var name2 := NameOrNA(e.net2);
    Row(k.pinfunction, k.ref, FirstOrNA(e.refs1), name1,
        k.pinfunction, k.ref, FirstOrNA(e.refs2), name2,
        if name1 == name2 then Match else Mismatch)
  }

  /** One row per key of the map, in the map's order. */
  function Rows(m: ConnectionMap): (r: seq<Row>)
    ensures |r| == |m.keys|
  {
    seq(|m.keys|, i requires 0 <= i < |m.keys| => RowFor(m.keys[i], Lookup(m, m.keys[i])))
  }

  /** The rows of class c, in their order. */
  function OfClass(rows: seq<Row>, c: RowClass): (r: seq<Row>)
    ensures |r| <= |rows|
  {
    if rows == [] then []
    else (if rows[0].cls == c then [rows[0]] else []) + OfClass(rows[1..], c)
  }

  /**
   * `rows.sort(key=lambda x: x['class'] == 'match')`: the sort key is False
   * for a mismatch and True for a match, and Python's sort is stable, so
   * the result is the mismatches in their order followed by the matches in
   * theirs (`StableSortIsUnique` shows no other order qualifies).
   */
  function MismatchesFirst(rows: seq<Row>): seq<Row> {
    OfClass(rows, Mismatch) + OfClass(rows, Match)
  }

  /** The sorted rows the report is rendered from. */
  function Report(c1: Connections, c2: Connections): seq<Row> {
    MismatchesFirst(Rows(MapOf(c1, c2)))
  }

  // ---------------------------------------------------------------------
  // The loops

  /**
   * `add_connections_to_map`: for each net and each of its nodes, create
   * the key's record when the key is new, set this side's net and append
   * the node's reference.
   */
  method AddConnectionsToMap(m: ConnectionMap, connections: Connections, side: Side)
    returns (r: ConnectionMap)
    ensures r == Fold(m, side, Pairs(connections))
  {
    r := m;
    var nets := connections.keys;
    for i := 0 to |nets|
      invariant r == Fold(m, side, PairsOf(connections, nets[..i]))
    {
      var net := nets[i];
      var nodes := Nodes(connections, net);
      ghost var r0 := r;
      for j := 0 to |nodes|
        invariant r == Fold(r0, side, NetPairs(net, nodes[..j]))
      {
        var conn := nodes[j];
        var key := KeyOf(conn);
        var e := if key in r.entries then r.entries[key] else NoEntry();
        FoldStep(r0, side, net, nodes, j);
        r := r.Put(key, Update(e, side, Some(net), [conn.ref]));
      }
      NextNet(m, side, connections, nets, i, r0, r);
    }
    assert nets[..|nets|] == nets;
  }

  /** One more node of the current net is one more `AddConnection`. */
  lemma FoldStep(m: ConnectionMap, side: Side, net: string, nodes: seq<Node>, j: nat)
    requires j < |nodes|
    ensures Fold(m, side, NetPairs(net, nodes[..j + 1])) ==
      AddConnection(Fold(m, side, NetPairs(net, nodes[..j])), side, Pair(net, nodes[j]))
  {
    var ps := NetPairs(net, nodes[..j + 1]);
    assert ps[..j] == NetPairs(net, nodes[..j]);
  }

  /** Adding a + b is adding a, then b. */
  lemma {:induction false} FoldAppend(m: ConnectionMap, side: Side, a: seq<Pair>, b: seq<Pair>)
    ensures Fold(m, side, a + b) == Fold(Fold(m, side, a), side, b)
  {
    if b != [] {
      var init := b[..|b| - 1];
      assert (a + b)[..|a + b| - 1] == a + init;
      FoldAppend(m, side, a, init);
    } else {
      assert a + b == a;
    }
  }

  /** After the inner loop over net i, the map is the fold over the first i + 1 nets. */
  lemma NextNet(m: ConnectionMap, side: Side, c: Connections, nets: seq<string>, i: nat,
                r0: ConnectionMap, r: ConnectionMap)
    requires i < |nets|
    requires r0 == Fold(m, side, PairsOf(c, nets[..i]))
    requires r == Fold(r0, side, NetPairs(nets[i], Nodes(c, nets[i])[..|Nodes(c, nets[i])|]))
    ensures r == Fold(m, side, PairsOf(c, nets[..i + 1]))
  {
    var nodes := Nodes(c, nets[i]);
    assert nodes[..|nodes|] == nodes;
    assert nets[..i + 1][..i] == nets[..i];
    FoldAppend(m, side, PairsOf(c, nets[..i]), NetPairs(nets[i], nodes));
  }

  /** The loop over `connection_map.items()` that appends one row per key. */
  method BuildRows(m: ConnectionMap) returns (rows: seq<Row>)
    requires m.Valid()
    ensures rows == Rows(m)
  {
    rows := [];
    for i := 0 to |m.keys|
      invariant |rows| == i
      invariant forall t :: 0 <= t < i ==> rows[t] == Rows(m)[t]
    {
      var key := m.keys[i];
      var value := m.entries[key];
      var pin, pinfunction := key.pinfunction, key.ref;
      var net1Name := if value.net1.Some? && value.net1.value != "" then value.net1.value else "N/A";
      var net2Name := if value.net2.Some? && value.net2.value != "" then value.net2.value else "N/A";
      var cls := if net1Name == net2Name then Match else Mismatch;
      rows := rows + [Row(pin, pinfunction, if value.refs1 != [] then value.refs1[0] else "N/A", net1Name,
                          pin, pinfunction, if value.refs2 != [] then value.refs2[0] else "N/A", net2Name,
                          cls)];
    }
  }

  /**
   * The comparator end to end: build the map from both netlists, build the
   * rows, sort them.  The result has every mismatch before every match.
   */
  method CompareConnections(connections1: Connections, connections2: Connections) returns (rows: seq<Row>)
    ensures rows == Report(connections1, connections2)
    ensures forall i, j :: 0 <= i < j < |rows| && rows[i].cls == Match ==> rows[j].cls == Match
  {
    var m := Empty();
    m := AddConnectionsToMap(m, connections1, First);
    m := AddConnectionsToMap(m, connections2, Second);
    MapOfValid(connections1, connections2);
    rows := BuildRows(m);
    MismatchesFirstSorted(rows);
    rows := MismatchesFirst(rows);
  }

  // ---------------------------------------------------------------------
  // The keys: one per distinct (pinfunction, ref), in first-seen order

  function KeysOf(ps: seq<Pair>): (r: seq<Key>)
    ensures |r| == |ps|
  {
    seq(|ps|, i requires 0 <= i < |ps| => KeyOf(ps[i].node))
  }

  lemma KeysOfSnoc(ps: seq<Pair>)
    requires ps != []
    ensures KeysOf(ps) == KeysOf(ps[..|ps| - 1]) + [KeyOf(ps[|ps| - 1].node)]
  {
    var a, b := KeysOf(ps), KeysOf(ps[..|ps| - 1]) + [KeyOf(ps[|ps| - 1].node)];
    forall i | 0 <= i < |ps| ensures a[i] == b[i] {
      if i < |ps| - 1 {
        assert ps[..|ps| - 1][i] == ps[i];
      }
    }
  }

  /** The distinct elements of ks in the order of their first occurrence. */
  function Seen(ks: seq<Key>): seq<Key> {
    if ks == [] then []
    else
      var prev := Seen(ks[..|ks| - 1]);
      var last := ks[|ks| - 1];
      if last in prev then prev else prev + [last]
  }

  /** First-seen order lists exactly the keys that occur... */
  lemma {:induction false} SeenMembers(ks: seq<Key>)
    ensures forall k :: k in Seen(ks) <==> k in ks
  {
    if ks != [] {
      var init := ks[..|ks| - 1];
      assert ks == init + [ks[|ks| - 1]];
      SeenMembers(init);
    }
  }

  /** ...and lists each of them once. */
  lemma {:induction false} SeenDistinct(ks: seq<Key>)
    ensures forall i, j :: 0 <= i < j < |Seen(ks)| ==> Seen(ks)[i] != Seen(ks)[j]
  {
    if ks != [] {
      var init := ks[..|ks| - 1];
      SeenDistinct(init);
      SeenMembers(init);
    }
  }

  /** Seeing one more key appends it when it is new. */
  lemma SeenSnoc(ks: seq<Key>, k: Key)
    ensures Seen(ks + [k]) == if k in ks then Seen(ks) else Seen(ks) + [k]
  {
    assert (ks + [k])[..|ks|] == ks;
    SeenMembers(ks);
  }

  /** Folding connections into a map whose keys are the first-seen order of ks extends that order. */
  lemma {:induction false} FoldKeys(m: ConnectionMap, side: Side, ps: seq<Pair>, ks: seq<Key>)
    requires m.Valid() && m.keys == Seen(ks)
    ensures Fold(m, side, ps).Valid()
    ensures Fold(m, side, ps).keys == Seen(ks + KeysOf(ps))
  {
    if ps == [] {
      assert ks + KeysOf(ps) == ks;
    } else {
      var init := ps[..|ps| - 1];
      var k := KeyOf(ps[|ps| - 1].node);
      FoldKeys(m, side, init, ks);
      var prev := Fold(m, side, init);
      var seen := ks + KeysOf(init);
      KeysOfSnoc(ps);
      assert ks + KeysOf(ps) == seen + [k];
      SeenSnoc(seen, k);
      assert k in prev.entries <==> k in seen by {
        SeenMembers(seen);
      }
    }
  }

  /**
   * The keys of `connection_map` are the keys of netlist 1's connections in
   * first-seen order followed by the keys only netlist 2 has, in first-seen
   * order; the map is a well-formed ordered dictionary (no key listed twice).
   */
  lemma KeysInFirstSeenOrder(c1: Connections, c2: Connections)
    ensures MapOf(c1, c2).Valid()
    ensures MapOf(c1, c2).keys == Seen(KeysOf(Pairs(c1)) + KeysOf(Pairs(c2)))
    ensures forall k :: k in MapOf(c1, c2).keys <==> k in KeysOf(Pairs(c1)) || k in KeysOf(Pairs(c2))
    ensures |Seen(KeysOf(Pairs(c1)))| <= |MapOf(c1, c2).keys|
    ensures MapOf(c1, c2).keys[..|Seen(KeysOf(Pairs(c1)))|] == Seen(KeysOf(Pairs(c1)))
    ensures forall k :: k in MapOf(c1, c2).keys[|Seen(KeysOf(Pairs(c1)))|..] <==>
      k in KeysOf(Pairs(c2)) && k !in KeysOf(Pairs(c1))
  {
    var k1, k2 := KeysOf(Pairs(c1)), KeysOf(Pairs(c2));
    assert Empty<Key, Entry>().keys == Seen([]);
    FoldKeys(Empty(), First, Pairs(c1), []);
    assert [] + k1 == k1;
    FoldKeys(Fold(Empty(), First, Pairs(c1)), Second, Pairs(c2), k1);
    SeenExtends(k1, k2);
    SeenMembers(k1 + k2);
  }

  /** The first-seen order of a + b starts with that of a and continues with the new elements of b. */
  lemma {:induction false} SeenExtends(a: seq<Key>, b: seq<Key>)
    ensures |Seen(a)| <= |Seen(a + b)|
    ensures Seen(a + b)[..|Seen(a)|] == Seen(a)
    ensures forall k :: k in Seen(a + b)[|Seen(a)|..] <==> k in b && k !in a
  {
    if b == [] {
      assert a + b == a;
    } else {
      var init := b[..|b| - 1];
      var last := b[|b| - 1];
      SeenExtends(a, init);
      assert a + b == (a + init) + [last];
      assert b == init + [last];
      SeenSnoc(a + init, last);
      var prev := Seen(a + init);
      var n := |Seen(a)|;
      if last !in a + init {
        assert (prev + [last])[..n] == prev[..n];
        assert (prev + [last])[n..] == prev[n..] + [last];
      } else if last in a {
        assert last !in prev[n..] by {
          SeenMembers(a);
          SeenDistinct(a + init);
          DistinctSplit(prev, n, last);
        }
      }
    }
  }

  /** In a list without repeats, an element of the first n entries is not among the others. */
  lemma DistinctSplit(p: seq<Key>, n: nat, x: Key)
    requires forall i, j :: 0 <= i < j < |p| ==> p[i] != p[j]
    requires n <= |p| && x in p[..n]
    ensures x !in p[n..]
  {
    var i :| 0 <= i < n && p[i] == x;
    forall j | n <= j < |p| ensures p[j] != x {
      assert i < j;
    }
  }

  lemma MapOfValid(c1: Connections, c2: Connections)
    ensures MapOf(c1, c2).Valid()
  {
    KeysInFirstSeenOrder(c1, c2);
  }

  /** A connection is listed iff its net is a key of the dictionary and the node is in that net's list. */
  lemma {:induction false} PairsMembership(c: Connections, nets: seq<string>, p: Pair)
    ensures p in PairsOf(c, nets) <==> p.net in nets && p.node in Nodes(c, p.net)
  {
    if nets != [] {
      var init := nets[..|nets| - 1];
      var last := nets[|nets| - 1];
      assert nets == init + [last];
      PairsMembership(c, init, p);
      var np := NetPairs(last, Nodes(c, last));
      assert p in np <==> p.net == last && p.node in Nodes(c, last) by {
        if p in np {
          var j :| 0 <= j < |np| && np[j] == p;
        }
        if p.net == last && p.node in Nodes(c, last) {
          var j :| 0 <= j < |Nodes(c, last)| && Nodes(c, last)[j] == p.node;
          assert np[j] == p;
        }
      }
    }
  }

  // ---------------------------------------------------------------------
  // The records: last net wins, references accumulate

  /** The net of the last connection with key k, if any. */
  function LastNet(ps: seq<Pair>, k: Key): (r: Option<string>)
    ensures r.Some? <==> k in KeysOf(ps)
  {
    if ps == [] then None
    else
      var init := ps[..|ps| - 1];
      var last := ps[|ps| - 1];
      assert KeysOf(ps) == KeysOf(init) + [KeyOf(last.node)];
      if KeyOf(last.node) == k then Some(last.net) else LastNet(init, k)
  }

  /** The references of the connections with key k, in order. */
  function RefsFor(ps: seq<Pair>, k: Key): seq<string> {
    if ps == [] then []
    else
      var last := ps[|ps| - 1];
      RefsFor(ps[..|ps| - 1], k) + (if KeyOf(last.node) == k then [last.node.ref] else [])
  }

  /** Every reference listed for k is k's own reference, and one is listed iff k occurs. */
  lemma {:induction false} RefsForKey(ps: seq<Pair>, k: Key)
    ensures forall r :: r in RefsFor(ps, k) ==> r == k.ref
    ensures RefsFor(ps, k) == [] <==> k !in KeysOf(ps)
  {
    if ps != [] {
      var init := ps[..|ps| - 1];
      RefsForKey(init, k);
      assert KeysOf(ps) == KeysOf(init) + [KeyOf(ps[|ps| - 1].node)];
    }
  }

  lemma UpdateTwice(e: Entry, side: Side, n1: Option<string>, r1: seq<string>, n2: Option<string>, r2: seq<string>)
    ensures Update(Update(e, side, n1, r1), side, n2, r2) == Update(e, side, if n2.Some? then n2 else n1, r1 + r2)
  {
    match side
    case First => assert e.refs1 + r1 + r2 == e.refs1 + (r1 + r2);
    case Second => assert e.refs2 + r1 + r2 == e.refs2 + (r1 + r2);
  }

  /**
   * After a side's connections ps are added, a key's record has that side's
   * last net for it (or its old net when ps never mention it) and that
   * side's references appended; the other side's half is unchanged, and the
   * key is present iff it was or ps mention it.
   */
  lemma {:induction false} FoldEntry(m: ConnectionMap, side: Side, ps: seq<Pair>, k: Key)
    ensures Lookup(Fold(m, side, ps), k) == Update(Lookup(m, k), side, LastNet(ps, k), RefsFor(ps, k))
    ensures k in Fold(m, side, ps).entries <==> k in m.entries || k in KeysOf(ps)
  {
    if ps == [] {
      match side
      case First => assert Lookup(m, k).refs1 + [] == Lookup(m, k).refs1;
      case Second => assert Lookup(m, k).refs2 + [] == Lookup(m, k).refs2;
    } else {
      var init := ps[..|ps| - 1];
      var last := ps[|ps| - 1];
      FoldEntry(m, side, init, k);
      assert KeysOf(ps) == KeysOf(init) + [KeyOf(last.node)];
      if KeyOf(last.node) == k {
        UpdateTwice(Lookup(m, k), side, LastNet(init, k), RefsFor(init, k), Some(last.net), [last.node.ref]);
      } else {
        UpdateTwice(Lookup(m, k), side, LastNet(init, k), RefsFor(init, k), None, []);
        assert RefsFor(init, k) + [] == RefsFor(init, k);
      }
    }
  }

  /** The record of a key after both netlists: each side's last net and each side's references. */
  lemma EntryOfKey(c1: Connections, c2: Connections, k: Key)
    ensures Lookup(MapOf(c1, c2), k) ==
      Entry(LastNet(Pairs(c1), k), LastNet(Pairs(c2), k), RefsFor(Pairs(c1), k), RefsFor(Pairs(c2), k))
  {
    var m1 := Fold(Empty(), First, Pairs(c1));
    FoldEntry(Empty(), First, Pairs(c1), k);
    FoldEntry(m1, Second, Pairs(c2), k);
    assert [] + RefsFor(Pairs(c1), k) == RefsFor(Pairs(c1), k);
    assert [] + RefsFor(Pairs(c2), k) == RefsFor(Pairs(c2), k);
  }

  // ---------------------------------------------------------------------
  // The rows

  /**
   * The i-th unsorted row is about the i-th key: both `pin` fields hold its
   * pin function and both `pinfunction` fields its reference; `refN` is
   * that reference when netlist N has the key and `'N/A'` otherwise; the
   * net names are each netlist's last net for the key, with `'N/A'` for a
   * missing or empty one; and the row matches iff the two names are equal.
   */
  lemma RowOfKey(c1: Connections, c2: Connections, i: nat)
    requires i < |MapOf(c1, c2).keys|
    ensures var k := MapOf(c1, c2).keys[i];
            var r := Rows(MapOf(c1, c2))[i];
            && r.pin1 == k.pinfunction && r.pin2 == k.pinfunction
            && r.pinfunction1 == k.ref && r.pinfunction2 == k.ref
            && r.ref1 == (if k in KeysOf(Pairs(c1)) then k.ref else "N/A")
            && r.ref2 == (if k in KeysOf(Pairs(c2)) then k.ref else "N/A")
            && r.net1Name == NameOrNA(LastNet(Pairs(c1), k))
            && r.net2Name == NameOrNA(LastNet(Pairs(c2), k))
            && (r.cls == Match <==> r.net1Name == r.net2Name)
  {
    var k := MapOf(c1, c2).keys[i];
    EntryOfKey(c1, c2, k);
    RefsForKey(Pairs(c1), k);
    RefsForKey(Pairs(c2), k);
    var refs1, refs2 := RefsFor(Pairs(c1), k), RefsFor(Pairs(c2), k);
    if refs1 != [] { assert refs1[0] in refs1; }
    if refs2 != [] { assert refs2[0] in refs2; }
  }

  /**
   * A key only netlist 1 has is reported as a match exactly when its net
   * there is named `N/A` or is empty, since the missing net is shown as
   * `'N/A'` too.
   */
  lemma MissingNetShownAsNA(c1: Connections, c2: Connections, i: nat)
    requires i < |MapOf(c1, c2).keys|
    requires MapOf(c1, c2).keys[i] !in KeysOf(Pairs(c2))
    ensures Rows(MapOf(c1, c2))[i].cls == Match <==>
      LastNet(Pairs(c1), MapOf(c1, c2).keys[i]) in {Some("N/A"), Some("")}
  {
    KeysInFirstSeenOrder(c1, c2);
    assert MapOf(c1, c2).keys[i] in MapOf(c1, c2).keys;
    RowOfKey(c1, c2, i);
  }

  /** Comparing a netlist's connections with themselves reports every key as a match. */
  lemma SelfCompareMatches(c: Connections)
    ensures forall r :: r in Report(c, c) ==> r.cls == Match
  {
    var rows := Rows(MapOf(c, c));
    forall i | 0 <= i < |rows|
      ensures rows[i].cls == Match
    {
      RowOfKey(c, c, i);
    }
    OfClassMembers(rows, Mismatch);
    OfClassMembers(rows, Match);
  }

  // ---------------------------------------------------------------------
  // The sort

  lemma {:induction false} OfClassMembers(rows: seq<Row>, c: RowClass)
    ensures forall r :: r in OfClass(rows, c) <==> r in rows && r.cls == c
  {
    if rows != [] {
      OfClassMembers(rows[1..], c);
      assert rows == [rows[0]] + rows[1..];
    }
  }

  lemma {:induction false} OfClassMultiset(rows: seq<Row>)
    ensures multiset(OfClass(rows, Mismatch)) + multiset(OfClass(rows, Match)) == multiset(rows)
  {
    if rows != [] {
      var h, t := rows[0], rows[1..];
      assert rows == [h] + t;
      OfClassMultiset(t);
      if h.cls == Mismatch {
        assert OfClass(rows, Mismatch) == [h] + OfClass(t, Mismatch);
        assert OfClass(rows, Match) == OfClass(t, Match);
      } else {
        assert OfClass(rows, Mismatch) == OfClass(t, Mismatch);
        assert OfClass(rows, Match) == [h] + OfClass(t, Match);
      }
    }
  }

  lemma {:induction false} OfClassConcat(a: seq<Row>, b: seq<Row>, c: RowClass)
    ensures OfClass(a + b, c) == OfClass(a, c) + OfClass(b, c)
  {
    if a == [] {
      assert a + b == b;
    } else {
      var h := if a[0].cls == c then [a[0]] else [];
      assert (a + b)[0] == a[0] && (a + b)[1..] == a[1..] + b;
      assert OfClass(a + b, c) == h + OfClass(a[1..] + b, c);
      OfClassConcat(a[1..], b, c);
      AppendAssoc(h, OfClass(a[1..], c), OfClass(b, c));
    }
  }

  lemma AppendAssoc(x: seq<Row>, y: seq<Row>, z: seq<Row>)
    ensures x + (y + z) == (x + y) + z
  {
  }

  lemma {:induction false} OfClassAll(rows: seq<Row>, c: RowClass)
    requires forall r :: r in rows ==> r.cls == c
    ensures OfClass(rows, c) == rows
    ensures forall d :: d != c ==> OfClass(rows, d) == []
  {
    if rows != [] {
      OfClassAll(rows[1..], c);
      assert rows == [rows[0]] + rows[1..];
    }
  }

  /** No match row comes before a mismatch row. */
  ghost predicate SortedByClass(rows: seq<Row>) {
    forall i, j :: 0 <= i < j < |rows| && rows[i].cls == Match ==> rows[j].cls == Match
  }

  /** The sorted rows have every mismatch first: the comment at the sort call says the opposite. */
  lemma MismatchesFirstSorted(rows: seq<Row>)
    ensures SortedByClass(MismatchesFirst(rows))
  {
    OfClassIndexed(rows, Mismatch);
    OfClassIndexed(rows, Match);
  }

  lemma OfClassIndexed(rows: seq<Row>, c: RowClass)
    ensures forall t :: 0 <= t < |OfClass(rows, c)| ==> OfClass(rows, c)[t].cls == c
  {
    OfClassMembers(rows, c);
    forall t | 0 <= t < |OfClass(rows, c)| ensures OfClass(rows, c)[t].cls == c {
      assert OfClass(rows, c)[t] in OfClass(rows, c);
    }
  }

  /**
   * The sort is a stable permutation: it keeps every row, and within each
   * class the rows keep the order the map gave them.
   */
  lemma MismatchesFirstStablePermutation(rows: seq<Row>)
    ensures multiset(MismatchesFirst(rows)) == multiset(rows)
    ensures OfClass(MismatchesFirst(rows), Mismatch) == OfClass(rows, Mismatch)
    ensures OfClass(MismatchesFirst(rows), Match) == OfClass(rows, Match)
  {
    OfClassMultiset(rows);
    var a, b := OfClass(rows, Mismatch), OfClass(rows, Match);
    OfClassMembers(rows, Mismatch);
    OfClassMembers(rows, Match);
    OfClassConcat(a, b, Mismatch);
    OfClassConcat(a, b, Match);
    OfClassAll(a, Mismatch);
    OfClassAll(b, Match);
    assert a + [] == a;
    assert [] + b == b;
  }

  /** A list sorted by class is its mismatches followed by its matches. */
  lemma {:induction false} SortedSplits(s: seq<Row>)
    requires SortedByClass(s)
    ensures s == OfClass(s, Mismatch) + OfClass(s, Match)
  {
    if s != [] {
      assert SortedByClass(s[1..]) by {
        forall i, j | 0 <= i < j < |s[1..]| && s[1..][i].cls == Match
          ensures s[1..][j].cls == Match
        {
          assert s[1..][i] == s[i + 1] && s[1..][j] == s[j + 1];
        }
      }
      SortedSplits(s[1..]);
      if s[0].cls == Match {
        forall r | r in s ensures r.cls == Match {
          var j :| 0 <= j < |s| && s[j] == r;
          if j > 0 { assert s[0].cls == Match; }
        }
        OfClassAll(s, Match);
      }
    }
  }

  /**
   * Any arrangement sorted by class that keeps each class's rows in their
   * original order is the one `MismatchesFirst` gives: the stable sort's
   * result is determined.
   */
  lemma StableSortIsUnique(rows: seq<Row>, s: seq<Row>)
    requires SortedByClass(s)
    requires OfClass(s, Mismatch) == OfClass(rows, Mismatch)
    requires OfClass(s, Match) == OfClass(rows, Match)
    ensures s == MismatchesFirst(rows)
  {
    SortedSplits(s);
  }

  /** Whenever some row is a mismatch, the first sorted row is a mismatch. */
  lemma FirstRowIsMismatch(rows: seq<Row>, i: nat)
    requires i < |rows| && rows[i].cls == Mismatch
    ensures |MismatchesFirst(rows)| > 0 && MismatchesFirst(rows)[0].cls == Mismatch
  {
    OfClassMembers(rows, Mismatch);
    assert rows[i] in OfClass(rows, Mismatch);
    var a := OfClass(rows, Mismatch);
    assert a[0] in a;
  }

  // ---------------------------------------------------------------------
  // Worked examples

  /** A connections dictionary with one net. */
  function OneNet(net: string, nodes: seq<Node>): Connections {
    OMap([net], map[net := nodes])
  }

  /** A node alone on one net in each netlist makes one row, built from those two nets. */
  lemma OneNodeReport(net1: string, net2: string, n: Node)
    ensures Report(OneNet(net1, [n]), OneNet(net2, [n])) ==
      [RowFor(KeyOf(n), Entry(Some(net1), Some(net2), [n.ref], [n.ref]))]
  {
    var k := KeyOf(n);
    var e1 := Entry(Some(net1), None, [n.ref], []);
    var e := Entry(Some(net1), Some(net2), [n.ref], [n.ref]);
    OneNetPairs(net1, n);
    OneNetPairs(net2, n);
    FoldPair(Empty(), First, Pair(net1, n));
    AddFresh(First, Pair(net1, n));
    assert Update(NoEntry(), First, Some(net1), [n.ref]) == e1;
    FoldPair(OMap([k], map[k := e1]), Second, Pair(net2, n));
    AddExisting(k, e1, Second, Pair(net2, n));
    assert Update(e1, Second, Some(net2), [n.ref]) == e;
    SingleRow(k, e);
    SingleReport(RowFor(k, e));
  }

  /**
   * Two nodes whose key is the same, on two different nets, make a single
   * row: the net visited last wins, and both references are kept.
   */
  lemma TwoNodesOneKey(a: string, b: string, n1: Node, n2: Node)
    requires a != b && KeyOf(n1) == KeyOf(n2)
    ensures var c := OMap([a, b], map[a := [n1], b := [n2]]);
      Report(c, c) == [RowFor(KeyOf(n1), Entry(Some(b), Some(b), [n1.ref, n2.ref], [n1.ref, n2.ref]))]
  {
    var c := OMap([a, b], map[a := [n1], b := [n2]]);
    var k := KeyOf(n1);
    var p, q := Pair(a, n1), Pair(b, n2);
    var e1 := Entry(Some(a), None, [n1.ref], []);
    var e2 := Entry(Some(b), None, [n1.ref, n2.ref], []);
    var e3 := Entry(Some(b), Some(a), [n1.ref, n2.ref], [n1.ref]);
    var e := Entry(Some(b), Some(b), [n1.ref, n2.ref], [n1.ref, n2.ref]);
    TwoNetPairs(a, b, n1, n2);
    FoldTwo(Empty(), First, p, q);
    AddFresh(First, p);
    assert Update(NoEntry(), First, Some(a), [n1.ref]) == e1;
    AddExisting(k, e1, First, q);
    assert Update(e1, First, Some(b), [n2.ref]) == e2;
    FoldTwo(OMap([k], map[k := e2]), Second, p, q);
    AddExisting(k, e2, Second, p);
    assert Update(e2, Second, Some(a), [n1.ref]) == e3;
    AddExisting(k, e3, Second, q);
    assert Update(e3, Second, Some(b), [n2.ref]) == e;
    SingleRow(k, e);
    SingleReport(RowFor(k, e));
  }

  lemma OneNetPairs(net: string, n: Node)
    ensures Pairs(OneNet(net, [n])) == [Pair(net, n)]
  {
    var c := OneNet(net, [n]);
    assert [net][..0] == [];
    assert Nodes(c, net) == [n];
    assert NetPairs(net, [n]) == [Pair(net, n)];
    assert PairsOf(c, [net]) == [] + [Pair(net, n)];
  }

  lemma TwoNetPairs(a: string, b: string, n1: Node, n2: Node)
    requires a != b
    ensures Pairs(OMap([a, b], map[a := [n1], b := [n2]])) == [Pair(a, n1), Pair(b, n2)]
  {
    var c := OMap([a, b], map[a := [n1], b := [n2]]);
    assert [a, b][..1] == [a] && [a][..0] == [];
    assert Nodes(c, a) == [n1] && Nodes(c, b) == [n2];
    assert NetPairs(a, [n1]) == [Pair(a, n1)] && NetPairs(b, [n2]) == [Pair(b, n2)];
    assert PairsOf(c, [a]) == [Pair(a, n1)];
  }

  lemma FoldPair(m: ConnectionMap, side: Side, p: Pair)
    ensures Fold(m, side, [p]) == AddConnection(m, side, p)
  {
    assert [p][..0] == [];
  }

  lemma FoldTwo(m: ConnectionMap, side: Side, p: Pair, q: Pair)
    ensures Fold(m, side, [p, q]) == AddConnection(AddConnection(m, side, p), side, q)
  {
    assert [p, q][..1] == [p];
    FoldPair(m, side, p);
  }

  /** The first connection added to an empty map creates its key. */
  lemma AddFresh(side: Side, p: Pair)
    ensures var k := KeyOf(p.node);
      AddConnection(Empty(), side, p) == OMap([k], map[k := Update(NoEntry(), side, Some(p.net), [p.node.ref])])
  {
    var k := KeyOf(p.node);
    assert [] + [k] == [k];
  }

  /** A connection whose key is the only key updates its record in place. */
  lemma AddExisting(k: Key, e: Entry, side: Side, p: Pair)
    requires KeyOf(p.node) == k
    ensures AddConnection(OMap([k], map[k := e]), side, p) == OMap([k], map[k := Update(e, side, Some(p.net), [p.node.ref])])
  {
    var e' := Update(e, side, Some(p.net), [p.node.ref]);
    assert Lookup(OMap([k], map[k := e]), k) == e;
    assert map[k := e][k := e'] == map[k := e'];
  }

  lemma SingleRow(k: Key, e: Entry)
    ensures Rows(OMap([k], map[k := e])) == [RowFor(k, e)]
  {
    assert Lookup(OMap([k], map[k := e]), k) == e;
  }

  lemma SingleReport(r: Row)
    ensures MismatchesFirst([r]) == [r]
  {
    assert [r][1..] == [];
  }

  /**
   * C1 pin 1 on GND in both netlists gives one matching row; moving it to
   * VCC in the second makes that row a mismatch.  The `pin` fields hold the
   * (empty) pin function and the `pinfunction` fields the reference.
   */
  lemma GroundExample()
    ensures Report(OneNet("GND", [Node("1", "", "C1")]), OneNet("GND", [Node("1", "", "C1")])) ==
      [Row("", "C1", "C1", "GND", "", "C1", "C1", "GND", Match)]
    ensures Report(OneNet("GND", [Node("1", "", "C1")]), OneNet("VCC", [Node("1", "", "C1")])) ==
      [Row("", "C1", "C1", "GND", "", "C1", "C1", "VCC", Mismatch)]
  {
    OneNodeReport("GND", "GND", Node("1", "", "C1"));
    OneNodeReport("GND", "VCC", Node("1", "", "C1"));
  }

  /**
   * The pin number is not part of the key: two pins of C1 without a pin
   * function, on GND and on VCC, make a single row, which shows the net
   * visited last.
   */
  lemma PinsShareAKey()
    ensures var c := OMap(["GND", "VCC"], map["GND" := [Node("1", "", "C1")], "VCC" := [Node("2", "", "C1")]]);
      Report(c, c) == [Row("", "C1", "C1", "VCC", "", "C1", "C1", "VCC", Match)]
  {
    TwoNodesOneKey("GND", "VCC", Node("1", "", "C1"), Node("2", "", "C1"));
  }
}
