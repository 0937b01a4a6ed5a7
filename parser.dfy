/**
 * `parse_netlist` (script.py:6-79): a line-by-line state machine over the
 * lines of a netlist file.
 *
 * The state is the pair of section flags, the two cursors `net_name` and
 * `ref`, and the three accumulators `connections` (net name to its list of
 * nodes), `refs` (every node's reference) and `components` (reference to
 * its attribute record).  `Step` states what one line does to that state,
 * `Run` what a sequence of lines does, and `ParseNetlist` is the loop itself,
 * proved to compute `Parse`.
 *
 * Two statements of the loop can raise, and the enclosing `try` then ends
 * the parse with whatever was built so far: `if ref:` while the local
 * `ref` was never bound (UnboundLocalError), and `components[ref][...]`
 * when `ref` was bound by a node line but no component of that name exists
 * (KeyError).  `Step` returns None for such a line.
 */
module Parser {
  import opened Wrappers
  import opened OrderedMaps
  import opened Text

  /** One node of a net: Python's tuple `(pin, pinfunction, ref)`. */
  datatype Node = Node(pin: string, pinfunction: string, ref: string)

  /** The dictionary of one component; a key is absent (None) until its line is seen. */
  datatype Attrs = Attrs(value: Option<string>, description: Option<string>)

  type Connections = OMap<string, seq<Node>>
  type Components = OMap<string, Attrs>

  /** The local variables of `parse_netlist`'s loop. */
  datatype ParserState = ParserState(
    inNets: bool,
    inComponents: bool,
    netName: Option<string>,    // None: Python's initial None
    ref: Option<string>,        // None: the local `ref` is not bound yet
    connections: Connections,
    refs: set<string>,
    components: Components)

  /** What `parse_netlist` returns. */
  datatype Netlist = Netlist(connections: Connections, refs: set<string>, components: Components)

  /** The state before the first line. */
  function Init(): ParserState {
    ParserState(false, false, None, None, Empty(), {}, Empty())
  }

  /** Python's truth value of a string that may be None. */
  predicate Truthy(s: Option<string>) {
    s.Some? && s.value != ""
  }

  /** The two attribute lines of the components section. */
  datatype Field = Value | Description

  /** `connections.setdefault(net, []).append(n)` */
  function AppendNode(connections: Connections, net: string, n: Node): Connections {
    var nodes := if net in connections.entries then connections.entries[net] else [];
    connections.Put(net, nodes + [n])
  }

  /** The current reference's record with one field set; None when the statement raises. */
  function SetField(st: ParserState, field: Field, matched: Option<string>): Option<ParserState> {
    match st.ref
    case None => None
    case Some(r) =>
      if r == "" || matched.None? then Some(st)
      else if r !in st.components.entries then None
      else
        var a := st.components.entries[r];
        var a' := match field
          case Value => a.(value := matched)
          case Description => a.(description := matched);
        Some(st.(components := st.components.Put(r, a')))
  }

  /** The effect of one line read from the file (script.py:21-72); None when it raises. */
  function Step(st: ParserState, raw: string): Option<ParserState> {
    var line := Strip(raw);
    if "(nets" <= line then
      Some(st.(inNets := true, inComponents := false))
    else if "(components" <= line then
      Some(st.(inNets := false, inComponents := true))
    else if st.inNets && "(net" <= line && MatchNet(line).Some? then
      var name := MatchNet(line).value;
      Some(st.(netName := Some(name), connections := st.connections.Put(name, [])))
    else if st.inNets && "(node" <= line then
      match MatchNode(line)
      case None => Some(st)
      case Some(f) =>
        var n := Node(f.pin, f.pinfunction, f.ref);
        if Truthy(st.netName) then
          Some(st.(ref := Some(f.ref),
                   connections := AppendNode(st.connections, st.netName.value, n),
                   refs := st.refs + {f.ref}))
        else
          Some(st.(ref := Some(f.ref)))
    else if st.inComponents && "(comp" <= line then
      match MatchComp(line)
      case None => Some(st)
      case Some(r) => Some(st.(ref := Some(r), components := st.components.Put(r, Attrs(None, None))))
    else if st.inComponents && "(value" <= line then
      SetField(st, Value, MatchValue(line))
    else if st.inComponents && "(description" <= line then
      SetField(st, Description, MatchDescription(line))
    else
      Some(st)
  }

  /** The state after the lines, and whether a line raised (the lines after it are never read). */
  datatype RunResult = RunResult(state: ParserState, aborted: bool)

  function Run(st: ParserState, lines: seq<string>): RunResult
    decreases |lines|
  {
    if lines == [] then RunResult(st, false)
    else match Step(st, lines[0])
      case None => RunResult(st, true)
      case Some(next) => Run(next, lines[1..])
  }

  function Parse(lines: seq<string>): RunResult {
    Run(Init(), lines)
  }

  /** What the caller of `parse_netlist` receives. */
  function NetlistOf(st: ParserState): Netlist {
    Netlist(st.connections, st.refs, st.components)
  }

  /**
   * `parse_netlist` over the lines of the file; `aborted` is true when the
   * loop ended with an exception (the error message it prints is not modelled).
   */
  method ParseNetlist(lines: seq<string>) returns (netlist: Netlist, aborted: bool)
    ensures netlist == NetlistOf(Parse(lines).state)
    ensures aborted == Parse(lines).aborted
  {
    var connections: Connections := Empty();
    var refs: set<string> := {};
    var components: Components := Empty();
    var netName: Option<string> := None;
    var inComponents := false;
    var inNets := false;
    var ref: Option<string> := None;
    aborted := false;
    for i := 0 to |lines|
      invariant !aborted
      invariant !(inNets && inComponents)
      invariant Run(ParserState(inNets, inComponents, netName, ref, connections, refs, components), lines[i..])
                == Parse(lines)
    {
      ghost var before := ParserState(inNets, inComponents, netName, ref, connections, refs, components);
      assert lines[i..][0] == lines[i] && lines[i..][1..] == lines[i + 1..];
      var line := Strip(lines[i]);

      if "(nets" <= line {
        inNets := true;
        inComponents := false;
        assert Step(before, lines[i]) == Some(ParserState(inNets, inComponents, netName, ref, connections, refs, components));
        continue;
      } else if "(components" <= line {
        inNets := false;
        inComponents := true;
        assert Step(before, lines[i]) == Some(ParserState(inNets, inComponents, netName, ref, connections, refs, components));
        continue;
      }

      if inNets && "(net" <= line {
        var m := MatchNet(line);
        if m.Some? {
          netName := m;
          connections := connections.Put(m.value, []);
          assert Step(before, lines[i]) == Some(ParserState(inNets, inComponents, netName, ref, connections, refs, components));
          continue;
        }
      }

      if inNets && "(node" <= line {
        var m := MatchNode(line);
        if m.Some? {
          ref := Some(m.value.ref);
          var pin := m.value.pin;
          var pinfunction := m.value.pinfunction;
          if netName.Some? && netName.value != "" {
            var nodes := if netName.value in connections.entries then connections.entries[netName.value] else [];
            connections := connections.Put(netName.value, nodes + [Node(pin, pinfunction, m.value.ref)]);
            refs := refs + {m.value.ref};
          }
        }
        assert Step(before, lines[i]) == Some(ParserState(inNets, inComponents, netName, ref, connections, refs, components));
      }

      if inComponents && "(comp" <= line {
        var m := MatchComp(line);
        if m.Some? {
          ref := m;
          components := components.Put(m.value, Attrs(None, None));
        }
        assert Step(before, lines[i]) == Some(ParserState(inNets, inComponents, netName, ref, connections, refs, components));
        continue;
      }

      if inComponents && "(value" <= line {
        if ref.None? {
          assert Step(before, lines[i]).None?;
          aborted := true;
          break;
        }
        if ref.value != "" {
          var m := MatchValue(line);
          if m.Some? {
            if ref.value !in components.entries {
              assert Step(before, lines[i]).None?;
              aborted := true;
              break;
            }
            components := components.Put(ref.value, components.entries[ref.value].(value := m));
          }
        }
        assert Step(before, lines[i]) == Some(ParserState(inNets, inComponents, netName, ref, connections, refs, components));
        continue;
      }

      if inComponents && "(description" <= line {
        if ref.None? {
          assert Step(before, lines[i]).None?;
          aborted := true;
          break;
        }
        if ref.value != "" {
          var m := MatchDescription(line);
          if m.Some? {
            if ref.value !in components.entries {
              assert Step(before, lines[i]).None?;
              aborted := true;
              break;
            }
            components := components.Put(ref.value, components.entries[ref.value].(description := m));
          }
        }
      }
      assert Step(before, lines[i]) == Some(ParserState(inNets, inComponents, netName, ref, connections, refs, components));
    }
    netlist := Netlist(connections, refs, components);
  }

  // ---------------------------------------------------------------------
  // Splitting a run of lines

  /** Reading a + b is reading a, then (unless a line of a raised) reading b. */
  lemma {:induction false} RunAppend(st: ParserState, a: seq<string>, b: seq<string>)
    ensures Run(st, a + b) == if Run(st, a).aborted then Run(st, a) else Run(Run(st, a).state, b)
    decreases |a|
  {
    if a == [] {
      assert a + b == b;
    } else {
      assert (a + b)[0] == a[0] && (a + b)[1..] == a[1..] + b;
      match Step(st, a[0])
      case None =>
      case Some(next) => RunAppend(next, a[1..], b);
    }
  }

  // ---------------------------------------------------------------------
  // Section flags

  /** The line is a `(nets` marker. */
  predicate NetsMarker(line: string) {
    "(nets" <= Strip(line)
  }

  /** The line is a `(components` marker. */
  predicate ComponentsMarker(line: string) {
    !NetsMarker(line) && "(components" <= Strip(line)
  }

  /** A marker line only switches the section, and a line that is not a marker never does. */
  lemma MarkersOnlySwitchSections(st: ParserState, line: string)
    ensures NetsMarker(line) ==> Step(st, line) == Some(st.(inNets := true, inComponents := false))
    ensures ComponentsMarker(line) ==> Step(st, line) == Some(st.(inNets := false, inComponents := true))
    ensures !NetsMarker(line) && !ComponentsMarker(line) && Step(st, line).Some? ==>
      Step(st, line).value.inNets == st.inNets && Step(st, line).value.inComponents == st.inComponents
  {
  }

  /** Lines that are not markers leave both flags as they were. */
  lemma {:induction false} NonMarkersKeepSections(st: ParserState, lines: seq<string>)
    requires forall i :: 0 <= i < |lines| ==> !NetsMarker(lines[i]) && !ComponentsMarker(lines[i])
    ensures Run(st, lines).state.inNets == st.inNets
    ensures Run(st, lines).state.inComponents == st.inComponents
    decreases |lines|
  {
    if lines != [] {
      MarkersOnlySwitchSections(st, lines[0]);
      match Step(st, lines[0])
      case None =>
      case Some(next) => NonMarkersKeepSections(next, lines[1..]);
    }
  }

  /** The last marker read decides the section, however many lines follow it. */
  lemma LastMarkerWins(before: seq<string>, marker: string, after: seq<string>)
    requires NetsMarker(marker) || ComponentsMarker(marker)
    requires forall i :: 0 <= i < |after| ==> !NetsMarker(after[i]) && !ComponentsMarker(after[i])
    requires !Parse(before).aborted
    ensures Parse(before + [marker] + after).state.inNets == NetsMarker(marker)
    ensures Parse(before + [marker] + after).state.inComponents == ComponentsMarker(marker)
  {
    var st := Parse(before).state;
    RunAppend(Init(), before, [marker] + after);
    assert before + [marker] + after == before + ([marker] + after);
    MarkersOnlySwitchSections(st, marker);
    assert ([marker] + after)[0] == marker && ([marker] + after)[1..] == after;
    NonMarkersKeepSections(Step(st, marker).value, after);
  }

  // ---------------------------------------------------------------------
  // The invariant of the parser's state

  /**
   * What holds of every state the parser reaches: the two sections exclude
   * each other; the dictionaries are well formed; the current net, once
   * set, is a key of `connections`; every node kept in `connections` has its
   * reference in `refs`; and the net named '' never holds a node.
   */
  ghost predicate Inv(st: ParserState) {
    && !(st.inNets && st.inComponents)
    && st.connections.Valid()
    && st.components.Valid()
    && (st.netName.Some? ==> st.netName.value in st.connections.entries)
    && (forall net, i :: net in st.connections.entries && 0 <= i < |st.connections.entries[net]| ==>
          st.connections.entries[net][i].ref in st.refs)
    && ("" in st.connections.entries ==> st.connections.entries[""] == [])
  }

  lemma StepKeepsInv(st: ParserState, line: string)
    requires Inv(st)
    ensures Step(st, line).Some? ==> Inv(Step(st, line).value)
  {
    var l := Strip(line);
    if "(nets" <= l || "(components" <= l {
    } else if st.inNets && "(net" <= l && MatchNet(l).Some? {
      NetKeepsInv(st, MatchNet(l).value);
    } else if st.inNets && "(node" <= l {
      if MatchNode(l).Some? && Truthy(st.netName) {
        var f := MatchNode(l).value;
        NodeKeepsInv(st, Node(f.pin, f.pinfunction, f.ref));
      }
    } else if st.inComponents && "(comp" <= l {
    } else if st.inComponents && "(value" <= l {
      SetFieldKeepsInv(st, Value, MatchValue(l));
    } else if st.inComponents && "(description" <= l {
      SetFieldKeepsInv(st, Description, MatchDescription(l));
    }
  }

  lemma SetFieldKeepsInv(st: ParserState, field: Field, matched: Option<string>)
    requires Inv(st)
    ensures SetField(st, field, matched).Some? ==> Inv(SetField(st, field, matched).value)
  {
  }

  lemma NetKeepsInv(st: ParserState, name: string)
    requires Inv(st)
    ensures Inv(st.(netName := Some(name), connections := st.connections.Put(name, [])))
  {
    var t := st.(netName := Some(name), connections := st.connections.Put(name, []));
    assert forall n :: n in t.connections.entries && n != name ==> t.connections.entries[n] == st.connections.entries[n];
  }

  lemma NodeKeepsInv(st: ParserState, n: Node)
    requires Inv(st) && Truthy(st.netName)
    ensures Inv(st.(ref := Some(n.ref), connections := AppendNode(st.connections, st.netName.value, n),
                    refs := st.refs + {n.ref}))
  {
    var net := st.netName.value;
    var t := st.(ref := Some(n.ref), connections := AppendNode(st.connections, net, n), refs := st.refs + {n.ref});
    var old_nodes := st.connections.entries[net];
    assert t.connections.entries == st.connections.entries[net := old_nodes + [n]];
    forall x, i | x in t.connections.entries && 0 <= i < |t.connections.entries[x]|
      ensures t.connections.entries[x][i].ref in t.refs
    {
      if x != net || i < |old_nodes| {
        assert t.connections.entries[x][i] == st.connections.entries[x][i];
      }
    }
  }

  lemma {:induction false} RunKeepsInv(st: ParserState, lines: seq<string>)
    requires Inv(st)
    ensures Inv(Run(st, lines).state)
    decreases |lines|
  {
    if lines != [] {
      StepKeepsInv(st, lines[0]);
      match Step(st, lines[0])
      case None =>
      case Some(next) => RunKeepsInv(next, lines[1..]);
    }
  }

  /**
   * Whatever the file holds: the two section flags are never both set, and
   * `refs` contains the reference of every node left in `connections` (it
   * may contain more, since re-declaring a net empties its list).
   */
  lemma ParseInvariant(lines: seq<string>)
    ensures Inv(Parse(lines).state)
    ensures !(Parse(lines).state.inNets && Parse(lines).state.inComponents)
  {
    RunKeepsInv(Init(), lines);
  }

  // ---------------------------------------------------------------------
  // One line at a time

  /** A lone line that is neither of the two markers. */
  predicate Ordinary(line: string) {
    !NetsMarker(line) && !ComponentsMarker(line)
  }

  /** A net line in the nets section makes it the current net and (re)sets its list to empty. */
  lemma NetLine(st: ParserState, line: string, name: string)
    requires Inv(st) && st.inNets && Ordinary(line) && MatchNet(Strip(line)) == Some(name)
    ensures Step(st, line) == Some(st.(netName := Some(name), connections := st.connections.Put(name, [])))
    ensures Step(st, line).value.connections.entries[name] == []
    ensures name in st.connections.entries ==> Step(st, line).value.connections.keys == st.connections.keys
  {
    assert NetHead <= Strip(line);
    assert "(net" <= Strip(line) by { assert Strip(line)[..4] == NetHead[..4]; }
  }

  /**
   * A node is kept only in the nets section and only under a current net
   * whose name is not empty; it then goes to the end of that net's list and
   * its reference into `refs`.  A node line always moves the `ref` cursor.
   */
  lemma NodeLine(st: ParserState, line: string, f: NodeFields)
    requires Inv(st) && st.inNets && Ordinary(line) && MatchNode(Strip(line)) == Some(f)
    ensures Step(st, line).Some?
    ensures var t := Step(st, line).value;
      && t.ref == Some(f.ref)
      && t.inNets == st.inNets && t.inComponents == st.inComponents && t.netName == st.netName
      && t.components == st.components
      && (Truthy(st.netName) ==>
            && t.refs == st.refs + {f.ref}
            && t.connections.keys == st.connections.keys
            && t.connections.entries == st.connections.entries[st.netName.value :=
                 st.connections.entries[st.netName.value] + [Node(f.pin, f.pinfunction, f.ref)]])
      && (!Truthy(st.netName) ==> t.refs == st.refs && t.connections == st.connections)
  {
    var l := Strip(line);
    assert NodeHead <= l;
    assert "(node" <= l by { assert l[..5] == NodeHead[..5]; }
    assert !("(net" <= l) by { assert l[3] == 'd'; }
  }

  /** `refs` grows only by a node line read in the nets section under a non-empty net name. */
  lemma OnlyNodeLinesAddRefs(st: ParserState, line: string)
    requires Inv(st)
    requires Step(st, line).Some? && Step(st, line).value.refs != st.refs
    ensures st.inNets && Truthy(st.netName) && Ordinary(line)
    ensures MatchNode(Strip(line)).Some?
    ensures Step(st, line).value.refs == st.refs + {MatchNode(Strip(line)).value.ref}
  {
  }

  /** A component line in the components section makes it current and gives it a fresh, empty record. */
  lemma CompLine(st: ParserState, line: string, r: string)
    requires Inv(st) && st.inComponents && Ordinary(line) && MatchComp(Strip(line)) == Some(r)
    ensures Step(st, line) == Some(st.(ref := Some(r), components := st.components.Put(r, Attrs(None, None))))
    ensures Step(st, line).value.components.entries[r] == Attrs(None, None)
    ensures forall other :: other in st.components.entries && other != r ==>
      Step(st, line).value.components.entries[other] == st.components.entries[other]
  {
    var l := Strip(line);
    assert CompHead <= l;
    assert "(comp" <= l by { assert l[..5] == CompHead[..5]; }
  }

  /** A value line under a declared current reference overwrites that record's value only. */
  lemma ValueLine(st: ParserState, line: string, v: string)
    requires Inv(st) && st.inComponents && Ordinary(line) && MatchValue(Strip(line)) == Some(v)
    requires Truthy(st.ref) && st.ref.value in st.components.entries
    ensures Step(st, line).Some?
    ensures var t := Step(st, line).value;
      && t == st.(components := t.components)
      && t.components.keys == st.components.keys
      && t.components.entries == st.components.entries[st.ref.value :=
           st.components.entries[st.ref.value].(value := Some(v))]
  {
    var l := Strip(line);
    assert ValueHead <= l;
    assert "(value" <= l by { assert l[..6] == ValueHead[..6]; }
  }

  /** A description line under a declared current reference overwrites that record's description only. */
  lemma DescriptionLine(st: ParserState, line: string, d: string)
    requires Inv(st) && st.inComponents && Ordinary(line) && MatchDescription(Strip(line)) == Some(d)
    requires Truthy(st.ref) && st.ref.value in st.components.entries
    ensures Step(st, line).Some?
    ensures var t := Step(st, line).value;
      && t == st.(components := t.components)
      && t.components.keys == st.components.keys
      && t.components.entries == st.components.entries[st.ref.value :=
           st.components.entries[st.ref.value].(description := Some(d))]
  {
    var l := Strip(line);
    assert DescriptionHead <= l;
    assert "(description" <= l by { assert l[..12] == DescriptionHead[..12]; }
  }

  /**
   * A line raises exactly when it is a `(value` or `(description` line of the
   * components section and either `ref` was never bound, or `ref` names no
   * component although the attribute pattern matched.
   */
  predicate Raises(st: ParserState, line: string) {
    var l := Strip(line);
    var matched := if "(value" <= l then MatchValue(l) else MatchDescription(l);
    && st.inComponents && Ordinary(line)
    && ("(value" <= l || "(description" <= l)
    && (|| st.ref.None?
        || (st.ref.value != "" && matched.Some? && st.ref.value !in st.components.entries))
  }

  lemma StepRaisesExactly(st: ParserState, line: string)
    requires Inv(st)
    ensures Step(st, line).None? <==> Raises(st, line)
  {
    var l := Strip(line);
    if "(value" <= l || "(description" <= l {
      assert !("(net" <= l) by { assert l[1] != 'n'; }
      assert !("(node" <= l) by { assert l[1] != 'n'; }
      assert !("(comp" <= l) by { assert l[1] != 'c'; }
      assert !("(nets" <= l) by { assert l[1] != 'n'; }
      assert !("(components" <= l) by { assert l[1] != 'c'; }
      if "(value" <= l {
        assert !("(description" <= l) by { assert l[1] != 'd'; }
      }
    }
  }

  // ---------------------------------------------------------------------
  // Abort

  /** Once a line raised, the lines after it change nothing. */
  lemma AbortIgnoresRest(lines: seq<string>, more: seq<string>)
    requires Parse(lines).aborted
    ensures Parse(lines + more) == Parse(lines)
  {
    RunAppend(Init(), lines, more);
  }

  /**
   * An aborted parse returns exactly the state built from the lines before
   * the one that raised, and that line raised in that state.
   */
  lemma {:induction false} AbortPoint(st: ParserState, lines: seq<string>) returns (k: nat)
    requires Run(st, lines).aborted
    ensures k < |lines|
    ensures !Run(st, lines[..k]).aborted
    ensures Run(st, lines).state == Run(st, lines[..k]).state
    ensures Step(Run(st, lines[..k]).state, lines[k]).None?
    decreases |lines|
  {
    match Step(st, lines[0])
    case None =>
      k := 0;
      assert lines[..0] == [];
    case Some(next) =>
      var k' := AbortPoint(next, lines[1..]);
      k := k' + 1;
      assert lines[..k][0] == lines[0] && lines[..k][1..] == lines[1..][..k'];
      assert lines[k] == lines[1..][k'];
  }

  // ---------------------------------------------------------------------
  // Robustness

  /** A line that does not start with '(' once stripped matches no rule and changes nothing. */
  lemma IgnoredLine(st: ParserState, line: string)
    requires Strip(line) == [] || Strip(line)[0] != '('
    ensures Step(st, line) == Some(st)
  {
    var l := Strip(line);
    assert !("(nets" <= l) && !("(components" <= l) && !("(net" <= l) && !("(node" <= l);
    assert !("(comp" <= l) && !("(value" <= l) && !("(description" <= l);
  }

  /**
   * A line that starts like one of the rules but fails that rule's pattern
   * (a truncated node, an unbalanced quote) is skipped without changing
   * anything; a value or description line needs a current reference, as
   * without one it raises.
   */
  lemma UnmatchedLineIgnored(st: ParserState, line: string)
    requires Ordinary(line)
    requires var l := Strip(line);
      && ("(net" <= l ==> MatchNet(l).None?)
      && ("(node" <= l ==> MatchNode(l).None?)
      && ("(comp" <= l ==> MatchComp(l).None?)
      && (st.inComponents && "(value" <= l ==> st.ref.Some? && (st.ref.value == "" || MatchValue(l).None?))
      && (st.inComponents && "(description" <= l ==> st.ref.Some? && (st.ref.value == "" || MatchDescription(l).None?))
    ensures Step(st, line) == Some(st)
  {
  }

  /** Outside both sections every line but a marker is ignored. */
  lemma OutsideSectionsIgnored(st: ParserState, line: string)
    requires !st.inNets && !st.inComponents && Ordinary(line)
    ensures Step(st, line) == Some(st)
  {
  }

  /** In the nets section the lines of the components section are ignored. */
  lemma ComponentLinesIgnoredInNets(st: ParserState, line: string)
    requires Inv(st) && st.inNets && Ordinary(line)
    requires "(comp" <= Strip(line) || "(value" <= Strip(line) || "(description" <= Strip(line)
    ensures Step(st, line) == Some(st)
  {
    var l := Strip(line);
    assert !("(net" <= l) && !("(node" <= l) by {
      assert l[1] == 'c' || l[1] == 'v' || l[1] == 'd';
    }
  }

  /** In the components section the lines of the nets section are ignored. */
  lemma NetLinesIgnoredInComponents(st: ParserState, line: string)
    requires Inv(st) && st.inComponents && Ordinary(line)
    requires "(net" <= Strip(line) || "(node" <= Strip(line)
    ensures Step(st, line) == Some(st)
  {
    var l := Strip(line);
    assert !("(comp" <= l) && !("(value" <= l) && !("(description" <= l) by {
      assert l[1] == 'n';
    }
  }

  /** `connections` changes only through a net or node line read in the nets section. */
  lemma OnlyNetsSectionChangesConnections(st: ParserState, line: string)
    requires Inv(st)
    requires Step(st, line).Some? && Step(st, line).value.connections != st.connections
    ensures st.inNets && Ordinary(line)
    ensures "(net" <= Strip(line) || "(node" <= Strip(line)
  {
  }

  /** `components` changes only through a component, value or description line read in the components section. */
  lemma OnlyComponentsSectionChangesComponents(st: ParserState, line: string)
    requires Inv(st)
    requires Step(st, line).Some? && Step(st, line).value.components != st.components
    ensures st.inComponents && Ordinary(line)
    ensures "(comp" <= Strip(line) || "(value" <= Strip(line) || "(description" <= Strip(line)
  {
  }

  /** Lines that do not start with '(' can be removed from a file without changing what is parsed. */
  lemma {:induction false} JunkLinesDoNotMatter(st: ParserState, junk: seq<string>, rest: seq<string>)
    requires forall i :: 0 <= i < |junk| ==> Strip(junk[i]) == [] || Strip(junk[i])[0] != '('
    ensures Run(st, junk + rest) == Run(st, rest)
    decreases |junk|
  {
    if junk == [] {
      assert junk + rest == rest;
    } else {
      IgnoredLine(st, junk[0]);
      assert (junk + rest)[0] == junk[0] && (junk + rest)[1..] == junk[1..] + rest;
      JunkLinesDoNotMatter(st, junk[1..], rest);
    }
  }
}
