/**
 * The string primitives the netlist parser relies on: Python's `str.strip()`
 * and hand-written matchers for the five fixed regular expressions of
 * `parse_netlist`, each applied with `re.match` (anchored at the start of
 * the line, not at its end).
 *
 * Every capture in those patterns is a lazy `(.*?)` followed by `"\)`.  In
 * Python `.` matches any character except a newline, so such a group stops
 * at the first `")` that lets the rest of the pattern match, and fails if a
 * newline comes first.
 */
module Text {
  import opened Wrappers

  /** The characters for which Python's `str.isspace()` holds; `strip()` removes these. */
  predicate IsSpace(c: char) {
    || ('\t' <= c <= '\r')
    || ('\U{1C}' <= c <= '\U{1F}')
    || c == ' ' || c == '\U{85}' || c == '\U{A0}' || c == '\U{1680}'
    || ('\U{2000}' <= c <= '\U{200A}')
    || c == '\U{2028}' || c == '\U{2029}' || c == '\U{202F}' || c == '\U{205F}' || c == '\U{3000}'
  }

  /** What `\d` matches, restricted to the ASCII digits. */
  predicate IsDigit(c: char) {
    '0' <= c <= '9'
  }

  /** `s` with its leading whitespace removed. */
  function StripStart(s: string): string {
    if s != [] && IsSpace(s[0]) then StripStart(s[1..]) else s
  }

  /** `s` with its trailing whitespace removed. */
  function StripEnd(s: string): string {
    if s != [] && IsSpace(s[|s| - 1]) then StripEnd(s[..|s| - 1]) else s
  }

  /** StripStart leaves a suffix of s that does not start with a space. */
  lemma {:induction false} StripStartSpec(s: string)
    ensures var r := StripStart(s);
      && |r| <= |s| && r == s[|s| - |r|..]
      && (r == [] || !IsSpace(r[0]))
  {
    if s != [] && IsSpace(s[0]) {
      var t := s[1..];
      StripStartSpec(t);
      assert t[|t| - |StripStart(t)|..] == s[|s| - |StripStart(t)|..];
    }
  }

  /** Everything StripStart drops is whitespace. */
  lemma {:induction false} StripStartDropsSpaces(s: string)
    ensures |StripStart(s)| <= |s|
    ensures forall i :: 0 <= i < |s| - |StripStart(s)| ==> IsSpace(s[i])
  {
    if s != [] && IsSpace(s[0]) {
      var t := s[1..];
      StripStartDropsSpaces(t);
      forall i | 0 < i < |s| - |StripStart(t)| ensures IsSpace(s[i]) {
        assert s[i] == t[i - 1];
      }
    }
  }

  /** StripEnd leaves a prefix of s that does not end with a space. */
  lemma {:induction false} StripEndSpec(s: string)
    ensures var r := StripEnd(s);
      && |r| <= |s| && r == s[..|r|]
      && (r == [] || !IsSpace(r[|r| - 1]))
  {
    if s != [] && IsSpace(s[|s| - 1]) {
      var t := s[..|s| - 1];
      StripEndSpec(t);
      assert t[..|StripEnd(t)|] == s[..|StripEnd(t)|];
    }
  }

  /** Everything StripEnd drops is whitespace. */
  lemma {:induction false} StripEndDropsSpaces(s: string)
    ensures |StripEnd(s)| <= |s|
    ensures forall i :: |StripEnd(s)| <= i < |s| ==> IsSpace(s[i])
  {
    if s != [] && IsSpace(s[|s| - 1]) {
      var t := s[..|s| - 1];
      StripEndDropsSpaces(t);
      forall i | |StripEnd(t)| <= i < |s| - 1 ensures IsSpace(s[i]) {
        assert s[i] == t[i];
      }
    }
  }

  /** Python's `s.strip()`. */
  function Strip(s: string): string {
    StripEnd(StripStart(s))
  }

  /** Stripping a line a second time changes nothing. */
  lemma StripIdempotent(s: string)
    ensures Strip(Strip(s)) == Strip(s)
  {
    var u := StripStart(s);
    var t := Strip(s);
    StripStartSpec(s);
    StripEndSpec(u);
    StripStartSpec(t);
    StripEndSpec(t);
    if t != [] {
      assert !IsSpace(t[0]) by {
        assert t == u[..|t|] && u != [];
      }
    }
  }

  /** `")` starts at position k of s. */
  predicate CloseAt(s: string, k: int) {
    0 <= k && k + 1 < |s| && s[k] == '"' && s[k + 1] == ')'
  }

  /**
   * A lazy group started at p may still be running at k: no newline and no
   * `")` occurs in s[p..k].
   */
  predicate Clear(s: string, p: int, k: int) {
    forall j :: p <= j < k ==> 0 <= j < |s| && s[j] != '\n' && !CloseAt(s, j)
  }

  /**
   * Where `(.*?)"\)` begun at p ends its capture: the first `")` at or after
   * p, provided no newline comes before it.
   */
  function FindClose(s: string, p: nat): (r: Option<nat>)
    requires p <= |s|
    ensures r.Some? ==> p <= r.value && CloseAt(s, r.value)
    decreases |s| - p
  {
    if CloseAt(s, p) then Some(p)
    else if p < |s| && s[p] != '\n' then FindClose(s, p + 1)
    else None
  }

  /** FindClose finds a `")` reached without crossing a newline, and finds none exactly when there is none. */
  lemma {:induction false} FindCloseSpec(s: string, p: nat)
    requires p <= |s|
    ensures FindClose(s, p).Some? ==>
      var k := FindClose(s, p).value; p <= k && CloseAt(s, k) && Clear(s, p, k)
    ensures FindClose(s, p).None? ==> forall k :: p <= k && Clear(s, p, k) ==> !CloseAt(s, k)
    decreases |s| - p
  {
    if !CloseAt(s, p) && p < |s| && s[p] != '\n' {
      FindCloseSpec(s, p + 1);
    }
  }

  /** A `")` reached without crossing a newline or an earlier `")` is the one FindClose finds. */
  lemma {:induction false} FindCloseFirst(s: string, p: nat, k: nat)
    requires p <= k && CloseAt(s, k) && Clear(s, p, k)
    ensures FindClose(s, p) == Some(k)
    decreases k - p
  {
    if p < k {
      FindCloseFirst(s, p + 1, k);
    }
  }

  /** The text of a lazy group begun at p, if the group can close. */
  function Capture(s: string, p: nat): Option<string>
    requires p <= |s|
  {
    match FindClose(s, p)
    case None => None
    case Some(k) => Some(s[p..k])
  }

  /** lit occurs in s at position p. */
  predicate LiteralAt(s: string, p: nat, lit: string) {
    p + |lit| <= |s| && s[p..p + |lit|] == lit
  }

  /** The end of the run of digits that starts at p. */
  function DigitsEnd(s: string, p: nat): (r: nat)
    requires p <= |s|
    ensures p <= r <= |s|
    decreases |s| - p
  {
    if p < |s| && IsDigit(s[p]) then DigitsEnd(s, p + 1) else p
  }

  /** `\d+` begun at p consumes exactly the maximal run of digits there. */
  lemma {:induction false} DigitsEndSpec(s: string, p: nat)
    requires p <= |s|
    ensures var r := DigitsEnd(s, p);
      && p <= r <= |s|
      && (forall j :: p <= j < r ==> IsDigit(s[j]))
      && (r == |s| || !IsDigit(s[r]))
    decreases |s| - p
  {
    if p < |s| && IsDigit(s[p]) {
      DigitsEndSpec(s, p + 1);
    }
  }

  /** Text that contains no double quote and no newline: a capture that can stop only at its own `")`. */
  predicate Plain(t: string) {
    forall j :: 0 <= j < |t| ==> t[j] != '"' && t[j] != '\n'
  }

  /** Capturing the text of a plain field followed by `")` gives back that text. */
  lemma CapturePlain(s: string, p: nat, t: string)
    requires Plain(t) && p + |t| + 2 <= |s|
    requires s[p..p + |t|] == t && s[p + |t|] == '"' && s[p + |t| + 1] == ')'
    ensures FindClose(s, p) == Some(p + |t|) && Capture(s, p) == Some(t)
  {
    assert forall j :: p <= j < p + |t| ==> s[j] == t[j - p];
    FindCloseFirst(s, p, p + |t|);
  }

  const NetHead := "(net (code \""
  const NetMid := "\") (name \""
  const NodeHead := "(node (ref \""
  const PinSep := "\") (pin \""
  const PinfunctionSep := " (pinfunction \""
  const CompHead := "(comp (ref \""
  const ValueHead := "(value \""
  const DescriptionHead := "(description \""

  /** `re.match(r'\(net \(code "\d+"\) \(name "(.*?)"\)', s)`, giving group 1. */
  function MatchNet(s: string): Option<string> {
    if !(NetHead <= s) then None
    else
      var q := DigitsEnd(s, |NetHead|);
      if q == |NetHead| || !LiteralAt(s, q, NetMid) then None
      else Capture(s, q + |NetMid|)
  }

  /** A net line as a netlist writer emits it is matched, and gives back its name. */
  lemma {:induction false} MatchNetLine(code: string, name: string, rest: string)
    requires |code| > 0 && forall j :: 0 <= j < |code| ==> IsDigit(code[j])
    requires Plain(name)
    ensures MatchNet(NetHead + code + NetMid + name + "\")" + rest) == Some(name)
  {
    var s := NetHead + code + NetMid + name + "\")" + rest;
    var q := |NetHead| + |code|;
    var p := q + |NetMid|;
    assert NetHead <= s by {
      assert s[..|NetHead|] == NetHead;
    }
    assert DigitsEnd(s, |NetHead|) == q by {
      assert forall j :: |NetHead| <= j < q ==> s[j] == code[j - |NetHead|];
      assert s[q] == '"';
      DigitsRun(s, |NetHead|, q);
    }
    assert LiteralAt(s, q, NetMid) by {
      assert s[q..q + |NetMid|] == NetMid;
    }
    assert Capture(s, p) == Some(name) by {
      assert s[p..p + |name|] == name;
      CapturePlain(s, p, name);
    }
  }

  /** A maximal run of digits from p to q is the one `\d+` consumes. */
  lemma {:induction false} DigitsRun(s: string, p: nat, q: nat)
    requires p <= q <= |s| && forall j :: p <= j < q ==> IsDigit(s[j])
    requires q == |s| || !IsDigit(s[q])
    ensures DigitsEnd(s, p) == q
    decreases q - p
  {
    if p < q {
      DigitsRun(s, p + 1, q);
    }
  }

  /** The text of `(node (ref "<ref>") (pin "<pin>")`. */
  function NodeText(ref: string, pin: string): string {
    NodeHead + ref + PinSep + pin + "\")"
  }

  /** The `ref` group of the node pattern may end at i: `") (pin "` follows, and the `pin` group can close. */
  predicate RefStop(s: string, i: nat) {
    LiteralAt(s, i, PinSep) && FindClose(s, i + |PinSep|).Some?
  }

  /**
   * Where the lazy `ref` group of the node pattern, begun at p, ends: the
   * first position the regex engine's backtracking accepts.
   */
  function RefEnd(s: string, p: nat): (r: Option<nat>)
    requires p <= |s|
    ensures r.Some? ==> p <= r.value <= |s|
    decreases |s| - p
  {
    if RefStop(s, p) then Some(p)
    else if p < |s| && s[p] != '\n' then RefEnd(s, p + 1)
    else None
  }

  /**
   * RefEnd is the leftmost end the backtracking allows: the rest of the
   * pattern matches there, and no earlier position works or holds a newline.
   */
  lemma {:induction false} RefEndSpec(s: string, p: nat)
    requires p <= |s| && RefEnd(s, p).Some?
    ensures var r := RefEnd(s, p).value;
      && p <= r <= |s| && RefStop(s, r)
      && (forall i :: p <= i < r ==> s[i] != '\n' && !RefStop(s, i))
    decreases |s| - p
  {
    if !RefStop(s, p) {
      assert p < |s| && s[p] != '\n' && RefEnd(s, p) == RefEnd(s, p + 1);
      RefEndSpec(s, p + 1);
    }
  }

  /** RefEnd finds no end exactly when no position reached without crossing a newline works. */
  lemma {:induction false} RefEndNone(s: string, p: nat)
    requires p <= |s| && RefEnd(s, p).None?
    ensures forall i :: p <= i <= |s| && (forall j :: p <= j < i ==> s[j] != '\n') ==> !RefStop(s, i)
    decreases |s| - p
  {
    if p < |s| && s[p] != '\n' {
      RefEndNone(s, p + 1);
    }
  }

  /** The three captures of the node pattern; `pinfunction` is '' when its optional group is absent or empty. */
  datatype NodeFields = NodeFields(ref: string, pin: string, pinfunction: string)

  /**
   * `re.match(r'\(node \(ref "(.*?)"\) \(pin "(.*?)"\)( \(pinfunction "(.*?)"\))?', s)`,
   * with group 4 replaced by '' when it is missing or empty.
   */
  function MatchNode(s: string): Option<NodeFields> {
    if !(NodeHead <= s) then None
    else match RefEnd(s, |NodeHead|)
      case None => None
      case Some(i) => NodeAfter(s, i)
  }

  /** The rest of the node pattern once the ref group has ended at i. */
  function NodeAfter(s: string, i: nat): Option<NodeFields>
    requires |NodeHead| <= i <= |s|
  {
    if i + |PinSep| > |s| then None
    else match FindClose(s, i + |PinSep|)
      case None => None
      case Some(k) => Some(NodeFields(s[|NodeHead|..i], s[i + |PinSep|..k], OptionalPinfunction(s, k + 2)))
  }

  /** The optional group `( \(pinfunction "(.*?)"\))?` tried at f: its capture, or '' when it does not match. */
  function OptionalPinfunction(s: string, f: nat): string
    requires f <= |s|
  {
    if LiteralAt(s, f, PinfunctionSep) then
      match Capture(s, f + |PinfunctionSep|) case Some(t) => t case None => ""
    else ""
  }

  /** The optional group at the start of a tail does not depend on what comes before the tail. */
  lemma OptionalPinfunctionShift(head: string, tail: string)
    ensures OptionalPinfunction(head + tail, |head|) == OptionalPinfunction(tail, 0)
  {
    var s := head + tail;
    var n := |PinfunctionSep|;
    assert s[|head|..] == tail;
    if |head| + n <= |s| {
      assert s[|head|..|head| + n] == tail[0..n];
      CaptureShift(head, tail, n);
    }
  }

  /** Where the parts of a node text followed by a tail lie. */
  lemma NodeTextParts(ref: string, pin: string, tail: string)
    ensures var s := NodeText(ref, pin) + tail;
      var i := |NodeHead| + |ref|;
      var k := i + |PinSep| + |pin|;
      && |s| == k + 2 + |tail|
      && NodeHead <= s
      && s[|NodeHead|..i] == ref
      && s[i..i + |PinSep|] == PinSep
      && s[i + |PinSep|..k] == pin
      && s[k] == '"' && s[k + 1] == ')'
      && s[k + 2..] == tail
      && NodeText(ref, pin) == s[..k + 2]
  {
    var s := NodeText(ref, pin) + tail;
    var h := |NodeHead|;
    var i := h + |ref|;
    var p := i + |PinSep|;
    var k := p + |pin|;
    assert s == NodeHead + ref + PinSep + pin + "\")" + tail;
    assert s[..h] == NodeHead;
    assert s[h..i] == ref;
    assert s[i..p] == PinSep;
    assert s[p..k] == pin;
    assert s[k..k + 2] == "\")";
    assert s[k + 2..] == tail;
  }

  /** Plain ref and pin texts, each followed by its closing quote, are where the two groups stop. */
  lemma PlainNodeGroups(s: string, i: nat, k: nat)
    requires |NodeHead| <= i && i + |PinSep| <= k && k + 2 <= |s|
    requires Plain(s[|NodeHead|..i]) && s[i..i + |PinSep|] == PinSep
    requires Plain(s[i + |PinSep|..k]) && s[k] == '"' && s[k + 1] == ')'
    ensures FindClose(s, i + |PinSep|) == Some(k)
    ensures RefEnd(s, |NodeHead|) == Some(i)
  {
    var p := i + |PinSep|;
    CapturePlain(s, p, s[p..k]);
    forall j | |NodeHead| <= j < i
      ensures s[j] != '\n' && !RefStop(s, j)
    {
      assert s[j] == s[|NodeHead|..i][j - |NodeHead|];
    }
    RefEndAt(s, |NodeHead|, i);
  }

  /** The ref group stops at the first position where the rest may match, if no newline comes before it. */
  lemma {:induction false} RefEndAt(s: string, p: nat, i: nat)
    requires p <= i <= |s| && RefStop(s, i)
    requires forall j :: p <= j < i ==> s[j] != '\n' && !RefStop(s, j)
    ensures RefEnd(s, p) == Some(i)
    decreases i - p
  {
    if p < i {
      RefEndAt(s, p + 1, i);
    }
  }

  /** A plain node text gives back its ref and pin, and whatever the optional group finds in the tail. */
  lemma MatchNodeTail(ref: string, pin: string, tail: string)
    requires Plain(ref) && Plain(pin)
    ensures MatchNode(NodeText(ref, pin) + tail) == Some(NodeFields(ref, pin, OptionalPinfunction(tail, 0)))
  {
    NodeTextParts(ref, pin, tail);
    MatchNodeParts(NodeText(ref, pin) + tail, ref, pin, tail);
  }

  /** A text laid out as a node text with plain ref and pin, followed by a tail, matches with those fields. */
  lemma MatchNodeParts(s: string, ref: string, pin: string, tail: string)
    requires Plain(ref) && Plain(pin)
    requires var i := |NodeHead| + |ref|;
      var k := i + |PinSep| + |pin|;
      && |s| == k + 2 + |tail|
      && NodeHead <= s
      && s[|NodeHead|..i] == ref
      && s[i..i + |PinSep|] == PinSep
      && s[i + |PinSep|..k] == pin
      && s[k] == '"' && s[k + 1] == ')'
      && s[k + 2..] == tail
    ensures MatchNode(s) == Some(NodeFields(ref, pin, OptionalPinfunction(tail, 0)))
  {
    var i := |NodeHead| + |ref|;
    var k := i + |PinSep| + |pin|;
    PlainNodeMatch(s, i, k);
    OptionalPinfunctionAt(s, k + 2, tail);
  }

  /** The optional group tried at f reads what it reads in the rest of the text from f on. */
  lemma OptionalPinfunctionAt(s: string, f: nat, tail: string)
    requires f <= |s| && s[f..] == tail
    ensures OptionalPinfunction(s, f) == OptionalPinfunction(tail, 0)
  {
    assert s[..f] + tail == s;
    OptionalPinfunctionShift(s[..f], tail);
  }

  /** A node pattern whose ref and pin texts are plain reads them as they stand. */
  lemma PlainNodeMatch(s: string, i: nat, k: nat)
    requires NodeHead <= s && |NodeHead| <= i && i + |PinSep| <= k && k + 2 <= |s|
    requires Plain(s[|NodeHead|..i]) && s[i..i + |PinSep|] == PinSep
    requires Plain(s[i + |PinSep|..k]) && s[k] == '"' && s[k + 1] == ')'
    ensures MatchNode(s) == Some(NodeFields(s[|NodeHead|..i], s[i + |PinSep|..k], OptionalPinfunction(s, k + 2)))
  {
    PlainNodeGroups(s, i, k);
    MatchNodeAt(s, i, k);
  }

  /** Where the ref and pin groups close determines the three fields. */
  lemma MatchNodeAt(s: string, i: nat, k: nat)
    requires NodeHead <= s && |NodeHead| <= |s| && RefEnd(s, |NodeHead|) == Some(i)
    requires i + |PinSep| <= |s| && FindClose(s, i + |PinSep|) == Some(k)
    ensures MatchNode(s) == Some(NodeFields(s[|NodeHead|..i], s[i + |PinSep|..k], OptionalPinfunction(s, k + 2)))
  {
    MatchNodeRef(s, i);
    NodeAfterAt(s, i, k);
  }

  /** Where the pin group closes determines the three fields. */
  lemma NodeAfterAt(s: string, i: nat, k: nat)
    requires |NodeHead| <= i && i + |PinSep| <= |s| && FindClose(s, i + |PinSep|) == Some(k)
    ensures k + 2 <= |s|
    ensures NodeAfter(s, i) == Some(NodeFields(s[|NodeHead|..i], s[i + |PinSep|..k], OptionalPinfunction(s, k + 2)))
  {
  }

  /** Once the ref group has ended at i, the rest of the node pattern decides the match. */
  lemma MatchNodeRef(s: string, i: nat)
    requires NodeHead <= s && |NodeHead| <= |s| && RefEnd(s, |NodeHead|) == Some(i)
    ensures |NodeHead| <= i <= |s| && MatchNode(s) == NodeAfter(s, i)
  {
  }

  /** A plain node text followed by anything but a pinfunction group gives back its ref and pin, and pinfunction ''. */
  lemma MatchNodeText(ref: string, pin: string, tail: string)
    requires Plain(ref) && Plain(pin)
    requires !LiteralAt(tail, 0, PinfunctionSep)
    ensures MatchNode(NodeText(ref, pin) + tail) == Some(NodeFields(ref, pin, ""))
  {
    MatchNodeTail(ref, pin, tail);
  }

  /** A plain node text followed by a plain pinfunction group gives back all three fields. */
  lemma MatchNodeTextWithPinfunction(ref: string, pin: string, pinfunction: string, rest: string)
    requires Plain(ref) && Plain(pin) && Plain(pinfunction)
    ensures MatchNode(NodeText(ref, pin) + (PinfunctionSep + pinfunction + "\")" + rest)) ==
      Some(NodeFields(ref, pin, pinfunction))
  {
    MatchNodeTail(ref, pin, PinfunctionSep + pinfunction + "\")" + rest);
    PinfunctionGroup(pinfunction, rest);
  }

  /** The optional group matches a plain pinfunction text. */
  lemma PinfunctionGroup(pinfunction: string, rest: string)
    requires Plain(pinfunction)
    ensures OptionalPinfunction(PinfunctionSep + pinfunction + "\")" + rest, 0) == pinfunction
  {
    var tail := PinfunctionSep + pinfunction + "\")" + rest;
    assert tail[0..|PinfunctionSep|] == PinfunctionSep;
    assert tail[|PinfunctionSep|..|PinfunctionSep| + |pinfunction|] == pinfunction;
    CapturePlain(tail, |PinfunctionSep|, pinfunction);
  }

  /** A lazy group inside the tail of a line closes where it would in the tail alone. */
  lemma FindCloseShift(head: string, tail: string, p: nat)
    requires p <= |tail|
    ensures FindClose(head + tail, |head| + p) ==
      match FindClose(tail, p) case None => None case Some(k) => Some(|head| + k)
    decreases |tail| - p
  {
    var s := head + tail;
    assert CloseAt(s, |head| + p) == CloseAt(tail, p);
    if !CloseAt(tail, p) && p < |tail| {
      assert s[|head| + p] == tail[p];
      if tail[p] != '\n' {
        FindCloseShift(head, tail, p + 1);
      }
    }
  }

  /** A capture inside the tail of a line does not depend on what comes before the tail. */
  lemma CaptureShift(head: string, tail: string, p: nat)
    requires p <= |tail|
    ensures Capture(head + tail, |head| + p) == Capture(tail, p)
  {
    FindCloseShift(head, tail, p);
    FindCloseSpec(tail, p);
    match FindClose(tail, p)
    case None =>
    case Some(k) =>
      assert (head + tail)[|head| + p..|head| + k] == tail[p..k];
  }

  /** `re.match(r'\(comp \(ref "(.*?)"\)', s)`, giving group 1. */
  function MatchComp(s: string): Option<string> {
    if CompHead <= s then Capture(s, |CompHead|) else None
  }

  /** `re.match(r'\(value "(.*?)"\)', s)`, giving group 1. */
  function MatchValue(s: string): Option<string> {
    if ValueHead <= s then Capture(s, |ValueHead|) else None
  }

  /** `re.match(r'\(description "(.*?)"\)', s)`, giving group 1. */
  function MatchDescription(s: string): Option<string> {
    if DescriptionHead <= s then Capture(s, |DescriptionHead|) else None
  }

  /** The single-field patterns give back a plain field, whatever follows its closing `")`. */
  lemma MatchFieldLines(t: string, rest: string)
    requires Plain(t)
    ensures MatchComp(CompHead + t + "\")" + rest) == Some(t)
    ensures MatchValue(ValueHead + t + "\")" + rest) == Some(t)
    ensures MatchDescription(DescriptionHead + t + "\")" + rest) == Some(t)
  {
    CaptureAfter(CompHead, t, rest);
    CaptureAfter(ValueHead, t, rest);
    CaptureAfter(DescriptionHead, t, rest);
  }

  /** A plain field right after a head is captured whole. */
  lemma CaptureAfter(h: string, t: string, rest: string)
    requires Plain(t)
    ensures var s := h + t + "\")" + rest; h <= s && Capture(s, |h|) == Some(t)
  {
    var s := h + t + "\")" + rest;
    assert s[..|h|] == h;
    assert s[|h|..|h| + |t|] == t;
    CapturePlain(s, |h|, t);
  }
}
