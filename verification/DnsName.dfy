/** Domain-name decoding (sections 3.1, 2.3.4 and 4.1.4 of RFC 1035). */
module DnsName {
  import opened Bytes
  import opened Wrappers

  const MAXIMUM_TEXT := 253
  const MAXIMUM_JUMPS := 8
  const DOT: byte := 0x2E

  /** One to 63 bytes, whatever they are. */
  type Label = l: seq<byte> | 1 <= |l| <= 63 witness [DOT]

  // ---- What a packet says at an offset ----

  /** The name at offset `at`, following at most `jumps` compression pointers. */
  function NameAt(packet: seq<byte>, at: nat, jumps: nat): Option<seq<Label>>
    decreases jumps, |packet| - at
  {
    if at >= |packet| then None
    else if packet[at] == 0 then Some([])
    else if packet[at] >= 0xC0 then
      if at + 1 >= |packet| || jumps == 0 then None else NameAt(packet, Target(packet, at), jumps - 1)
    else if packet[at] >= 0x40 || at + 1 + packet[at] > |packet| then None
    else
      match NameAt(packet, at + 1 + packet[at], jumps)
      case None => None
      case Some(rest) => Some([packet[at + 1..at + 1 + packet[at]]] + rest)
  }

  /** Where the compression pointer at `at` points. */
  function Target(packet: seq<byte>, at: nat): nat
    requires at + 1 < |packet|
  {
    packet[at] as int % 0x40 * 0x100 + packet[at + 1] as int
  }

  /** The offset just behind the name encoded in place at `at`: behind its root byte or its first pointer. */
  function EncodedEnd(packet: seq<byte>, at: nat): (r: nat)
    ensures at <= r
    decreases |packet| - at
  {
    if at >= |packet| then at
    else if packet[at] == 0 then at + 1
    else if packet[at] >= 0xC0 then at + 2
    else EncodedEnd(packet, at + 1 + packet[at])
  }

  /** Labels joined by dots. */
  function Dotted(labels: seq<Label>): (text: seq<byte>)
    decreases |labels|
  {
    if labels == [] then []
    else if |labels| == 1 then labels[0]
    else Dotted(labels[..|labels| - 1]) + [DOT] + labels[|labels| - 1]
  }

  function TextOf(name: Option<seq<Label>>): Option<seq<byte>> {
    match name
    case None => None
    case Some(labels) => if |Dotted(labels)| <= MAXIMUM_TEXT then Some(Dotted(labels)) else None
  }

  /** The text of the name at `at`, if it decodes within the limits. */
  function TextAt(packet: seq<byte>, at: nat): Option<seq<byte>> { TextOf(NameAt(packet, at, MAXIMUM_JUMPS)) }

  // ---- The decoder ----

  /** `name` put behind labels already decoded. */
  function Behind(done: seq<Label>, name: Option<seq<Label>>): Option<seq<Label>> {
    match name
    case None => None
    case Some(rest) => Some(done + rest)
  }

  /** A decoded prefix never makes the text shorter, so an overlong prefix settles the outcome. */
  lemma {:induction false} PrefixNoLonger(prefix: seq<Label>, rest: seq<Label>)
    ensures |Dotted(prefix)| <= |Dotted(prefix + rest)|
    decreases |rest|
  {
    if rest == [] {
      assert prefix + rest == prefix;
    } else {
      var last := |rest| - 1;
      PrefixNoLonger(prefix, rest[..last]);
      assert (prefix + rest)[..|prefix + rest| - 1] == prefix + rest[..last];
    }
  }

  /** How far decoding from `start` has come: labels `done`, going on at `cursor` after `jumps` pointers; `end` is the
      in-place end once a pointer was followed. */
  ghost predicate Progress(packet: seq<byte>, start: nat, done: seq<Label>, cursor: nat, jumps: nat, jumped: bool,
                           end: nat) {
    && jumps <= MAXIMUM_JUMPS
    && NameAt(packet, start, MAXIMUM_JUMPS) == Behind(done, NameAt(packet, cursor, MAXIMUM_JUMPS - jumps))
    && EncodedEnd(packet, start) == (if jumped then end else EncodedEnd(packet, cursor))
    && (if jumped then start < end <= |packet| else start <= cursor)
  }

  lemma ProgressStarts(packet: seq<byte>, start: nat)
    ensures Progress(packet, start, [], start, 0, false, start)
  {
    EmptyPrefix(NameAt(packet, start, MAXIMUM_JUMPS));
  }

  lemma ProgressEnds(packet: seq<byte>, start: nat, done: seq<Label>, cursor: nat, jumps: nat, jumped: bool, end: nat)
    requires Progress(packet, start, done, cursor, jumps, jumped, end)
    requires cursor < |packet| && packet[cursor] == 0
    ensures TextAt(packet, start) == if |Dotted(done)| <= MAXIMUM_TEXT then Some(Dotted(done)) else None
    ensures EncodedEnd(packet, start) == (if jumped then end else cursor + 1)
    ensures start < EncodedEnd(packet, start) <= |packet|
  {
    assert done + [] == done;
  }

  lemma ProgressStuck(packet: seq<byte>, start: nat, done: seq<Label>, cursor: nat, jumps: nat, jumped: bool, end: nat)
    requires Progress(packet, start, done, cursor, jumps, jumped, end)
    requires cursor < |packet| && packet[cursor] >= 0xC0 ==>
               cursor + 1 >= |packet| || jumps == MAXIMUM_JUMPS || Target(packet, cursor) >= |packet|
    requires cursor < |packet| && packet[cursor] < 0x40 ==>
             packet[cursor] != 0 && cursor + 1 + packet[cursor] > |packet|
    ensures TextAt(packet, start) == None
  {
    if cursor < |packet| && packet[cursor] >= 0xC0 && cursor + 1 < |packet| && jumps < MAXIMUM_JUMPS {
      assert NameAt(packet, Target(packet, cursor), MAXIMUM_JUMPS - jumps - 1) == None;
    }
    assert NameAt(packet, cursor, MAXIMUM_JUMPS - jumps) == None;
  }

  lemma ProgressJumps(packet: seq<byte>, start: nat, done: seq<Label>, cursor: nat, jumps: nat, jumped: bool, end: nat)
    requires Progress(packet, start, done, cursor, jumps, jumped, end)
    requires cursor + 1 < |packet| && packet[cursor] >= 0xC0 && jumps < MAXIMUM_JUMPS
    ensures Progress(packet, start, done, Target(packet, cursor), jumps + 1, true, if jumped then end else cursor + 2)
  {
  }

  /** One more label moves from the name still to be decoded to the part already decoded; if the text is now too long,
      it stays too long. */
  lemma ProgressLabel(packet: seq<byte>, start: nat, done: seq<Label>, cursor: nat, jumps: nat, jumped: bool, end: nat,
                      part: Label, next: nat)
    requires Progress(packet, start, done, cursor, jumps, jumped, end)
    requires cursor < |packet| && 0 < packet[cursor] < 0x40 && next == cursor + 1 + packet[cursor] <= |packet|
    requires part == packet[cursor + 1..next]
    ensures Progress(packet, start, done + [part], next, jumps, jumped, end)
    ensures !jumped ==> Progress(packet, start, done + [part], next, jumps, jumped, next)
    ensures |Dotted(done + [part])| > MAXIMUM_TEXT ==> TextAt(packet, start) == None
  {
    var rest := NameAt(packet, next, MAXIMUM_JUMPS - jumps);
    if rest.Some? {
      assert done + ([part] + rest.value) == done + [part] + rest.value;
      PrefixNoLonger(done + [part], rest.value);
    }
  }

  lemma EmptyText()
    ensures Dotted([]) == []
  {
  }

  method DecodeDnsName(packet: seq<byte>, start: nat, output: array<byte>)
    returns (ok: bool, outputLength: nat, encodedEnd: nat)
    requires output.Length == MAXIMUM_TEXT + 1
    modifies output
    ensures ok <==> TextAt(packet, start).Some?
    ensures ok ==> outputLength <= MAXIMUM_TEXT && output[..outputLength] == TextAt(packet, start).value
    ensures ok ==> encodedEnd == EncodedEnd(packet, start) && start < encodedEnd <= |packet|
  {
    hide Progress, TextAt, EncodedEnd, NameAt, Dotted;
    outputLength := 0;
    encodedEnd := start;
    var cursor: nat := start;
    var jumps: nat := 0;
    var jumped := false;
    ghost var done: seq<Label> := [];
    ProgressStarts(packet, start);
    EmptyText();
    while cursor < |packet|
      invariant jumps <= MAXIMUM_JUMPS && outputLength <= MAXIMUM_TEXT
      invariant output[..outputLength] == Dotted(done) && (outputLength == 0 <==> done == [])
      invariant Progress(packet, start, done, cursor, jumps, jumped, encodedEnd)
      decreases MAXIMUM_JUMPS - jumps, |packet| - cursor
    {
      var length := packet[cursor];
      if length == 0 {
        ProgressEnds(packet, start, done, cursor, jumps, jumped, encodedEnd);
        if !jumped { encodedEnd := cursor + 1; }
        return outputLength <= MAXIMUM_TEXT, outputLength, encodedEnd;
      }
      if length >= 0xC0 {
        if cursor + 1 >= |packet| || jumps + 1 > MAXIMUM_JUMPS {
          ProgressStuck(packet, start, done, cursor, jumps, jumped, encodedEnd);
          return false, outputLength, encodedEnd;
        }
        var pointer := length as int % 0x40 * 0x100 + packet[cursor + 1] as int;
        if pointer >= |packet| {
          ProgressStuck(packet, start, done, cursor, jumps, jumped, encodedEnd);
          return false, outputLength, encodedEnd;
        }
        ProgressJumps(packet, start, done, cursor, jumps, jumped, encodedEnd);
        jumps := jumps + 1;
        if !jumped { encodedEnd := cursor + 2; }
        jumped := true;
        cursor := pointer;
        continue;
      }
      if length >= 0x40 || cursor + 1 + length > |packet| {
        ProgressStuck(packet, start, done, cursor, jumps, jumped, encodedEnd);
        return false, outputLength, encodedEnd;
      }
      var part: Label := packet[cursor + 1..cursor + 1 + length];
      ProgressLabel(packet, start, done, cursor, jumps, jumped, encodedEnd, part, cursor + 1 + length);
      var fits: bool;
      fits, outputLength := AppendLabel(output, outputLength, part, done);
      if !fits { return false, outputLength, encodedEnd; }
      done := done + [part];
      cursor := cursor + 1 + length;
      if !jumped { encodedEnd := cursor; }
    }
    ProgressStuck(packet, start, done, cursor, jumps, jumped, encodedEnd);
    return false, outputLength, encodedEnd;
  }

  /** Adds one label to the text, behind a dot unless it is the first; refuses a text over the limit. */
  method AppendLabel(output: array<byte>, outputLength: nat, part: Label, ghost done: seq<Label>)
    returns (fits: bool, length: nat)
    requires output.Length == MAXIMUM_TEXT + 1 && outputLength <= MAXIMUM_TEXT
    requires output[..outputLength] == Dotted(done) && (outputLength == 0 <==> done == [])
    modifies output
    ensures fits <==> |Dotted(done + [part])| <= MAXIMUM_TEXT
    ensures fits ==> 0 < length <= MAXIMUM_TEXT && output[..length] == Dotted(done + [part])
  {
    assert (done + [part])[..|done|] == done;
    length := outputLength;
    if length != 0 {
      if length >= output.Length - 1 { return false, length; }
      output[length] := DOT;
      length := length + 1;
    }
    if length + |part| > MAXIMUM_TEXT { return false, length; }
    CopyInto(output, length, part);
    return true, length + |part|;
  }

  method CopyInto(output: array<byte>, at: nat, source: seq<byte>)
    requires at + |source| <= output.Length
    modifies output
    ensures output[..at + |source|] == old(output[..at]) + source
  {
    for i := 0 to |source|
      invariant output[..at + i] == old(output[..at]) + source[..i]
    {
      output[at + i] := source[i];
    }
  }

  // ---- What the text says about the labels ----

  /** The pieces of a text between its dots (0x2E). */
  function Split(text: seq<byte>): (pieces: seq<seq<byte>>)
    ensures pieces != []
  {
    if text == [] then [[]]
    else
      var rest := Split(text[1..]);
      if text[0] == 0x2E then [[]] + rest else [[text[0]] + rest[0]] + rest[1..]
  }

  lemma {:induction false} SplitAtDot(front: seq<byte>, last: seq<byte>)
    requires 0x2E !in last
    ensures Split(front + [0x2E] + last) == Split(front) + [last]
  {
    var text := front + [0x2E] + last;
    if front == [] {
      assert text[1..] == last;
      SplitWhole(last);
    } else {
      assert text[1..] == front[1..] + [0x2E] + last;
      SplitAtDot(front[1..], last);
    }
  }

  lemma {:induction false} SplitWhole(text: seq<byte>)
    requires 0x2E !in text
    ensures Split(text) == [text]
  {
    if text != [] {
      assert text[0] != 0x2E;
      SplitWhole(text[1..]);
      assert [text[0]] + text[1..] == text;
    }
  }

  lemma {:induction false} PiecesHaveNoDot(text: seq<byte>)
    ensures forall i :: 0 <= i < |Split(text)| ==> 0x2E !in Split(text)[i]
  {
    if text != [] { PiecesHaveNoDot(text[1..]); }
  }

  ghost predicate DotFree(labels: seq<Label>) { forall i :: 0 <= i < |labels| ==> 0x2E !in labels[i] }

  lemma {:induction false} DottedSplits(labels: seq<Label>)
    requires labels != [] && DotFree(labels)
    ensures Split(Dotted(labels)) == labels
    decreases |labels|
  {
    var front, last := labels[..|labels| - 1], labels[|labels| - 1];
    assert labels == front + [last] && 0x2E !in last;
    if front == [] {
      SplitWhole(last);
    } else {
      DottedSplits(front);
      SplitAtDot(Dotted(front), last);
    }
  }

  /** Splitting the text of a name at its dots returns its labels exactly when no label has a dot in it. */
  lemma DottedSplitsIff(labels: seq<Label>)
    requires labels != []
    ensures Split(Dotted(labels)) == labels <==> DotFree(labels)
  {
    if DotFree(labels) { DottedSplits(labels); }
    if Split(Dotted(labels)) == labels { PiecesHaveNoDot(Dotted(labels)); }
  }

  /** A dot in a label cannot be told from the dot between labels, as in the labels "a" and "b" and the label "a.b". */
  lemma DotInLabel()
    ensures Dotted([[0x61], [0x62]]) == Dotted([[0x61, 0x2E, 0x62]]) == [0x61, 0x2E, 0x62]
  {
    var two: seq<Label> := [[0x61], [0x62]];
    assert two[..1] == [[0x61]] && Dotted(two[..1]) == [0x61];
  }

  /** The text of any name in a packet, compressed or not, splits into its labels exactly when none has a dot in it; the
      root name has the empty text. */
  lemma TextSplitsIff(packet: seq<byte>, at: nat)
    requires TextAt(packet, at).Some?
    ensures var labels := NameAt(packet, at, MAXIMUM_JUMPS);
            && labels.Some?
            && (if labels.value == [] then TextAt(packet, at).value == []
                else Split(TextAt(packet, at).value) == labels.value <==> DotFree(labels.value))
  {
    hide NameAt, DotFree, Split;
    var labels := NameAt(packet, at, MAXIMUM_JUMPS);
    if labels.value != [] { DottedSplitsIff(labels.value); }
  }

  // ---- When a name decodes: the chain of places it visits ----

  /** Whether decoding may go from offset `p` to offset `q`: over a label, or through a pointer. */
  predicate Leads(packet: seq<byte>, p: nat, q: nat) {
    && p < |packet|
    && (if packet[p] >= 0xC0 then p + 1 < |packet| && q == Target(packet, p)
        else 0 < packet[p] < 0x40 && p + 1 + packet[p] <= |packet| && q == p + 1 + packet[p])
  }

  /** A finite chain of visited offsets from `start` to a root byte. */
  ghost predicate Chain(packet: seq<byte>, start: nat, path: seq<nat>) {
    && 0 < |path| && path[0] == start
    && (forall i :: 0 <= i < |path| - 1 ==> Leads(packet, path[i], path[i + 1]))
    && path[|path| - 1] < |packet| && packet[path[|path| - 1]] == 0
  }

  function Jumps(packet: seq<byte>, path: seq<nat>): nat
  {
    if path == [] then 0
    else (if path[0] < |packet| && packet[path[0]] >= 0xC0 then 1 else 0) + Jumps(packet, path[1..])
  }

  /** A name decodes within a jump budget exactly when a chain within that budget reaches a root byte: every visited
      byte lies in the packet, every label has 1 to 63 bytes, and no cycle is possible. */
  lemma {:induction false} DecodesIffChain(packet: seq<byte>, start: nat, jumps: nat)
    ensures NameAt(packet, start, jumps).Some? <==>
            exists path :: Chain(packet, start, path) && Jumps(packet, path) <= jumps
  {
    if NameAt(packet, start, jumps).Some? {
      var path := ChainOf(packet, start, jumps);
    }
    if path :| Chain(packet, start, path) && Jumps(packet, path) <= jumps {
      ChainDecodes(packet, start, path, jumps);
    }
  }

  lemma {:induction false} ChainOf(packet: seq<byte>, start: nat, jumps: nat) returns (path: seq<nat>)
    requires NameAt(packet, start, jumps).Some?
    ensures Chain(packet, start, path)
    ensures Jumps(packet, path) <= jumps
    decreases jumps, |packet| - start
  {
    if packet[start] == 0 {
      path := [start];
    } else {
      var rest: seq<nat>;
      if packet[start] >= 0xC0 {
        rest := ChainOf(packet, Target(packet, start), jumps - 1);
      } else {
        rest := ChainOf(packet, start + 1 + packet[start], jumps);
      }
      path := [start] + rest;
      assert path[1..] == rest;
      forall i | 0 <= i < |path| - 1 ensures Leads(packet, path[i], path[i + 1]) {
        if 0 < i { assert Leads(packet, rest[i - 1], rest[i]); }
      }
    }
  }

  lemma {:induction false} ChainDecodes(packet: seq<byte>, start: nat, path: seq<nat>, jumps: nat)
    requires Chain(packet, start, path)
    requires Jumps(packet, path) <= jumps
    ensures NameAt(packet, start, jumps).Some?
    decreases |path|
  {
    if |path| > 1 {
      assert Leads(packet, path[0], path[1]);
      var rest := path[1..];
      assert Chain(packet, path[1], rest) by {
        forall i | 0 <= i < |rest| - 1 ensures Leads(packet, rest[i], rest[i + 1]) {
          assert Leads(packet, path[i + 1], path[i + 2]);
        }
      }
      ChainDecodes(packet, path[1], rest, if packet[path[0]] >= 0xC0 then jumps - 1 else jumps);
    }
  }

  /** A larger budget never changes a decoded name. */
  lemma {:induction false} BudgetMonotone(packet: seq<byte>, at: nat, jumps: nat, more: nat)
    requires NameAt(packet, at, jumps).Some? && jumps <= more
    ensures NameAt(packet, at, more) == NameAt(packet, at, jumps)
    decreases jumps, |packet| - at
  {
    if packet[at] >= 0xC0 {
      BudgetMonotone(packet, Target(packet, at), jumps - 1, more - 1);
    } else if packet[at] != 0 {
      BudgetMonotone(packet, at + 1 + packet[at], jumps, more);
    }
  }

  // ---- Encodings decode to what they encode ----

  function EncodedLabel(part: Label): seq<byte>
  {
    var length: byte := |part|;
    [length] + part
  }

  function Encoded(labels: seq<Label>): (r: seq<byte>)
    decreases |labels|
  {
    if labels == [] then [] else EncodedLabel(labels[0]) + Encoded(labels[1..])
  }

  /** `packet` holds exactly `bytes` from offset `at` on. */
  ghost predicate Holds(packet: seq<byte>, at: nat, bytes: seq<byte>) {
    at + |bytes| <= |packet| && packet[at..at + |bytes|] == bytes
  }

  lemma HoldsSplit(packet: seq<byte>, at: nat, first: seq<byte>, second: seq<byte>)
    requires Holds(packet, at, first + second)
    ensures Holds(packet, at, first) && Holds(packet, at + |first|, second)
  {
    var both := packet[at..at + |first + second|];
    assert both[..|first|] == first && both[|first|..] == second;
  }

  /** The name at `at` is `labels` followed by the name at `next`, and both end in place at the same offset. */
  ghost predicate Continues(packet: seq<byte>, at: nat, labels: seq<Label>, next: nat, jumps: nat) {
    && NameAt(packet, at, jumps) == Behind(labels, NameAt(packet, next, jumps))
    && EncodedEnd(packet, at) == EncodedEnd(packet, next)
  }

  lemma ContinuesJoins(packet: seq<byte>, at: nat, labels: seq<Label>, middle: nat, next: nat, jumps: nat)
    requires labels != []
    requires Continues(packet, at, [labels[0]], middle, jumps) && Continues(packet, middle, labels[1..], next, jumps)
    ensures Continues(packet, at, labels, next, jumps)
  {
    var name := NameAt(packet, next, jumps);
    if name.Some? { assert labels + name.value == [labels[0]] + (labels[1..] + name.value); }
  }

  /** Labels followed by whatever encodes the rest of the name (a root byte or a pointer) decode to the labels followed
      by that rest, and end in place where the rest does. */
  lemma {:induction false} LabelsDecode(packet: seq<byte>, at: nat, labels: seq<Label>, jumps: nat)
    requires Holds(packet, at, Encoded(labels))
    ensures Continues(packet, at, labels, at + |Encoded(labels)|, jumps)
    decreases |labels|
  {
    hide NameAt, EncodedEnd;
    if labels == [] {
      EmptyPrefix(NameAt(packet, at, jumps));
    } else {
      var middle, next := at + |EncodedLabel(labels[0])|, at + |Encoded(labels)|;
      HoldsSplit(packet, at, EncodedLabel(labels[0]), Encoded(labels[1..]));
      LabelDecodes(packet, at, labels[0], jumps);
      LabelsDecode(packet, middle, labels[1..], jumps);
      ContinuesJoins(packet, at, labels, middle, next, jumps);
    }
  }

  lemma EmptyPrefix(name: Option<seq<Label>>)
    ensures Behind([], name) == name
  {
    if name.Some? { assert [] + name.value == name.value; }
  }

  lemma LabelDecodes(packet: seq<byte>, at: nat, part: Label, jumps: nat)
    requires Holds(packet, at, EncodedLabel(part))
    ensures Continues(packet, at, [part], at + |EncodedLabel(part)|, jumps)
  {
    var first := EncodedLabel(part);
    var here := packet[at..at + |first|];
    assert packet[at] == here[0] == first[0];
    assert packet[at + 1..at + |first|] == here[1..] == part;
  }

  /** Every legal label list, encoded without compression anywhere in a packet, decodes to itself. */
  lemma UncompressedRoundTrip(packet: seq<byte>, at: nat, labels: seq<Label>, jumps: nat)
    requires Holds(packet, at, Encoded(labels) + [0])
    ensures NameAt(packet, at, jumps) == Some(labels)
    ensures EncodedEnd(packet, at) == at + |Encoded(labels)| + 1
  {
    HoldsSplit(packet, at, Encoded(labels), [0]);
    LabelsDecode(packet, at, labels, jumps);
    var root := at + |Encoded(labels)|;
    assert packet[root] == packet[root..root + 1][0];
    assert labels + [] == labels;
  }

  function PointerTo(target: nat): seq<byte>
    requires target < 0x4000
  {
    [0xC0 + target / 0x100, target % 0x100]
  }

  lemma PointerIsTarget(packet: seq<byte>, at: nat, target: nat)
    requires target < 0x4000 && Holds(packet, at, PointerTo(target))
    ensures at + 1 < |packet| && packet[at] >= 0xC0 && Target(packet, at) == target
  {
    var here := packet[at..at + 2];
    assert packet[at] == here[0] && packet[at + 1] == here[1];
  }

  /** Labels closed by a pointer decode to those labels followed by the name pointed at. */
  lemma CompressedRoundTrip(packet: seq<byte>, at: nat, labels: seq<Label>, target: nat, jumps: nat)
    requires target < 0x4000 && Holds(packet, at, Encoded(labels) + PointerTo(target))
    ensures NameAt(packet, at, jumps + 1) == Behind(labels, NameAt(packet, target, jumps))
    ensures EncodedEnd(packet, at) == at + |Encoded(labels)| + 2
  {
    HoldsSplit(packet, at, Encoded(labels), PointerTo(target));
    LabelsDecode(packet, at, labels, jumps + 1);
    PointerIsTarget(packet, at + |Encoded(labels)|, target);
  }

  // ---- Names that survive a copy of part of the packet ----

  /** The name at `at` decodes within the budget and reads only bytes at offsets of `kept`. */
  ghost predicate NameWithin(packet: seq<byte>, at: nat, jumps: nat, kept: set<nat>)
    decreases jumps, |packet| - at
  {
    && at < |packet| && at in kept
    && (packet[at] == 0 ||
        (if packet[at] >= 0xC0 then
           at + 1 < |packet| && at + 1 in kept && 0 < jumps && NameWithin(packet, Target(packet, at), jumps - 1, kept)
         else
           && packet[at] < 0x40 && at + 1 + packet[at] <= |packet|
           && (forall i :: at < i < at + 1 + packet[at] ==> i in kept)
           && NameWithin(packet, at + 1 + packet[at], jumps, kept)))
  }

  /** A name encoded without compression reads only its own encoding. */
  lemma {:induction false} EncodedWithin(packet: seq<byte>, at: nat, labels: seq<Label>, jumps: nat, kept: set<nat>)
    requires Holds(packet, at, Encoded(labels) + [0])
    requires forall i :: at <= i <= at + |Encoded(labels)| ==> i in kept
    ensures NameWithin(packet, at, jumps, kept)
    decreases |labels|
  {
    var here := packet[at..at + |Encoded(labels) + [0]|];
    if labels == [] {
      assert packet[at] == here[0] == 0;
    } else {
      var first, rest := EncodedLabel(labels[0]), Encoded(labels[1..]) + [0];
      assert Encoded(labels) + [0] == first + rest;
      HoldsSplit(packet, at, first, rest);
      assert packet[at] == here[0] == first[0];
      EncodedWithin(packet, at + |first|, labels[1..], jumps, kept);
    }
  }

  ghost predicate Agree(packet: seq<byte>, copy: seq<byte>, kept: set<nat>) {
    forall i :: i in kept ==> i < |packet| && i < |copy| && copy[i] == packet[i]
  }

  /** A packet that agrees on the bytes a name reads holds the same name there, for every jump budget. */
  lemma {:induction false} NameSurvives(packet: seq<byte>, copy: seq<byte>, at: nat, jumps: nat, budget: nat,
                                        kept: set<nat>)
    requires Agree(packet, copy, kept)
    requires NameWithin(packet, at, jumps, kept)
    ensures NameAt(packet, at, jumps).Some?
    ensures budget <= jumps ==> NameAt(copy, at, budget) == NameAt(packet, at, budget)
    decreases jumps, |packet| - at
  {
    if packet[at] >= 0xC0 {
      NameSurvives(packet, copy, Target(packet, at), jumps - 1, if budget == 0 then 0 else budget - 1, kept);
      assert at + 1 in kept;
    } else if packet[at] != 0 {
      var next := at + 1 + packet[at];
      NameSurvives(packet, copy, next, jumps, budget, kept);
      assert next in kept;
      assert copy[at + 1..next] == packet[at + 1..next];
    }
  }
}
