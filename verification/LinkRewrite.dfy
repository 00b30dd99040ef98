/** Rewriting link destinations inside Markdown text without printing the Markdown anew. */
module LinkRewrite {
  import opened Bytes
  import opened Chars

  // ----- Scanning balanced text -----

  /** A pair of delimiters; with `spaces`, white space outside all groups ends the text too. */
  datatype Pair = Pair(open: char, close: char, spaces: bool) {
    predicate Valid() { open != '\\' && close != '\\' && !IsSpace(open) && !IsSpace(close) }
    predicate Ends(c: char) { c == close || (spaces && IsSpace(c)) }
  }

  const BRACKETS := Pair('[', ']', false)
  const PARENS := Pair('(', ')', true)
  /** Angle brackets do not nest: the closing one is recognised first. */
  const ANGLES := Pair('>', '>', false)

  /** How far `s` goes before a delimiter ends it, at `depth` open groups; |s| when none does. */
  function Scan(s: string, depth: nat, b: Pair): (n: nat)
    ensures n <= |s|
    decreases |s|
  {
    if s == "" then 0
    else if s[0] == '\\' then (if |s| == 1 then 1 else 2 + Scan(s[2..], depth, b))
    else if s[0] == b.close then (if depth == 0 then 0 else 1 + Scan(s[1..], depth - 1, b))
    else if s[0] == b.open then 1 + Scan(s[1..], depth + 1, b)
    else if b.spaces && depth == 0 && IsSpace(s[0]) then 0
    else 1 + Scan(s[1..], depth, b)
  }

  predicate Balanced(s: string, b: Pair) {
    Scan(s + [b.close], 0, b) == |s|
  }

  // ----- What balanced text is -----

  /** Text in which delimiters are escaped or come in pairs. */
  datatype Text = Nil | Plain(c: char, rest: Text) | Escape(c: char, rest: Text) | Group(inner: Text, rest: Text)

  function Written(t: Text, b: Pair): string {
    match t
    case Nil => ""
    case Plain(c, rest) => [c] + Written(rest, b)
    case Escape(c, rest) => ['\\', c] + Written(rest, b)
    case Group(inner, rest) => [b.open] + Written(inner, b) + [b.close] + Written(rest, b)
  }

  predicate Fits(t: Text, b: Pair, outermost: bool) {
    match t
    case Nil => true
    case Plain(c, rest) =>
      c != '\\' && c != b.open && c != b.close && !(outermost && b.spaces && IsSpace(c)) && Fits(rest, b, outermost)
    case Escape(_, rest) => Fits(rest, b, outermost)
    case Group(inner, rest) => b.open != b.close && Fits(inner, b, false) && Fits(rest, b, outermost)
  }

  lemma ScanSteps(c: char, s: string, depth: nat, b: Pair)
    requires b.Valid()
    ensures Scan(['\\', c] + s, depth, b) == 2 + Scan(s, depth, b)
    ensures Scan([b.close] + s, depth, b) == if depth == 0 then 0 else 1 + Scan(s, depth - 1, b)
    ensures b.open != b.close ==> Scan([b.open] + s, depth, b) == 1 + Scan(s, depth + 1, b)
    ensures c != '\\' && c != b.open && c != b.close ==>
              Scan([c] + s, depth, b) == (if b.spaces && depth == 0 && IsSpace(c) then 0 else 1 + Scan(s, depth, b))
  {
    assert ([c] + s)[1..] == s && (['\\', c] + s)[2..] == s;
    assert ([b.close] + s)[1..] == s && ([b.open] + s)[1..] == s;
  }

  lemma {:induction false} ScanWritten(t: Text, b: Pair, rest: string, depth: nat)
    requires b.Valid() && Fits(t, b, depth == 0)
    ensures Scan(Written(t, b) + rest, depth, b) == |Written(t, b)| + Scan(rest, depth, b)
  {
    hide IsSpace, Scan;
    match t
    case Nil =>
      assert Written(t, b) + rest == rest;
    case Plain(c, more) =>
      assert Written(t, b) + rest == [c] + (Written(more, b) + rest);
      ScanSteps(c, Written(more, b) + rest, depth, b);
      ScanWritten(more, b, rest, depth);
    case Escape(c, more) =>
      assert Written(t, b) + rest == ['\\', c] + (Written(more, b) + rest);
      ScanSteps(c, Written(more, b) + rest, depth, b);
      ScanWritten(more, b, rest, depth);
    case Group(inner, more) =>
      var after := [b.close] + (Written(more, b) + rest);
      assert Written(t, b) + rest == [b.open] + (Written(inner, b) + after);
      ScanSteps('.', Written(inner, b) + after, depth, b);
      ScanWritten(inner, b, after, depth + 1);
      ScanSteps('.', Written(more, b) + rest, depth + 1, b);
      ScanWritten(more, b, rest, depth);
  }

  /** Texts at decreasing depths, with the delimiters that close them in between. */
  function Joined(ts: seq<Text>, b: Pair): string
    requires |ts| > 0
  {
    if |ts| == 1 then Written(ts[0], b) else Written(ts[0], b) + [b.close] + Joined(ts[1..], b)
  }

  ghost predicate AllFit(ts: seq<Text>, b: Pair) {
    forall j :: 0 <= j < |ts| ==> Fits(ts[j], b, j == |ts| - 1)
  }

  lemma JoinedStep(t: Text, ts: seq<Text>, b: Pair)
    requires |ts| > 0
    ensures Joined([t] + ts, b) == Written(t, b) + [b.close] + Joined(ts, b)
  {
    assert ([t] + ts)[1..] == ts;
  }

  lemma JoinedFirst(t: Text, ts: seq<Text>, b: Pair, front: string)
    requires |ts| > 0 && Written(t, b) == front + Written(ts[0], b)
    ensures Joined([t] + ts[1..], b) == front + Joined(ts, b)
  {
    assert ([t] + ts[1..])[1..] == ts[1..];
    assert |ts| > 1 ==> ts == [ts[0]] + ts[1..];
  }

  lemma GroupWritten(inner: Text, rest: Text, b: Pair)
    ensures Written(Group(inner, rest), b) == ([b.open] + Written(inner, b) + [b.close]) + Written(rest, b)
  {
  }

  lemma JoinedGroup(ts: seq<Text>, b: Pair)
    requires |ts| > 1
    ensures Joined([Group(ts[0], ts[1])] + ts[2..], b) == [b.open] + Joined(ts, b)
  {
    hide Written, Joined;
    GroupWritten(ts[0], ts[1], b);
    JoinedFirst(Group(ts[0], ts[1]), ts[1..], b, [b.open] + Written(ts[0], b) + [b.close]);
    assert ts[1..][1..] == ts[2..];
    JoinedStep(ts[0], ts[1..], b);
    assert ts == [ts[0]] + ts[1..];
  }

  /** A scan of `s` passes over the texts `ts`, closing one level after each. */
  ghost predicate Reads(s: string, depth: nat, b: Pair, ts: seq<Text>) {
    var n := Scan(s, depth, b);
    && n < |s| && b.Ends(s[n])
    && |ts| == depth + 1 && AllFit(ts, b) && Joined(ts, b) == s[..n]
  }

  lemma ReadsNothing(s: string, b: Pair)
    requires b.Valid() && s != "" && Scan(s, 0, b) == 0
    ensures Reads(s, 0, b, [Nil])
  {
    hide IsSpace;
  }

  lemma ReadsOne(c: char, s: string, depth: nat, b: Pair, ts: seq<Text>)
    requires b.Valid() && Reads(s, depth, b, ts)
    ensures Reads(['\\', c] + s, depth, b, [Escape(c, ts[0])] + ts[1..])
    ensures c != '\\' && c != b.open && c != b.close && !(b.spaces && depth == 0 && IsSpace(c)) ==>
              Reads([c] + s, depth, b, [Plain(c, ts[0])] + ts[1..])
  {
    hide IsSpace, Joined, Scan;
    ScanSteps(c, s, depth, b);
    JoinedFirst(Plain(c, ts[0]), ts, b, [c]);
    JoinedFirst(Escape(c, ts[0]), ts, b, ['\\', c]);
  }

  lemma ReadsClose(s: string, depth: nat, b: Pair, ts: seq<Text>)
    requires b.Valid() && Reads(s, depth, b, ts)
    ensures Reads([b.close] + s, depth + 1, b, [Nil] + ts)
  {
    hide IsSpace, Joined, Scan;
    ScanSteps('.', s, depth + 1, b);
    JoinedStep(Nil, ts, b);
  }

  lemma ReadsOpen(s: string, depth: nat, b: Pair, ts: seq<Text>)
    requires b.Valid() && b.open != b.close && Reads(s, depth + 1, b, ts)
    ensures Reads([b.open] + s, depth, b, [Group(ts[0], ts[1])] + ts[2..])
  {
    hide IsSpace, Joined, Scan;
    ScanSteps('.', s, depth, b);
    JoinedGroup(ts, b);
  }

  /** Whatever a scan passes over is text closed off level by level. */
  lemma {:induction false} ScanReads(s: string, depth: nat, b: Pair) returns (ts: seq<Text>)
    requires b.Valid() && Scan(s, depth, b) < |s|
    ensures |ts| == depth + 1 && Reads(s, depth, b, ts)
    decreases |s|
  {
    hide IsSpace, Reads;
    if s[0] == '\\' {
      assert s == ['\\', s[1]] + s[2..];
      ts := ScanReads(s[2..], depth, b);
      ReadsOne(s[1], s[2..], depth, b, ts);
      assert Reads(s, depth, b, [Escape(s[1], ts[0])] + ts[1..]);
      ts := [Escape(s[1], ts[0])] + ts[1..];
    } else if Scan(s, depth, b) == 0 {
      ReadsNothing(s, b);
      ts := [Nil];
    } else {
      assert s == [s[0]] + s[1..];
      if s[0] == b.close {
        ts := ScanReads(s[1..], depth - 1, b);
        ReadsClose(s[1..], depth - 1, b, ts);
        ts := [Nil] + ts;
      } else if s[0] == b.open {
        ts := ScanReads(s[1..], depth + 1, b);
        ReadsOpen(s[1..], depth, b, ts);
        ts := [Group(ts[0], ts[1])] + ts[2..];
      } else {
        ts := ScanReads(s[1..], depth, b);
        ReadsOne(s[0], s[1..], depth, b, ts);
        ts := [Plain(s[0], ts[0])] + ts[1..];
      }
    }
  }

  ghost predicate Writes(t: Text, b: Pair, s: string) {
    Fits(t, b, true) && Written(t, b) == s
  }

  /** Scanning accepts exactly the text in which delimiters are escaped or paired. */
  lemma BalancedIsText(s: string, b: Pair)
    requires b.Valid()
    ensures Balanced(s, b) <==> exists t :: Writes(t, b, s)
  {
    if Balanced(s, b) {
      var ts := ScanReads(s + [b.close], 0, b);
      assert Writes(ts[0], b, s);
    }
    if t :| Writes(t, b, s) {
      ScanWritten(t, b, [b.close], 0);
    }
  }

  lemma EndsAtOnce(rest: string, b: Pair)
    requires b.Valid() && (rest == "" || b.Ends(rest[0]))
    ensures Scan(rest, 0, b) == 0
  {
    assert !IsSpace('\\');
    hide IsSpace;
  }

  /** Balanced text ends where a delimiter, or nothing, follows it. */
  lemma ScanBalanced(s: string, b: Pair, rest: string)
    requires b.Valid() && Balanced(s, b) && (rest == "" || b.Ends(rest[0]))
    ensures Scan(s + rest, 0, b) == |s|
  {
    hide IsSpace, Fits, Written, Balanced, Scan;
    EndsAtOnce(rest, b);
    BalancedIsText(s, b);
    var t :| Writes(t, b, s);
    ScanWritten(t, b, rest, 0);
  }

  lemma ScannedIsBalanced(s: string, b: Pair)
    requires b.Valid() && Scan(s, 0, b) < |s|
    ensures Balanced(s[..Scan(s, 0, b)], b) && b.Ends(s[Scan(s, 0, b)])
  {
    var ts := ScanReads(s, 0, b);
    assert Writes(ts[0], b, s[..Scan(s, 0, b)]);
    BalancedIsText(s[..Scan(s, 0, b)], b);
  }

  // ----- Where a destination stands -----

  function SpaceEnd(s: string, from: nat): (i: nat)
    requires from <= |s|
    ensures from <= i <= |s| && (i < |s| ==> !IsSpace(s[i]))
    ensures forall k :: from <= k < i ==> IsSpace(s[k])
    decreases |s| - from
  {
    if from < |s| && IsSpace(s[from]) then SpaceEnd(s, from + 1) else from
  }

  function ScanFrom(s: string, from: nat, depth: nat, b: Pair): (end: nat)
    ensures from <= |s| ==> from <= end <= |s|
  {
    if from <= |s| then from + Scan(s[from..], depth, b) else |s|
  }

  datatype Kind = Inline | Image | Definition
  datatype Range = Range(start: nat, end: nat)
  datatype Failure = NoLabelEnd | NoSeparator | NoDestination | NoAngleEnd

  function LabelEndOf(s: string): (end: int)
    ensures -1 <= end < |s|
  {
    var first := IndexOf(s, '[', 0);
    if first == -1 then -1
    else
      var end := ScanFrom(s, first + 1, 0, BRACKETS);
      if end < |s| then end else -1
  }

  /** The first colon behind the label of a definition, or the parenthesis right behind any other. */
  function SeparatorAt(raw: string, kind: Kind): (r: Result<nat, Failure>)
    ensures r.Ok? ==> r.value < |raw| && raw[r.value] == SignOf(kind)
  {
    var endOfLabel := LabelEndOf(raw);
    if endOfLabel == -1 then Err(NoLabelEnd)
    else if kind == Definition then
      var colon := IndexOf(raw, ':', endOfLabel + 1);
      if colon == -1 then Err(NoSeparator) else Ok(colon)
    else if endOfLabel + 1 == |raw| || raw[endOfLabel + 1] != '(' then Err(NoDestination)
    else Ok(endOfLabel + 1)
  }

  function DestinationStart(raw: string, kind: Kind): (r: Result<nat, Failure>)
    ensures r.Ok? ==> r.value <= |raw|
  {
    var separator := SeparatorAt(raw, kind);
    if separator.Err? then Err(separator.error) else Ok(SpaceEnd(raw, separator.value + 1))
  }

  function DestinationRangeOf(raw: string, kind: Kind): (r: Result<Range, Failure>)
    ensures r.Ok? ==> r.value.start <= r.value.end <= |raw|
  {
    var start := DestinationStart(raw, kind);
    if start.Err? then Err(start.error)
    else if start.value < |raw| && raw[start.value] == '<' then
      var end := ScanFrom(raw, start.value + 1, 0, ANGLES);
      if end < |raw| then Ok(Range(start.value + 1, end)) else Err(NoAngleEnd)
    else Ok(Range(start.value, ScanFrom(raw, start.value, 0, PARENS)))
  }

  method SkipWhitespace(source: string, start: nat) returns (index: nat)
    requires start <= |source|
    ensures index == SpaceEnd(source, start)
  {
    index := start;
    while index < |source| && IsSpace(source[index])
      invariant start <= index <= |source| && SpaceEnd(source, index) == SpaceEnd(source, start)
    {
      index := index + 1;
    }
  }

  method LabelEnd(source: string) returns (end: int)
    ensures end == LabelEndOf(source)
  {
    var first := IndexOf(source, '[', 0);
    if first == -1 {
      return -1;
    }
    var depth, index := 0, first;
    while index < |source|
      invariant first <= index <= |source| + 1
      invariant index == first ==> depth == 0
      invariant index > first ==> depth > 0
      invariant index > first ==> ScanFrom(source, index, depth - 1, BRACKETS) == ScanFrom(source, first + 1, 0, BRACKETS)
      decreases |source| + 1 - index
    {
      var c := source[index];
      if c == '\\' {
        index := index + 1;
      } else if c == '[' {
        depth := depth + 1;
      } else if c == ']' {
        depth := depth - 1;
        if depth == 0 {
          return index;
        }
      }
      index := index + 1;
    }
    return -1;
  }

  method DestinationRange(raw: string, kind: Kind) returns (range: Result<Range, Failure>)
    ensures range == DestinationRangeOf(raw, kind)
  {
    hide LabelEndOf, SpaceEnd, ScanFrom, IsSpace;
    var endOfLabel := LabelEnd(raw);
    if endOfLabel == -1 {
      return Err(NoLabelEnd);
    }
    var start: nat;
    if kind == Definition {
      var colon := IndexOf(raw, ':', endOfLabel + 1);
      if colon == -1 {
        return Err(NoSeparator);
      }
      start := SkipWhitespace(raw, colon + 1);
    } else {
      if endOfLabel + 1 == |raw| || raw[endOfLabel + 1] != '(' {
        return Err(NoDestination);
      }
      start := SkipWhitespace(raw, endOfLabel + 2);
    }
    if start < |raw| && raw[start] == '<' {
      range := AngleEnd(raw, start);
    } else {
      var end := BareEnd(raw, start);
      range := Ok(Range(start, end));
    }
  }

  method AngleEnd(raw: string, start: nat) returns (range: Result<Range, Failure>)
    requires start < |raw|
    ensures var end := ScanFrom(raw, start + 1, 0, ANGLES);
            range == if end < |raw| then Ok(Range(start + 1, end)) else Err(NoAngleEnd)
  {
    var index := start + 1;
    while index < |raw|
      invariant index <= |raw| + 1
      invariant ScanFrom(raw, index, 0, ANGLES) == ScanFrom(raw, start + 1, 0, ANGLES)
      decreases |raw| + 1 - index
    {
      if raw[index] == '\\' {
        index := index + 1;
      } else if raw[index] == '>' {
        return Ok(Range(start + 1, index));
      }
      index := index + 1;
    }
    return Err(NoAngleEnd);
  }

  method BareEnd(raw: string, start: nat) returns (end: nat)
    requires start <= |raw|
    ensures end == ScanFrom(raw, start, 0, PARENS)
  {
    var depth, index := 0, start;
    while index < |raw|
      invariant index <= |raw| + 1 && 0 <= depth
      invariant ScanFrom(raw, index, depth, PARENS) == ScanFrom(raw, start, 0, PARENS)
      decreases |raw| + 1 - index
    {
      var c := raw[index];
      if c == '\\' {
        index := index + 1;
      } else if c == '(' {
        depth := depth + 1;
      } else if c == ')' {
        if depth == 0 {
          return index;
        }
        depth := depth - 1;
      } else if IsSpace(c) && depth == 0 {
        return index;
      }
      index := index + 1;
    }
    return |raw|;
  }

  // ----- What is printed around a destination -----

  predicate AllSpace(s: string) {
    forall k :: 0 <= k < |s| ==> IsSpace(s[k])
  }

  predicate IsGap(s: string) {
    forall k :: 0 <= k < |s| ==> IsSpace(s[k]) || s[k] == '>'
  }

  /** What may stand before a destination: white space, and the marks of a block quote that goes on over lines. */
  type Gap = s: string | IsGap(s)

  function Opening(kind: Kind): string { if kind == Image then "![" else "[" }

  function Separator(kind: Kind): string { [']', SignOf(kind)] }

  function SignOf(kind: Kind): char { if kind == Definition then ':' else '(' }

  /** What is printed between a caption and a destination. */
  function Middle(kind: Kind, space: string, angle: bool): string {
    Separator(kind) + space + (if angle then "<" else "")
  }

  /** Everything printed before a destination. */
  function Lead(kind: Kind, caption: string, space: string, angle: bool): string {
    Opening(kind) + caption + Middle(kind, space, angle)
  }

  /**
   * The separator found is the printed one: the label ends where the caption does, or, for a
   * definition, in the caption with no colon behind.
   */
  predicate LabelLeads(kind: Kind, caption: string) {
    var n := Scan(caption + "]", 0, BRACKETS);
    n <= |caption| && if kind == Definition then ':' !in (caption + "]")[n + 1..] else n == |caption|
  }

  /** A destination in angle brackets, or a bare one, with what ends it. */
  predicate Delimited(angle: bool, dest: string, tail: string) {
    if angle then Balanced(dest, ANGLES) && tail != "" && tail[0] == '>'
    else
      && (dest + tail != "" ==> (dest + tail)[0] != '<' && !IsSpace((dest + tail)[0]))
      && if tail == "" then Scan(dest, 0, PARENS) == |dest| else Balanced(dest, PARENS) && PARENS.Ends(tail[0])
  }

  predicate WellPrinted(kind: Kind, caption: string, space: string, angle: bool, dest: string, tail: string) {
    LabelLeads(kind, caption) && AllSpace(space) && Delimited(angle, dest, tail)
  }

  lemma NoSpaces()
    ensures BRACKETS.Valid() && PARENS.Valid() && ANGLES.Valid() && !IsSpace('<')
  {
  }

  // ----- Where a label ends -----

  /** A scan that ends in `s` ends there whatever follows. */
  lemma {:induction false} ScanAhead(s: string, rest: string, depth: nat, b: Pair)
    ensures Scan(s, depth, b) < |s| ==> Scan(s + rest, depth, b) == Scan(s, depth, b)
    ensures Scan(s, depth, b) == |s| ==> Scan(s + rest, depth, b) >= |s|
    decreases |s|
  {
    hide IsSpace;
    if s != "" {
      assert (s + rest)[0] == s[0] && (s + rest)[1..] == s[1..] + rest;
      if s[0] == '\\' {
        if |s| > 1 {
          assert (s + rest)[2..] == s[2..] + rest;
          ScanAhead(s[2..], rest, depth, b);
        }
      } else if s[0] == b.close {
        if depth > 0 {
          ScanAhead(s[1..], rest, depth - 1, b);
        }
      } else if s[0] == b.open {
        ScanAhead(s[1..], rest, depth + 1, b);
      } else {
        ScanAhead(s[1..], rest, depth, b);
      }
    }
  }

  lemma OpeningShape(kind: Kind)
    ensures var open := Opening(kind);
            |open| > 0 && open[|open| - 1] == '[' && forall k :: 0 <= k < |open| - 1 ==> open[k] != '['
  {
  }

  /** A label that ends in its caption ends there whatever is printed behind. */
  lemma LabelEndIn(kind: Kind, caption: string, rest: string)
    ensures var open, n, end := |Opening(kind)|, Scan(caption + "]", 0, BRACKETS), LabelEndOf(Opening(kind) + caption + "]" + rest);
            if n <= |caption| then end == open + n else end == -1 || end > open + |caption|
  {
    hide Scan, Opening;
    OpeningShape(kind);
    var open, after := Opening(kind), (caption + "]") + rest;
    var raw := open + after;
    assert open + caption + "]" + rest == raw;
    assert forall k :: 0 <= k < |open| ==> raw[k] == open[k];
    assert IndexOf(raw, '[', 0) == |open| - 1;
    assert raw[|open|..] == after;
    ScanAhead(caption + "]", rest, 0, BRACKETS);
  }

  /**
   * The label of a node is found exactly when brackets balance in it as it is printed: a lone
   * bracket in a code span, which CommonMark allows there, is enough to miss it.
   */
  lemma LabelFoundExactly(kind: Kind, caption: string, rest: string)
    ensures LabelEndOf(Opening(kind) + caption + "]" + rest) == |Opening(kind)| + |caption| <==>
            Balanced(caption, BRACKETS)
  {
    hide Scan, LabelEndOf, Opening;
    LabelEndIn(kind, caption, rest);
  }

  /** A range that ends inside any text is delimited as a destination must be. */
  lemma RangeIsDelimited(raw: string, kind: Kind)
    requires DestinationRangeOf(raw, kind).Ok? && DestinationRangeOf(raw, kind).value.end < |raw|
    ensures var start, r := DestinationStart(raw, kind).value, DestinationRangeOf(raw, kind).value;
            if raw[start] == '<' then r.start == start + 1 && Balanced(raw[r.start..r.end], ANGLES) && raw[r.end] == '>'
            else r.start == start && Balanced(raw[r.start..r.end], PARENS) && PARENS.Ends(raw[r.end])
  {
    hide Balanced, IsSpace, Scan, DestinationStart;
    NoSpaces();
    var r := DestinationRangeOf(raw, kind).value;
    ScannedIsBalanced(raw[r.start..], if raw[DestinationStart(raw, kind).value] == '<' then ANGLES else PARENS);
    assert raw[r.start..][..r.end - r.start] == raw[r.start..r.end];
  }

  // ----- Exactly which printed destinations are found -----

  function PairOf(angle: bool): Pair { if angle then ANGLES else PARENS }

  /** The separator found is the printed one exactly when the label leads to it. */
  lemma SeparatorExactly(kind: Kind, caption: string, rest: string)
    ensures SeparatorAt(Opening(kind) + caption + "]" + ([SignOf(kind)] + rest), kind) == Ok(|Opening(kind)| + |caption| + 1)
            <==> LabelLeads(kind, caption)
  {
    hide Scan, LabelEndOf, Opening;
    LabelEndIn(kind, caption, [SignOf(kind)] + rest);
    var open, text := Opening(kind), caption + "]";
    var raw := open + caption + "]" + ([SignOf(kind)] + rest);
    assert raw == open + text + ([SignOf(kind)] + rest);
    assert raw[|open| + |text|] == SignOf(kind);
    assert forall k :: 0 <= k < |text| ==> raw[|open| + k] == text[k];
  }

  /** White space from a separator, and a gap from another, meet only when they are the same. */
  lemma OnlySeparator(raw: string, kind: Kind, a: nat, b: nat, start: nat)
    requires a < start <= |raw| && b < start && raw[a] == raw[b] == SignOf(kind)
    requires AllSpace(raw[a + 1..start]) && IsGap(raw[b + 1..start])
    ensures a == b
  {
    assert !IsSpace(SignOf(kind));
    hide IsSpace;
    forall k | a < k < start ensures raw[k] == raw[a + 1..start][k - (a + 1)] {
    }
    forall k | b < k < start ensures raw[k] == raw[b + 1..start][k - (b + 1)] {
    }
  }

  lemma LeadIs(kind: Kind, caption: string, space: string)
    ensures Lead(kind, caption, space, false) == Opening(kind) + caption + "]" + ([SignOf(kind)] + space)
    ensures Lead(kind, caption, space, true) == Lead(kind, caption, space, false) + "<"
  {
    hide Opening, SignOf;
  }

  lemma PrintedParts(open: string, caption: string, sign: char, gap: string, rest: string)
    ensures var raw := open + caption + "]" + ([sign] + gap) + rest;
            var at := |open| + |caption| + 1;
            && raw == open + caption + "]" + ([sign] + (gap + rest)) && |raw| == at + 1 + |gap| + |rest|
            && raw[at] == sign && raw[at + 1..at + 1 + |gap|] == gap
            && (forall k :: 0 <= k < |gap| ==> raw[at + 1 + k] == gap[k])
            && (rest != "" ==> raw[at + 1 + |gap|] == rest[0])
  {
  }

  /** White space from `from` ends at `to` exactly when it fills what is between and does not go on. */
  lemma SpaceEndIs(raw: string, from: nat, to: nat)
    requires from <= to <= |raw|
    ensures SpaceEnd(raw, from) == to <==> AllSpace(raw[from..to]) && (to < |raw| ==> !IsSpace(raw[to]))
  {
    hide IsSpace;
    var end := SpaceEnd(raw, from);
    forall k | from <= k < to ensures raw[k] == raw[from..to][k - from] {
    }
    assert end < to ==> raw[end] == raw[from..to][end - from];
  }

  /** A destination starts behind a gap exactly when its separator is found and nothing but white space is between. */
  lemma StartBehind(raw: string, kind: Kind, at: nat, to: nat)
    requires at < to <= |raw| && raw[at] == SignOf(kind) && IsGap(raw[at + 1..to])
    ensures DestinationStart(raw, kind) == Ok(to) <==>
            SeparatorAt(raw, kind) == Ok(at) && AllSpace(raw[at + 1..to]) && (to < |raw| ==> !IsSpace(raw[to]))
  {
    hide IsSpace, SeparatorAt, SpaceEnd, SignOf, AllSpace, IsGap;
    SpaceEndIs(raw, at + 1, to);
    if DestinationStart(raw, kind) == Ok(to) {
      var found := SeparatorAt(raw, kind).value;
      SpaceEndIs(raw, found + 1, to);
      OnlySeparator(raw, kind, found, at, to);
    }
  }

  /** The place behind the printed gap is reached exactly by the printed separator and white space. */
  lemma StartExactly(kind: Kind, caption: string, gap: Gap, rest: string)
    ensures var lead := Lead(kind, caption, gap, false);
            DestinationStart(lead + rest, kind) == Ok(|lead|) <==>
            LabelLeads(kind, caption) && AllSpace(gap) && (rest != "" ==> !IsSpace(rest[0]))
  {
    hide IsSpace, LabelLeads, SeparatorAt, DestinationStart, Opening, SignOf, Lead, AllSpace, IsGap;
    LeadIs(kind, caption, gap);
    PrintedParts(Opening(kind), caption, SignOf(kind), gap, rest);
    SeparatorExactly(kind, caption, gap + rest);
    StartBehind(Lead(kind, caption, gap, false) + rest, kind, |Opening(kind)| + |caption| + 1, |Lead(kind, caption, gap, false)|);
  }

  /** No angle bracket ends what is printed before a destination. */
  lemma LeadEnds(kind: Kind, caption: string, gap: Gap)
    ensures var lead := Lead(kind, caption, gap, false);
            lead != "" && lead[|lead| - 1] != '<'
  {
    hide IsSpace;
    NoSpaces();
    LeadIs(kind, caption, gap);
    var lead := Lead(kind, caption, gap, false);
    assert lead[|lead| - 1] == if gap == "" then SignOf(kind) else gap[|gap| - 1];
  }

  lemma StartIsReached(raw: string, kind: Kind)
    requires DestinationStart(raw, kind).Ok?
    ensures var start := DestinationStart(raw, kind).value;
            start > 0 && raw[start - 1] != '<'
  {
    hide SeparatorAt, IsSpace;
    NoSpaces();
  }

  /** A range that begins where the printed destination does was reached from the printed start. */
  lemma StartOfRange(kind: Kind, bare: string, angle: bool, rest: string)
    requires bare != "" && bare[|bare| - 1] != '<'
    requires var range := DestinationRangeOf(bare + (if angle then "<" else "") + rest, kind);
             range.Ok? && range.value.start == |bare| + if angle then 1 else 0
    ensures DestinationStart(bare + (if angle then "<" else "") + rest, kind) == Ok(|bare|)
  {
    hide DestinationStart, ScanFrom;
    var raw := bare + (if angle then "<" else "") + rest;
    StartIsReached(raw, kind);
    assert raw[|bare| - 1] == bare[|bare| - 1] && (angle ==> raw[|bare|] == '<');
  }

  /** A scan takes the whole of a text exactly when it balances and what follows ends it. */
  lemma ScanExactly(dest: string, tail: string, b: Pair)
    requires b.Valid() && tail != ""
    ensures Scan(dest + tail, 0, b) == |dest| <==> Balanced(dest, b) && b.Ends(tail[0])
  {
    hide IsSpace, Scan, Balanced;
    if Balanced(dest, b) && b.Ends(tail[0]) {
      ScanBalanced(dest, b, tail);
    }
    if Scan(dest + tail, 0, b) == |dest| {
      ScannedIsBalanced(dest + tail, b);
      assert (dest + tail)[..|dest|] == dest;
    }
  }

  /** From its start, the range ends with the destination exactly when it is delimited. */
  lemma EndExactly(lead: string, angle: bool, dest: string, tail: string)
    requires !angle && dest + tail != "" ==> (dest + tail)[0] != '<' && !IsSpace((dest + tail)[0])
    ensures ScanFrom(lead + dest + tail, |lead|, 0, PairOf(angle)) == |lead| + |dest| && (angle ==> tail != "") <==>
            Delimited(angle, dest, tail)
  {
    hide IsSpace, Scan, Balanced;
    NoSpaces();
    assert (lead + dest + tail)[|lead|..] == dest + tail;
    if tail == "" {
      assert dest + tail == dest;
    } else {
      ScanExactly(dest, tail, PairOf(angle));
    }
  }

  /**
   * The destination of any link, image or definition is found exactly when its label leads to it, only
   * white space stands before it, and it is delimited.
   */
  lemma RangeFoundExactly(kind: Kind, caption: string, gap: Gap, angle: bool, dest: string, tail: string)
    ensures var lead := Lead(kind, caption, gap, angle);
            DestinationRangeOf(lead + dest + tail, kind) == Ok(Range(|lead|, |lead| + |dest|)) <==>
            WellPrinted(kind, caption, gap, angle, dest, tail)
  {
    hide IsSpace, ScanFrom, DestinationStart, Lead, LabelLeads, AllSpace, Balanced, Scan;
    NoSpaces();
    var lead, bare := Lead(kind, caption, gap, angle), Lead(kind, caption, gap, false);
    var mark := if angle then "<" else "";
    var raw := lead + dest + tail;
    LeadIs(kind, caption, gap);
    LeadEnds(kind, caption, gap);
    assert raw == bare + (mark + dest + tail) && raw == bare + mark + (dest + tail);
    StartExactly(kind, caption, gap, mark + dest + tail);
    if DestinationRangeOf(raw, kind) == Ok(Range(|lead|, |lead| + |dest|)) {
      StartOfRange(kind, bare, angle, dest + tail);
    }
    assert !angle && dest + tail != "" ==> raw[|bare|] == (mark + dest + tail)[0] == (dest + tail)[0];
    if !angle && dest + tail != "" ==> (dest + tail)[0] != '<' && !IsSpace((dest + tail)[0]) {
      EndExactly(lead, angle, dest, tail);
    }
  }

  /** A scan goes past a character that is nothing special. */
  lemma ScanPast(c: char, s: string, rest: string, depth: nat, b: Pair)
    requires b.Valid() && s == [c] + rest && c != '\\' && c != b.open && c != b.close && !IsSpace(c)
    ensures Scan(s, depth, b) == 1 + Scan(rest, depth, b)
  {
    ScanSteps(c, rest, depth, b);
  }

  lemma LetterShapes()
    ensures IsSpace(' ') && forall c :: c in "`ab.md(t\">" ==> !IsSpace(c)
    ensures BRACKETS.open == '[' && BRACKETS.close == ']' && PARENS.open == '(' && PARENS.close == ')'
  {
  }

  /** ``[`[`](a.md)``: CommonMark reads a link with a code span in its label; the scanner sees no label end. */
  lemma LoneBracketMissed()
    ensures !Balanced("`[`", BRACKETS)
    ensures DestinationRangeOf("[`[`](a.md)", Inline) == Err(NoLabelEnd)
  {
    LoneBracketUnbalanced();
    hide LabelEndOf, Balanced;
    LoneBracketHasNoEnd();
  }

  lemma LoneBracketUnbalanced()
    ensures !Balanced("`[`", BRACKETS)
  {
    hide Scan, IsSpace;
    NoSpaces();
    LoneBracketScan("");
    EndsAtOnce("", BRACKETS);
    assert "`[`" + "]" == "`[`]" + "";
  }

  lemma LoneBracketHasNoEnd()
    ensures LabelEndOf("[`[`](a.md)") == -1
  {
    hide Scan, IsSpace;
    LoneBracketScan("(a.md)");
    FileScan();
    assert "[`[`](a.md)"[1..] == "`[`]" + "(a.md)";
  }

  lemma FileScan()
    ensures Scan("(a.md)", 0, BRACKETS) == 6
  {
    hide Scan, IsSpace;
    NoSpaces();
    LetterShapes();
    ScanPast(')', ")", "", 0, BRACKETS);
    ScanPast('d', "d)", ")", 0, BRACKETS);
    ScanPast('m', "md)", "d)", 0, BRACKETS);
    ScanPast('.', ".md)", "md)", 0, BRACKETS);
    ScanPast('a', "a.md)", ".md)", 0, BRACKETS);
    ScanPast('(', "(a.md)", "a.md)", 0, BRACKETS);
  }

  lemma LoneBracketScan(rest: string)
    ensures Scan("`[`]" + rest, 0, BRACKETS) == 4 + Scan(rest, 0, BRACKETS)
  {
    hide Scan, IsSpace;
    NoSpaces();
    LetterShapes();
    assert "`[`]" + rest == "`" + ("[" + ("`" + ("]" + rest)));
    ScanPast('`', "`" + ("[" + ("`" + ("]" + rest))), "[" + ("`" + ("]" + rest)), 0, BRACKETS);
    ScanSteps('`', "`" + ("]" + rest), 0, BRACKETS);
    ScanPast('`', "`" + ("]" + rest), "]" + rest, 1, BRACKETS);
    ScanSteps('`', rest, 1, BRACKETS);
  }

  /** `[a](b\ "t")`: a backslash before a space is literal, but the scanner skips both and takes in the title. */
  lemma EscapedSpaceSwallowed()
    ensures !Balanced("b\\", PARENS)
    ensures DestinationRangeOf("[a](b\\ \"t\")", Inline) == Ok(Range(4, 10))
  {
    EscapedSpaceScans();
    LetterShapes();
    hide Scan, IsSpace, DestinationStart;
    var raw := "[a](b\\ \"t\")";
    LetterStarts("", raw[4..]);
    assert "[a](" + "" + raw[4..] == raw;
    assert raw[4..] == "b\\ \"t\")";
  }

  lemma LetterLead(gap: string)
    ensures Lead(Inline, "a", gap, false) == "[a](" + gap
  {
  }

  lemma LetterStarts(gap: Gap, rest: string)
    requires AllSpace(gap) && rest != "" && !IsSpace(rest[0])
    ensures DestinationStart("[a](" + gap + rest, Inline) == Ok(4 + |gap|)
  {
    hide Scan, IsSpace, AllSpace, IsGap, DestinationStart, Lead;
    EscapedSpaceScans();
    LetterLead(gap);
    StartExactly(Inline, "a", gap, rest);
  }

  /** ``> [a](`` and ``> b.md)``: the mark of the block quote is taken for the destination, and the link is lost. */
  lemma QuotedGapMissed(target: string)
    ensures IsGap("\n> ") && LabelLeads(Inline, "a") && Delimited(false, "b.md", ")")
    ensures DestinationRangeOf("[a](\n> b.md)", Inline) == Ok(Range(5, 6))
    ensures Replaced("[a](\n> b.md)", Replacement(5, 6, target)) == "[a](\n" + target + " b.md)"
  {
    hide IsGap, LabelLeads, Delimited, DestinationRangeOf;
    QuotedIsPrinted();
    QuotedRange();
  }

  lemma QuotedIsPrinted()
    ensures IsGap("\n> ") && LabelLeads(Inline, "a") && Delimited(false, "b.md", ")")
  {
    WhiteShapes();
    NameScans();
    EscapedSpaceScans();
    hide Scan, IsSpace;
    assert ("b.md" + ")")[0] == 'b';
  }

  lemma WhiteShapes()
    ensures IsSpace('\n') && IsSpace(' ') && IsSpace('\U{A0}') && !IsSpace('>') && !IsSpace('b')
  {
  }

  lemma QuotedRange()
    ensures DestinationRangeOf("[a](\n> b.md)", Inline) == Ok(Range(5, 6))
  {
    WhiteShapes();
    NameScans();
    hide Scan, IsSpace, DestinationStart;
    LetterStarts("\n", "> b.md)");
    var raw := "[a](" + "\n" + "> b.md)";
    assert raw[5..] == "> b.md)";
    assert raw == "[a](\n> b.md)";
  }

  lemma NameScans()
    ensures Scan("> b.md)", 0, PARENS) == 1 && Balanced("b.md", PARENS)
  {
    hide Scan, IsSpace;
    NoSpaces();
    LetterShapes();
    ScanSteps(')', "", 0, PARENS);
    assert ")" == ")" + "" && "b.md" + ")" == "b.md)" && " b.md)" == [' '] + "b.md)";
    ScanPast('d', "d)", ")", 0, PARENS);
    ScanPast('m', "md)", "d)", 0, PARENS);
    ScanPast('.', ".md)", "md)", 0, PARENS);
    ScanPast('b', "b.md)", ".md)", 0, PARENS);
    ScanSteps(' ', "b.md)", 0, PARENS);
    ScanPast('>', "> b.md)", " b.md)", 0, PARENS);
  }

  /** A no-break space, which CommonMark takes as the first character of a bare destination, is skipped. */
  lemma NoBreakSpaceSkipped()
    ensures DestinationStart("[a](\U{A0}b)", Inline) == Ok(5)
  {
    WhiteShapes();
    hide IsSpace, DestinationStart;
    LetterStarts("\U{A0}", "b)");
    assert "[a](" + "\U{A0}" + "b)" == "[a](\U{A0}b)";
  }

  lemma EscapedSpaceScans()
    ensures Scan("b\\ \"t\")", 0, PARENS) == 6
    ensures !Balanced("b\\", PARENS) && Balanced("a", BRACKETS)
  {
    hide Scan, IsSpace;
    NoSpaces();
    LetterShapes();
    ScanSteps(')', "", 0, PARENS);
    assert ")" == ")" + "" && "]" == "]" + "";
    ScanPast('"', "\")", ")", 0, PARENS);
    ScanPast('t', "t\")", "\")", 0, PARENS);
    ScanPast('"', "\"t\")", "t\")", 0, PARENS);
    ScanSteps(' ', "\"t\")", 0, PARENS);
    assert "\\ \"t\")" == ['\\', ' '] + "\"t\")" && "\\)" == ['\\', ')'] + "";
    ScanPast('b', "b\\ \"t\")", "\\ \"t\")", 0, PARENS);
    ScanPast('b', "b\\)", "\\)", 0, PARENS);
    assert "b\\" + ")" == "b\\)" && "a" + "]" == "a]";
    ScanSteps(']', "", 0, BRACKETS);
    ScanPast('a', "a]", "]", 0, BRACKETS);
  }

  // ----- Documents -----

  /** Markdown as the parser sees it: text to keep, and nodes that carry a destination. */
  datatype Doc =
    | End
    | Verbatim(text: string, rest: Doc)
    | Link(kind: Kind, caption: Doc, space: Gap, angle: bool, dest: string, tail: string,
           target: Option<string>, rest: Doc)

  function LeadOf(d: Doc): string
    requires d.Link?
    decreases d, 0
  {
    Lead(d.kind, Print(d.caption), d.space, d.angle)
  }

  function Print(d: Doc): string
    decreases d, 1
  {
    match d
    case End => ""
    case Verbatim(text, rest) => text + Print(rest)
    case Link(_, _, _, _, dest, tail, _, rest) => LeadOf(d) + dest + tail + Print(rest)
  }

  /** Only a node whose destination is to be replaced has to be one the scanners can take apart. */
  predicate WellFormed(d: Doc) {
    match d
    case End => true
    case Verbatim(_, rest) => WellFormed(rest)
    case Link(kind, caption, space, angle, dest, tail, target, rest) =>
      && (target.Some? ==> WellPrinted(kind, Print(caption), space, angle, dest, tail))
      && WellFormed(caption) && WellFormed(rest)
  }

  /** The same document with each destination replaced by its target. */
  function Retargeted(d: Doc): Doc {
    match d
    case End => End
    case Verbatim(text, rest) => Verbatim(text, Retargeted(rest))
    case Link(kind, caption, space, angle, dest, tail, target, rest) =>
      Link(kind, Retargeted(caption), space, angle, if target.Some? then target.value else dest, tail, target,
           Retargeted(rest))
  }

  // ----- Splicing -----

  datatype Replacement = Replacement(start: nat, end: nat, value: string)

  /** The replacement of one node that stands at `offset`. */
  function OwnAt(d: Doc, offset: nat): seq<Replacement>
    requires d.Link?
  {
    if d.target.None? then []
    else [Replacement(offset + |LeadOf(d)|, offset + |LeadOf(d)| + |d.dest|, d.target.value)]
  }

  function LabelAt(d: Doc, offset: nat): nat
    requires d.Link?
  {
    offset + |Opening(d.kind)|
  }

  function RestAt(d: Doc, offset: nat): nat
    requires d.Link?
  {
    offset + |LeadOf(d)| + |d.dest| + |d.tail|
  }

  /** In the order of the visit: a node before the nodes in its caption. */
  function Visited(d: Doc, offset: nat): seq<Replacement> {
    match d
    case End => []
    case Verbatim(text, rest) => Visited(rest, offset + |text|)
    case Link(_, caption, _, _, _, _, _, rest) =>
      OwnAt(d, offset) + Visited(caption, LabelAt(d, offset)) + Visited(rest, RestAt(d, offset))
  }

  /** From the last to the first in the text. */
  function BackToFront(d: Doc, offset: nat): seq<Replacement> {
    match d
    case End => []
    case Verbatim(text, rest) => BackToFront(rest, offset + |text|)
    case Link(_, caption, _, _, _, _, _, rest) =>
      BackToFront(rest, RestAt(d, offset)) + OwnAt(d, offset) + BackToFront(caption, LabelAt(d, offset))
  }

  /** `slice` on both sides; it clamps what lies beyond the end. */
  function Replaced(s: string, r: Replacement): string {
    s[..Min(r.start, |s|)] + r.value + s[Min(r.end, |s|)..]
  }

  function Min(a: nat, b: nat): nat { if a < b then a else b }

  function Spliced(s: string, rs: seq<Replacement>): string
    decreases |rs|
  {
    if rs == [] then s else Spliced(Replaced(s, rs[0]), rs[1..])
  }

  lemma {:induction false} SplicedTwice(s: string, rs: seq<Replacement>, more: seq<Replacement>)
    ensures Spliced(s, rs + more) == Spliced(Spliced(s, rs), more)
    decreases |rs|
  {
    if rs == [] {
      assert rs + more == more;
    } else {
      assert (rs + more)[1..] == rs[1..] + more;
      SplicedTwice(Replaced(s, rs[0]), rs[1..], more);
    }
  }

  function NewDest(d: Doc): string
    requires d.Link?
  {
    if d.target.Some? then d.target.value else d.dest
  }

  function MiddleOf(d: Doc): string
    requires d.Link?
  {
    Middle(d.kind, d.space, d.angle)
  }

  lemma NodeParts(front: string, d: Doc, back: string)
    requires d.Link?
    ensures front + Print(d) + back == (front + LeadOf(d) + d.dest + d.tail) + Print(d.rest) + back
    ensures LeadOf(d) == Opening(d.kind) + Print(d.caption) + MiddleOf(d)
    ensures LeadOf(Retargeted(d)) == Opening(d.kind) + Print(Retargeted(d.caption)) + MiddleOf(d)
    ensures Print(Retargeted(d)) == LeadOf(Retargeted(d)) + NewDest(d) + d.tail + Print(Retargeted(d.rest))
  {
    hide Lead;
    assert Lead(d.kind, Print(d.caption), d.space, d.angle) == Opening(d.kind) + Print(d.caption) + MiddleOf(d) by {
      LeadParts(d.kind, Print(d.caption), d.space, d.angle);
    }
    LeadParts(d.kind, Print(Retargeted(d.caption)), d.space, d.angle);
    Joins(front, LeadOf(d), d.dest, d.tail, Print(d.rest), back);
  }

  lemma NodePrints(d: Doc)
    requires d.Link?
    ensures LeadOf(d) == Opening(d.kind) + Print(d.caption) + MiddleOf(d)
    ensures Print(d) == LeadOf(d) + d.dest + d.tail + Print(d.rest)
  {
  }

  lemma LeadParts(kind: Kind, caption: string, space: string, angle: bool)
    ensures Lead(kind, caption, space, angle) == Opening(kind) + caption + Middle(kind, space, angle)
  {
  }

  lemma Joins(a: string, b: string, c: string, e: string, r: string, z: string)
    ensures a + (b + c + e + r) + z == (a + b + c + e) + r + z
  {
  }

  lemma OwnRetargets(front: string, d: Doc, after: string)
    requires d.Link?
    ensures Spliced(front + LeadOf(d) + d.dest + after, OwnAt(d, |front|)) == front + LeadOf(d) + NewDest(d) + after
  {
    hide Lead;
    if d.target.Some? {
      var s := front + LeadOf(d) + d.dest + after;
      var own := OwnAt(d, |front|);
      assert s[..own[0].start] == front + LeadOf(d) && s[own[0].end..] == after;
      assert own[1..] == [];
      assert Spliced(Replaced(s, own[0]), []) == Replaced(s, own[0]);
    }
  }

  lemma Regroup(a: string, b: string, c: string, m: string, e: string, t: string, r: string, z: string)
    ensures (a + (b + c + m) + e + t) + r + z == a + (b + c + m) + e + (t + r + z)
    ensures a + (b + c + m) + e + (t + r + z) == (a + b) + c + (m + e + t + r + z)
    ensures (a + b) + c + (m + e + t + r + z) == a + ((b + c + m) + e + t + r) + z
  {
  }

  lemma BackToFrontLink(d: Doc, offset: nat)
    requires d.Link?
    ensures BackToFront(d, offset) ==
            BackToFront(d.rest, RestAt(d, offset)) + OwnAt(d, offset) + BackToFront(d.caption, LabelAt(d, offset))
    ensures RestAt(d, offset) == offset + |LeadOf(d)| + |d.dest| + |d.tail|
    ensures LabelAt(d, offset) == offset + |Opening(d.kind)|
  {
  }

  /** The three groups of replacements of a node, one after the other. */
  lemma SplicedThrice(s: string, later: seq<Replacement>, own: seq<Replacement>, inner: seq<Replacement>)
    ensures Spliced(s, later + own + inner) == Spliced(Spliced(Spliced(s, later), own), inner)
  {
    SplicedTwice(s, later + own, inner);
    SplicedTwice(s, later, own);
  }

  /** Text in its surroundings. */
  function Around(front: string, text: string, back: string): string {
    front + text + back
  }

  // What stands ahead of the rest of a document, ahead of a caption, and behind a caption.

  function AheadOfRest(front: string, d: Doc): string
    requires d.Link?
  {
    front + LeadOf(d) + d.dest + d.tail
  }

  function AheadOfCaption(front: string, d: Doc): string
    requires d.Link?
  {
    front + Opening(d.kind)
  }

  function BehindCaption(d: Doc, back: string): string
    requires d.Link?
  {
    MiddleOf(d) + NewDest(d) + d.tail + Print(Retargeted(d.rest)) + back
  }

  lemma PrintsAhead(front: string, d: Doc, back: string)
    requires d.Link?
    ensures Around(front, Print(d), back) == Around(AheadOfRest(front, d), Print(d.rest), back)
    ensures |AheadOfRest(front, d)| == RestAt(d, |front|) && |AheadOfCaption(front, d)| == LabelAt(d, |front|)
  {
    NodePrints(d);
    hide LeadOf, Print, Opening;
    Joins(front, LeadOf(d), d.dest, d.tail, Print(d.rest), back);
  }

  /** With the rest done, replacing the own destination leaves only the caption to do. */
  lemma OwnDone(front: string, d: Doc, back: string)
    requires d.Link?
    ensures Spliced(Around(AheadOfRest(front, d), Print(Retargeted(d.rest)), back), OwnAt(d, |front|))
         == Around(AheadOfCaption(front, d), Print(d.caption), BehindCaption(d, back))
  {
    var newRest := Print(Retargeted(d.rest));
    OwnRetargets(front, d, d.tail + newRest + back);
    NodePrints(d);
    hide Spliced, LeadOf, MiddleOf, NewDest, Print, Retargeted, OwnAt, Opening;
    Regroup(front, Opening(d.kind), Print(d.caption), MiddleOf(d), d.dest, d.tail, newRest, back);
    Regroup(front, Opening(d.kind), Print(d.caption), MiddleOf(d), NewDest(d), d.tail, newRest, back);
  }

  /** With the caption done too, the document is retargeted. */
  lemma CaptionDone(front: string, d: Doc, back: string)
    requires d.Link?
    ensures Around(AheadOfCaption(front, d), Print(Retargeted(d.caption)), BehindCaption(d, back))
         == Around(front, Print(Retargeted(d)), back)
  {
    NodeParts(front, d, back);
    hide LeadOf, MiddleOf, NewDest, Print, Retargeted, Opening;
    Regroup(front, Opening(d.kind), Print(Retargeted(d.caption)), MiddleOf(d), NewDest(d), d.tail, Print(Retargeted(d.rest)), back);
  }

  lemma NothingToSplice(front: string, d: Doc, back: string)
    requires d.End?
    ensures Spliced(Around(front, Print(d), back), BackToFront(d, |front|)) == Around(front, Print(Retargeted(d)), back)
  {
  }

  lemma TextAhead(front: string, d: Doc, back: string)
    requires d.Verbatim?
    ensures Around(front, Print(d), back) == Around(front + d.text, Print(d.rest), back)
    ensures Around(front, Print(Retargeted(d)), back) == Around(front + d.text, Print(Retargeted(d.rest)), back)
    ensures BackToFront(d, |front|) == BackToFront(d.rest, |front + d.text|)
  {
  }

  /** Splicing back to front replaces every destination at once and keeps all other text. */
  lemma {:induction false} BackToFrontRetargets(front: string, d: Doc, back: string)
    ensures Spliced(Around(front, Print(d), back), BackToFront(d, |front|)) == Around(front, Print(Retargeted(d)), back)
    decreases d
  {
    hide Spliced, Around, AheadOfRest, AheadOfCaption, BehindCaption, Print, Retargeted, BackToFront, OwnAt, RestAt, LabelAt;
    if d.End? {
      NothingToSplice(front, d, back);
    } else if d.Verbatim? {
      TextAhead(front, d, back);
      BackToFrontRetargets(front + d.text, d.rest, back);
    } else {
      BackToFrontLink(d, |front|);
      PrintsAhead(front, d, back);
      BackToFrontRetargets(AheadOfRest(front, d), d.rest, back);
      OwnDone(front, d, back);
      BackToFrontRetargets(AheadOfCaption(front, d), d.caption, BehindCaption(d, back));
      CaptionDone(front, d, back);
      SplicedThrice(Around(front, Print(d), back), BackToFront(d.rest, RestAt(d, |front|)), OwnAt(d, |front|),
        BackToFront(d.caption, LabelAt(d, |front|)));
    }
  }

  lemma SplicedNone(s: string)
    ensures Spliced(s, []) == s
  {
  }

  // ----- Sorting the replacements -----

  ghost predicate Descending(rs: seq<Replacement>) {
    forall i, j :: 0 <= i < j < |rs| ==> rs[i].start >= rs[j].start
  }

  /** Each span ends before the one listed ahead of it begins. */
  ghost predicate Apart(rs: seq<Replacement>) {
    forall i, j :: 0 <= i < j < |rs| ==> rs[j].end <= rs[i].start && rs[j].start < rs[i].start
  }

  ghost predicate Within(rs: seq<Replacement>, low: nat, high: nat) {
    forall r :: r in rs ==> low < r.start <= r.end <= high
  }

  lemma ApartJoined(later: seq<Replacement>, earlier: seq<Replacement>, low: nat, cut: nat, high: nat)
    requires Apart(later) && Within(later, cut, high) && Apart(earlier) && Within(earlier, low, cut)
    requires low <= cut <= high
    ensures Apart(later + earlier) && Within(later + earlier, low, high)
  {
    var rs := later + earlier;
    forall i, j | 0 <= i < j < |rs| ensures rs[j].end <= rs[i].start && rs[j].start < rs[i].start {
      if i < |later| <= j {
        assert later[i] in later && earlier[j - |later|] in earlier;
      }
    }
  }

  /** Even with nodes nested in labels, no two spans overlap. */
  lemma {:induction false} SpansApart(d: Doc, offset: nat)
    ensures Apart(BackToFront(d, offset)) && Within(BackToFront(d, offset), offset, offset + |Print(d)|)
    decreases d
  {
    match d
    case End =>
    case Verbatim(text, rest) =>
      SpansApart(rest, offset + |text|);
    case Link(kind, caption, space, angle, dest, tail, target, rest) =>
      SpansApart(rest, RestAt(d, offset));
      SpansApart(caption, LabelAt(d, offset));
      var later, own, inner := BackToFront(rest, RestAt(d, offset)), OwnAt(d, offset), BackToFront(caption, LabelAt(d, offset));
      var cut, high := offset + |LeadOf(d)| - 1, offset + |Print(d)|;
      ApartJoined(own, inner, offset, cut, RestAt(d, offset));
      ApartJoined(later, own + inner, offset, RestAt(d, offset), high);
      assert later + own + inner == later + (own + inner);
  }

  lemma {:induction false} SameReplacements(d: Doc, offset: nat)
    ensures multiset(Visited(d, offset)) == multiset(BackToFront(d, offset))
    decreases d
  {
    hide RestAt, LabelAt, OwnAt;
    match d
    case End =>
    case Verbatim(text, rest) =>
      SameReplacements(rest, offset + |text|);
    case Link(kind, caption, space, angle, dest, tail, target, rest) =>
      SameReplacements(rest, RestAt(d, offset));
      SameReplacements(caption, LabelAt(d, offset));
  }

  lemma FirstOfBoth(rs: seq<Replacement>, sorted: seq<Replacement>)
    requires |rs| > 0 && |sorted| > 0 && Apart(rs) && Descending(sorted) && multiset(rs) == multiset(sorted)
    ensures rs[0] == sorted[0]
  {
    assert rs[0] in multiset(sorted) && sorted[0] in multiset(rs);
    var i :| 0 <= i < |rs| && rs[i] == sorted[0];
    var j :| 0 <= j < |sorted| && sorted[j] == rs[0];
    assert sorted[0].start >= sorted[j].start;
  }

  lemma WithoutFirst(rs: seq<Replacement>)
    requires rs != []
    ensures multiset(rs[1..]) == multiset(rs) - multiset{rs[0]}
  {
    assert rs == [rs[0]] + rs[1..];
  }

  /** Sorting spans that do not overlap leaves no choice. */
  lemma {:induction false} SortIsUnique(rs: seq<Replacement>, sorted: seq<Replacement>)
    requires Apart(rs) && Descending(sorted) && multiset(rs) == multiset(sorted)
    ensures rs == sorted
    decreases |rs|
  {
    SameLength(rs, sorted);
    if rs != [] {
      FirstOfBoth(rs, sorted);
      hide Apart, Descending;
      WithoutFirst(rs);
      WithoutFirst(sorted);
      SortIsUnique(rs[1..], sorted[1..]);
    }
  }

  lemma SameLength(rs: seq<Replacement>, sorted: seq<Replacement>)
    requires multiset(rs) == multiset(sorted)
    ensures |rs| == |sorted|
  {
    assert |multiset(rs)| == |rs| && |multiset(sorted)| == |sorted|;
  }

  method Insert(sorted: seq<Replacement>, r: Replacement) returns (longer: seq<Replacement>)
    requires Descending(sorted)
    ensures Descending(longer) && multiset(longer) == multiset(sorted) + multiset{r}
  {
    var k := 0;
    while k < |sorted| && sorted[k].start >= r.start
      invariant 0 <= k <= |sorted| && forall j :: 0 <= j < k ==> sorted[j].start >= r.start
    {
      k := k + 1;
    }
    InsertedDescending(sorted, k, r);
    hide Descending;
    assert sorted == sorted[..k] + sorted[k..];
    longer := sorted[..k] + [r] + sorted[k..];
  }

  lemma InsertedDescending(sorted: seq<Replacement>, k: nat, r: Replacement)
    requires Descending(sorted) && k <= |sorted| && (k < |sorted| ==> sorted[k].start < r.start)
    requires forall j :: 0 <= j < k ==> sorted[j].start >= r.start
    ensures Descending(sorted[..k] + [r] + sorted[k..])
  {
    var longer := sorted[..k] + [r] + sorted[k..];
    forall i, j | 0 <= i < j < |longer| ensures longer[i].start >= longer[j].start {
      assert longer[i] == if i < k then sorted[i] else if i == k then r else sorted[i - 1];
      assert longer[j] == if j < k then sorted[j] else if j == k then r else sorted[j - 1];
    }
  }

  method Sort(rs: seq<Replacement>) returns (sorted: seq<Replacement>)
    ensures Descending(sorted) && multiset(sorted) == multiset(rs)
  {
    sorted := [];
    for i := 0 to |rs|
      invariant Descending(sorted) && multiset(sorted) == multiset(rs[..i])
    {
      assert rs[..i + 1] == rs[..i] + [rs[i]];
      sorted := Insert(sorted, rs[i]);
    }
    assert rs[..|rs|] == rs;
  }

  // ----- The rewrite -----

  function NodeText(d: Doc): string
    requires d.Link?
  {
    LeadOf(d) + d.dest + d.tail
  }

  /** Every node to rewrite is one in which the scanners find some destination. */
  predicate Located(d: Doc) {
    match d
    case End => true
    case Verbatim(_, rest) => Located(rest)
    case Link(kind, caption, _, _, _, _, target, rest) =>
      (target.Some? ==> DestinationRangeOf(NodeText(d), kind).Ok?) && Located(caption) && Located(rest)
  }

  /** The replacement the scanners lead to, right or wrong, for a node at `offset`. */
  function FoundAt(d: Doc, offset: nat): seq<Replacement>
    requires d.Link?
  {
    var range := DestinationRangeOf(NodeText(d), d.kind);
    if d.target.None? || range.Err? then []
    else [Replacement(offset + range.value.start, offset + range.value.end, d.target.value)]
  }

  function Collected(d: Doc, offset: nat): seq<Replacement> {
    match d
    case End => []
    case Verbatim(text, rest) => Collected(rest, offset + |text|)
    case Link(_, caption, _, _, _, _, _, rest) =>
      FoundAt(d, offset) + Collected(caption, LabelAt(d, offset)) + Collected(rest, RestAt(d, offset))
  }

  lemma CollectedLink(d: Doc, offset: nat)
    requires d.Link?
    ensures Located(d) <==>
            (d.target.Some? ==> DestinationRangeOf(NodeText(d), d.kind).Ok?) && Located(d.caption) && Located(d.rest)
    ensures Collected(d, offset) ==
            FoundAt(d, offset) + Collected(d.caption, LabelAt(d, offset)) + Collected(d.rest, RestAt(d, offset))
  {
    hide FoundAt, DestinationRangeOf, NodeText;
  }

  /** Pushing the replacements of a node, its caption and the rest pushes those of the document. */
  lemma CollectedInTurn(d: Doc, offset: nat, r0: seq<Replacement>, r1: seq<Replacement>, r2: seq<Replacement>, r3: seq<Replacement>)
    requires d.Link? && r1 == r0 + FoundAt(d, offset)
    requires r2 == r1 + Collected(d.caption, LabelAt(d, offset)) && r3 == r2 + Collected(d.rest, RestAt(d, offset))
    ensures r3 == r0 + Collected(d, offset)
  {
    CollectedLink(d, offset);
    hide FoundAt, Collected, LabelAt, RestAt;
    InTurn(r0, FoundAt(d, offset), Collected(d.caption, LabelAt(d, offset)), Collected(d.rest, RestAt(d, offset)));
  }

  lemma InTurn<T>(a: seq<T>, b: seq<T>, c: seq<T>, e: seq<T>)
    ensures a + b + c + e == a + (b + c + e)
  {
  }

  /** In a well-formed document every destination is found, and found right. */
  lemma {:induction false} WellFormedIsLocated(d: Doc, offset: nat)
    requires WellFormed(d)
    ensures Located(d) && Collected(d, offset) == Visited(d, offset)
    decreases d
  {
    hide WellPrinted, DestinationRangeOf, LeadOf;
    match d
    case End =>
    case Verbatim(text, rest) =>
      WellFormedIsLocated(rest, offset + |text|);
    case Link(kind, caption, space, angle, dest, tail, target, rest) =>
      WellFormedIsLocated(caption, LabelAt(d, offset));
      WellFormedIsLocated(rest, RestAt(d, offset));
      if target.Some? {
        OwnRange(d);
      }
  }

  /** The text is what the replacements found make of the source, spliced back to front. */
  ghost predicate Projects(tree: Doc, text: string) {
    exists sorted :: Descending(sorted) && multiset(sorted) == multiset(Collected(tree, 0)) && text == Spliced(Print(tree), sorted)
  }

  lemma OwnRange(d: Doc)
    requires WellFormed(d) && d.Link? && d.target.Some?
    ensures DestinationRangeOf(LeadOf(d) + d.dest + d.tail, d.kind) == Ok(Range(|LeadOf(d)|, |LeadOf(d)| + |d.dest|))
  {
    hide WellPrinted, DestinationRangeOf, Lead, Print;
    RangeFoundExactly(d.kind, Print(d.caption), d.space, d.angle, d.dest, d.tail);
  }

  lemma SplicedInOrder(tree: Doc, sorted: seq<Replacement>)
    requires Descending(sorted) && multiset(sorted) == multiset(Visited(tree, 0))
    ensures Spliced(Print(tree), sorted) == Print(Retargeted(tree))
  {
    hide Descending, Visited, Spliced, Print, Retargeted, Apart, BackToFront;
    SpansApart(tree, 0);
    SameReplacements(tree, 0);
    SortIsUnique(BackToFront(tree, 0), sorted);
    BackToFrontRetargets("", tree, "");
    assert Around("", Print(tree), "") == Print(tree);
    assert Around("", Print(Retargeted(tree)), "") == Print(Retargeted(tree));
  }

  lemma Slice(s: string, at: nat, a: string, b: string, c: string)
    requires at + |a + b + c| <= |s| && s[at..at + |a + b + c|] == a + b + c
    ensures s[at + |a|..at + |a| + |b|] == b
  {
    forall k | 0 <= k < |b| ensures s[at + |a| + k] == b[k] {
      assert s[at..at + |a + b + c|][|a| + k] == (a + b + c)[|a| + k];
    }
  }

  lemma Slices(s: string, at: nat, whole: string, b: string, c: string, m: string, lead: string, e: string, t: string, r: string)
    requires lead == b + c + m && whole == lead + e + t + r
    requires at + |whole| <= |s| && s[at..at + |whole|] == whole
    ensures |whole| == |lead| + |e| + |t| + |r| && |lead| >= |b| + |c|
    ensures var end := at + |lead| + |e| + |t|;
            && s[at..end] == lead + e + t
            && s[at + |b|..at + |b| + |c|] == c
            && s[end..end + |r|] == r
  {
    var node, more := lead + e + t, m + e + t + r;
    assert whole == "" + node + r && whole == node + r + "" && whole == b + c + more;
    Slice(s, at, "", node, r);
    Slice(s, at, node, r, "");
    Slice(s, at, b, c, more);
  }

  /** The document is printed in the source at `offset`. */
  predicate Stands(source: string, d: Doc, offset: nat) {
    offset + |Print(d)| <= |source| && source[offset..offset + |Print(d)|] == Print(d)
  }

  predicate NodeStands(source: string, d: Doc, offset: nat)
    requires d.Link?
  {
    offset <= RestAt(d, offset) <= |source| && source[offset..RestAt(d, offset)] == NodeText(d)
  }

  /** Then so are the parts of a node. */
  lemma PartsStand(source: string, d: Doc, offset: nat)
    requires d.Link? && Stands(source, d, offset)
    ensures NodeStands(source, d, offset)
    ensures Stands(source, d.caption, LabelAt(d, offset)) && Stands(source, d.rest, RestAt(d, offset))
  {
    NodePrints(d);
    hide LeadOf, MiddleOf, Opening, Print;
    Slices(source, offset, Print(d), Opening(d.kind), Print(d.caption), MiddleOf(d), LeadOf(d), d.dest, d.tail, Print(d.rest));
  }

  lemma RestStands(source: string, d: Doc, offset: nat)
    requires d.Verbatim? && Stands(source, d, offset)
    ensures Stands(source, d.rest, offset + |d.text|)
  {
    Slice(source, offset, d.text, Print(d.rest), "");
    assert d.text + Print(d.rest) + "" == d.text + Print(d.rest);
  }

  class Rewriter {
    const source: string
    var replacements: seq<Replacement>

    constructor (source: string)
      ensures this.source == source && replacements == []
    {
      this.source, replacements := source, [];
    }

    /** Pushes the replacement of one node, located in the source. */
    method Rewrite(d: Doc, offset: nat) returns (result: Result<(), Failure>)
      requires d.Link? && NodeStands(source, d, offset)
      modifies this`replacements
      ensures result.Ok? <==> (d.target.Some? ==> DestinationRangeOf(NodeText(d), d.kind).Ok?)
      ensures result.Ok? ==> replacements == old(replacements) + FoundAt(d, offset)
    {
      hide DestinationRangeOf, NodeText, RestAt;
      if d.target.None? {
        return Ok(());
      }
      var range := DestinationRange(source[offset..RestAt(d, offset)], d.kind);
      if range.Err? {
        return Err(range.error);
      }
      replacements := replacements + [Replacement(offset + range.value.start, offset + range.value.end, d.target.value)];
      result := Ok(());
    }

    /** Visits the nodes printed at `offset`; fails exactly where some destination cannot be located. */
    method Visit(d: Doc, offset: nat) returns (result: Result<(), Failure>)
      requires Stands(source, d, offset)
      modifies this`replacements
      ensures result.Ok? <==> Located(d)
      ensures result.Ok? ==> replacements == old(replacements) + Collected(d, offset)
      decreases d
    {
      match d
      case End =>
        return Ok(());
      case Verbatim(text, rest) =>
        RestStands(source, d, offset);
        hide Stands;
        result := Visit(rest, offset + |text|);
      case Link(kind, caption, space, angle, dest, tail, target, rest) =>
        PartsStand(source, d, offset);
        CollectedLink(d, offset);
        hide Located, Collected, FoundAt, NodeText, Stands, NodeStands, RestAt, LabelAt, DestinationRangeOf;
        ghost var r0 := replacements;
        result := Rewrite(d, offset);
        if result.Err? {
          return;
        }
        ghost var r1 := replacements;
        result := Visit(caption, LabelAt(d, offset));
        if result.Err? {
          return;
        }
        ghost var r2 := replacements;
        result := Visit(rest, RestAt(d, offset));
        if result.Ok? {
          CollectedInTurn(d, offset, r0, r1, r2, replacements);
        }
    }

    /**
     * Fails exactly when some destination cannot be located; else splices in what was found, which in a
     * well-formed document is to replace every destination by its target and keep all other text.
     */
    method RewriteMarkdown(tree: Doc) returns (projected: Result<string, Failure>)
      requires source == Print(tree) && replacements == []
      modifies this`replacements
      ensures projected.Ok? <==> Located(tree)
      ensures projected.Ok? ==> Projects(tree, projected.value)
      ensures WellFormed(tree) ==> projected == Ok(Print(Retargeted(tree)))
    {
      hide WellFormed, Print, Retargeted, Located, Collected, Descending, Spliced;
      assert source[0..0 + |Print(tree)|] == Print(tree);
      var visited := Visit(tree, 0);
      assert visited.Ok? ==> replacements == Collected(tree, 0);
      if WellFormed(tree) {
        WellFormedProjects(tree);
      }
      if visited.Err? {
        return Err(visited.error);
      }
      var sorted := Sort(replacements);
      var text, i := source, 0;
      while i < |sorted|
        invariant 0 <= i <= |sorted| && Spliced(text, sorted[i..]) == Spliced(source, sorted)
      {
        SplicedFirst(text, sorted[i..]);
        assert sorted[i..][1..] == sorted[i + 1..];
        text := text[..Min(sorted[i].start, |text|)] + sorted[i].value + text[Min(sorted[i].end, |text|)..];
        i := i + 1;
      }
      SplicedNone(text);
      assert sorted[i..] == [];
      assert text == Spliced(Print(tree), sorted);
      projected := Ok(text);
    }
  }

  lemma SplicedFirst(s: string, rs: seq<Replacement>)
    requires rs != []
    ensures Spliced(s, rs) == Spliced(Replaced(s, rs[0]), rs[1..])
  {
  }

  lemma WellFormedProjects(tree: Doc)
    requires WellFormed(tree)
    ensures Located(tree) && forall text :: Projects(tree, text) ==> text == Print(Retargeted(tree))
  {
    hide WellFormed, Print, Retargeted, Located, Collected, Visited, Descending, Spliced;
    WellFormedIsLocated(tree, 0);
    forall text | Projects(tree, text) ensures text == Print(Retargeted(tree)) {
      var sorted :| Descending(sorted) && multiset(sorted) == multiset(Collected(tree, 0)) && text == Spliced(Print(tree), sorted);
      SplicedInOrder(tree, sorted);
    }
  }

  // ----- Reading the projected text again -----

  /** The scanners find the destination of every node to rewrite, and exactly it. */
  predicate FoundRight(d: Doc) {
    match d
    case End => true
    case Verbatim(_, rest) => FoundRight(rest)
    case Link(kind, caption, _, _, dest, _, target, rest) =>
      && (target.Some? ==> DestinationRangeOf(NodeText(d), kind) == Ok(Range(|LeadOf(d)|, |LeadOf(d)| + |dest|)))
      && FoundRight(caption) && FoundRight(rest)
  }

  /** Exactly the well-formed documents are taken apart right. */
  lemma {:induction false} FoundRightExactly(d: Doc)
    ensures FoundRight(d) <==> WellFormed(d)
    decreases d
  {
    hide WellPrinted, DestinationRangeOf, Lead;
    match d
    case End =>
    case Verbatim(_, rest) =>
      FoundRightExactly(rest);
    case Link(kind, caption, space, angle, dest, tail, target, rest) =>
      FoundRightExactly(caption);
      FoundRightExactly(rest);
      if target.Some? {
        RangeFoundExactly(kind, Print(caption), space, angle, dest, tail);
      }
  }

  /** The new destinations are delimited where they are put, and the captions they leave still lead to them. */
  predicate TargetsFit(d: Doc) {
    match d
    case End => true
    case Verbatim(_, rest) => TargetsFit(rest)
    case Link(kind, caption, space, angle, dest, tail, target, rest) =>
      && (target.Some? ==> Delimited(angle, target.value, tail) && LabelLeads(kind, Print(Retargeted(caption))))
      && TargetsFit(caption) && TargetsFit(rest)
  }

  lemma {:induction false} RetargetedFits(d: Doc)
    requires WellFormed(d)
    ensures WellFormed(Retargeted(d)) <==> TargetsFit(d)
    decreases d
  {
    hide LabelLeads, AllSpace, Delimited, Print;
    match d
    case End =>
    case Verbatim(_, rest) =>
      RetargetedFits(rest);
    case Link(kind, caption, space, angle, dest, tail, target, rest) =>
      RetargetedFits(caption);
      RetargetedFits(rest);
  }

  /**
   * Scanning the projected text finds every target again exactly when each target is delimited where it
   * is put and leaves the captions around it leading to theirs.
   */
  lemma RescanExactly(tree: Doc)
    requires WellFormed(tree)
    ensures FoundRight(Retargeted(tree)) <==> TargetsFit(tree)
  {
    RetargetedFits(tree);
    FoundRightExactly(Retargeted(tree));
  }

  /** A decoded path can carry a space: put into a bare destination it is not found again. */
  lemma SpacedTargetLost(dest: string, front: string, back: string)
    requires Delimited(false, dest, ")") && Balanced(front, PARENS)
    ensures var tree := OneLink(dest, front + " " + back);
            WellFormed(tree) && !FoundRight(Retargeted(tree))
  {
    hide Balanced, OneLink, WellFormed, FoundRight, Retargeted, TargetsFit;
    SpaceUnbalances(front, back);
    OneLinkFits(dest, front + " " + back);
    RescanExactly(OneLink(dest, front + " " + back));
  }

  /** `[a](dest)`, to be given another destination. */
  function OneLink(dest: string, target: string): Doc {
    Link(Inline, Verbatim("a", End), "", false, dest, ")", Some(target), End)
  }

  lemma OneLinkFits(dest: string, target: string)
    requires Delimited(false, dest, ")")
    ensures var tree := OneLink(dest, target);
            WellFormed(tree) && (TargetsFit(tree) ==> Balanced(target, PARENS))
  {
    hide Scan, IsSpace;
    EscapedSpaceScans();
    var caption := Verbatim("a", End);
    assert Print(caption) == "a" + "" == "a" && Retargeted(caption) == caption;
  }

  lemma SpaceUnbalances(front: string, back: string)
    requires Balanced(front, PARENS)
    ensures !Balanced(front + " " + back, PARENS)
  {
    assert PARENS.Ends(' ');
    NoSpaces();
    hide IsSpace, Scan;
    ScanBalanced(front, PARENS, " " + back + ")");
    assert front + " " + back + ")" == front + (" " + back + ")");
  }
}
