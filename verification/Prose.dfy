/** Which lines of a Markdown file hold prose: neither code nor HTML comments alone. */
module Prose {
  import opened Chars

  /** Half-open, in offsets of the source or in columns of a line. */
  datatype Range = Range(start: nat, end: nat)

  /** A raw HTML node; its value is the text of the source at its offset. */
  datatype Html = Html(offset: nat, value: string)

  /** A code block, by its first and last line, counted from 1. */
  datatype Code = Code(first: nat, last: nat)

  predicate Covers(rs: seq<Range>, k: nat) {
    exists r :: r in rs && r.start <= k < r.end
  }

  // ----- Comments of one node -----

  function CommentsFrom(value: string, cursor: nat): seq<Range>
    decreases |value| - cursor
  {
    var start := IndexOfText(value, "<!--", cursor);
    if start < 0 then []
    else
      var close := IndexOfText(value, "-->", start + 4);
      var end := if close < 0 then |value| else close + 3;
      [Range(start, end)] + CommentsFrom(value, end)
  }

  /** A comment runs from its opening to the first close after it, or to the end of the node. */
  ghost predicate IsComment(value: string, r: Range) {
    && At(value, "<!--", r.start) && r.start + 4 <= r.end <= |value|
    && (Closes(value, r) || (r.end == |value| && forall k: nat :: r.start + 4 <= k ==> !At(value, "-->", k)))
  }

  predicate Closes(value: string, r: Range) {
    && r.start + 7 <= r.end && At(value, "-->", r.end - 3)
    && forall k :: r.start + 4 <= k < r.end - 3 ==> !At(value, "-->", k)
  }

  lemma FirstIsComment(value: string, cursor: nat)
    ensures var rs := CommentsFrom(value, cursor);
            if rs == [] then forall k: nat :: cursor <= k ==> !At(value, "<!--", k)
            else
              && IsComment(value, rs[0]) && cursor <= rs[0].start
              && (forall k: nat :: cursor <= k < rs[0].start ==> !At(value, "<!--", k))
              && rs == [rs[0]] + CommentsFrom(value, rs[0].end)
  {
    hide At;
  }

  /** The comments found are comments, in order and apart. */
  lemma {:induction false} CommentsAreComments(value: string, cursor: nat)
    ensures var rs := CommentsFrom(value, cursor);
            && (forall r :: r in rs ==> IsComment(value, r) && cursor <= r.start)
            && (forall i, j :: 0 <= i < j < |rs| ==> rs[i].end <= rs[j].start)
    decreases |value| - cursor
  {
    hide CommentsFrom, At, Closes;
    var rs := CommentsFrom(value, cursor);
    FirstIsComment(value, cursor);
    if rs != [] {
      assert rs[0].start < rs[0].end <= |value|;
      CommentsAreComments(value, rs[0].end);
      hide IsComment;
      var rest := CommentsFrom(value, rs[0].end);
      assert forall j :: 0 < j < |rs| ==> rs[j] == rest[j - 1] && rs[j] in rest;
    }
  }

  /** No opening of a comment is left outside the comments found. */
  lemma {:induction false} OpeningsCovered(value: string, cursor: nat, k: nat)
    requires cursor <= k && At(value, "<!--", k)
    ensures Covers(CommentsFrom(value, cursor), k)
    decreases |value| - cursor
  {
    var rs := CommentsFrom(value, cursor);
    FirstIsComment(value, cursor);
    assert rs != [] && rs[0].start < rs[0].end <= |value|;
    hide IsComment, CommentsFrom;
    if k < rs[0].end {
      assert rs[0] in rs;
    } else {
      OpeningsCovered(value, rs[0].end, k);
      CoversBoth([rs[0]], CommentsFrom(value, rs[0].end), k);
    }
  }

  lemma CommentsStep(value: string, cursor: nat)
    ensures var start := IndexOfText(value, "<!--", cursor);
            if start < 0 then CommentsFrom(value, cursor) == []
            else
              var close := IndexOfText(value, "-->", start + 4);
              var end := if close < 0 then |value| else close + 3;
              cursor < end <= |value| && CommentsFrom(value, cursor) == [Range(start, end)] + CommentsFrom(value, end)
  {
    hide At;
  }

  lemma OneMore(done: seq<Range>, r: Range, rest: seq<Range>)
    ensures done + ([r] + rest) == (done + [r]) + rest
  {
  }

  method CommentsOf(value: string) returns (comments: seq<Range>)
    ensures comments == CommentsFrom(value, 0)
  {
    hide At, CommentsFrom, IndexOfText;
    comments := [];
    var cursor := 0;
    assert comments + CommentsFrom(value, 0) == CommentsFrom(value, 0);
    while true
      invariant comments + CommentsFrom(value, cursor) == CommentsFrom(value, 0)
      decreases |value| - cursor
    {
      CommentsStep(value, cursor);
      var start := IndexOfText(value, "<!--", cursor);
      if start < 0 {
        assert comments + [] == comments;
        break;
      }
      var close := IndexOfText(value, "-->", start + 4);
      var end := if close < 0 then |value| else close + 3;
      OneMore(comments, Range(start, end), CommentsFrom(value, end));
      comments := comments + [Range(start, end)];
      cursor := end;
    }
  }

  // ----- Comments of the whole file -----

  function Shifted(rs: seq<Range>, shift: nat): seq<Range> {
    if rs == [] then []
    else Shifted(rs[..|rs| - 1], shift) + [Range(shift + rs[|rs| - 1].start, shift + rs[|rs| - 1].end)]
  }

  function AllComments(nodes: seq<Html>): seq<Range> {
    if nodes == [] then []
    else
      var node := nodes[|nodes| - 1];
      AllComments(nodes[..|nodes| - 1]) + Shifted(CommentsFrom(node.value, 0), node.offset)
  }

  /** A node stands in the source where its offset says. */
  predicate InSource(source: string, node: Html) {
    StandsAt(source, node.offset, node.value)
  }

  /** A comment of a node, in the source: from an opening to the first close behind it, or to the end of the node. */
  ghost predicate CommentOf(source: string, node: Html, r: Range) {
    var end := node.offset + |node.value|;
    && node.offset <= r.start && r.start + 4 <= r.end <= end && At(source, "<!--", r.start)
    && if r.start + 7 <= r.end && At(source, "-->", r.end - 3)
       then forall k :: r.start + 4 <= k < r.end - 3 ==> !At(source, "-->", k)
       else r.end == end && forall k :: r.start + 4 <= k && k + 3 <= end ==> !At(source, "-->", k)
  }

  lemma SliceOfSlice(s: string, from: nat, to: nat, k: nat, m: nat)
    requires from <= to <= |s| && k <= m <= to - from
    ensures s[from..to][k..m] == s[from + k..from + m]
  {
    var part, direct := s[from..to][k..m], s[from + k..from + m];
    forall i | 0 <= i < m - k ensures part[i] == direct[i] {
      assert part[i] == s[from..to][k + i] == s[from + k + i];
      assert direct[i] == s[from + k + i];
    }
  }

  lemma AtNode(source: string, node: Html, text: string, k: nat)
    requires InSource(source, node)
    ensures At(node.value, text, k) <==> k + |text| <= |node.value| && At(source, text, node.offset + k)
  {
    if k + |text| <= |node.value| {
      SliceOfSlice(source, node.offset, node.offset + |node.value|, k, k + |text|);
    }
  }

  lemma {:induction false} ShiftedAt(rs: seq<Range>, shift: nat, r: Range)
    ensures r in rs ==> Range(shift + r.start, shift + r.end) in Shifted(rs, shift)
    ensures r in Shifted(rs, shift) ==>
      r.start >= shift && r.end >= shift && Range(r.start - shift, r.end - shift) in rs
    decreases |rs|
  {
    if rs != [] {
      var front, last := rs[..|rs| - 1], rs[|rs| - 1];
      ShiftedAt(front, shift, r);
      assert rs == front + [last];
    }
  }

  function Own(node: Html): seq<Range> {
    Shifted(CommentsFrom(node.value, 0), node.offset)
  }

  lemma OwnAreComments(source: string, node: Html)
    requires InSource(source, node)
    ensures forall r :: r in Own(node) ==> CommentOf(source, node, r)
  {
    hide At, CommentsFrom, InSource, IsComment, CommentOf;
    CommentsAreComments(node.value, 0);
    forall r | r in Own(node) ensures CommentOf(source, node, r) {
      ShiftedAt(CommentsFrom(node.value, 0), node.offset, r);
      CommentMoved(source, node, Range(r.start - node.offset, r.end - node.offset));
    }
  }

  lemma OwnCoverOpenings(source: string, node: Html, k: nat)
    requires InSource(source, node) && node.offset <= k && k + 4 <= node.offset + |node.value| && At(source, "<!--", k)
    ensures Covers(Own(node), k)
  {
    hide At, CommentsFrom, InSource, IsComment, CommentOf;
    var rs := CommentsFrom(node.value, 0);
    AtNode(source, node, "<!--", k - node.offset);
    OpeningsCovered(node.value, 0, k - node.offset);
    var r :| r in rs && r.start <= k - node.offset < r.end;
    ShiftedAt(rs, node.offset, r);
    assert Range(node.offset + r.start, node.offset + r.end) in Own(node);
  }

  lemma CommentMoved(source: string, node: Html, r: Range)
    requires InSource(source, node) && IsComment(node.value, r)
    ensures CommentOf(source, node, Range(node.offset + r.start, node.offset + r.end))
  {
    hide At, InSource;
    AtNode(source, node, "<!--", r.start);
    forall k: nat ensures At(node.value, "-->", k) <==> k + 3 <= |node.value| && At(source, "-->", node.offset + k) {
      AtNode(source, node, "-->", k);
    }
    forall k | node.offset <= k ensures k + 3 <= node.offset + |node.value| ==>
      (At(source, "-->", k) <==> At(node.value, "-->", k - node.offset))
    {
      AtNode(source, node, "-->", k - node.offset);
    }
  }

  /**
   * Where nodes stand at their offsets, the ranges collected are comments of the source, each within a node,
   * and no opening inside a node is left outside them.
   */
  lemma {:induction false} CommentsOfSource(source: string, nodes: seq<Html>)
    requires forall node :: node in nodes ==> InSource(source, node)
    ensures forall r :: r in AllComments(nodes) ==> exists node :: node in nodes && CommentOf(source, node, r)
    ensures forall node, k :: node in nodes && node.offset <= k && k + 4 <= node.offset + |node.value| && At(source, "<!--", k) ==>
      Covers(AllComments(nodes), k)
    decreases |nodes|
  {
    hide At, CommentOf, InSource, Covers;
    if nodes == [] {
    } else {
      var front, last := nodes[..|nodes| - 1], nodes[|nodes| - 1];
      assert nodes == front + [last];
      CommentsOfSource(source, front);
      OwnAreComments(source, last);
      assert AllComments(nodes) == AllComments(front) + Own(last);
      forall node, k | node in nodes && node.offset <= k && k + 4 <= node.offset + |node.value| && At(source, "<!--", k)
        ensures Covers(AllComments(nodes), k)
      {
        if node == last {
          OwnCoverOpenings(source, last, k);
        }
        CoversBoth(AllComments(front), Own(last), k);
      }
    }
  }

  method CollectComments(nodes: seq<Html>) returns (comments: seq<Range>)
    ensures comments == AllComments(nodes)
  {
    hide CommentsFrom;
    comments := [];
    for i := 0 to |nodes|
      invariant comments == AllComments(nodes[..i])
    {
      var own := CommentsOf(nodes[i].value);
      own := Shift(own, nodes[i].offset);
      assert nodes[..i + 1][..i] == nodes[..i];
      comments := comments + own;
    }
    assert nodes[..|nodes|] == nodes;
  }

  method Shift(own: seq<Range>, shift: nat) returns (shifted: seq<Range>)
    ensures shifted == Shifted(own, shift)
  {
    shifted := [];
    for j := 0 to |own|
      invariant shifted == Shifted(own[..j], shift)
    {
      assert own[..j + 1][..j] == own[..j];
      shifted := shifted + [Range(shift + own[j].start, shift + own[j].end)];
    }
    assert own[..|own|] == own;
  }

  // ----- Lines -----

  /** `split('\n')`. */
  function Lines(source: string): (lines: seq<string>)
    ensures |lines| > 0
    decreases |source|
  {
    var end := IndexOfText(source, "\n", 0);
    if end < 0 then [source] else [source[..end]] + Lines(source[end + 1..])
  }

  function LineStart(lines: seq<string>, i: nat): nat
    requires i <= |lines|
  {
    if i == 0 then 0 else LineStart(lines, i - 1) + |lines[i - 1]| + 1
  }

  lemma {:induction false} LineStartTail(lines: seq<string>, i: nat)
    requires 0 < i <= |lines|
    ensures LineStart(lines, i) == |lines[0]| + 1 + LineStart(lines[1..], i - 1)
    decreases i
  {
    if i > 1 {
      LineStartTail(lines, i - 1);
    }
  }

  /** `line` stands in `s` at offset `o`. */
  predicate StandsAt(s: string, o: nat, line: string) {
    o + |line| <= |s| && s[o..o + |line|] == line
  }

  lemma StandsFurther(s: string, from: nat, o: nat, line: string)
    requires from <= |s| && StandsAt(s[from..], o, line)
    ensures StandsAt(s, from + o, line)
  {
    assert s[from..][o..o + |line|] == s[from + o..from + o + |line|];
  }

  /** Column `c` of a line is the character of the source at the line's offset plus `c`. */
  lemma {:induction false} LineIsSlice(source: string, i: nat)
    requires i < |Lines(source)|
    ensures StandsAt(source, LineStart(Lines(source), i), Lines(source)[i])
    decreases |source|
  {
    hide Lines, IndexOfText, LineStart, At, StandsAt;
    var end := IndexOfText(source, "\n", 0);
    LinesStep(source);
    LineStartZero(Lines(source));
    if i == 0 {
      FirstLine(source, end);
    } else {
      var rest := source[end + 1..];
      LineIsSlice(rest, i - 1);
      LineStartTail(Lines(source), i);
      assert Lines(source)[1..] == Lines(rest) && Lines(source)[i] == Lines(rest)[i - 1];
      StandsFurther(source, end + 1, LineStart(Lines(rest), i - 1), Lines(rest)[i - 1]);
    }
  }

  lemma FirstLine(source: string, end: int)
    requires -1 <= end < |source| || end == -1
    ensures StandsAt(source, 0, if end < 0 then source else source[..end])
  {
    assert source[0..0 + |source|] == source;
  }

  lemma LinesStep(source: string)
    ensures var end := IndexOfText(source, "\n", 0);
            if end < 0 then Lines(source) == [source]
            else end < |source| && Lines(source) == [source[..end]] + Lines(source[end + 1..])
  {
    hide At;
  }

  lemma LineStartZero(lines: seq<string>)
    ensures LineStart(lines, 0) == 0
  {
  }

  /** `join('\n')`. */
  function Joined(lines: seq<string>): string
    requires lines != []
  {
    if |lines| == 1 then lines[0] else lines[0] + "\n" + Joined(lines[1..])
  }

  lemma JoinedStep(first: string, rest: seq<string>)
    requires rest != []
    ensures Joined([first] + rest) == first + "\n" + Joined(rest)
  {
    assert ([first] + rest)[1..] == rest;
  }

  lemma FeedAt(source: string, k: nat)
    ensures At(source, "\n", k) <==> k < |source| && source[k] == '\n'
  {
    if k < |source| {
      assert source[k..k + 1] == [source[k]];
    }
  }

  lemma CutOut(source: string, k: nat)
    requires k < |source| && source[k] == '\n'
    ensures source == source[..k] + "\n" + source[k + 1..]
  {
  }

  lemma FirstFeed(source: string)
    ensures var end := IndexOfText(source, "\n", 0);
      if end < 0 then '\n' !in source
      else end < |source| && '\n' !in source[..end] && source == source[..end] + "\n" + source[end + 1..]
  {
    hide At;
    var end := IndexOfText(source, "\n", 0);
    forall k | 0 <= k < |source| && (end < 0 || k < end) ensures source[k] != '\n' {
      FeedAt(source, k);
    }
    if end >= 0 {
      FeedAt(source, end);
      CutOut(source, end);
    }
  }

  /** The lines hold no line feed, and joined they are the source. */
  lemma {:induction false} LinesAreSource(source: string)
    ensures Joined(Lines(source)) == source
    ensures forall line :: line in Lines(source) ==> '\n' !in line
    decreases |source|
  {
    LinesStep(source);
    FirstFeed(source);
    hide Lines, IndexOfText;
    var end := IndexOfText(source, "\n", 0);
    if end >= 0 {
      LinesAreSource(source[end + 1..]);
      hide Joined;
      JoinedStep(source[..end], Lines(source[end + 1..]));
    }
  }

  // ----- Projecting comments onto a line -----

  function Max(a: int, b: int): int { if a > b then a else b }
  function Min(a: int, b: int): int { if a < b then a else b }

  /** The columns one comment takes of the line of `length` characters at `offset`, if it touches it. */
  function Projected(comment: Range, offset: nat, length: nat): seq<Range> {
    var from, to := Max(comment.start, offset), Min(comment.end, offset + length);
    var coversEmptyLine := length == 0 && comment.start <= offset && comment.end > offset;
    if from < to || coversEmptyLine then [Range(from - offset, to - offset)] else []
  }

  function Columns(comments: seq<Range>, offset: nat, length: nat): seq<Range> {
    if comments == [] then []
    else Columns(comments[..|comments| - 1], offset, length) + Projected(comments[|comments| - 1], offset, length)
  }

  /** Some comment holds a character of the line, or the place where an empty line is. */
  ghost predicate Touched(comments: seq<Range>, offset: nat, length: nat) {
    exists k: nat :: (offset <= k < offset + length || (length == 0 && k == offset)) && Covers(comments, k)
  }

  lemma ProjectedExact(comment: Range, offset: nat, length: nat, c: nat)
    ensures c < length ==> (Covers(Projected(comment, offset, length), c) <==> comment.start <= offset + c < comment.end)
    ensures c >= length ==> !Covers(Projected(comment, offset, length), c)
    ensures Projected(comment, offset, length) != [] <==> Touched([comment], offset, length)
  {
    var from := Max(comment.start, offset);
    if Projected(comment, offset, length) != [] {
      assert Projected(comment, offset, length)[0] in Projected(comment, offset, length);
      assert Covers([comment], from) by { assert comment in [comment]; }
    }
  }

  lemma {:induction false} ColumnsCover(comments: seq<Range>, offset: nat, length: nat, c: nat)
    ensures c < length ==> (Covers(Columns(comments, offset, length), c) <==> Covers(comments, offset + c))
    ensures c >= length ==> !Covers(Columns(comments, offset, length), c)
    decreases |comments|
  {
    hide Projected;
    if comments != [] {
      var before, last := comments[..|comments| - 1], comments[|comments| - 1];
      ColumnsCover(before, offset, length, c);
      ProjectedExact(last, offset, length, c);
      CoversBoth(Columns(before, offset, length), Projected(last, offset, length), c);
      CoversBoth(before, [last], offset + c);
      CoversOne(last, offset + c);
      assert comments == before + [last];
      hide Covers;
    }
  }

  lemma CoversOne(r: Range, k: nat)
    ensures Covers([r], k) <==> r.start <= k < r.end
  {
    assert r in [r];
  }

  lemma TouchedBoth(before: seq<Range>, last: Range, offset: nat, length: nat)
    ensures Touched(before + [last], offset, length) <==> Touched(before, offset, length) || Touched([last], offset, length)
  {
    forall k: nat ensures Covers(before + [last], k) <==> Covers(before, k) || Covers([last], k) {
      CoversBoth(before, [last], k);
    }
    hide Covers;
  }

  lemma {:induction false} ListedWhenTouched(comments: seq<Range>, offset: nat, length: nat)
    ensures Columns(comments, offset, length) != [] <==> Touched(comments, offset, length)
    decreases |comments|
  {
    if comments == [] {
      assert forall k: nat :: !Covers(comments, k);
    } else {
      hide Projected, Touched;
      var before, last := comments[..|comments| - 1], comments[|comments| - 1];
      ListedWhenTouched(before, offset, length);
      ProjectedExact(last, offset, length, 0);
      TouchedBoth(before, last, offset, length);
      assert comments == before + [last];
    }
  }

  /** A column is covered exactly when its offset lies in a comment; a line is listed when touched. */
  lemma ProjectionExact(comments: seq<Range>, offset: nat, length: nat, c: nat)
    ensures c < length ==> (Covers(Columns(comments, offset, length), c) <==> Covers(comments, offset + c))
    ensures c >= length ==> !Covers(Columns(comments, offset, length), c)
    ensures Columns(comments, offset, length) != [] <==> Touched(comments, offset, length)
  {
    ColumnsCover(comments, offset, length, c);
    ListedWhenTouched(comments, offset, length);
  }

  lemma CoversBoth(a: seq<Range>, b: seq<Range>, k: nat)
    ensures Covers(a + b, k) <==> Covers(a, k) || Covers(b, k)
  {
    if r :| r in a && r.start <= k < r.end {
      assert r in a + b;
    }
    if r :| r in b && r.start <= k < r.end {
      assert r in a + b;
    }
  }

  /** The map lists line `i + 1` with its columns, if comments touch it. */
  predicate Listed(ranges: map<nat, seq<Range>>, comments: seq<Range>, lines: seq<string>, i: nat)
    requires i < |lines|
  {
    var columns := Columns(comments, LineStart(lines, i), |lines[i]|);
    (i + 1 in ranges <==> columns != []) && (i + 1 in ranges ==> ranges[i + 1] == columns)
  }

  /** For each touched line, counted from 1, the columns comments take of it. */
  method HtmlCommentRanges(nodes: seq<Html>, lines: seq<string>) returns (ranges: map<nat, seq<Range>>)
    ensures forall line :: line in ranges ==> 1 <= line <= |lines|
    ensures forall i :: 0 <= i < |lines| ==> Listed(ranges, AllComments(nodes), lines, i)
  {
    hide Columns, AllComments;
    var comments := CollectComments(nodes);
    ranges := map[];
    var lineOffset := 0;
    for i := 0 to |lines|
      invariant lineOffset == LineStart(lines, i)
      invariant forall line :: line in ranges ==> 1 <= line <= i
      invariant forall n :: 0 <= n < i ==> Listed(ranges, comments, lines, n)
    {
      ghost var before := ranges;
      var lineRanges := LineRanges(comments, lineOffset, |lines[i]|);
      if lineRanges != [] {
        ranges := ranges[i + 1 := lineRanges];
      }
      forall n | 0 <= n < i ensures Listed(ranges, comments, lines, n) {
        assert Listed(before, comments, lines, n);
      }
      lineOffset := lineOffset + |lines[i]| + 1;
    }
  }

  lemma ColumnsStep(comments: seq<Range>, offset: nat, length: nat)
    ensures Columns(comments[..0], offset, length) == []
    ensures forall j :: 0 <= j < |comments| ==>
              Columns(comments[..j + 1], offset, length)
              == Columns(comments[..j], offset, length) + Projected(comments[j], offset, length)
  {
    hide Projected;
    forall j | 0 <= j < |comments|
      ensures Columns(comments[..j + 1], offset, length) ==
              Columns(comments[..j], offset, length) + Projected(comments[j], offset, length)
    {
      assert comments[..j + 1][..j] == comments[..j];
    }
  }

  method LineRanges(comments: seq<Range>, offset: nat, length: nat) returns (ranges: seq<Range>)
    ensures ranges == Columns(comments, offset, length)
  {
    hide Covers, Columns;
    ColumnsStep(comments, offset, length);
    var lineEnd := offset + length;
    ranges := [];
    for j := 0 to |comments|
      invariant ranges == Columns(comments[..j], offset, length)
    {
      var from, to := Max(comments[j].start, offset), Min(comments[j].end, lineEnd);
      var coversEmptyLine := length == 0 && comments[j].start <= offset && comments[j].end > offset;
      if from < to || coversEmptyLine {
        ranges := ranges + [Range(from - offset, to - offset)];
      }
    }
    assert comments[..|comments|] == comments;
  }

  // ----- Text left on a line -----

  predicate HasText(s: string) {
    exists c :: 0 <= c < |s| && !IsSpace(s[c])
  }

  /** `slice`: clamped to the end, empty when the bounds cross. */
  function Slice(s: string, from: nat, to: nat): string {
    if from < to && from < |s| then s[from..Min(to, |s|)] else ""
  }

  /** What is left of `raw` from `cursor` on when the ranges, by start, are cut out. */
  function Visible(raw: string, rs: seq<Range>, cursor: nat): string
    decreases |rs|
  {
    if rs == [] then Slice(raw, cursor, |raw|)
    else Slice(raw, cursor, rs[0].start) + Visible(raw, rs[1..], Max(cursor, rs[0].end))
  }

  ghost predicate ByStart(rs: seq<Range>) {
    forall i, j :: 0 <= i < j < |rs| ==> rs[i].start <= rs[j].start
  }

  /** A character that shows from `cursor` on and is outside all ranges. */
  ghost predicate ShowsFrom(raw: string, rs: seq<Range>, cursor: nat) {
    exists c :: cursor <= c < |raw| && ShowsAt(raw, rs, c)
  }

  ghost predicate ShowsAt(raw: string, rs: seq<Range>, c: nat)
    requires c < |raw|
  {
    !IsSpace(raw[c]) && !Covers(rs, c)
  }

  lemma SliceText(s: string, from: nat, to: nat)
    ensures HasText(Slice(s, from, to)) <==> exists c :: from <= c < |s| && c < to && !IsSpace(s[c])
  {
    hide IsSpace;
    if HasText(Slice(s, from, to)) {
      var c :| 0 <= c < |Slice(s, from, to)| && !IsSpace(Slice(s, from, to)[c]);
      assert s[from + c] == Slice(s, from, to)[c];
    }
    if c :| from <= c < |s| && c < to && !IsSpace(s[c]) {
      assert Slice(s, from, to)[c - from] == s[c];
    }
  }

  lemma JoinedText(s: string, t: string)
    ensures HasText(s + t) <==> HasText(s) || HasText(t)
  {
    hide IsSpace;
    if c :| 0 <= c < |t| && !IsSpace(t[c]) {
      assert (s + t)[|s| + c] == t[c];
    }
    if c :| 0 <= c < |s| && !IsSpace(s[c]) {
      assert (s + t)[c] == s[c];
    }
  }

  lemma ShowsStep(raw: string, rs: seq<Range>, cursor: nat)
    requires ByStart(rs) && rs != []
    ensures ShowsFrom(raw, rs, cursor) <==>
            HasText(Slice(raw, cursor, rs[0].start)) || ShowsFrom(raw, rs[1..], Max(cursor, rs[0].end))
  {
    hide IsSpace, HasText, Slice;
    SliceText(raw, cursor, rs[0].start);
    assert rs == [rs[0]] + rs[1..];
    forall c: nat ensures c < rs[0].start ==> !Covers(rs, c) {
    }
    forall c: nat ensures Covers(rs, c) <==> rs[0].start <= c < rs[0].end || Covers(rs[1..], c) {
      CoversBoth([rs[0]], rs[1..], c);
      assert Covers([rs[0]], c) <==> rs[0].start <= c < rs[0].end by { assert rs[0] in [rs[0]]; }
    }
    if c :| cursor <= c < |raw| && ShowsAt(raw, rs, c) {
      if c >= rs[0].start {
        assert ShowsAt(raw, rs[1..], c);
      }
    }
    if c :| cursor <= c < |raw| && c < rs[0].start && !IsSpace(raw[c]) {
      assert ShowsAt(raw, rs, c);
    }
    if c :| Max(cursor, rs[0].end) <= c < |raw| && ShowsAt(raw, rs[1..], c) {
      assert ShowsAt(raw, rs, c);
    }
  }

  /** Cutting leaves text exactly when some character shows outside all ranges, which may overlap. */
  lemma {:induction false} VisibleExact(raw: string, rs: seq<Range>, cursor: nat)
    requires ByStart(rs)
    ensures HasText(Visible(raw, rs, cursor)) <==> ShowsFrom(raw, rs, cursor)
    decreases |rs|
  {
    hide IsSpace;
    if rs == [] {
      SliceText(raw, cursor, |raw|);
      forall c | cursor <= c < |raw| ensures ShowsAt(raw, rs, c) <==> !IsSpace(raw[c]) {
      }
    } else {
      var next := Max(cursor, rs[0].end);
      ShowsStep(raw, rs, cursor);
      VisibleExact(raw, rs[1..], next);
      JoinedText(Slice(raw, cursor, rs[0].start), Visible(raw, rs[1..], next));
    }
  }

  method SortByStart(rs: seq<Range>) returns (sorted: seq<Range>)
    ensures ByStart(sorted) && forall r :: r in sorted <==> r in rs
  {
    sorted := [];
    for i := 0 to |rs|
      invariant ByStart(sorted) && forall r :: r in sorted <==> r in rs[..i]
    {
      assert rs[..i + 1] == rs[..i] + [rs[i]];
      sorted := InsertByStart(sorted, rs[i]);
    }
    assert rs[..|rs|] == rs;
  }

  method InsertByStart(sorted: seq<Range>, r: Range) returns (longer: seq<Range>)
    requires ByStart(sorted)
    ensures ByStart(longer) && forall x :: x in longer <==> x in sorted || x == r
  {
    var k := 0;
    while k < |sorted| && sorted[k].start <= r.start
      invariant 0 <= k <= |sorted| && forall j :: 0 <= j < k ==> sorted[j].start <= r.start
    {
      k := k + 1;
    }
    InsertedByStart(sorted, k, r);
    hide ByStart;
    assert sorted == sorted[..k] + sorted[k..];
    longer := sorted[..k] + [r] + sorted[k..];
  }

  lemma InsertedByStart(sorted: seq<Range>, k: nat, r: Range)
    requires ByStart(sorted) && k <= |sorted| && (k < |sorted| ==> r.start < sorted[k].start)
    requires forall j :: 0 <= j < k ==> sorted[j].start <= r.start
    ensures ByStart(sorted[..k] + [r] + sorted[k..])
  {
    var longer := sorted[..k] + [r] + sorted[k..];
    forall i, j | 0 <= i < j < |longer| ensures longer[i].start <= longer[j].start {
      assert longer[i] == if i < k then sorted[i] else if i == k then r else sorted[i - 1];
      assert longer[j] == if j < k then sorted[j] else if j == k then r else sorted[j - 1];
    }
  }

  method HasRenderedTextOutsideComments(raw: string, ranges: seq<Range>) returns (shows: bool)
    ensures shows <==> ranges == [] || ShowsFrom(raw, ranges, 0)
  {
    if ranges == [] {
      return true;
    }
    hide IsSpace, Slice;
    var sorted := SortByStart(ranges);
    var cursor: nat, visible, i := 0, "", 0;
    while i < |sorted|
      invariant 0 <= i <= |sorted| && visible + Visible(raw, sorted[i..], cursor) == Visible(raw, sorted, 0)
    {
      assert sorted[i..][1..] == sorted[i + 1..];
      visible := visible + Slice(raw, cursor, sorted[i].start);
      cursor := Max(cursor, sorted[i].end);
      i := i + 1;
    }
    visible := visible + Slice(raw, cursor, |raw|);
    VisibleExact(raw, sorted, 0);
    assert forall c: nat :: Covers(sorted, c) <==> Covers(ranges, c);
    assert forall c :: 0 <= c < |raw| ==> (ShowsAt(raw, sorted, c) <==> ShowsAt(raw, ranges, c));
    shows := HasText(visible);
  }

  // ----- The lines of prose -----

  datatype ProseLine = ProseLine(index: nat, raw: string)

  predicate Fenced(blocks: seq<Code>, line: nat) {
    exists b :: b in blocks && b.first <= line <= b.last
  }

  /** No comment touches the line, or a character that shows stands outside every comment. */
  ghost predicate Reads(lines: seq<string>, comments: seq<Range>, i: nat)
    requires i < |lines|
  {
    var offset := LineStart(lines, i);
    || !Touched(comments, offset, |lines[i]|)
    || exists c: nat :: c < |lines[i]| && !IsSpace(lines[i][c]) && !Covers(comments, offset + c)
  }

  lemma ReadsExactly(lines: seq<string>, comments: seq<Range>, i: nat)
    requires i < |lines|
    ensures var columns := Columns(comments, LineStart(lines, i), |lines[i]|);
            Reads(lines, comments, i) <==> columns == [] || ShowsFrom(lines[i], columns, 0)
  {
    hide IsSpace, Columns, LineStart;
    var offset, raw := LineStart(lines, i), lines[i];
    var columns := Columns(comments, offset, |raw|);
    ProjectionExact(comments, offset, |raw|, 0);
    forall c: nat | c < |raw| ensures ShowsAt(raw, columns, c) <==> !IsSpace(raw[c]) && !Covers(comments, offset + c) {
      ProjectionExact(comments, offset, |raw|, c);
    }
  }

  method FencedLines(blocks: seq<Code>) returns (fenced: set<nat>)
    ensures forall line :: line in fenced <==> Fenced(blocks, line)
  {
    fenced := {};
    for i := 0 to |blocks|
      invariant forall line :: line in fenced <==> Fenced(blocks[..i], line)
    {
      assert blocks[..i + 1] == blocks[..i] + [blocks[i]];
      ghost var before := fenced;
      var line := blocks[i].first;
      while line <= blocks[i].last
        invariant blocks[i].first <= line
        invariant forall n :: n in fenced <==> n in before || (blocks[i].first <= n < line && n <= blocks[i].last)
        decreases blocks[i].last + 1 - line
      {
        fenced := fenced + {line};
        line := line + 1;
      }
    }
    assert blocks[..|blocks|] == blocks;
  }

  /** The line stands at its index, is outside code blocks, and reads as prose. */
  ghost predicate IsProse(lines: seq<string>, comments: seq<Range>, blocks: seq<Code>, line: ProseLine) {
    && 1 <= line.index <= |lines| && line.raw == lines[line.index - 1]
    && !Fenced(blocks, line.index) && Reads(lines, comments, line.index - 1)
  }

  ghost predicate Ascending(kept: seq<ProseLine>) {
    forall i, j :: 0 <= i < j < |kept| ==> kept[i].index < kept[j].index
  }

  lemma AppendsAscending(kept: seq<ProseLine>, line: ProseLine)
    requires Ascending(kept) && forall x :: x in kept ==> x.index < line.index
    ensures Ascending(kept + [line])
  {
    forall i | 0 <= i < |kept| ensures kept[i].index < line.index {
      assert kept[i] in kept;
    }
  }

  /** Keeps a line exactly when it is outside code blocks and reads as prose, in order, as it stands. */
  method MarkdownProseLines(source: string, nodes: seq<Html>, blocks: seq<Code>) returns (kept: seq<ProseLine>)
    ensures Ascending(kept)
    ensures forall line :: line in kept <==> IsProse(Lines(source), AllComments(nodes), blocks, line)
  {
    hide Reads, Columns, Lines, AllComments, LineStart, IsSpace, ShowsFrom, Fenced, Ascending;
    var lines := Lines(source);
    var comments := HtmlCommentRanges(nodes, lines);
    var fenced := FencedLines(blocks);
    kept := [];
    NoneAscending();
    for i := 0 to |lines|
      invariant Ascending(kept)
      invariant forall line :: line in kept <==> line.index <= i && IsProse(lines, AllComments(nodes), blocks, line)
    {
      assert Listed(comments, AllComments(nodes), lines, i);
      ReadsExactly(lines, AllComments(nodes), i);
      if i + 1 in fenced {
        continue;
      }
      var shows := HasRenderedTextOutsideComments(lines[i], if i + 1 in comments then comments[i + 1] else []);
      if shows {
        AppendsAscending(kept, ProseLine(i + 1, lines[i]));
        kept := kept + [ProseLine(i + 1, lines[i])];
      }
    }
  }

  lemma NoneAscending()
    ensures Ascending([])
  {
  }
}
