/**
  Finding the JSON objects in a command's output by scanning it backwards for matching braces
  (publish/src/utils/testPublish.ts:65-97).  `valid` says which candidates the JSON parser accepts.
 */
module Scanner {
  import opened Wrappers

  datatype Span = Span(start: nat, end: nat)

  /** Closing minus opening braces in the first `k` characters. */
  function Excess(s: string, k: nat): int
    requires k <= |s|
  {
    if k == 0 then 0
    else Excess(s, k - 1) + (if s[k - 1] == '}' then 1 else if s[k - 1] == '{' then -1 else 0)
  }

  predicate Fits(s: string, x: Span) {
    x.start < x.end <= |s|
  }

  /** Counting back from the last character, the braces first balance at the first one. */
  ghost predicate Block(s: string, x: Span) {
    && Fits(s, x) && s[x.start] == '{' && Excess(s, x.start) == Excess(s, x.end)
    && forall k | x.start < k < x.end :: Excess(s, k) < Excess(s, x.end)
  }

  /** A closing brace that no opening brace matches. */
  ghost predicate Unmatched(s: string, p: nat) {
    p < |s| && s[p] == '}' && forall k | 0 <= k <= p :: Excess(s, k) < Excess(s, p + 1)
  }

  // ---------------------------------------------------------------- what the scan computes

  /** The last `}` among the first `n` characters, or -1. */
  function LastClose(s: string, n: nat): (r: int)
    requires n <= |s|
    ensures -1 <= r < n
    ensures r >= 0 ==> s[r] == '}'
    ensures forall i | r < i < n :: s[i] != '}'
  {
    if n == 0 then -1 else if s[n - 1] == '}' then n - 1 else LastClose(s, n - 1)
  }

  /** Going back from `i` with `depth` braces still to match: where the count reaches 0, or -1. */
  function MatchBack(s: string, i: int, depth: int): (r: int)
    requires -1 <= i < |s|
    ensures -1 <= r <= i
    decreases i + 1
  {
    if i == -1 then -1
    else if s[i] == '}' then MatchBack(s, i - 1, depth + 1)
    else if s[i] == '{' then (if depth == 1 then i else MatchBack(s, i - 1, depth - 1))
    else MatchBack(s, i - 1, depth)
  }

  lemma {:induction false} MatchBackIff(s: string, end: nat, i: int, depth: int)
    requires -1 <= i < end <= |s| && depth == Excess(s, end) - Excess(s, i + 1)
    requires forall k | i < k < end :: Excess(s, k) < Excess(s, end) || k == end
    requires i + 1 < end ==> depth >= 1
    requires i + 1 == end ==> i >= 0 && s[i] == '}'
    ensures var r := MatchBack(s, i, depth);
      if r == -1 then forall k | 0 <= k < end :: Excess(s, k) < Excess(s, end)
      else 0 <= r < end && Block(s, Span(r, end))
    decreases i + 1
  {
    if i == -1 {
    } else {
      var step := Excess(s, i + 1) - Excess(s, i);
      if !(s[i] == '{' && depth == 1) {
        MatchBackIff(s, end, i - 1, depth + step);
      }
    }
  }

  /** The candidate that ends at the last closing brace among the first `end` characters. */
  function LastBlock(s: string, end: nat): (r: Option<Span>)
    requires end <= |s|
    ensures r.Some? ==> Fits(s, r.value) && r.value.end <= end
  {
    var close := LastClose(s, end);
    if close == -1 then None
    else
      var open := MatchBack(s, close, 0);
      if open == -1 then None else Some(Span(open, close + 1))
  }

  function TextOf(s: string, x: Span): string {
    if Fits(s, x) then s[x.start..x.end] else ""
  }

  /** The spans taken from the first `end` characters, in the order of the text. */
  function Spans(s: string, end: nat, valid: string -> bool): seq<Span>
    requires end <= |s|
    decreases end
  {
    match LastBlock(s, end)
    case None => []
    case Some(x) => if valid(TextOf(s, x)) then Spans(s, x.start, valid) + [x] else Spans(s, x.end - 1, valid)
  }

  lemma ClosersMatch(s: string, close: nat)
    requires close < |s| && s[close] == '}'
    ensures var open := MatchBack(s, close, 0);
      if open == -1 then Unmatched(s, close)
      else 0 <= open < close && Block(s, Span(open, close + 1))
  {
    MatchBackIff(s, close + 1, close, 0);
  }

  /** No candidate means no closing brace, or an unmatched one last. */
  lemma LastBlockIs(s: string, end: nat)
    requires end <= |s|
    ensures match LastBlock(s, end)
      case Some(x) => Block(s, x) && forall i | x.end <= i < end :: s[i] != '}'
      case None =>
        (forall i | 0 <= i < end :: s[i] != '}')
        || exists p :: 0 <= p < end && Unmatched(s, p) && forall i | p < i < end :: s[i] != '}'
  {
    var close := LastClose(s, end);
    if close >= 0 { ClosersMatch(s, close); }
  }

  // ---------------------------------------------------------------- exactly which objects are found

  predicate Contains(y: Span, x: Span) {
    y.start <= x.start && x.end <= y.end && x != y
  }

  ghost predicate Candidate(s: string, end: nat, valid: string -> bool, x: Span) {
    Block(s, x) && x.end <= end && valid(TextOf(s, x))
  }

  /** A parseable block inside no larger one, with no unmatched closing brace after it. */
  ghost predicate Outermost(s: string, end: nat, valid: string -> bool, x: Span) {
    && Candidate(s, end, valid, x)
    && (forall y | Candidate(s, end, valid, y) :: !Contains(y, x))
    && (forall p | x.end <= p < end :: !Unmatched(s, p))
  }

  /** Blocks are nested or disjoint, and one ends where another does only when they are equal. */
  lemma BlocksNest(s: string, x: Span, y: Span)
    requires Block(s, x) && Block(s, y)
    ensures x.end <= y.start || y.end <= x.start || x == y || Contains(x, y) || Contains(y, x)
    ensures x.end == y.end ==> x == y
  {
  }

  lemma BlockEndsWithClose(s: string, x: Span)
    requires Block(s, x)
    ensures x.end - x.start > 1 && s[x.end - 1] == '}'
    ensures forall p | x.start <= p < x.end :: !Unmatched(s, p)
  {
    assert Excess(s, x.start + 1) == Excess(s, x.start) - 1;
    assert Excess(s, x.end - 1) < Excess(s, x.end);
    forall p | x.start <= p < x.end ensures !Unmatched(s, p) {
      assert Excess(s, p + 1) <= Excess(s, x.start);
    }
  }

  /**
    On every input the scan finds exactly the outermost parseable blocks after the last unmatched
    closing brace: that brace stops it.
   */
  lemma {:induction false} FoundIff(s: string, end: nat, valid: string -> bool, x: Span)
    requires end <= |s|
    ensures x in Spans(s, end, valid) <==> Outermost(s, end, valid, x)
    decreases end
  {
    match LastBlock(s, end)
    case None => StoppedStep(s, end, valid, x);
    case Some(found) =>
      if valid(TextOf(s, found)) {
        FoundIff(s, found.start, valid, x);
        TakenStep(s, end, valid, found, x);
      } else {
        FoundIff(s, found.end - 1, valid, x);
        SkippedStep(s, end, valid, found, x);
      }
  }

  lemma StoppedStep(s: string, end: nat, valid: string -> bool, x: Span)
    requires end <= |s| && LastBlock(s, end) == None
    ensures !Outermost(s, end, valid, x)
  {
    LastBlockIs(s, end);
    if Candidate(s, end, valid, x) { BlockEndsWithClose(s, x); }
  }

  /** Every candidate ends at or before the last block, and those ending there are that block. */
  lemma CandidatesBefore(s: string, end: nat, valid: string -> bool, found: Span, y: Span)
    requires end <= |s| && LastBlock(s, end) == Some(found) && Candidate(s, end, valid, y)
    ensures y == found || (y.end < found.end && (y.end <= found.start || Contains(found, y)))
  {
    LastBlockIs(s, end);
    BlockEndsWithClose(s, y);
    BlocksNest(s, found, y);
  }

  lemma NoneUnmatchedAfter(s: string, end: nat, found: Span)
    requires end <= |s| && LastBlock(s, end) == Some(found)
    ensures forall p | found.start <= p < end :: !Unmatched(s, p)
  {
    LastBlockIs(s, end);
    BlockEndsWithClose(s, found);
  }

  lemma TakenStep(s: string, end: nat, valid: string -> bool, found: Span, x: Span)
    requires end <= |s| && LastBlock(s, end) == Some(found) && valid(TextOf(s, found))
    ensures Outermost(s, end, valid, x) <==> x == found || Outermost(s, found.start, valid, x)
  {
    LastBlockIs(s, end);
    NoneUnmatchedAfter(s, end, found);
    forall y | Candidate(s, end, valid, y)
      ensures y == found || (y.end < found.end && (y.end <= found.start || Contains(found, y)))
    {
      CandidatesBefore(s, end, valid, found, y);
    }
  }

  lemma SkippedStep(s: string, end: nat, valid: string -> bool, found: Span, x: Span)
    requires end <= |s| && LastBlock(s, end) == Some(found) && !valid(TextOf(s, found))
    ensures Outermost(s, end, valid, x) <==> Outermost(s, found.end - 1, valid, x)
  {
    NoneUnmatchedAfter(s, end, found);
    forall y | Candidate(s, end, valid, y) ensures y.end < found.end {
      CandidatesBefore(s, end, valid, found, y);
    }
  }

  ghost predicate Disjoint(spans: seq<Span>) {
    forall i, j | 0 <= i < j < |spans| :: spans[i].end <= spans[j].start
  }

  lemma FoundAreCandidates(s: string, end: nat, valid: string -> bool)
    requires end <= |s|
    ensures forall x | x in Spans(s, end, valid) :: Candidate(s, end, valid, x)
  {
    forall x | x in Spans(s, end, valid) ensures Candidate(s, end, valid, x) {
      FoundIff(s, end, valid, x);
    }
  }

  /** What is found is in text order, without overlap, each piece a parseable block. */
  lemma {:induction false} FoundInOrder(s: string, end: nat, valid: string -> bool)
    requires end <= |s|
    ensures forall x | x in Spans(s, end, valid) :: Candidate(s, end, valid, x)
    ensures Disjoint(Spans(s, end, valid))
    decreases end
  {
    FoundAreCandidates(s, end, valid);
    match LastBlock(s, end)
    case None =>
    case Some(x) =>
      var next := if valid(TextOf(s, x)) then x.start else x.end - 1;
      var rest := Spans(s, next, valid);
      FoundInOrder(s, next, valid);
      forall i | 0 <= i < |rest| ensures rest[i].end <= next {
        assert rest[i] in rest;
      }
  }

  /** The texts found, in the order of the output. */
  function Pieces(s: string, end: nat, valid: string -> bool): seq<string>
    requires end <= |s|
    decreases end
  {
    match LastBlock(s, end)
    case None => []
    case Some(x) =>
      if valid(TextOf(s, x)) then Pieces(s, x.start, valid) + [TextOf(s, x)] else Pieces(s, x.end - 1, valid)
  }

  /** They are the texts of the spans. */
  lemma {:induction false} PiecesOfSpans(s: string, end: nat, valid: string -> bool)
    requires end <= |s|
    ensures |Pieces(s, end, valid)| == |Spans(s, end, valid)|
    ensures forall i | 0 <= i < |Spans(s, end, valid)| :: Pieces(s, end, valid)[i] == TextOf(s, Spans(s, end, valid)[i])
    decreases end
  {
    match LastBlock(s, end)
    case None =>
    case Some(x) => PiecesOfSpans(s, if valid(TextOf(s, x)) then x.start else x.end - 1, valid);
  }

  /** The same with an accumulator, as the loop builds them. */
  function PiecesOnto(s: string, end: nat, valid: string -> bool, found: seq<string>): seq<string>
    requires end <= |s|
    decreases end
  {
    match LastBlock(s, end)
    case None => found
    case Some(x) =>
      if valid(TextOf(s, x)) then PiecesOnto(s, x.start, valid, [TextOf(s, x)] + found)
      else PiecesOnto(s, x.end - 1, valid, found)
  }

  lemma {:induction false} PiecesOntoAppends(s: string, end: nat, valid: string -> bool, found: seq<string>)
    requires end <= |s|
    ensures PiecesOnto(s, end, valid, found) == Pieces(s, end, valid) + found
    decreases end
  {
    match LastBlock(s, end)
    case None =>
    case Some(x) =>
      if valid(TextOf(s, x)) {
        PiecesOntoAppends(s, x.start, valid, [TextOf(s, x)] + found);
      } else {
        PiecesOntoAppends(s, x.end - 1, valid, found);
      }
  }

  // ---------------------------------------------------------------- the loop

  /** The inner loop: count braces backwards from the closing one. */
  method MatchingOpen(output: string, jsonEnd: nat) returns (jsonStart: int)
    requires jsonEnd < |output| && output[jsonEnd] == '}'
    ensures jsonStart == MatchBack(output, jsonEnd, 0)
  {
    jsonStart := -1;
    var depth, i := 0, jsonEnd as int;
    while i >= 0
      invariant -1 <= i <= jsonEnd && jsonStart == -1
      invariant MatchBack(output, jsonEnd, 0) == MatchBack(output, i, depth)
    {
      if output[i] == '}' {
        depth := depth + 1;
      } else if output[i] == '{' {
        depth := depth - 1;
        if depth == 0 {
          jsonStart := i;
          break;
        }
      }
      i := i - 1;
    }
  }

  method ScanObjects(output: string, valid: string -> bool) returns (jsonOutputs: seq<string>)
    ensures jsonOutputs == Pieces(output, |output|, valid)
  {
    PiecesOntoAppends(output, |output|, valid, []);
    jsonOutputs := [];
    var searchEnd := |output|;
    while searchEnd > 0
      invariant 0 <= searchEnd <= |output|
      invariant PiecesOnto(output, |output|, valid, []) == PiecesOnto(output, searchEnd, valid, jsonOutputs)
    {
      var jsonEnd := LastClose(output, searchEnd);
      if jsonEnd == -1 { break; }
      var jsonStart := MatchingOpen(output, jsonEnd);
      if jsonStart == -1 { break; }
      var candidate := output[jsonStart..jsonEnd + 1];
      if valid(candidate) {
        jsonOutputs := [candidate] + jsonOutputs;
        searchEnd := jsonStart;
      } else {
        searchEnd := jsonEnd;
      }
    }
  }

  // ---------------------------------------------------------------- round trip

  /** Log text around the objects, which holds no closing brace. */
  datatype Item = Item(obj: string, noise: string)

  function Render(head: string, items: seq<Item>): string {
    if items == [] then head
    else Render(head, items[..|items| - 1]) + items[|items| - 1].obj + items[|items| - 1].noise
  }

  predicate NoClose(t: string) {
    forall i | 0 <= i < |t| :: t[i] != '}'
  }

  /** An object the parser accepts, whose own braces first balance at its own ends. */
  ghost predicate IsObject(t: string, valid: string -> bool) {
    valid(t) && Block(t, Span(0, |t|))
  }

  lemma {:induction false} ExcessShift(a: string, t: string, b: string, k: nat)
    requires k <= |t|
    ensures Excess(a + t + b, |a| + k) == Excess(a, |a|) + Excess(t, k)
  {
    if k > 0 {
      ExcessShift(a, t, b, k - 1);
    } else {
      ExcessPrefix(a, t + b, |a|);
      assert a + t + b == a + (t + b);
    }
  }

  lemma {:induction false} ExcessPrefix(a: string, b: string, k: nat)
    requires k <= |a|
    ensures Excess(a + b, k) == Excess(a, k)
  {
    if k == 0 {
    } else {
      ExcessPrefix(a, b, k - 1);
    }
  }

  ghost predicate Agree(s: string, t: string, end: nat) {
    end <= |s| && end <= |t| && forall i | 0 <= i < end :: s[i] == t[i]
  }

  /** Only the text before `end` matters. */
  lemma {:induction false} PiecesAgree(s: string, t: string, end: nat, valid: string -> bool)
    requires Agree(s, t, end)
    ensures Pieces(s, end, valid) == Pieces(t, end, valid)
    decreases end
  {
    LastBlockAgrees(s, t, end);
    match LastBlock(s, end)
    case None =>
    case Some(x) =>
      TextsAgree(s, t, end, x);
      PiecesAgree(s, t, if valid(TextOf(s, x)) then x.start else x.end - 1, valid);
  }

  lemma TextsAgree(s: string, t: string, end: nat, x: Span)
    requires Agree(s, t, end) && x.start < x.end <= end
    ensures TextOf(s, x) == TextOf(t, x)
  {
  }

  lemma LastBlockAgrees(s: string, t: string, end: nat)
    requires Agree(s, t, end)
    ensures LastBlock(s, end) == LastBlock(t, end)
  {
    LastCloseAgrees(s, t, end);
    if LastClose(s, end) >= 0 { MatchBackAgrees(s, t, LastClose(s, end), 0, end); }
  }

  lemma LastCloseAgrees(s: string, t: string, n: nat)
    requires Agree(s, t, n)
    ensures LastClose(s, n) == LastClose(t, n)
  {
  }

  lemma {:induction false} MatchBackAgrees(s: string, t: string, i: int, depth: int, end: nat)
    requires Agree(s, t, end) && -1 <= i < end
    ensures MatchBack(s, i, depth) == MatchBack(t, i, depth)
    decreases i + 1
  {
    if i == -1 {
    } else {
      MatchBackAgrees(s, t, i - 1, if s[i] == '}' then depth + 1 else if s[i] == '{' then depth - 1 else depth, end);
    }
  }

  function Objects(items: seq<Item>): seq<string> {
    if items == [] then [] else Objects(items[..|items| - 1]) + [items[|items| - 1].obj]
  }

  lemma ObjectIsBlock(front: string, obj: string, noise: string)
    requires Block(obj, Span(0, |obj|))
    ensures Block(front + obj + noise, Span(|front|, |front| + |obj|))
  {
    var s := front + obj + noise;
    forall k | 0 <= k <= |obj| ensures Excess(s, |front| + k) == Excess(front, |front|) + Excess(obj, k) {
      ExcessShift(front, obj, noise, k);
    }
    forall k | |front| < k < |front| + |obj| ensures Excess(s, k) < Excess(s, |front| + |obj|) {
      assert k == |front| + (k - |front|) && Excess(obj, k - |front|) < Excess(obj, |obj|);
    }
  }

  lemma BlockIsFound(s: string, x: Span)
    requires Block(s, x) && forall i | x.end <= i < |s| :: s[i] != '}'
    ensures LastBlock(s, |s|) == Some(x)
  {
    BlockEndsWithClose(s, x);
    ClosersMatch(s, x.end - 1);
    assert LastClose(s, |s|) == x.end - 1;
    BlocksNest(s, x, Span(MatchBack(s, x.end - 1, 0), x.end));
  }

  /** The last object is taken first, and the scan goes on in front of it. */
  lemma LastObjectIsTaken(front: string, obj: string, noise: string, valid: string -> bool)
    requires IsObject(obj, valid) && NoClose(noise)
    ensures var s := front + obj + noise;
      Pieces(s, |s|, valid) == Pieces(front, |front|, valid) + [obj]
  {
    var s := front + obj + noise;
    ObjectIsBlock(front, obj, noise);
    forall i | |front| + |obj| <= i < |s| ensures s[i] != '}' {
      assert s[i] == noise[i - |front| - |obj|];
    }
    BlockIsFound(s, Span(|front|, |front| + |obj|));
    assert TextOf(s, Span(|front|, |front| + |obj|)) == obj;
    PiecesAgree(s, front, |front|, valid);
  }

  /** Objects separated by text without closing braces come back exactly, in order. */
  lemma {:induction false} ScanRoundTrip(head: string, items: seq<Item>, valid: string -> bool)
    requires NoClose(head) && forall it | it in items :: IsObject(it.obj, valid) && NoClose(it.noise)
    ensures Pieces(Render(head, items), |Render(head, items)|, valid) == Objects(items)
  {
    if items == [] {
      assert LastClose(head, |head|) == -1;
    } else {
      var front, last := items[..|items| - 1], items[|items| - 1];
      assert last in items;
      ScanRoundTrip(head, front, valid);
      LastObjectIsTaken(Render(head, front), last.obj, last.noise, valid);
    }
  }

  /** A brace inside a JSON string breaks the raw count: this object is not found at all. */
  lemma BraceInStringLosesTheObject(valid: string -> bool)
    ensures Spans("{\"}\"}", 5, valid) == []
  {
  }
}
