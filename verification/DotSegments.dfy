/** Removing the dot segments of a path in place, against section 5.2.4 of RFC 3986. */
module DotSegments {
  import opened Bytes

  // -----------------------------------------------------------------------------------------------
  // The two buffers of RFC 3986
  // -----------------------------------------------------------------------------------------------

  /** Everything before the last solidus: "the last segment and its preceding solidus (if any)" is removed. */
  function WithoutLastSegment(output: seq<Byte>): (r: seq<Byte>)
    ensures r <= output
  {
    if output == [] then []
    else if output[|output| - 1] == SLASH then output[..|output| - 1]
    else WithoutLastSegment(output[..|output| - 1])
  }

  /** The end of the segment that begins at `i`. */
  function SegmentEnd(s: seq<Byte>, i: nat): (e: nat)
    requires i <= |s|
    ensures i <= e <= |s| && (e == |s| || s[e] == SLASH)
    ensures forall k :: i <= k < e ==> s[k] != SLASH
    decreases |s| - i
  {
    if i == |s| || s[i] == SLASH then i else SegmentEnd(s, i + 1)
  }

  const DOT_SEGMENT: seq<Byte> := [DOT]
  const DOT_DOT_SEGMENT: seq<Byte> := [DOT, DOT]

  /** "/../" or, as the whole input, "/..". */
  predicate BeginsDotDot(input: seq<Byte>) {
    At(input, 0) == SLASH && At(input, 1) == DOT && At(input, 2) == DOT && (|input| == 3 || At(input, 3) == SLASH)
  }

  /** "/./" or, as the whole input, "/.". */
  predicate BeginsDot(input: seq<Byte>) {
    At(input, 0) == SLASH && At(input, 1) == DOT && (|input| == 2 || At(input, 2) == SLASH)
  }

  /** The loop of section 5.2.4, its rules A to E in turn. */
  function RemoveByTwoBuffers(input: seq<Byte>, output: seq<Byte>): seq<Byte>
    decreases |input|
  {
    if input == [] then output
    else if At(input, 0) == DOT && At(input, 1) == DOT && At(input, 2) == SLASH then
      RemoveByTwoBuffers(input[3..], output)
    else if At(input, 0) == DOT && At(input, 1) == SLASH then
      RemoveByTwoBuffers(input[2..], output)
    else if BeginsDot(input) then
      RemoveByTwoBuffers([SLASH] + (if |input| == 2 then [] else input[3..]), output)
    else if BeginsDotDot(input) then
      RemoveByTwoBuffers([SLASH] + (if |input| == 3 then [] else input[4..]), WithoutLastSegment(output))
    else if input == DOT_SEGMENT || input == DOT_DOT_SEGMENT then
      output
    else
      var e := SegmentEnd(input, 1);
      RemoveByTwoBuffers(input[e..], output + input[..e])
  }

  // -----------------------------------------------------------------------------------------------
  // The loop of uri.h
  // -----------------------------------------------------------------------------------------------

  /** Back to behind the next to last solidus; never beyond the first position. */
  function BackUp(out: seq<Byte>): (r: seq<Byte>)
    ensures r <= out
  {
    if |out| <= 1 then out else out[..SlashBefore(out, |out| - 1)]
  }

  /** The largest l <= n that is 0 or has a solidus right before it. */
  function SlashBefore(out: seq<Byte>, n: nat): (l: nat)
    requires n <= |out|
    ensures l <= n && (l == 0 || out[l - 1] == SLASH)
    ensures forall k :: l <= k < n ==> out[k] != SLASH
  {
    if n == 0 || out[n - 1] == SLASH then n else SlashBefore(out, n - 1)
  }

  /** One turn of the loop: what is written after the segment at `pos`. */
  function Written(path: seq<Byte>, pos: nat, out: seq<Byte>): seq<Byte>
    requires pos <= |path|
  {
    var e := SegmentEnd(path, pos);
    var segment := path[pos..e];
    if segment == DOT_DOT_SEGMENT then BackUp(out)
    else if segment == DOT_SEGMENT then out
    else out + segment + if e < |path| then [SLASH] else []
  }

  /** What the loop makes of the path from `pos` on, with `out` written so far. */
  function RemoveFrom(path: seq<Byte>, pos: nat, out: seq<Byte>): seq<Byte>
    decreases |path| - pos
  {
    if pos >= |path| then out else RemoveFrom(path, SegmentEnd(path, pos) + 1, Written(path, pos, out))
  }

  function Remove(path: seq<Byte>): seq<Byte> {
    RemoveFrom(path, 0, [])
  }

  /** Between two segments both have written the same, but for the solidus, which the standard keeps back. */
  lemma {:induction false} SameSegments(path: seq<Byte>, pos: nat, output: seq<Byte>)
    requires pos <= |path| && (output == [] || output[0] == SLASH)
    ensures RemoveByTwoBuffers([SLASH] + path[pos..], output) == RemoveFrom(path, pos, output + [SLASH])
    decreases |path| - pos
  {
    hide BackUp, WithoutLastSegment, RemoveByTwoBuffers, SegmentEnd, RemoveFrom;
    var input := [SLASH] + path[pos..];
    if pos == |path| {
      LastSolidus(input, output);
      RemoveDone(path, pos, output + [SLASH]);
    } else {
      RemoveNext(path, pos, output + [SLASH]);
      var e := SegmentEnd(path, pos);
      var segment := path[pos..e];
      if segment == DOT_DOT_SEGMENT {
        BackUpAgrees(output);
        DotDot(input, path, pos, output);
        SameSegments(path, NextSegment(path, pos), WithoutLastSegment(output));
        SameDone(path, pos, WithoutLastSegment(output) + [SLASH]);
      } else if segment == DOT_SEGMENT {
        OneDot(input, path, pos, output);
        SameSegments(path, NextSegment(path, pos), output);
        SameDone(path, pos, output + [SLASH]);
      } else {
        OtherSegment(input, path, pos, output);
        if e < |path| {
          SameSegments(path, e + 1, output + [SLASH] + segment);
        } else {
          RemoveDone(path, e + 1, Written(path, pos, output + [SLASH]));
        }
      }
    }
  }

  lemma LastSolidus(input: seq<Byte>, output: seq<Byte>)
    requires input == [SLASH]
    ensures RemoveByTwoBuffers(input, output) == output + [SLASH]
  {
    assert input[1..] == [];
    assert RemoveByTwoBuffers([], output + [SLASH]) == output + [SLASH];
  }

  /** Beyond the last segment there is nothing more to do, wherever exactly the loop stops. */
  lemma SameDone(path: seq<Byte>, pos: nat, out: seq<Byte>)
    requires pos < |path|
    ensures RemoveFrom(path, SegmentEnd(path, pos) + 1, out) == RemoveFrom(path, NextSegment(path, pos), out)
  {
  }

  /** Where the next segment begins; the end of the path when there is none. */
  function NextSegment(path: seq<Byte>, pos: nat): (q: nat)
    requires pos < |path|
    ensures pos <= q <= |path|
  {
    var e := SegmentEnd(path, pos);
    if e < |path| then e + 1 else e
  }

  lemma DotDot(input: seq<Byte>, path: seq<Byte>, pos: nat, output: seq<Byte>)
    requires pos < |path| && input == [SLASH] + path[pos..]
    requires path[pos..SegmentEnd(path, pos)] == DOT_DOT_SEGMENT
    ensures RemoveByTwoBuffers(input, output)
         == RemoveByTwoBuffers([SLASH] + path[NextSegment(path, pos)..], WithoutLastSegment(output))
  {
    hide WithoutLastSegment, SegmentEnd;
    var e := SegmentEnd(path, pos);
    assert path[pos] == path[pos..e][0] && path[pos + 1] == path[pos..e][1];
    assert forall k :: 1 <= k < |input| ==> input[k] == path[pos + k - 1];
    if e < |path| {
      assert input[4..] == path[e + 1..];
    } else {
      assert path[e..] == [];
    }
  }

  lemma OneDot(input: seq<Byte>, path: seq<Byte>, pos: nat, output: seq<Byte>)
    requires pos < |path| && input == [SLASH] + path[pos..]
    requires path[pos..SegmentEnd(path, pos)] == DOT_SEGMENT
    ensures RemoveByTwoBuffers(input, output) == RemoveByTwoBuffers([SLASH] + path[NextSegment(path, pos)..], output)
  {
    hide WithoutLastSegment, SegmentEnd;
    var e := SegmentEnd(path, pos);
    assert path[pos] == path[pos..e][0];
    assert forall k :: 1 <= k < |input| ==> input[k] == path[pos + k - 1];
    if e < |path| {
      assert input[3..] == path[e + 1..];
    } else {
      assert path[e..] == [];
    }
  }

  lemma SegmentEndIs(s: seq<Byte>, i: nat, e: nat)
    requires i <= e <= |s| && (e == |s| || s[e] == SLASH) && forall k :: i <= k < e ==> s[k] != SLASH
    ensures SegmentEnd(s, i) == e
  {
    assert SegmentEnd(s, i) <= e;
  }

  /** A segment that is no dot segment triggers none of the rules A to D. */
  lemma NoDotRule(input: seq<Byte>, path: seq<Byte>, pos: nat)
    requires pos < |path| && input == [SLASH] + path[pos..]
    requires var segment := path[pos..SegmentEnd(path, pos)]; segment != DOT_SEGMENT && segment != DOT_DOT_SEGMENT
    ensures !BeginsDot(input) && !BeginsDotDot(input)
  {
    hide SegmentEnd;
    assert forall k :: 1 <= k < |input| ==> input[k] == path[pos + k - 1];
    if BeginsDot(input) {
      SegmentEndIs(path, pos, pos + 1);
    }
    if BeginsDotDot(input) {
      SegmentEndIs(path, pos, pos + 2);
    }
  }

  lemma OtherSegment(input: seq<Byte>, path: seq<Byte>, pos: nat, output: seq<Byte>)
    requires pos < |path| && input == [SLASH] + path[pos..]
    requires var segment := path[pos..SegmentEnd(path, pos)]; segment != DOT_SEGMENT && segment != DOT_DOT_SEGMENT
    ensures var e := SegmentEnd(path, pos);
            var moved := output + [SLASH] + path[pos..e];
            && (e < |path| ==> RemoveByTwoBuffers(input, output) == RemoveByTwoBuffers([SLASH] + path[e + 1..], moved))
            && (e == |path| ==> RemoveByTwoBuffers(input, output) == moved)
  {
    hide SegmentEnd, RemoveByTwoBuffers, BeginsDot, BeginsDotDot;
    NoDotRule(input, path, pos);
    var e := SegmentEnd(path, pos);
    hide At;
    MovedSegment(input, path, pos, e);
    RuleE(input, output);
    Associative(output, [SLASH], path[pos..e]);
    NothingLeft(output + [SLASH] + path[pos..e]);
  }

  /** What rule E moves is the solidus and the segment. */
  lemma MovedSegment(input: seq<Byte>, path: seq<Byte>, pos: nat, e: nat)
    requires pos < |path| && input == [SLASH] + path[pos..] && e == SegmentEnd(path, pos)
    ensures var n := e - pos + 1;
            SegmentEnd(input, 1) == n && input[..n] == [SLASH] + path[pos..e]
            && input[n..] == if e < |path| then [SLASH] + path[e + 1..] else []
  {
    hide SegmentEnd;
    var n := e - pos + 1;
    assert forall k :: 1 <= k < |input| ==> input[k] == path[pos + k - 1];
    SegmentEndIs(input, 1, n);
    assert input[..n] == [SLASH] + path[pos..e];
    assert input[n..] == path[e..];
  }

  lemma RuleE(input: seq<Byte>, output: seq<Byte>)
    requires input != [] && input[0] == SLASH && !BeginsDot(input) && !BeginsDotDot(input)
    ensures var e := SegmentEnd(input, 1);
            RemoveByTwoBuffers(input, output) == RemoveByTwoBuffers(input[e..], output + input[..e])
  {
    hide SegmentEnd, WithoutLastSegment, BeginsDot, BeginsDotDot;
  }

  lemma NothingLeft(output: seq<Byte>)
    ensures RemoveByTwoBuffers([], output) == output
  {
  }

  lemma {:induction false} SlashBeforeAgrees(output: seq<Byte>)
    requires output != [] && output[0] == SLASH
    ensures var l := SlashBefore(output, |output|); l >= 1 && WithoutLastSegment(output) == output[..l - 1]
  {
    var last := |output| - 1;
    if output[last] != SLASH {
      SlashBeforeAgrees(output[..last]);
      SlashBeforePrefix(output, last, last);
      assert output[..last][..SlashBefore(output[..last], last) - 1] == output[..SlashBefore(output, last) - 1];
    }
  }

  lemma {:induction false} SlashBeforePrefix(out: seq<Byte>, n: nat, m: nat)
    requires n <= m <= |out|
    ensures SlashBefore(out[..m], n) == SlashBefore(out, n)
  {
    if n > 0 {
      SlashBeforePrefix(out, n - 1, m);
    }
  }

  /** Both go back by one segment. */
  lemma BackUpAgrees(output: seq<Byte>)
    requires output == [] || output[0] == SLASH
    ensures BackUp(output + [SLASH]) == WithoutLastSegment(output) + [SLASH]
    ensures var r := WithoutLastSegment(output); r == [] || r[0] == SLASH
  {
    if output != [] {
      SlashBeforeAgrees(output);
      var out, n := output + [SLASH], |output|;
      SlashBeforePrefix(out, n, n);
      assert out[..n] == output;
      var l := SlashBefore(output, n);
      assert out[..l] == output[..l - 1] + [SLASH];
    }
  }

  /** On every absolute path the loop computes what section 5.2.4 of RFC 3986 defines. */
  lemma AbsolutePathsAgree(path: seq<Byte>)
    requires path != [] && path[0] == SLASH
    ensures Remove(path) == RemoveByTwoBuffers(path, [])
  {
    hide RemoveByTwoBuffers, BackUp, RemoveFrom, SegmentEnd;
    SegmentEndIs(path, 0, 0);
    RemoveNext(path, 0, []);
    assert path == [SLASH] + path[1..];
    assert path[0..0] == [] && [] + [] + [SLASH] == [SLASH];
    SameSegments(path, 1, []);
  }

  /** On a relative one it may not: of "a/.." the standard leaves "/", the loop nothing. */
  lemma RelativePathsMayDiffer()
    ensures var path: seq<Byte> := [LOWER_A, SLASH, DOT, DOT];
            Remove(path) == [] && RemoveByTwoBuffers(path, []) == [SLASH]
  {
    hide SegmentEnd;
    var path: seq<Byte> := [LOWER_A, SLASH, DOT, DOT];
    SegmentEndIs(path, 0, 1);
    SegmentEndIs(path, 2, 4);
    SegmentEndIs(path, 1, 1);
    assert path[0..1] == [LOWER_A] && path[2..4] == DOT_DOT_SEGMENT;
    var out: seq<Byte> := [LOWER_A, SLASH];
    assert [] + [LOWER_A] + [SLASH] == out && BackUp(out) == [];
    assert RemoveFrom(path, 5, []) == [];
    assert RemoveFrom(path, 2, out) == [];
    assert path[1..] == [SLASH, DOT, DOT];
    LastSolidus([SLASH], []);
    assert WithoutLastSegment([LOWER_A]) == [] by {
      assert [LOWER_A][..0] == [];
    }
    assert RemoveByTwoBuffers(path[1..], [LOWER_A]) == [SLASH];
    assert [] + path[..1] == [LOWER_A];
  }

  // -----------------------------------------------------------------------------------------------
  // All paths
  // -----------------------------------------------------------------------------------------------

  /** Whether the start of a path gets lost. A walk over its segments that counts how many are kept: a ".."
      that takes back the only one, not empty, of a relative path leaves nothing of it, where the standard
      keeps a solidus; a later ".." that finds just a solidus, and stays there, sets that right. `solid` says
      that the first segment kept is empty, `lost` how it stands before the segment at `pos`. */
  predicate LosesFrom(path: seq<Byte>, pos: nat, depth: nat, solid: bool, lost: bool)
    decreases |path| - pos
  {
    if pos >= |path| then lost else
    var e := SegmentEnd(path, pos);
    var segment := path[pos..e];
    if segment == DOT_SEGMENT || (segment == DOT_DOT_SEGMENT && depth == 0) then
      LosesFrom(path, e + 1, depth, solid, lost)
    else if segment == DOT_DOT_SEGMENT then
      if depth == 1 then LosesFrom(path, e + 1, if solid then 1 else 0, solid, !solid)
      else LosesFrom(path, e + 1, depth - 1, solid, lost)
    else
      LosesFrom(path, e + 1, depth + 1, if depth == 0 then segment == [] else solid, lost)
  }

  predicate LosesStart(path: seq<Byte>) {
    LosesFrom(path, 0, 0, false, false)
  }

  /** The same by the bytes that the loop has written. */
  ghost predicate LosesInLoop(path: seq<Byte>, pos: nat, out: seq<Byte>, lost: bool)
    decreases |path| - pos
  {
    if pos >= |path| then lost
    else LosesInLoop(path, SegmentEnd(path, pos) + 1, Written(path, pos, out), NowLost(path, pos, out, lost))
  }

  predicate NowLost(path: seq<Byte>, pos: nat, out: seq<Byte>, lost: bool)
    requires pos <= |path|
  {
    if path[pos..SegmentEnd(path, pos)] != DOT_DOT_SEGMENT then lost
    else if lost then out != [SLASH]
    else |out| > 1 && BackUp(out) == []
  }

  lemma LosesNext(path: seq<Byte>, pos: nat, out: seq<Byte>, lost: bool)
    requires pos < |path|
    ensures LosesInLoop(path, pos, out, lost)
         == LosesInLoop(path, SegmentEnd(path, pos) + 1, Written(path, pos, out), NowLost(path, pos, out, lost))
  {
  }

  lemma LosesDone(path: seq<Byte>, pos: nat, out: seq<Byte>, lost: bool)
    requires pos >= |path|
    ensures LosesInLoop(path, pos, out, lost) == lost
  {
  }

  /** The segments that have been written, each with its solidus. */
  function Depth(out: seq<Byte>): nat {
    if out == [] then 0 else Depth(out[..|out| - 1]) + if out[|out| - 1] == SLASH then 1 else 0
  }

  predicate Closed(out: seq<Byte>) {
    out == [] || out[|out| - 1] == SLASH
  }

  predicate Solid(out: seq<Byte>) {
    out != [] && out[0] == SLASH
  }

  lemma {:induction false} NoSolidus(out: seq<Byte>, l: nat, n: nat)
    requires l <= n <= |out| && forall k :: l <= k < n ==> out[k] != SLASH
    ensures Depth(out[..n]) == Depth(out[..l])
  {
    if l < n {
      assert out[..n][..n - 1] == out[..n - 1];
      NoSolidus(out, l, n - 1);
    }
  }

  /** A ".." takes back one segment, and all if there is one. */
  lemma DepthOfBackUp(out: seq<Byte>)
    requires |out| > 1 && Closed(out)
    ensures Depth(out) >= 1 && Closed(BackUp(out))
    ensures BackUp(out) == [] ==> Depth(out) == 1 && !Solid(out)
    ensures BackUp(out) != [] ==> Depth(BackUp(out)) == Depth(out) - 1 >= 1 && Solid(BackUp(out)) == Solid(out)
  {
    var l := SlashBefore(out, |out| - 1);
    NoSolidus(out, l, |out| - 1);
    if l > 0 {
      assert out[..l][l - 1] == SLASH;
    }
  }

  lemma DepthOfSegment(out: seq<Byte>, segment: seq<Byte>)
    requires forall k :: 0 <= k < |segment| ==> segment[k] != SLASH
    ensures Depth(out + segment + [SLASH]) == Depth(out) + 1
  {
    var longer := out + segment;
    NoSolidus(longer, |out|, |longer|);
    assert longer[..|longer|] == longer && longer[..|out|] == out;
    assert (longer + [SLASH])[..|longer|] == longer;
  }

  lemma NothingKept(out: seq<Byte>)
    requires Closed(out)
    ensures Depth(out) == 0 <==> out == []
    ensures |out| == 1 ==> Depth(out) == 1
    ensures |out| <= 1 ==> BackUp(out) == out
  {
  }

  /** One turn counts as it writes. */
  lemma CountedTurn(path: seq<Byte>, pos: nat, out: seq<Byte>, lost: bool)
    requires pos < |path| && Closed(out)
    ensures var segment, next := path[pos..SegmentEnd(path, pos)], Written(path, pos, out);
            && (SegmentEnd(path, pos) < |path| ==> Closed(next))
            && (segment == DOT_SEGMENT ==> next == out)
            && (segment == DOT_DOT_SEGMENT && Depth(out) == 0 ==> next == out && NowLost(path, pos, out, lost) == lost)
            && (segment == DOT_DOT_SEGMENT && Depth(out) == 1 ==>
                  && Depth(next) == (if Solid(out) then 1 else 0) && Solid(next) == Solid(out)
                  && NowLost(path, pos, out, lost) == !Solid(out))
            && (segment == DOT_DOT_SEGMENT && Depth(out) > 1 ==>
                  Depth(next) == Depth(out) - 1 && Solid(next) == Solid(out) && NowLost(path, pos, out, lost) == lost)
            && (segment != DOT_DOT_SEGMENT ==> NowLost(path, pos, out, lost) == lost)
            && (segment != DOT_DOT_SEGMENT && segment != DOT_SEGMENT && SegmentEnd(path, pos) < |path| ==>
                  Depth(next) == Depth(out) + 1 && Solid(next) == if Depth(out) == 0 then segment == [] else Solid(out))
  {
    hide BackUp, SegmentEnd, Depth;
    NothingKept(out);
    var segment := path[pos..SegmentEnd(path, pos)];
    if segment == DOT_DOT_SEGMENT {
      if |out| > 1 {
        DepthOfBackUp(out);
        NothingKept(BackUp(out));
      }
    } else if segment != DOT_SEGMENT {
      DepthOfSegment(out, segment);
    }
  }

  lemma {:induction false} CountedLoss(path: seq<Byte>, pos: nat, out: seq<Byte>, lost: bool)
    requires Closed(out)
    ensures LosesInLoop(path, pos, out, lost) == LosesFrom(path, pos, Depth(out), Solid(out), lost)
    decreases |path| - pos
  {
    hide SegmentEnd, Written, Depth, Solid, Closed, NowLost;
    if pos < |path| {
      var e := SegmentEnd(path, pos);
      CountedTurn(path, pos, out, lost);
      if e < |path| {
        CountedLoss(path, e + 1, Written(path, pos, out), NowLost(path, pos, out, lost));
      }
    }
  }

  lemma BackUpKeepsSolidus(out: seq<Byte>)
    requires out != [] && out[0] == SLASH
    ensures BackUp(out) != [] && BackUp(out)[0] == SLASH
  {
    if |out| > 1 {
      assert SlashBefore(out, |out| - 1) >= 1;
    }
  }

  /** A new path that begins with a solidus never loses it. */
  lemma {:induction false} SolidusIsNeverLost(path: seq<Byte>, pos: nat, out: seq<Byte>)
    requires out != [] && out[0] == SLASH
    ensures !LosesInLoop(path, pos, out, false)
    decreases |path| - pos
  {
    hide BackUp, SegmentEnd, LosesInLoop;
    if pos < |path| {
      LosesNext(path, pos, out, false);
      BackUpKeepsSolidus(out);
      SolidusIsNeverLost(path, SegmentEnd(path, pos) + 1, Written(path, pos, out));
    } else {
      LosesDone(path, pos, out, false);
    }
  }

  lemma BackUpBehindSolidus(out: seq<Byte>)
    requires out == [] || out[|out| - 1] == SLASH
    ensures BackUp([SLASH] + out) == if out == [SLASH] then [SLASH] else [SLASH] + BackUp(out)
  {
    var longer := [SLASH] + out;
    if |out| > 1 {
      SlashBeforeBehind(out, |out| - 1);
      assert longer[..SlashBefore(out, |out| - 1) + 1] == [SLASH] + BackUp(out);
    } else if |out| == 1 {
      assert out == [SLASH] && longer[..1] == [SLASH];
    }
  }

  lemma {:induction false} SlashBeforeBehind(out: seq<Byte>, n: nat)
    requires n <= |out|
    ensures SlashBefore([SLASH] + out, n + 1) == SlashBefore(out, n) + 1
  {
    if n > 0 && out[n - 1] != SLASH {
      SlashBeforeBehind(out, n - 1);
    }
  }

  /** With and without a solidus in front: the difference stays, until a ".." finds just a solidus. */
  lemma {:induction false} SolidusInFront(path: seq<Byte>, pos: nat, out: seq<Byte>)
    requires out == [] || out[|out| - 1] == SLASH
    ensures LosesInLoop(path, pos, out, true) ==> RemoveFrom(path, pos, [SLASH] + out) == [SLASH] + RemoveFrom(path, pos, out)
    ensures !LosesInLoop(path, pos, out, true) ==> RemoveFrom(path, pos, [SLASH] + out) == RemoveFrom(path, pos, out)
    decreases |path| - pos
  {
    hide BackUp, SegmentEnd, LosesInLoop, RemoveFrom, Written;
    if pos < |path| {
      LosesNext(path, pos, out, true);
      RemoveNext(path, pos, out);
      RemoveNext(path, pos, [SLASH] + out);
      BackUpBehindSolidus(out);
      WrittenBehindSolidus(path, pos, out);
      var e := SegmentEnd(path, pos);
      var next := Written(path, pos, out);
      if e < |path| {
        if path[pos..e] == DOT_DOT_SEGMENT && out == [SLASH] {
          BackUpOfSolidus(path, pos);
          SolidusIsNeverLost(path, e + 1, next);
        } else {
          WrittenEndsWithSolidus(path, pos, out);
          SolidusInFront(path, e + 1, next);
        }
      } else {
        BackUpOfSolidus(path, pos);
        LosesDone(path, e + 1, next, NowLost(path, pos, out, true));
        RemoveDone(path, e + 1, next);
        RemoveDone(path, e + 1, Written(path, pos, [SLASH] + out));
      }
    } else {
      LosesDone(path, pos, out, true);
      RemoveDone(path, pos, out);
      RemoveDone(path, pos, [SLASH] + out);
    }
  }

  lemma BackUpOfSolidus(path: seq<Byte>, pos: nat)
    requires pos < |path|
    ensures path[pos..SegmentEnd(path, pos)] == DOT_DOT_SEGMENT ==> Written(path, pos, [SLASH]) == [SLASH]
  {
  }

  lemma WrittenBehindSolidus(path: seq<Byte>, pos: nat, out: seq<Byte>)
    requires pos < |path| && (out == [] || out[|out| - 1] == SLASH)
    ensures Written(path, pos, [SLASH] + out)
         == if path[pos..SegmentEnd(path, pos)] == DOT_DOT_SEGMENT && out == [SLASH] then [SLASH]
            else [SLASH] + Written(path, pos, out)
  {
    hide SegmentEnd, BackUp;
    BackUpBehindSolidus(out);
    var e := SegmentEnd(path, pos);
    var segment, slash := path[pos..e], if e < |path| then [SLASH] else [];
    Associative([SLASH], out, segment);
    Associative([SLASH], out + segment, slash);
  }

  lemma WrittenEndsWithSolidus(path: seq<Byte>, pos: nat, out: seq<Byte>)
    requires pos < |path| && (out == [] || out[|out| - 1] == SLASH) && SegmentEnd(path, pos) < |path|
    ensures var next := Written(path, pos, out); next == [] || next[|next| - 1] == SLASH
  {
  }

  /** Backing up over the only segment leaves nothing; otherwise both go back by one segment. */
  lemma BackUpAgreesOrLoses(output: seq<Byte>)
    ensures var out := output + [SLASH];
            if |out| > 1 && BackUp(out) == [] then WithoutLastSegment(output) == []
            else BackUp(out) == WithoutLastSegment(output) + [SLASH]
  {
    hide SlashBefore;
    if output != [] {
      var n := |output|;
      SlashBeforeOrNone(output);
      SlashBeforePrefix(output + [SLASH], n, n);
      assert (output + [SLASH])[..n] == output;
      UpToSolidus(output, SlashBefore(output, n));
    }
  }

  lemma UpToSolidus(output: seq<Byte>, l: nat)
    requires l <= |output| && (l == 0 || output[l - 1] == SLASH)
    ensures (output + [SLASH])[..l] == if l > 0 then output[..l - 1] + [SLASH] else []
  {
  }

  lemma {:induction false} SlashBeforeOrNone(output: seq<Byte>)
    ensures var l := SlashBefore(output, |output|); WithoutLastSegment(output) == if l >= 1 then output[..l - 1] else []
  {
    var last := |output| - 1;
    if output != [] && output[last] != SLASH {
      SlashBeforeOrNone(output[..last]);
      SlashBeforePrefix(output, last, last);
      var l := SlashBefore(output, last);
      if l >= 1 {
        assert output[..last][..l - 1] == output[..l - 1];
      }
    }
  }

  /** Once a segment has been written: the two agree from here exactly if the start is not lost from here. */
  lemma {:induction false} AgreeBehindSegment(path: seq<Byte>, pos: nat, output: seq<Byte>)
    requires pos <= |path|
    ensures RemoveByTwoBuffers([SLASH] + path[pos..], output) == RemoveFrom(path, pos, output + [SLASH])
       <==> !LosesInLoop(path, pos, output + [SLASH], false)
    decreases |path| - pos
  {
    hide BackUp, WithoutLastSegment, RemoveByTwoBuffers, SegmentEnd, RemoveFrom, LosesInLoop;
    var input, out := [SLASH] + path[pos..], output + [SLASH];
    if pos == |path| {
      LastSolidus(input, output);
      RemoveDone(path, pos, out);
      LosesDone(path, pos, out, false);
    } else {
      RemoveNext(path, pos, out);
      LosesNext(path, pos, out, false);
      var e := SegmentEnd(path, pos);
      var segment := path[pos..e];
      if segment == DOT_DOT_SEGMENT {
        DotDot(input, path, pos, output);
        BackUpAgreesOrLoses(output);
        AgreeBehindDotDot(path, pos, output);
      } else if segment == DOT_SEGMENT {
        OneDot(input, path, pos, output);
        AgreeBehindSegment(path, NextSegment(path, pos), output);
        SameDone(path, pos, out);
        SameLoss(path, pos, out, false);
      } else {
        OtherSegment(input, path, pos, output);
        if e < |path| {
          AgreeBehindSegment(path, e + 1, output + [SLASH] + segment);
        } else {
          RemoveDone(path, e + 1, Written(path, pos, out));
          LosesDone(path, e + 1, Written(path, pos, out), false);
          assert out + segment + [] == output + [SLASH] + segment;
        }
      }
    }
  }

  lemma SameLoss(path: seq<Byte>, pos: nat, out: seq<Byte>, lost: bool)
    requires pos < |path|
    ensures LosesInLoop(path, SegmentEnd(path, pos) + 1, out, lost) == LosesInLoop(path, NextSegment(path, pos), out, lost)
  {
  }

  lemma {:induction false} AgreeBehindDotDot(path: seq<Byte>, pos: nat, output: seq<Byte>)
    requires pos < |path|
    ensures RemoveByTwoBuffers([SLASH] + path[NextSegment(path, pos)..], WithoutLastSegment(output))
            == RemoveFrom(path, SegmentEnd(path, pos) + 1, BackUp(output + [SLASH]))
       <==> !LosesInLoop(path, SegmentEnd(path, pos) + 1, BackUp(output + [SLASH]),
                        |output| > 0 && BackUp(output + [SLASH]) == [])
    decreases |path| - pos, 0
  {
    hide BackUp, WithoutLastSegment, RemoveByTwoBuffers, SegmentEnd, RemoveFrom, LosesInLoop;
    var out, shorter, next := output + [SLASH], WithoutLastSegment(output), NextSegment(path, pos);
    BackUpAgreesOrLoses(output);
    SameDone(path, pos, BackUp(out));
    if |out| > 1 && BackUp(out) == [] {
      SameLoss(path, pos, [], true);
      SameSegments(path, next, []);
      SolidusInFront(path, next, []);
      assert [SLASH] + [] == [SLASH] == [] + [SLASH];
    } else {
      SameLoss(path, pos, BackUp(out), false);
      NextIsLater(path, pos);
      AgreeBehindSegment(path, next, shorter);
    }
  }

  /** Before any segment has been written: leading dot segments leave nothing on both sides. */
  lemma {:induction false} AgreeFromStart(path: seq<Byte>, pos: nat)
    requires pos <= |path|
    ensures RemoveByTwoBuffers(path[pos..], []) == RemoveFrom(path, pos, []) <==> !LosesInLoop(path, pos, [], false)
    decreases |path| - pos
  {
    hide BackUp, WithoutLastSegment, RemoveByTwoBuffers, SegmentEnd, RemoveFrom, LosesInLoop, Written, NowLost;
    if pos == |path| {
      assert path[pos..] == [];
      NothingLeft([]);
      RemoveDone(path, pos, []);
      LosesDone(path, pos, [], false);
    } else {
      RemoveNext(path, pos, []);
      LosesNext(path, pos, [], false);
      FirstWritten(path, pos);
      var e := SegmentEnd(path, pos);
      var segment := path[pos..e];
      if segment == DOT_SEGMENT || segment == DOT_DOT_SEGMENT {
        LeadingDots(path, pos);
        SameDone(path, pos, []);
        SameLoss(path, pos, [], false);
        AgreeFromStart(path, NextSegment(path, pos));
      } else {
        LeadingSegment(path, pos, e, path[pos..], segment, if e < |path| then [SLASH] + path[e + 1..] else []);
        if e < |path| {
          AgreeBehindSegment(path, e + 1, segment);
        } else {
          RemoveDone(path, e + 1, Written(path, pos, []));
          LosesDone(path, e + 1, Written(path, pos, []), false);
        }
      }
    }
  }

  lemma FirstWritten(path: seq<Byte>, pos: nat)
    requires pos < |path|
    ensures var e := SegmentEnd(path, pos);
            var segment := path[pos..e];
            && !NowLost(path, pos, [], false)
            && Written(path, pos, []) == if segment == DOT_SEGMENT || segment == DOT_DOT_SEGMENT then []
                                         else if e < |path| then segment + [SLASH] else segment
  {
    hide SegmentEnd;
    var segment := path[pos..SegmentEnd(path, pos)];
    assert [] + segment + [SLASH] == segment + [SLASH];
    assert [] + segment + [] == segment;
  }

  /** Rules A and D. */
  lemma LeadingDots(path: seq<Byte>, pos: nat)
    requires pos < |path|
    requires var segment := path[pos..SegmentEnd(path, pos)]; segment == DOT_SEGMENT || segment == DOT_DOT_SEGMENT
    ensures NextSegment(path, pos) > pos
    ensures RemoveByTwoBuffers(path[pos..], []) == RemoveByTwoBuffers(path[NextSegment(path, pos)..], [])
  {
    hide SegmentEnd, RemoveByTwoBuffers;
    var e := SegmentEnd(path, pos);
    var input, segment := path[pos..], path[pos..e];
    assert path[pos] == segment[0] && (|segment| == 2 ==> path[pos + 1] == segment[1]);
    assert forall k :: 0 <= k < |input| ==> input[k] == path[pos + k];
    if e < |path| {
      assert input[e - pos + 1..] == path[e + 1..];
      RuleA(input, e - pos, path[e + 1..]);
    } else {
      assert input == segment && path[e..] == [];
      RuleD(input);
      NothingLeft([]);
    }
  }

  lemma RuleA(input: seq<Byte>, n: nat, rest: seq<Byte>)
    requires 1 <= n <= 2 && n < |input| && rest == input[n + 1..] && input[n] == SLASH
    requires forall k :: 0 <= k < n ==> input[k] == DOT
    ensures RemoveByTwoBuffers(input, []) == RemoveByTwoBuffers(rest, [])
  {
  }

  lemma RuleD(input: seq<Byte>)
    requires input == DOT_SEGMENT || input == DOT_DOT_SEGMENT
    ensures RemoveByTwoBuffers(input, []) == []
  {
  }

  /** Rule E for the first segment, which has no solidus in front; an empty one makes the path absolute. */
  lemma LeadingSegment(path: seq<Byte>, pos: nat, e: nat, input: seq<Byte>, segment: seq<Byte>, rest: seq<Byte>)
    requires pos < |path| && e == SegmentEnd(path, pos) && input == path[pos..] && segment == path[pos..e]
    requires segment != DOT_SEGMENT && segment != DOT_DOT_SEGMENT
    requires rest == if e < |path| then [SLASH] + path[e + 1..] else []
    ensures RemoveByTwoBuffers(input, []) == if e < |path| then RemoveByTwoBuffers(rest, segment) else segment
  {
    hide SegmentEnd, RemoveByTwoBuffers, At;
    FirstSegmentMoved(path, pos, e, input, rest);
    if e > pos {
      NoLeadingDots(path, pos);
      RuleEOfSegment(input, e - pos, segment, rest);
    }
    if e == |path| {
      NothingLeft(segment);
    }
  }

  lemma FirstSegmentMoved(path: seq<Byte>, pos: nat, e: nat, input: seq<Byte>, rest: seq<Byte>)
    requires pos < |path| && e == SegmentEnd(path, pos)
    requires input == path[pos..] && rest == if e < |path| then [SLASH] + path[e + 1..] else []
    ensures e > pos ==> SegmentEnd(input, 1) == e - pos && input[..e - pos] == path[pos..e] && input[e - pos..] == rest
    ensures e == pos ==> input == rest && path[pos..e] == []
  {
    hide SegmentEnd;
    assert forall k :: 0 <= k < |input| ==> input[k] == path[pos + k];
    if e > pos {
      SegmentEndIs(input, 1, e - pos);
    }
    assert input[e - pos..] == path[e..] == rest;
  }

  lemma NoLeadingDots(path: seq<Byte>, pos: nat)
    requires pos < |path| && SegmentEnd(path, pos) > pos
    requires var segment := path[pos..SegmentEnd(path, pos)]; segment != DOT_SEGMENT && segment != DOT_DOT_SEGMENT
    ensures var input := path[pos..];
            && input[0] != SLASH && input != DOT_SEGMENT && input != DOT_DOT_SEGMENT
            && !(At(input, 0) == DOT && At(input, 1) == DOT && At(input, 2) == SLASH)
            && !(At(input, 0) == DOT && At(input, 1) == SLASH)
  {
    hide SegmentEnd;
    var input := path[pos..];
    assert forall k :: 0 <= k < |input| ==> input[k] == path[pos + k];
  }

  lemma RuleEOfSegment(input: seq<Byte>, e: nat, first: seq<Byte>, rest: seq<Byte>)
    requires input != [] && input[0] != SLASH && input != DOT_SEGMENT && input != DOT_DOT_SEGMENT
    requires !(At(input, 0) == DOT && At(input, 1) == DOT && At(input, 2) == SLASH)
    requires !(At(input, 0) == DOT && At(input, 1) == SLASH)
    requires e == SegmentEnd(input, 1) && first == input[..e] && rest == input[e..]
    ensures RemoveByTwoBuffers(input, []) == RemoveByTwoBuffers(rest, first)
  {
    hide SegmentEnd, WithoutLastSegment;
    assert [] + first == first;
  }

  /** On every path: the loop computes what section 5.2.4 defines if and only if the start is not lost. */
  lemma PathsAgreeExactlyUnlessStartIsLost(path: seq<Byte>)
    ensures Remove(path) == RemoveByTwoBuffers(path, []) <==> !LosesStart(path)
  {
    hide RemoveByTwoBuffers, RemoveFrom, LosesInLoop, LosesFrom;
    AgreeFromStart(path, 0);
    CountedLoss(path, 0, [], false);
    assert path[0..] == path;
  }

  lemma NextIsLater(path: seq<Byte>, pos: nat)
    requires pos < |path|
    ensures path[pos..SegmentEnd(path, pos)] == DOT_DOT_SEGMENT ==> NextSegment(path, pos) > pos
  {
  }

  // -----------------------------------------------------------------------------------------------
  // What is left
  // -----------------------------------------------------------------------------------------------

  ghost predicate IsSegment(s: seq<Byte>, i: nat, e: nat) {
    && i <= e <= |s|
    && (i == 0 || s[i - 1] == SLASH)
    && (e == |s| || s[e] == SLASH)
    && forall k :: i <= k < e ==> s[k] != SLASH
  }

  ghost predicate HasNoDotSegment(s: seq<Byte>) {
    forall i: nat, e: nat :: IsSegment(s, i, e) ==> s[i..e] != DOT_SEGMENT && s[i..e] != DOT_DOT_SEGMENT
  }

  /** What has been written is empty or ends with a solidus, and holds no dot segment. */
  ghost predicate IsWritten(out: seq<Byte>) {
    (out == [] || out[|out| - 1] == SLASH) && HasNoDotSegment(out)
  }

  lemma NothingIsWritten()
    ensures IsWritten([])
  {
  }

  lemma SegmentIsWritten(out: seq<Byte>, segment: seq<Byte>)
    requires IsWritten(out) && (forall k :: 0 <= k < |segment| ==> segment[k] != SLASH)
    requires segment != DOT_SEGMENT && segment != DOT_DOT_SEGMENT
    ensures HasNoDotSegment(out + segment) && IsWritten(out + segment + [SLASH])
  {
    var s := out + segment;
    forall i: nat, e: nat | IsSegment(s, i, e)
      ensures s[i..e] != DOT_SEGMENT && s[i..e] != DOT_DOT_SEGMENT
    {
      OldOrNew(out, segment, s, i, e);
    }
    var t := s + [SLASH];
    assert t[|t| - 1] == SLASH;
    assert forall k :: 0 <= k < |s| ==> s[k] == t[k];
    forall i: nat, e: nat | IsSegment(t, i, e)
      ensures t[i..e] != DOT_SEGMENT && t[i..e] != DOT_DOT_SEGMENT
    {
      if e < |t| {
        assert IsSegment(s, i, e);
        assert t[i..e] == s[i..e];
      }
    }
  }

  lemma OldOrNew(out: seq<Byte>, segment: seq<Byte>, s: seq<Byte>, i: nat, e: nat)
    requires s == out + segment && IsSegment(s, i, e) && (out == [] || out[|out| - 1] == SLASH)
    requires forall k :: 0 <= k < |segment| ==> segment[k] != SLASH
    ensures s[i..e] == segment || (IsSegment(out, i, e) && s[i..e] == out[i..e])
  {
    assert forall k :: |out| <= k < |s| ==> s[k] == segment[k - |out|];
    assert forall k :: 0 <= k < |out| ==> out[k] == s[k];
    if i < |out| {
      assert s[|out| - 1] == SLASH;
      assert e < |out|;
      assert s[i..e] == out[i..e];
    } else {
      assert i == |out| && e == |s|;
      assert s[i..e] == segment;
    }
  }

  lemma BackedUpIsWritten(out: seq<Byte>)
    requires IsWritten(out)
    ensures IsWritten(BackUp(out))
  {
    var r := BackUp(out);
    assert r == [] || r[|r| - 1] == SLASH;
    forall i: nat, e: nat | IsSegment(r, i, e)
      ensures r[i..e] != DOT_SEGMENT && r[i..e] != DOT_DOT_SEGMENT
    {
      if e < |r| {
        assert IsSegment(out, i, e);
        assert r[i..e] == out[i..e];
      }
    }
  }

  lemma {:induction false} NoDotSegmentIsLeft(path: seq<Byte>, pos: nat, out: seq<Byte>)
    requires IsWritten(out)
    ensures HasNoDotSegment(RemoveFrom(path, pos, out))
    decreases |path| - pos
  {
    hide IsWritten, HasNoDotSegment, BackUp;
    if pos < |path| {
      var e := SegmentEnd(path, pos);
      var segment := path[pos..e];
      if segment == DOT_DOT_SEGMENT {
        BackedUpIsWritten(out);
        NoDotSegmentIsLeft(path, e + 1, BackUp(out));
      } else if segment == DOT_SEGMENT {
        NoDotSegmentIsLeft(path, e + 1, out);
      } else {
        SegmentIsWritten(out, segment);
        if e < |path| {
          NoDotSegmentIsLeft(path, e + 1, out + segment + [SLASH]);
        } else {
          assert out + segment + [] == out + segment;
        }
      }
    } else {
      WrittenHasNoDotSegment(out);
    }
  }

  lemma WrittenHasNoDotSegment(out: seq<Byte>)
    requires IsWritten(out)
    ensures HasNoDotSegment(out)
  {
  }

  /** A path without dot segments is copied as it is. */
  lemma {:induction false} CleanPathIsKept(path: seq<Byte>, pos: nat)
    requires pos <= |path| && (pos == 0 || path[pos - 1] == SLASH) && HasNoDotSegment(path)
    ensures RemoveFrom(path, pos, path[..pos]) == path
    decreases |path| - pos
  {
    hide RemoveFrom, Written, HasNoDotSegment;
    if pos < |path| {
      RemoveNext(path, pos, path[..pos]);
      CleanSegmentIsKept(path, pos);
      var e := SegmentEnd(path, pos);
      if e < |path| {
        CleanPathIsKept(path, e + 1);
      } else {
        RemoveDone(path, e + 1, path);
      }
    } else {
      assert path[..pos] == path;
      RemoveDone(path, pos, path);
    }
  }

  lemma CleanSegmentIsKept(path: seq<Byte>, pos: nat)
    requires pos < |path| && (pos == 0 || path[pos - 1] == SLASH) && HasNoDotSegment(path)
    ensures var e := SegmentEnd(path, pos);
            Written(path, pos, path[..pos]) == if e < |path| then path[..e + 1] else path
  {
    var e := SegmentEnd(path, pos);
    assert IsSegment(path, pos, e);
    assert path[..pos] + path[pos..e] == path[..e];
    if e < |path| {
      assert path[..e] + [SLASH] == path[..e + 1];
    } else {
      assert path[..e] + [] == path;
    }
  }

  /** No dot segment is left, so that doing it again changes nothing: for every path, absolute or not. */
  lemma RemoveIsIdempotent(path: seq<Byte>)
    ensures HasNoDotSegment(Remove(path)) && Remove(Remove(path)) == Remove(path)
  {
    hide RemoveFrom, HasNoDotSegment;
    NothingIsWritten();
    NoDotSegmentIsLeft(path, 0, []);
    CleanPathIsKept(Remove(path), 0);
    assert Remove(path)[..0] == [];
  }

  // -----------------------------------------------------------------------------------------------
  // In place
  // -----------------------------------------------------------------------------------------------

  /** The dot segments of the first pathlen bytes are removed: the path is written over itself, never ahead
      of what is still to be read, and terminated. */
  method RemoveDotSegments(path: array<Byte>, pathlen: nat) returns (newpos: nat)
    requires pathlen < path.Length && path[pathlen] == NUL
    modifies path
    ensures newpos <= pathlen && path[newpos] == NUL
    ensures path[..newpos] == Remove(old(path[..pathlen]))
    ensures forall k :: pathlen < k < path.Length ==> path[k] == old(path[k])
  {
    hide IsWritten, BackUp, Written, RemoveFrom;
    ghost var p := path[..pathlen];
    NothingIsWritten();
    var pathpos := 0;
    newpos := 0;
    assert path[..0] == [];
    while pathpos < pathlen
      invariant newpos <= pathpos && newpos <= pathlen
      invariant forall k :: pathlen < k < path.Length ==> path[k] == old(path[k])
      invariant forall k :: pathpos <= k < pathlen ==> path[k] == p[k]
      invariant pathpos < pathlen ==> IsWritten(path[..newpos])
      invariant RemoveFrom(p, pathpos, path[..newpos]) == Remove(p)
    {
      RemoveNext(p, pathpos, path[..newpos]);
      StaysWritten(p, pathpos, path[..newpos]);
      var slashpos := FindSlash(path, p, pathpos, pathlen);
      newpos := WriteSegment(path, p, pathpos, slashpos, newpos, pathlen);
      pathpos := pathpos + slashpos + 1;
    }
    RemoveDone(p, pathpos, path[..newpos]);
    ghost var done := path[..newpos];
    path[newpos] := NUL;
    assert path[..newpos] == done;
  }

  lemma RemoveNext(p: seq<Byte>, pos: nat, out: seq<Byte>)
    requires pos < |p|
    ensures RemoveFrom(p, pos, out) == RemoveFrom(p, SegmentEnd(p, pos) + 1, Written(p, pos, out))
  {
  }

  lemma RemoveDone(p: seq<Byte>, pos: nat, out: seq<Byte>)
    requires pos >= |p|
    ensures RemoveFrom(p, pos, out) == out
  {
  }

  lemma StaysWritten(p: seq<Byte>, pos: nat, out: seq<Byte>)
    requires pos < |p| && IsWritten(out)
    ensures SegmentEnd(p, pos) < |p| ==> IsWritten(Written(p, pos, out))
  {
    hide IsWritten, BackUp;
    var e := SegmentEnd(p, pos);
    var segment := p[pos..e];
    if segment == DOT_DOT_SEGMENT {
      BackedUpIsWritten(out);
    } else if segment != DOT_SEGMENT {
      SegmentIsWritten(out, segment);
    }
  }

  /** One turn of the loop, for a segment of slashpos bytes. */
  method WriteSegment(path: array<Byte>, ghost p: seq<Byte>, pathpos: nat, slashpos: nat, pos: nat, pathlen: nat)
    returns (newpos: nat)
    requires pos <= pathpos < pathlen == |p| && pathlen < path.Length && pathpos + slashpos == SegmentEnd(p, pathpos)
    requires forall k :: pathpos <= k < pathlen ==> path[k] == p[k]
    requires IsWritten(path[..pos])
    modifies path
    ensures newpos <= pathpos + slashpos + 1 && newpos <= pathlen
    ensures path[..newpos] == Written(p, pathpos, old(path[..pos]))
    ensures forall k :: pathpos + slashpos < k < path.Length ==> path[k] == old(path[k])
  {
    hide BackUp, IsWritten;
    ghost var out, segment := path[..pos], p[pathpos..pathpos + slashpos];
    assert path[pathpos..pathpos + slashpos] == segment;
    newpos := pos;
    if slashpos == 2 && path[pathpos] == DOT && path[pathpos + 1] == DOT {
      assert segment == DOT_DOT_SEGMENT;
      assert newpos == 0 || path[newpos - 1] == SLASH by {
        EndsWithSolidus(out);
      }
      newpos := FindBackUp(path, newpos);
    } else if slashpos == 1 && path[pathpos] == DOT {
      assert segment == DOT_SEGMENT;
    } else {
      assert segment != DOT_DOT_SEGMENT && segment != DOT_SEGMENT;
      newpos := KeepSegment(path, pathpos, slashpos, pos, pathlen);
    }
  }

  /** Any other segment is moved to the new path, with its solidus if it has one. */
  method KeepSegment(path: array<Byte>, pathpos: nat, slashpos: nat, pos: nat, pathlen: nat) returns (newpos: nat)
    requires pos <= pathpos && pathpos + slashpos <= pathlen < path.Length
    modifies path
    ensures newpos <= pathpos + slashpos + 1 && newpos <= pathlen
    ensures path[..newpos] == old(path[..pos]) + old(path[pathpos..pathpos + slashpos])
                              + if pathpos + slashpos < pathlen then [SLASH] else []
    ensures forall k :: pathpos + slashpos < k < path.Length ==> path[k] == old(path[k])
  {
    ghost var out, segment := path[..pos], path[pathpos..pathpos + slashpos];
    Move(path, pos, pathpos, slashpos);
    newpos := pos + slashpos;
    assert path[..newpos] == out + segment;
    if pathpos + slashpos < pathlen {
      path[newpos] := SLASH;
      newpos := newpos + 1;
      assert path[..newpos] == out + segment + [SLASH];
    } else {
      assert out + segment + [] == out + segment;
    }
  }

  lemma EndsWithSolidus(out: seq<Byte>)
    requires IsWritten(out)
    ensures out == [] || out[|out| - 1] == SLASH
  {
  }

  /** The length of the segment at pathpos. */
  method FindSlash(path: array<Byte>, ghost p: seq<Byte>, pathpos: nat, pathlen: nat) returns (slashpos: nat)
    requires pathpos <= pathlen == |p| && pathlen <= path.Length
    requires forall k :: pathpos <= k < pathlen ==> path[k] == p[k]
    ensures pathpos + slashpos == SegmentEnd(p, pathpos)
  {
    slashpos := 0;
    while pathpos + slashpos < pathlen && path[pathpos + slashpos] != SLASH
      invariant pathpos + slashpos <= pathlen && SegmentEnd(p, pathpos + slashpos) == SegmentEnd(p, pathpos)
    {
      slashpos := slashpos + 1;
    }
  }

  /** Where a ".." segment takes the end of the new path back to. */
  method FindBackUp(path: array<Byte>, newpos: nat) returns (last: nat)
    requires newpos <= path.Length
    ensures last <= newpos && path[..last] == BackUp(path[..newpos])
  {
    last := newpos;
    if last > 1 {
      last := last - 1;
      while last > 0 && path[last - 1] != SLASH
        invariant last < newpos && SlashBefore(path[..newpos], last) == SlashBefore(path[..newpos], newpos - 1)
      {
        last := last - 1;
      }
      assert path[..last] == path[..newpos][..last];
    }
  }

  /** memmove towards the front. */
  method Move(path: array<Byte>, to: nat, from: nat, length: nat)
    requires to <= from && from + length <= path.Length
    modifies path
    ensures path[to..to + length] == old(path[from..from + length])
    ensures forall k :: 0 <= k < to || to + length <= k < path.Length ==> path[k] == old(path[k])
  {
    ghost var before := path[..];
    for k := 0 to length
      invariant forall j :: to <= j < to + k ==> path[j] == before[j + (from - to)]
      invariant forall j :: 0 <= j < to || to + k <= j < path.Length ==> path[j] == before[j]
    {
      path[to + k] := path[from + k];
    }
    assert path[to..to + length] == before[from..from + length];
  }
}
