/**
 * Greedy line filling (src/text/layout.cpp, LayoutImpl::build) and the parts of
 * makeLine that cut a line: the ellipsis and the spaces that hang at a wrap.
 * The shaped units and their widths are given; float is modelled as real.
 */
module LineFill {
  datatype Break = NoBreak | Allowed | Mandatory

  /** A shaped cluster; `brk` is the break opportunity before it. */
  datatype Unit = Unit(w: real, brk: Break, space: bool, nl: bool)

  /** What makeLine is asked to lay out: units [u0, u1). */
  datatype Line = Line(u0: nat, u1: nat, ellipsis: bool, soft: bool)

  const SLACK := 0.01

  function Sum(units: seq<Unit>, a: nat, b: nat): real
    requires a <= b <= |units|
    decreases b
  {
    if a == b then 0.0 else Sum(units, a, b - 1) + units[b - 1].w
  }

  // ---- Where a line ends ----

  /** A unit that may not hang and does not fit behind those from `u0` on. */
  predicate Overflows(units: seq<Unit>, u0: nat, u: nat, maxW: real)
    requires u0 <= u < |units|
  {
    u > u0 && !units[u].space && !units[u].nl && Sum(units, u0, u) + units[u].w > maxW + SLACK
  }

  predicate NoneOf(units: seq<Unit>, a: nat, b: nat, brk: Break)
    requires b <= |units|
  {
    forall u :: a <= u < b ==> units[u].brk != brk
  }

  /** No unit of the line but the first overflows. */
  ghost predicate Fits(units: seq<Unit>, u0: nat, u1: nat, maxW: real)
    requires u1 <= |units|
  {
    forall u :: u0 <= u < u1 ==> !Overflows(units, u0, u, maxW)
  }

  /** A wrap: the first overflowing unit is `f`; the line ends at the last break allowed up to it, or at `f` when there is none. */
  ghost predicate WrapsAt(units: seq<Unit>, u0: nat, end: nat, f: nat, maxW: real)
  {
    && u0 < end <= f < |units| && Overflows(units, u0, f, maxW) && Fits(units, u0, f, maxW)
    && NoneOf(units, u0 + 1, f + 1, Mandatory)
    && NoneOf(units, end + 1, f + 1, Allowed)
    && (units[end].brk == Allowed || (end == f && NoneOf(units, u0 + 1, f + 1, Allowed)))
  }

  /** A line ends where it must, or with the text, or wraps. */
  ghost predicate EndsWell(units: seq<Unit>, u0: nat, end: nat, maxW: real)
  {
    && u0 < end <= |units| && NoneOf(units, u0 + 1, end, Mandatory) && Fits(units, u0, end, maxW)
    && (end < |units| && units[end].brk != Mandatory ==> exists f: nat :: WrapsAt(units, u0, end, f, maxW))
  }

  method LineEnd(units: seq<Unit>, u0: nat, maxW: real) returns (end: nat)
    requires u0 < |units|
    ensures EndsWell(units, u0, end, maxW)
  {
    var x, lastBreak: nat := 0.0, 0;
    end := |units|;
    var u: nat := u0;
    while u < |units|
      invariant u0 <= u <= |units| && end == |units| && x == Sum(units, u0, u)
      invariant NoneOf(units, u0 + 1, u, Mandatory) && Fits(units, u0, u, maxW)
      invariant if lastBreak > u0 then lastBreak < u && units[lastBreak].brk == Allowed && NoneOf(units, lastBreak + 1, u, Allowed)
                else NoneOf(units, u0 + 1, u, Allowed)
    {
      if u > u0 && units[u].brk == Mandatory {
        end := u;
        return;
      }
      if u > u0 && units[u].brk == Allowed { lastBreak := u; }
      if !units[u].space && !units[u].nl && u > u0 && x + units[u].w > maxW + SLACK {
        end := if lastBreak > u0 then lastBreak else u;
        assert WrapsAt(units, u0, end, u, maxW);
        return;
      }
      x := x + units[u].w;
      u := u + 1;
    }
  }

  // ---- All lines ----

  /** Lines follow each other without a gap, from the first unit to `end`; all but an empty text's hold a unit. */
  ghost predicate Consecutive(lines: seq<Line>, end: nat)
  {
    && (if lines == [] then end == 0 else lines[0].u0 == 0 && lines[|lines| - 1].u1 == end)
    && (forall k :: 0 <= k < |lines| ==> lines[k].u0 < lines[k].u1)
    && (forall k :: 0 < k < |lines| ==> lines[k].u0 == lines[k - 1].u1)
  }

  /** Each line is one LineEnd allows, soft exactly when it wraps. */
  ghost predicate Filled(units: seq<Unit>, lines: seq<Line>, maxW: real)
  {
    forall k :: 0 <= k < |lines| ==>
      && EndsWell(units, lines[k].u0, lines[k].u1, maxW) && !lines[k].ellipsis
      && (lines[k].soft <==> lines[k].u1 < |units| && units[lines[k].u1].brk != Mandatory)
  }

  /** The last line allowed, when more units remain: cut as filled, or with an ellipsis the rest of its paragraph. */
  ghost predicate LastLine(units: seq<Unit>, l: Line, ellipsis: bool, maxW: real)
  {
    && l.ellipsis == ellipsis && !l.soft && l.u0 < l.u1 <= |units|
    && exists end :: l.u0 < end <= l.u1 && end < |units| && EndsWell(units, l.u0, end, maxW)
                     && (if ellipsis then NoneOf(units, l.u0 + 1, l.u1, Mandatory) && (l.u1 == |units| || units[l.u1].brk == Mandatory)
                         else l.u1 == end)
  }

  /** A text that ends with a newline gets one more, empty line, where it may. */
  function Tail(units: seq<Unit>, count: nat, maxLines: int): seq<Line>
  {
    if units != [] && units[|units| - 1].nl && !(maxLines > 0 && count >= maxLines)
    then [Line(|units|, |units|, false, false)] else []
  }

  ghost predicate Whole(units: seq<Unit>, lines: seq<Line>, maxLines: int, maxW: real)
  {
    exists n: nat :: n <= |lines| && (units != [] ==> n > 0)
      && Consecutive(lines[..n], |units|) && Filled(units, lines[..n], maxW)
      && lines[n..] == (if units == [] then [Line(0, 0, false, false)] else Tail(units, n, maxLines))
  }

  ghost predicate CutShort(units: seq<Unit>, lines: seq<Line>, ellipsis: bool, maxLines: int, maxW: real)
  {
    && lines != [] && maxLines > 0 && |lines| == maxLines
    && var n, l := |lines| - 1, lines[|lines| - 1];
       Consecutive(lines[..n], l.u0) && Filled(units, lines[..n], maxW) && LastLine(units, l, ellipsis, maxW)
  }

  method FillLines(units: seq<Unit>, maxW: real, maxLines: int, ellipsis: bool) returns (lines: seq<Line>, truncated: bool)
    ensures if truncated then CutShort(units, lines, ellipsis, maxLines, maxW) else Whole(units, lines, maxLines, maxW)
    ensures maxLines > 0 ==> |lines| <= maxLines
  {
    hide Consecutive, Filled, EndsWell;
    lines, truncated := [], false;
    var u0: nat := 0;
    var done := units == [];
    NoLinesYet(units, maxW);
    if done {
      lines := [Line(0, 0, false, false)];
      assert lines[..0] == [] && lines[0..] == lines;
    }
    while !done
      invariant !done ==> u0 < |units| && Consecutive(lines, u0) && Filled(units, lines, maxW)
      invariant !done ==> !truncated && (maxLines > 0 ==> |lines| < maxLines)
      invariant done ==> !truncated && Whole(units, lines, maxLines, maxW) && (maxLines > 0 ==> |lines| <= maxLines)
      decreases !done, |units| - u0
    {
      var end := LineEnd(units, u0, maxW);
      EndBounds(units, u0, end, maxW);
      var more := end < |units|;
      var last := maxLines > 0 && |lines| + 1 >= maxLines;
      if more && last {
        truncated := true;
        var cut := end;
        if ellipsis { cut := ParagraphEnd(units, u0, end, maxW); }
        ghost var before := lines;
        lines := lines + [Line(u0, cut, ellipsis, false)];
        assert lines[..|lines| - 1] == before;
        break;
      }
      var soft := more && units[end].brk != Mandatory;
      OneMoreLine(units, lines, u0, end, soft, maxW);
      lines := lines + [Line(u0, end, false, soft)];
      u0 := end;
      done := !more;
      if done {
        ghost var n, filled := |lines|, lines;
        if units != [] && units[|units| - 1].nl && !(maxLines > 0 && |lines| >= maxLines) {
          lines := lines + [Line(|units|, |units|, false, false)];
        }
        assert lines[..n] == filled && lines[n..] == Tail(units, n, maxLines);
      }
    }
  }

  lemma NoLinesYet(units: seq<Unit>, maxW: real)
    ensures Consecutive([], 0) && Filled(units, [], maxW)
  {
  }

  lemma EndBounds(units: seq<Unit>, u0: nat, end: nat, maxW: real)
    requires EndsWell(units, u0, end, maxW)
    ensures u0 < end <= |units| && NoneOf(units, u0 + 1, end, Mandatory)
  {
  }

  lemma OneMoreLine(units: seq<Unit>, lines: seq<Line>, u0: nat, end: nat, soft: bool, maxW: real)
    requires Consecutive(lines, u0) && Filled(units, lines, maxW) && EndsWell(units, u0, end, maxW)
    requires soft <==> end < |units| && units[end].brk != Mandatory
    ensures Consecutive(lines + [Line(u0, end, false, soft)], end) && Filled(units, lines + [Line(u0, end, false, soft)], maxW)
  {
    hide EndsWell;
    EndBounds(units, u0, end, maxW);
    var r := lines + [Line(u0, end, false, soft)];
    forall k | 0 < k < |r| ensures r[k].u0 == r[k - 1].u1 { assert k < |lines| ==> r[k] == lines[k] && r[k - 1] == lines[k - 1]; }
    forall k | 0 <= k < |r| ensures r[k].u0 < r[k].u1 { assert k < |lines| ==> r[k] == lines[k]; }
  }

  /** Up to the next mandatory break, for the line that takes the ellipsis. */
  method ParagraphEnd(units: seq<Unit>, u0: nat, end: nat, maxW: real) returns (cut: nat)
    requires u0 < end <= |units| && NoneOf(units, u0 + 1, end, Mandatory)
    ensures end <= cut <= |units| && NoneOf(units, u0 + 1, cut, Mandatory) && (cut == |units| || units[cut].brk == Mandatory)
  {
    cut := end;
    while cut < |units| && !(cut > u0 && units[cut].brk == Mandatory)
      invariant end <= cut <= |units| && NoneOf(units, u0 + 1, cut, Mandatory)
    {
      cut := cut + 1;
    }
  }

  // ---- What follows ----

  /** Every mandatory break begins a line. */
  lemma MandatoryBeginsLine(units: seq<Unit>, lines: seq<Line>, maxW: real, u: nat)
    requires Consecutive(lines, |units|) && Filled(units, lines, maxW) && 0 < u < |units| && units[u].brk == Mandatory
    ensures exists k :: 0 <= k < |lines| && lines[k].u0 == u
  {
    hide Fits, WrapsAt;
    var k := LineOf(lines, |units|, u);
    EndBounds(units, lines[k].u0, lines[k].u1, maxW);
    NotAmong(units, lines[k].u0 + 1, lines[k].u1, Mandatory, u);
  }

  lemma NotAmong(units: seq<Unit>, a: nat, b: nat, brk: Break, u: nat)
    requires b <= |units| && u < |units| && NoneOf(units, a, b, brk) && units[u].brk == brk
    ensures !(a <= u < b)
  {
  }

  /** Every unit is on exactly one line. */
  lemma {:induction false} LineOf(lines: seq<Line>, end: nat, u: nat) returns (k: nat)
    requires Consecutive(lines, end) && u < end
    ensures k < |lines| && lines[k].u0 <= u < lines[k].u1
    ensures forall j :: 0 <= j < |lines| && lines[j].u0 <= u < lines[j].u1 ==> j == k
    decreases |lines|
  {
    var n := |lines| - 1;
    InOrder(lines, end);
    if lines[n].u0 <= u {
      k := n;
    } else {
      assert lines[..n] != [] ==> lines[..n][n - 1] == lines[n - 1];
      k := LineOf(lines[..n], lines[n].u0, u);
      assert forall j :: 0 <= j < n ==> lines[..n][j] == lines[j];
    }
  }

  lemma {:induction false} InOrder(lines: seq<Line>, end: nat)
    requires Consecutive(lines, end)
    ensures forall i, j :: 0 <= i < j < |lines| ==> lines[i].u1 <= lines[j].u0
    decreases |lines|
  {
    if |lines| > 1 {
      var n := |lines| - 1;
      assert lines[..n][n - 1] == lines[n - 1];
      InOrder(lines[..n], lines[n].u0);
      forall i, j | 0 <= i < j < |lines| ensures lines[i].u1 <= lines[j].u0 {
        if j == n && i < n - 1 { assert lines[..n][i].u1 <= lines[..n][n - 1].u0; }
        if j < n { assert lines[..n][i].u1 <= lines[..n][j].u0; }
      }
    }
  }

  /** The last unit of the line that may not hang; the line's first unit when there is none. */
  function LastInk(units: seq<Unit>, u0: nat, u1: nat): (v: nat)
    requires u0 < u1 <= |units|
    ensures u0 <= v < u1
    ensures v > u0 ==> !units[v].space && !units[v].nl
  {
    if u1 == u0 + 1 || (!units[u1 - 1].space && !units[u1 - 1].nl) then u1 - 1 else LastInk(units, u0, u1 - 1)
  }

  /** Up to the last unit that may not hang, a line is no wider than allowed, unless that is its first. */
  lemma LineFits(units: seq<Unit>, u0: nat, u1: nat, maxW: real)
    requires EndsWell(units, u0, u1, maxW)
    ensures var v := LastInk(units, u0, u1); v > u0 ==> Sum(units, u0, v + 1) <= maxW + 0.01
  {
    hide WrapsAt;
    var v := LastInk(units, u0, u1);
    assert !Overflows(units, u0, v, maxW);
  }

  /** No longer line would do: up to any later place to break it holds the overflowing unit. */
  lemma WrapIsGreedy(units: seq<Unit>, u0: nat, end: nat, maxW: real, later: nat)
    requires EndsWell(units, u0, end, maxW) && end < |units| && units[end].brk == Allowed
    requires end < later <= |units| && (later == |units| || units[later].brk != NoBreak)
    ensures exists f: nat :: end <= f < later && Overflows(units, u0, f, maxW)
  {
    hide Overflows, Fits;
    var f: nat :| WrapsAt(units, u0, end, f, maxW);
    if later < |units| {
      if units[later].brk == Allowed { NotAmong(units, end + 1, f + 1, Allowed, later); }
      if units[later].brk == Mandatory { NotAmong(units, u0 + 1, f + 1, Mandatory, later); }
    }
  }

  // ---- The ellipsis and the spaces that hang ----

  /** The newlines at the line's end have no width of their own. */
  method CutNewlines(units: seq<Unit>, u0: nat, u1: nat) returns (cutEnd: nat)
    requires u0 <= u1 <= |units|
    ensures u0 <= cutEnd <= u1 && AllNl(units, cutEnd, u1) && (cutEnd > u0 ==> !units[cutEnd - 1].nl)
  {
    cutEnd := u1;
    while cutEnd > u0 && units[cutEnd - 1].nl
      invariant u0 <= cutEnd <= u1 && AllNl(units, cutEnd, u1)
    {
      cutEnd := cutEnd - 1;
    }
  }

  /** As many units as leave room for the ellipsis, without the spaces before it. */
  method EllipsisCut(units: seq<Unit>, u0: nat, cutEnd: nat, ew: real, maxW: real) returns (cut: nat, fit: nat)
    requires u0 <= cutEnd <= |units|
    ensures u0 <= cut <= fit <= cutEnd && AllSpaces(units, cut, fit) && (cut > u0 ==> !units[cut - 1].space)
    ensures Kept(units, u0, fit, ew, maxW) && (fit < cutEnd ==> Sum(units, u0, fit + 1) + ew > maxW + 0.01)
  {
    var x := 0.0;
    fit := u0;
    while fit < cutEnd && x + units[fit].w + ew <= maxW + SLACK
      invariant u0 <= fit <= cutEnd && x == Sum(units, u0, fit) && Kept(units, u0, fit, ew, maxW)
    {
      x := x + units[fit].w;
      fit := fit + 1;
    }
    cut := fit;
    while cut > u0 && units[cut - 1].space
      invariant u0 <= cut <= fit && AllSpaces(units, cut, fit)
    {
      cut := cut - 1;
    }
  }

  /** A line's width: at a wrap the spaces at its end do not count. */
  method LineWidth(units: seq<Unit>, u0: nat, cutEnd: nat, soft: bool) returns (w: real, seen: nat)
    requires u0 <= cutEnd <= |units|
    ensures u0 <= seen <= cutEnd && w == Sum(units, u0, seen)
    ensures if soft then AllSpaces(units, seen, cutEnd) && (seen > u0 ==> !units[seen - 1].space) else seen == cutEnd
  {
    var x, trailing := 0.0, 0.0;
    var u: nat := u0;
    while u < cutEnd
      invariant u0 <= u <= cutEnd && x == Sum(units, u0, u)
    {
      x := x + units[u].w;
      u := u + 1;
    }
    u := cutEnd;
    while soft && u > u0 && units[u - 1].space
      invariant u0 <= u <= cutEnd && x - trailing == Sum(units, u0, u) && AllSpaces(units, u, cutEnd) && (!soft ==> u == cutEnd)
    {
      u := u - 1;
      trailing := trailing + units[u].w;
    }
    w, seen := x - trailing, u;
  }

  /** A newline ends its paragraph. */
  predicate NewlinesBreak(units: seq<Unit>) { forall u :: 0 < u < |units| && units[u - 1].nl ==> units[u].brk == Mandatory }

  /** A wrapped line is seen no wider than allowed, unless one unit alone is. */
  lemma WrappedLineFits(units: seq<Unit>, u0: nat, u1: nat, maxW: real, seen: nat)
    requires EndsWell(units, u0, u1, maxW) && NewlinesBreak(units) && u1 < |units| && units[u1].brk != Mandatory
    requires u0 <= seen <= u1 && AllSpaces(units, seen, u1) && (seen > u0 ==> !units[seen - 1].space)
    ensures seen > u0 + 1 ==> Sum(units, u0, seen) <= maxW + 0.01
  {
    hide WrapsAt;
    if seen > u0 + 1 {
      if seen < u1 && units[seen - 1].nl { NotAmong(units, u0 + 1, u1, Mandatory, seen); }
      assert !Overflows(units, u0, seen - 1, maxW);
    }
  }

  /** Every prefix of the line up to `fit` leaves room for the ellipsis. */
  ghost predicate Kept(units: seq<Unit>, u0: nat, fit: nat, ew: real, maxW: real)
    requires u0 <= fit <= |units|
  {
    forall v :: u0 < v <= fit ==> Sum(units, u0, v) + ew <= maxW + SLACK
  }

  predicate AllSpaces(units: seq<Unit>, a: nat, b: nat)
    requires b <= |units|
  {
    forall u :: a <= u < b ==> units[u].space
  }

  predicate AllNl(units: seq<Unit>, a: nat, b: nat)
    requires b <= |units|
  {
    forall u :: a <= u < b ==> units[u].nl
  }
}
