/** What the line/function sweep is meant to compute, and why one step of it keeps that promise. */
module SweepSpec {
  import opened Addresses

  /** `Module::Line`. */
  datatype Line = Line(address: Address, size: Address, file: int, number: int) {
    function Span(): Range {
      Range(address, size)
    }
  }

  function Spans(lines: seq<Line>): (r: seq<Range>)
    ensures |r| == |lines|
    ensures forall i :: 0 <= i < |lines| ==> r[i] == lines[i].Span()
  {
    seq(|lines|, i requires 0 <= i < |lines| => lines[i].Span())
  }

  /** The part of `line` that lies in function range `f`. */
  function Intersection(f: Range, line: Line): Line
    requires f.Proper() && line.Span().Proper() && f.Overlaps(line.Span())
  {
    var start := Max(f.address, line.address);
    Line(start, Min(f.End(), line.Span().End()) - start, line.file, line.number)
  }

  /** The intersections of `f` with the first `n` lines, in order, leaving out the empty ones. */
  function Pieces(f: Range, lines: seq<Line>, n: nat): seq<Line>
    requires f.Proper() && AllProper(Spans(lines)) && n <= |lines|
  {
    if n == 0 then
      []
    else
      Pieces(f, lines, n - 1)
      + (if f.Overlaps(Spans(lines)[n - 1]) then [Intersection(f, lines[n - 1])] else [])
  }

  /** A byte of `f` before `limit` that no line covers. */
  ghost predicate GapBefore(f: Range, lines: seq<Range>, limit: int) {
    exists b: int :: f.Has(b) && b < limit && !Covered(lines, b)
  }

  /** Function `f` contains a byte that no line covers. */
  ghost predicate Uncovered(f: Range, lines: seq<Range>) {
    GapBefore(f, lines, f.End())
  }

  /** Some function shares a byte before `b` with `line`. */
  ghost predicate UsedBefore(line: Range, functions: seq<Range>, b: int) {
    exists x: int :: line.Has(x) && x < b && Covered(functions, x)
  }

  /** The padding case: an earlier part of the line was used, the rest of it is not, and the next function
      starts exactly where the line ends. */
  ghost predicate Padding(line: Range, functions: seq<Range>, b: int) {
    && UsedBefore(line, functions, b)
    && (forall x: int :: b <= x < line.End() ==> !Covered(functions, x))
    && (exists k :: 0 <= k < |functions| && functions[k].address == line.End())
  }

  /** A byte of `line` before `limit` that is in no function and is not padding. */
  ghost predicate StrayBefore(line: Range, functions: seq<Range>, limit: int) {
    exists b: int :: line.Has(b) && b < limit && !Covered(functions, b) && !Padding(line, functions, b)
  }

  ghost predicate Stray(line: Range, functions: seq<Range>) {
    StrayBefore(line, functions, line.End())
  }

  /** The indices below `n` of functions with an uncovered byte, in order. */
  ghost function UncoveredFunctions(functions: seq<Range>, lines: seq<Range>, n: nat): seq<nat>
    requires n <= |functions|
  {
    if n == 0 then
      []
    else
      UncoveredFunctions(functions, lines, n - 1) + (if Uncovered(functions[n - 1], lines) then [n - 1] else [])
  }

  /** The indices below `n` of lines with a stray byte, in order. */
  ghost function StrayLines(functions: seq<Range>, lines: seq<Range>, n: nat): seq<nat>
    requires n <= |lines|
  {
    if n == 0 then
      []
    else
      StrayLines(functions, lines, n - 1) + (if Stray(lines[n - 1], functions) then [n - 1] else [])
  }

  // ---------- What Pieces means ----------

  /** `Pieces` holds one piece for each line that overlaps `f` and nothing else. */
  lemma {:induction false} PiecesMembership(f: Range, lines: seq<Line>, n: nat, piece: Line)
    requires f.Proper() && AllProper(Spans(lines)) && n <= |lines|
    ensures piece in Pieces(f, lines, n)
       <==> exists k :: 0 <= k < n && f.Overlaps(Spans(lines)[k]) && piece == Intersection(f, lines[k])
  {
    if n != 0 {
      PiecesMembership(f, lines, n - 1, piece);
    }
  }

  /** A list of non-empty pieces in ascending order that do not overlap, ending at or before `limit`. */
  ghost predicate Ascending(pieces: seq<Line>, limit: int) {
    && (forall i :: 0 <= i < |pieces| ==> pieces[i].Span().Proper() && pieces[i].Span().End() <= limit)
    && (forall i, j :: 0 <= i < j < |pieces| ==> pieces[i].Span().End() <= pieces[j].address)
  }

  lemma NoneAscend(limit: int)
    ensures Ascending([], limit)
  {
  }

  lemma AscendingLater(pieces: seq<Line>, limit: int, later: int)
    requires Ascending(pieces, limit) && limit <= later
    ensures Ascending(pieces, later)
  {
  }

  lemma AscendingSnoc(pieces: seq<Line>, limit: int, piece: Line, end: int)
    requires Ascending(pieces, limit) && limit <= piece.address && piece.Span().Proper() && piece.Span().End() <= end
    ensures Ascending(pieces + [piece], end)
  {
  }

  /** Pieces of sorted, disjoint lines come out in address order and disjoint. */
  lemma {:induction false} PiecesAscend(f: Range, lines: seq<Line>, n: nat)
    requires f.Proper() && AllProper(Spans(lines)) && n <= |lines|
    requires SortedByAddress(Spans(lines)) && PairwiseDisjoint(Spans(lines))
    ensures Ascending(Pieces(f, lines, n), f.End())
    ensures n > 0 ==> Ascending(Pieces(f, lines, n), Min(f.End(), Spans(lines)[n - 1].End()))
  {
    if n == 0 {
      NoneAscend(f.End());
    } else {
      var here := Spans(lines)[n - 1];
      var end := Min(f.End(), here.End());
      PiecesAscend(f, lines, n - 1);
      if n == 1 {
        NoneAscend(Min(f.address, here.address));
        PieceAscends(f, lines, n, Min(f.address, here.address));
      } else {
        assert !Spans(lines)[n - 2].Overlaps(here);
        PieceAscends(f, lines, n, Min(f.End(), Spans(lines)[n - 2].End()));
      }
      AscendingLater(Pieces(f, lines, n), end, f.End());
    }
  }

  lemma PieceAscends(f: Range, lines: seq<Line>, n: nat, before: int)
    requires f.Proper() && AllProper(Spans(lines)) && 0 < n <= |lines|
    requires Ascending(Pieces(f, lines, n - 1), before)
    requires before <= Max(f.address, lines[n - 1].address) && before <= Min(f.End(), lines[n - 1].Span().End())
    ensures Ascending(Pieces(f, lines, n), Min(f.End(), lines[n - 1].Span().End()))
  {
    hide Ascending;
    var end := Min(f.End(), lines[n - 1].Span().End());
    if f.Overlaps(Spans(lines)[n - 1]) {
      AscendingSnoc(Pieces(f, lines, n - 1), before, Intersection(f, lines[n - 1]), end);
    } else {
      AscendingLater(Pieces(f, lines, n - 1), before, end);
      assert Pieces(f, lines, n) == Pieces(f, lines, n - 1);
    }
  }

  /** Byte `b` is in a line or piece with the given file and number. */
  ghost predicate Holds(l: Line, b: int, file: int, number: int) {
    l.Span().Has(b) && l.file == file && l.number == number
  }

  /** Byte by byte: a byte of `f` is in a piece with some file and number exactly when it is in a line with that
      file and number. */
  lemma {:induction false} PiecesCover(f: Range, lines: seq<Line>, b: int, file: int, number: int)
    requires f.Proper() && AllProper(Spans(lines))
    ensures (exists p :: p in Pieces(f, lines, |lines|) && Holds(p, b, file, number))
       <==> f.Has(b) && exists l :: l in lines && Holds(l, b, file, number)
  {
    hide Pieces;
    var n := |lines|;
    if p :| p in Pieces(f, lines, n) && Holds(p, b, file, number) {
      PiecesMembership(f, lines, n, p);
      var k :| 0 <= k < n && f.Overlaps(Spans(lines)[k]) && p == Intersection(f, lines[k]);
      assert lines[k] in lines && Holds(lines[k], b, file, number);
    }
    if f.Has(b) {
      if l :| l in lines && Holds(l, b, file, number) {
        var k :| 0 <= k < n && lines[k] == l;
        assert f.Overlaps(Spans(lines)[k]);
        PiecesMembership(f, lines, n, Intersection(f, l));
        assert Holds(Intersection(f, l), b, file, number);
      }
    }
  }

  /** Lines that do not overlap `f` add no piece. */
  lemma {:induction false} PiecesSkip(f: Range, lines: seq<Line>, m: nat, n: nat)
    requires f.Proper() && AllProper(Spans(lines)) && m <= n <= |lines|
    requires forall k :: m <= k < n ==> !f.Overlaps(Spans(lines)[k])
    ensures Pieces(f, lines, n) == Pieces(f, lines, m)
  {
    if m < n {
      PiecesSkip(f, lines, m, n - 1);
    }
  }
}
