/**
 * The record structure of a FASTA file given as its sequence of lines: its header lines, and
 * the segments of non-header lines around them. Both readers of
 * helper_scripts/calculate_consensus.py are characterised in these terms.
 */
module FastaLines {
  import opened PyStr

  /**
   * A file cut at its header lines: `segments[0]` holds the lines before the first header,
   * `segments[k + 1]` the lines after `heads[k]` up to the next header or the end.
   */
  datatype Layout = Layout(heads: seq<string>, segments: seq<seq<string>>)

  function Cut(lines: seq<string>): (c: Layout)
    ensures |c.segments| == |c.heads| + 1
    ensures forall k :: 0 <= k < |c.heads| ==> IsHeader(c.heads[k])
  {
    if lines == [] then Layout([], [[]])
    else
      var c := Cut(lines[..|lines| - 1]);
      var x := lines[|lines| - 1];
      if IsHeader(x) then Layout(c.heads + [x], c.segments + [[]])
      else Layout(c.heads, c.segments[..|c.heads|] + [c.segments[|c.heads|] + [x]])
  }

  /** Lays the pieces back out: segment 0, then each header followed by its segment. */
  function Interleave(heads: seq<string>, segments: seq<seq<string>>): seq<string>
    requires |segments| == |heads| + 1
  {
    if heads == [] then segments[0]
    else Interleave(heads[..|heads| - 1], segments[..|heads|]) + [heads[|heads| - 1]] + segments[|heads|]
  }

  /** Nothing is lost or reordered by the cut: laying it back out gives the file. */
  lemma {:induction false} CutRebuilds(lines: seq<string>)
    ensures Interleave(Cut(lines).heads, Cut(lines).segments) == lines
  {
    if lines != [] {
      var p, x := lines[..|lines| - 1], lines[|lines| - 1];
      CutRebuilds(p);
      var c := Cut(p);
      var n := |c.heads|;
      if IsHeader(x) {
        assert (c.heads + [x])[..n] == c.heads;
        assert (c.segments + [[]])[..n + 1] == c.segments;
      } else {
        InterleaveGrowLast(c.heads, c.segments, x);
      }
    }
  }

  lemma InterleaveGrowLast(heads: seq<string>, segments: seq<seq<string>>, x: string)
    requires |segments| == |heads| + 1
    ensures var n := |heads|;
      Interleave(heads, segments[..n] + [segments[n] + [x]]) == Interleave(heads, segments) + [x]
  {
    var n := |heads|;
    var segs := segments[..n] + [segments[n] + [x]];
    if n > 0 {
      assert segs[..n] == segments[..n];
    }
  }

  /** No segment holds a header line: the cut is made at every header. */
  lemma {:induction false} SegmentsHaveNoHeader(lines: seq<string>, k: nat, i: nat)
    requires k < |Cut(lines).segments| && i < |Cut(lines).segments[k]|
    ensures !IsHeader(Cut(lines).segments[k][i])
  {
    var p, x := lines[..|lines| - 1], lines[|lines| - 1];
    var c := Cut(p);
    var n := |c.heads|;
    if IsHeader(x) {
      if k < n + 1 {
        SegmentsHaveNoHeader(p, k, i);
      }
    } else if k < n || i < |c.segments[n]| {
      SegmentsHaveNoHeader(p, k, i);
    }
  }

  /** Segment 0 is empty exactly when the file is empty or starts with a header. */
  lemma {:induction false} LeadingSegmentEmpty(lines: seq<string>)
    ensures Cut(lines).segments[0] == [] <==> (lines == [] || IsHeader(lines[0]))
  {
    CutRebuilds(lines);
    var c := Cut(lines);
    if c.segments[0] != [] {
      InterleaveStartsWithSegment(c.heads, c.segments);
      SegmentsHaveNoHeader(lines, 0, 0);
    } else if lines != [] {
      InterleaveStartsWithHead(c.heads, c.segments);
    }
  }

  lemma {:induction false} InterleaveStartsWithSegment(heads: seq<string>, segments: seq<seq<string>>)
    requires |segments| == |heads| + 1 && segments[0] != []
    ensures Interleave(heads, segments) != [] && Interleave(heads, segments)[0] == segments[0][0]
  {
    if heads != [] {
      InterleaveStartsWithSegment(heads[..|heads| - 1], segments[..|heads|]);
    }
  }

  lemma {:induction false} InterleaveStartsWithHead(heads: seq<string>, segments: seq<seq<string>>)
    requires |segments| == |heads| + 1 && segments[0] == [] && Interleave(heads, segments) != []
    ensures heads != [] && Interleave(heads, segments)[0] == heads[0]
  {
    var n := |heads|;
    if n > 1 {
      InterleaveLength(heads[..n - 1], segments[..n]);
      InterleaveStartsWithHead(heads[..n - 1], segments[..n]);
    }
  }

  lemma {:induction false} InterleaveLength(heads: seq<string>, segments: seq<seq<string>>)
    requires |segments| == |heads| + 1
    ensures |Interleave(heads, segments)| >= |heads|
  {
    if heads != [] {
      InterleaveLength(heads[..|heads| - 1], segments[..|heads|]);
    }
  }

  /** Appending a line changes the cut only at its end. */
  lemma SnocCut(p: seq<string>, x: string)
    ensures var c := Cut(p); var n := |c.heads|;
      Cut(p + [x]) == if IsHeader(x) then Layout(c.heads + [x], c.segments + [[]])
                      else Layout(c.heads, c.segments[..n] + [c.segments[n] + [x]])
  {
    assert (p + [x])[..|p|] == p;
  }

  /** Every header and every segment line of the cut is a line of the file. */
  lemma {:induction false} CutMembers(lines: seq<string>)
    ensures forall k :: 0 <= k < |Cut(lines).heads| ==> Cut(lines).heads[k] in lines
    ensures forall k, i :: 0 <= k < |Cut(lines).segments| && 0 <= i < |Cut(lines).segments[k]| ==>
      Cut(lines).segments[k][i] in lines
  {
    if lines != [] {
      var p, x := lines[..|lines| - 1], lines[|lines| - 1];
      assert lines == p + [x];
      CutMembers(p);
      SnocCut(p, x);
      assert forall l :: l in p ==> l in lines;
    }
  }
}
