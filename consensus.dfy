/**
 * `process_fasta_file` of helper_scripts/calculate_consensus.py: read the sequences of a FASTA
 * file (headers dropped, lines stripped, empty sequences skipped) and build their consensus,
 * column by column up to the shortest sequence, from the most common character of each column.
 */
module Consensus {
  import opened Wrappers
  import opened PyStr
  import opened FastaLines

  // ---------------------------------------------------------------------------------------
  // Reading: the loop over lines, as a left fold of its body

  /** The reader's variables between two iterations: `sequences` and `current_seq`. */
  datatype SeqState = SeqState(sequences: seq<string>, current: string)

  /** `sequences` with `current_seq` appended when it is non-empty (done at a header and after the loop). */
  function Flush(st: SeqState): seq<string>
  {
    st.sequences + if st.current != "" then [st.current] else []
  }

  /** One iteration. The header test is made on the raw line, before any stripping. */
  function StepSeq(st: SeqState, line: string): SeqState
  {
    if IsHeader(line) then SeqState(Flush(st), "")
    else SeqState(st.sequences, st.current + Strip(line))
  }

  function Run(st: SeqState, lines: seq<string>): SeqState
  {
    if lines == [] then st else StepSeq(Run(st, lines[..|lines| - 1]), lines[|lines| - 1])
  }

  /** What the reading part of `process_fasta_file` leaves in `sequences`. */
  function ReadSequences(lines: seq<string>): seq<string>
  {
    Flush(Run(SeqState([], ""), lines))
  }

  /** The reading loop of `process_fasta_file`, with the final append. */
  method ReadSequencesLoop(lines: seq<string>) returns (sequences: seq<string>)
    ensures sequences == ReadSequences(lines)
  {
    sequences := [];
    var current := "";
    var i := 0;
    while i < |lines|
      invariant 0 <= i <= |lines|
      invariant Run(SeqState([], ""), lines[..i]) == SeqState(sequences, current)
    {
      assert lines[..i + 1][..i] == lines[..i];
      var line := lines[i];
      if IsHeader(line) {
        if current != "" {
          sequences := sequences + [current];
        }
        current := "";
      } else {
        current := current + Strip(line);
      }
      i := i + 1;
    }
    assert lines[..i] == lines;
    if current != "" {
      sequences := sequences + [current];
    }
  }

  /** Reading two pieces of a file one after the other is reading the whole. */
  lemma {:induction false} RunAppend(st: SeqState, p: seq<string>, q: seq<string>)
    ensures Run(st, p + q) == Run(Run(st, p), q)
  {
    if q == [] {
      assert p + q == p;
    } else {
      var init, last := q[..|q| - 1], q[|q| - 1];
      assert (p + q)[..|p + q| - 1] == p + init;
      RunAppend(st, p, init);
    }
  }

  // ---------------------------------------------------------------------------------------
  // What the reader computes, stated over the segments between header lines

  /** The body lines of a segment, each stripped, joined. */
  function StripJoin(ls: seq<string>): string
  {
    if ls == [] then "" else StripJoin(ls[..|ls| - 1]) + Strip(ls[|ls| - 1])
  }

  /** The joined segments, the empty ones dropped. */
  function NonEmptyJoins(segments: seq<seq<string>>): (r: seq<string>)
    ensures forall i :: 0 <= i < |r| ==> r[i] != ""
    ensures |r| <= |segments|
  {
    if segments == [] then []
    else
      var last := StripJoin(segments[|segments| - 1]);
      NonEmptyJoins(segments[..|segments| - 1]) + if last != "" then [last] else []
  }

  /** The reader state after any prefix of the file: the closed segments, and the open one. */
  lemma {:induction false} ReadShape(lines: seq<string>)
    ensures Run(SeqState([], ""), lines) == OpenShape(lines)
  {
    if lines != [] {
      var p, x := lines[..|lines| - 1], lines[|lines| - 1];
      assert lines == p + [x];
      ReadShape(p);
      if IsHeader(x) {
        ReadShapeHeader(p, x);
      } else {
        ReadShapeBody(p, x);
      }
    }
  }

  /** The closed segments collected, and the stripped lines of the open one. */
  function OpenShape(lines: seq<string>): SeqState
  {
    var c := Cut(lines);
    SeqState(NonEmptyJoins(c.segments[..|c.heads|]), StripJoin(c.segments[|c.heads|]))
  }

  /** A header line closes the open segment and opens an empty one. */
  lemma ReadShapeHeader(p: seq<string>, x: string)
    requires IsHeader(x) && Run(SeqState([], ""), p) == OpenShape(p)
    ensures Run(SeqState([], ""), p + [x]) == OpenShape(p + [x])
  {
    assert (p + [x])[..|p|] == p;
    SnocCut(p, x);
    var c := Cut(p);
    var n := |c.heads|;
    assert (c.segments + [[]])[..n + 1] == c.segments;
    assert c.segments[..n + 1] == c.segments;
    assert c.segments[..n + 1][..n] == c.segments[..n];
  }

  /** Any other line is stripped onto the open segment. */
  lemma ReadShapeBody(p: seq<string>, x: string)
    requires !IsHeader(x) && Run(SeqState([], ""), p) == OpenShape(p)
    ensures Run(SeqState([], ""), p + [x]) == OpenShape(p + [x])
  {
    assert (p + [x])[..|p|] == p;
    SnocCut(p, x);
    var c := Cut(p);
    var n := |c.heads|;
    var segs := c.segments[..n] + [c.segments[n] + [x]];
    assert segs[..n] == c.segments[..n];
    assert (c.segments[n] + [x])[..|c.segments[n]|] == c.segments[n];
  }

  /**
   * The reader returns the stripped contents of every segment of the file, in order and empty
   * ones skipped: the lines before the first header count as a segment, and, unlike the reader
   * of `sort_fasta_by_score`, the last segment is kept.
   */
  lemma ReadSequencesSegments(lines: seq<string>)
    ensures ReadSequences(lines) == NonEmptyJoins(Cut(lines).segments)
  {
    ReadShape(lines);
    var c := Cut(lines);
    var n := |c.heads|;
    assert c.segments == c.segments[..n] + [c.segments[n]];
    assert c.segments[..n + 1][..n] == c.segments[..n];
  }

  /** Nothing is read exactly when every segment strips to nothing. */
  lemma {:induction false} NonEmptyJoinsEmpty(segments: seq<seq<string>>)
    ensures NonEmptyJoins(segments) == [] <==> forall k :: 0 <= k < |segments| ==> StripJoin(segments[k]) == ""
  {
    if segments != [] {
      var init := segments[..|segments| - 1];
      NonEmptyJoinsEmpty(init);
      assert forall k :: 0 <= k < |init| ==> init[k] == segments[k];
    }
  }

  // ---------------------------------------------------------------------------------------
  // The consensus

  /** `min(len(seq) for seq in sequences)`: a length that occurs, and no sequence is shorter. */
  function MinLength(seqs: seq<string>): (r: nat)
    requires seqs != []
    ensures exists i :: 0 <= i < |seqs| && |seqs[i]| == r
    ensures forall i :: 0 <= i < |seqs| ==> r <= |seqs[i]|
  {
    if |seqs| == 1 then |seqs[0]|
    else
      var m := MinLength(seqs[1..]);
      assert forall i :: 1 <= i < |seqs| ==> seqs[1..][i - 1] == seqs[i];
      if |seqs[0]| <= m then |seqs[0]| else m
  }

  /** `[seq[i] for seq in sequences]`. */
  function Column(seqs: seq<string>, i: nat): (col: string)
    requires forall k :: 0 <= k < |seqs| ==> i < |seqs[k]|
  {
    seq(|seqs|, k requires 0 <= k < |seqs| => seqs[k][i])
  }

  /** c occurs in the column, and no character occurs more often: one of the values `max(set(column), key=column.count)` can give. */
  predicate IsMostCommon(c: char, col: string)
  {
    c in col && forall d :: d in col ==> multiset(col)[d] <= multiset(col)[c]
  }

  /** Some character of cands occurs in col at least as often as any other character of cands. */
  lemma {:induction false} MostCommonAmong(col: string, cands: string)
    requires cands != []
    ensures exists c :: c in cands && forall d :: d in cands ==> multiset(col)[d] <= multiset(col)[c]
  {
    if |cands| > 1 {
      MostCommonAmong(col, cands[1..]);
      var c :| c in cands[1..] && forall d :: d in cands[1..] ==> multiset(col)[d] <= multiset(col)[c];
      var best := if multiset(col)[cands[0]] > multiset(col)[c] then cands[0] else c;
      assert forall d :: d in cands ==> d == cands[0] || d in cands[1..];
      assert best in cands && forall d :: d in cands ==> multiset(col)[d] <= multiset(col)[best];
    } else {
      assert forall d :: d in cands ==> d == cands[0];
      assert cands[0] in cands;
    }
  }

  /** A non-empty column always has a most common character. */
  lemma MostCommonExists(col: string)
    requires col != []
    ensures exists c :: IsMostCommon(c, col)
  {
    MostCommonAmong(col, col);
    var c :| c in col && forall d :: d in col ==> multiset(col)[d] <= multiset(col)[c];
    assert IsMostCommon(c, col);
  }

  /** What the consensus loop builds: one most common character per column, up to the shortest sequence. */
  ghost predicate IsConsensus(s: string, seqs: seq<string>)
    requires seqs != []
  {
    |s| == MinLength(seqs) && forall j :: 0 <= j < |s| ==> IsMostCommon(s[j], Column(seqs, j))
  }

  /** `min()` of an empty sequence raises ValueError. */
  datatype ConsensusError = NoSequences

  /**
   * The consensus loop of `process_fasta_file`. Ties between equally common characters are
   * broken by the iteration order of a Python set, which is left open here.
   */
  method ConsensusOf(seqs: seq<string>) returns (r: Result<string, ConsensusError>)
    ensures r.Err? <==> seqs == []
    ensures r.Ok? ==> seqs != [] && IsConsensus(r.value, seqs)
  {
    if seqs == [] {
      return Err(NoSequences);
    }
    var m := MinLength(seqs);
    var consensus := "";
    for i := 0 to m
      invariant |consensus| == i
      invariant forall j :: 0 <= j < i ==> IsMostCommon(consensus[j], Column(seqs, j))
    {
      var column := Column(seqs, i);
      assert column[0] in column;
      MostCommonExists(column);
      var c :| c in column && IsMostCommon(c, column);
      consensus := consensus + [c];
    }
    return Ok(consensus);
  }

  /** `process_fasta_file(filepath)` on the file's lines: the consensus of what the reader returns. */
  method ProcessFastaFile(lines: seq<string>) returns (r: Result<string, ConsensusError>)
    ensures r.Err? <==> ReadSequences(lines) == []
    ensures r.Ok? ==> ReadSequences(lines) != [] && IsConsensus(r.value, ReadSequences(lines))
  {
    var sequences := ReadSequencesLoop(lines);
    r := ConsensusOf(sequences);
  }

  /** The consensus of copies of one sequence is that sequence. */
  lemma ConsensusOfCopies(seqs: seq<string>, s: string, x: string)
    requires seqs != [] && forall k :: 0 <= k < |seqs| ==> seqs[k] == s
    requires IsConsensus(x, seqs)
    ensures x == s
  {
    assert |seqs[0]| == |s|;
    forall j | 0 <= j < |x| ensures x[j] == s[j] {
      var col := Column(seqs, j);
      assert forall k :: 0 <= k < |col| ==> col[k] == s[j];
    }
  }

  /** Two different characters together occur at most as often as the column is long. */
  lemma {:induction false} TwoCountsBound(col: string, c: char, d: char)
    requires c != d
    ensures multiset(col)[c] + multiset(col)[d] <= |col|
  {
    if col != [] {
      TwoCountsBound(col[1..], c, d);
      assert col == [col[0]] + col[1..];
    }
  }

  /** A character held by more than half of a column is its only most common character. */
  lemma MajorityWins(col: string, c: char, d: char)
    requires 2 * multiset(col)[c] > |col|
    requires IsMostCommon(d, col)
    ensures d == c
  {
    assert c in multiset(col);
    if d != c {
      TwoCountsBound(col, c, d);
    }
  }

  /** So a column held by a strict majority puts that character in every consensus. */
  lemma MajorityInConsensus(seqs: seq<string>, x: string, j: nat, c: char)
    requires seqs != [] && IsConsensus(x, seqs) && j < |x|
    requires 2 * multiset(Column(seqs, j))[c] > |seqs|
    ensures x[j] == c
  {
    MajorityWins(Column(seqs, j), c, x[j]);
  }
}
