/**
 * The per-file work of `main` in helper_scripts/calculate_consensus.py: sort a `.fa` file into
 * `sorted_<name>`, read that file back with `process_fasta_file`, and format the consensus as a
 * record of the combined output.
 */
module Pipeline {
  import opened Wrappers
  import opened PyStr
  import opened FastaLines
  import opened ScoreSort
  import opened Consensus

  // ---------------------------------------------------------------------------------------
  // The records main collects

  /** `if args.binder_sequence`: given and not empty. */
  predicate BinderGiven(binder: Option<string>)
  {
    binder.Some? && binder.value != ""
  }

  /**
   * One element of `consensus_sequences`: the header line `>A`, the consensus, then `:` and the
   * binder with each `Z` made a line break when a binder is given, and a final line break.
   */
  function FormatRecord(consensus: string, binder: Option<string>): (r: string)
    ensures |r| >= |consensus| + 4 && r[..3] == ">A\n" && r[3..3 + |consensus|] == consensus && r[|r| - 1] == '\n'
    ensures r[3 + |consensus|] == ':' <==> BinderGiven(binder)
    ensures !BinderGiven(binder) ==> |r| == |consensus| + 4
    ensures BinderGiven(binder) ==>
      && |r| == |consensus| + |binder.value| + 5
      && forall i :: 0 <= i < |binder.value| ==>
           r[4 + |consensus| + i] == if binder.value[i] == 'Z' then '\n' else binder.value[i]
  {
    if BinderGiven(binder) then
      var z := ReplaceZ(binder.value);
      BinderLayout(consensus, z);
      ">A\n" + (consensus + ":" + z + "\n")
    else
      PlainLayout(consensus);
      ">A\n" + consensus + "\n"
  }

  /** A record holds two line breaks, and one more for every `Z` of a given binder. */
  lemma FormatRecordNewlines(consensus: string, binder: Option<string>)
    requires '\n' !in consensus && (binder.Some? ==> '\n' !in binder.value)
    ensures multiset(FormatRecord(consensus, binder))['\n'] == 2 + if BinderGiven(binder) then multiset(binder.value)['Z'] else 0
  {
    if BinderGiven(binder) {
      BinderRecordNewlines(consensus, binder.value);
    } else {
      PlainRecordNewlines(consensus);
    }
  }

  lemma PlainRecordNewlines(consensus: string)
    requires '\n' !in consensus
    ensures multiset(">A\n" + consensus + "\n")['\n'] == 2
  {
    assert multiset(consensus)['\n'] == 0;
    assert multiset(">A\n" + consensus + "\n") == multiset(">A\n") + multiset(consensus) + multiset("\n");
  }

  lemma PlainLayout(t: string)
    ensures var r := ">A\n" + t + "\n";
      && |r| == |t| + 4 && r[..3] == ">A\n" && r[3..3 + |t|] == t && r[3 + |t|] == '\n' && r[|r| - 1] == '\n'
  {
    assert (">A\n" + t + "\n")[..3] == ">A\n";
    assert (">A\n" + t + "\n")[3..3 + |t|] == t;
  }

  lemma BinderLayout(consensus: string, z: string)
    ensures var r := ">A\n" + (consensus + ":" + z + "\n");
      && |r| == |consensus| + |z| + 5 && r[..3] == ">A\n" && r[3..3 + |consensus|] == consensus
      && r[3 + |consensus|] == ':' && r[4 + |consensus|..|r| - 1] == z && r[|r| - 1] == '\n'
  {
    var r := ">A\n" + (consensus + ":" + z + "\n");
    assert r == ">A\n" + (consensus + ":" + z) + "\n";
    PlainLayout(consensus + ":" + z);
    assert r[3..3 + |consensus|] == (consensus + ":" + z)[..|consensus|] == consensus;
    assert r[4 + |consensus|..|r| - 1] == (consensus + ":" + z)[|consensus| + 1..] == z;
  }

  lemma BinderRecordNewlines(consensus: string, b: string)
    requires '\n' !in consensus && '\n' !in b
    ensures multiset(">A\n" + (consensus + ":" + ReplaceZ(b) + "\n"))['\n'] == 2 + multiset(b)['Z']
  {
    assert multiset(consensus)['\n'] == 0;
    ReplaceZNewlines(b);
    assert multiset(b)['\n'] == 0;
    var tail := consensus + ":" + ReplaceZ(b) + "\n";
    assert multiset(tail) == multiset(consensus) + multiset(":") + multiset(ReplaceZ(b)) + multiset("\n");
    assert multiset(">A\n" + tail) == multiset(">A\n") + multiset(tail);
  }

  /** Without a binder a record splits into exactly two lines. */
  lemma FormatRecordNoBinder(consensus: string, binder: Option<string>)
    requires '\n' !in consensus && !BinderGiven(binder)
    ensures SplitLines(FormatRecord(consensus, binder)) == [">A\n", consensus + "\n"]
  {
    calc {
      SplitLines(FormatRecord(consensus, binder));
      { assert FormatRecord(consensus, binder) == ">A" + "\n" + (consensus + "\n"); }
      SplitLines(">A" + "\n" + (consensus + "\n"));
      { SplitLinesCons(">A", consensus + "\n"); }
      [">A" + "\n"] + SplitLines(consensus + "\n");
      { assert consensus + "\n" == consensus + "\n" + ""; SplitLinesCons(consensus, ""); }
      [">A" + "\n"] + ([consensus + "\n"] + SplitLines(""));
      { assert SplitLines("") == []; assert ">A" + "\n" == ">A\n"; }
      [">A\n", consensus + "\n"];
    }
  }

  /**
   * With a binder the record's first line is still `>A`, and its remaining lines are those of
   * the consensus, `:` and the binder with each `Z` turned into a line break.
   */
  lemma FormatRecordBinderLines(consensus: string, binder: Option<string>)
    requires BinderGiven(binder)
    ensures SplitLines(FormatRecord(consensus, binder))
         == [">A\n"] + SplitLines(consensus + ":" + ReplaceZ(binder.value) + "\n")
  {
    var rest := consensus + ":" + ReplaceZ(binder.value) + "\n";
    HeaderLineFirst(rest);
  }

  lemma HeaderLineFirst(rest: string)
    ensures SplitLines(">A\n" + rest) == [">A\n"] + SplitLines(rest)
  {
    assert ">A\n" + rest == ">A" + "\n" + rest;
    SplitLinesCons(">A", rest);
  }

  // ---------------------------------------------------------------------------------------
  // Reading the sorted file back

  /** What `process_fasta_file` should find in a file of the given records: their stripped sequences, empty ones skipped. */
  function SequenceTexts(es: seq<Entry>): seq<string>
  {
    if es == [] then []
    else (if Strip(es[0].sequence) != "" then [Strip(es[0].sequence)] else []) + SequenceTexts(es[1..])
  }

  /** A record that survives being written and read back: no line break inside, and a sequence line that is no header. */
  predicate Writable(e: Entry)
  {
    '\n' !in e.header && '\n' !in e.sequence && !IsHeader(e.sequence)
  }

  /** The lines of the written file: a header line and a sequence line per record. */
  function RecordLines(es: seq<Entry>): seq<string>
  {
    if es == [] then [] else [">" + es[0].header + "\n", es[0].sequence + "\n"] + RecordLines(es[1..])
  }

  lemma {:induction false} SplitSerialise(es: seq<Entry>)
    requires forall i :: 0 <= i < |es| ==> Writable(es[i])
    ensures SplitLines(Serialise(es)) == RecordLines(es)
  {
    if es != [] {
      var e := es[0];
      var rest := Serialise(es[1..]);
      calc {
        SplitLines(Serialise(es));
        { SerialiseCons(es); }
        SplitLines((">" + e.header) + "\n" + (e.sequence + "\n" + rest));
        { assert '\n' !in ">" + e.header; SplitLinesCons(">" + e.header, e.sequence + "\n" + rest); }
        [">" + e.header + "\n"] + SplitLines(e.sequence + "\n" + rest);
        { SplitLinesCons(e.sequence, rest); }
        [">" + e.header + "\n"] + ([e.sequence + "\n"] + SplitLines(rest));
        { SplitSerialise(es[1..]); }
        [">" + e.header + "\n"] + ([e.sequence + "\n"] + RecordLines(es[1..]));
        RecordLines(es);
      }
    }
  }

  lemma SerialiseCons(es: seq<Entry>)
    requires es != []
    ensures Serialise(es) == (">" + es[0].header) + "\n" + (es[0].sequence + "\n" + Serialise(es[1..]))
  {
  }

  /** Reading records' lines from any reader state flushes that state, then collects the sequences. */
  lemma {:induction false} RunRecordLines(st: SeqState, es: seq<Entry>)
    requires forall i :: 0 <= i < |es| ==> !IsHeader(es[i].sequence)
    ensures Flush(Run(st, RecordLines(es))) == Flush(st) + SequenceTexts(es)
    decreases |es|
  {
    if es == [] {
      assert Flush(st) + [] == Flush(st);
    } else {
      var mid := SeqState(Flush(st), Strip(es[0].sequence));
      RunFirstRecord(st, es);
      RunRecordLines(mid, es[1..]);
      FlushFirst(st, es);
    }
  }

  lemma RunFirstRecord(st: SeqState, es: seq<Entry>)
    requires es != [] && !IsHeader(es[0].sequence)
    ensures Run(st, RecordLines(es)) == Run(SeqState(Flush(st), Strip(es[0].sequence)), RecordLines(es[1..]))
  {
    var e := es[0];
    var two := [">" + e.header + "\n", e.sequence + "\n"];
    assert RecordLines(es) == two + RecordLines(es[1..]);
    RunAppend(st, two, RecordLines(es[1..]));
    RunOneRecord(st, e);
  }

  lemma FlushFirst(st: SeqState, es: seq<Entry>)
    requires es != []
    ensures Flush(SeqState(Flush(st), Strip(es[0].sequence))) + SequenceTexts(es[1..]) == Flush(st) + SequenceTexts(es)
  {
    var first := if Strip(es[0].sequence) != "" then [Strip(es[0].sequence)] else [];
    assert SequenceTexts(es) == first + SequenceTexts(es[1..]);
    assert Flush(st) + first + SequenceTexts(es[1..]) == Flush(st) + (first + SequenceTexts(es[1..]));
  }

  /** The reader's state after one record's two lines. */
  lemma RunOneRecord(st: SeqState, e: Entry)
    requires !IsHeader(e.sequence)
    ensures Run(st, [">" + e.header + "\n", e.sequence + "\n"]) == SeqState(Flush(st), Strip(e.sequence))
  {
    var two := [">" + e.header + "\n", e.sequence + "\n"];
    assert two[..1][..0] == [];
    assert IsHeader(two[0]);
    var mid := Run(st, two[..1]);
    assert mid == StepSeq(Run(st, two[..1][..0]), two[0]);
    assert mid == SeqState(Flush(st), "");
    assert Run(st, two) == StepSeq(mid, two[1]);
    assert !IsHeader(two[1]);
    StripNewline(e.sequence);
    assert "" + Strip(two[1]) == Strip(e.sequence);
  }

  /** Writing records and reading the file back with `process_fasta_file` gives their non-empty stripped sequences. */
  lemma WrittenSequences(es: seq<Entry>)
    requires forall i :: 0 <= i < |es| ==> Writable(es[i])
    ensures ReadSequences(SplitLines(Serialise(es))) == SequenceTexts(es)
  {
    SplitSerialise(es);
    RunRecordLines(SeqState([], ""), es);
  }

  // ---------------------------------------------------------------------------------------
  // The records the sort reader builds are writable

  /** Joined rstripped body lines hold no line break and do not start with `>`. */
  lemma {:induction false} RStripJoinWritable(ls: seq<string>)
    requires forall i :: 0 <= i < |ls| ==> FileLine(ls[i]) && !IsHeader(ls[i])
    ensures '\n' !in RStripJoin(ls) && !IsHeader(RStripJoin(ls))
  {
    if ls != [] {
      var init, last := ls[..|ls| - 1], ls[|ls| - 1];
      RStripJoinWritable(init);
      RStripNoNewline(last);
      RStripKeepsHeader(last);
      var a := RStripJoin(init);
      if a != [] {
        assert (a + RStrip(last))[0] == a[0];
      }
    }
  }

  /** Every record read from a file of proper lines can be written and read back. */
  lemma RecordWritable(lines: seq<string>, k: nat)
    requires forall i :: 0 <= i < |lines| ==> FileLine(lines[i])
    requires k < |Cut(lines).heads|
    ensures Writable(Record(lines, k))
  {
    var c := Cut(lines);
    CutMembers(lines);
    RStripNoNewline(c.heads[k]);
    RStripKeepsHeader(c.heads[k]);
    var seg := c.segments[k + 1];
    forall i | 0 <= i < |seg| ensures FileLine(seg[i]) && !IsHeader(seg[i]) {
      SegmentsHaveNoHeader(lines, k + 1, i);
    }
    RStripJoinWritable(seg);
  }

  /** The keyed records of a file of proper lines are all writable. */
  lemma KeyedWritable(lines: seq<string>)
    requires forall i :: 0 <= i < |lines| ==> FileLine(lines[i])
    requires KeyAll(Records(lines, PushedCount(lines))).Some?
    ensures var keyed := KeyAll(Records(lines, PushedCount(lines))).value;
      forall i :: 0 <= i < |keyed| ==> Writable(keyed[i].entry)
  {
    var es := Records(lines, PushedCount(lines));
    var keyed := KeyAll(es).value;
    forall i | 0 <= i < |keyed| ensures Writable(keyed[i].entry) {
      assert keyed[i].entry == es[i] == Record(lines, i);
      RecordWritable(lines, i);
    }
  }

  /** A permutation of writable keyed records, truncated, is all writable. */
  lemma KeptWritable(ks: seq<Keyed>, keyed: seq<Keyed>, kept: seq<Entry>, m: int)
    requires multiset(ks) == multiset(keyed) && kept == PyPrefix(Unkey(ks), m)
    requires forall i :: 0 <= i < |keyed| ==> Writable(keyed[i].entry)
    ensures forall i :: 0 <= i < |kept| ==> Writable(kept[i])
  {
    forall i | 0 <= i < |kept| ensures Writable(kept[i]) {
      assert kept[i] == Unkey(ks)[i] == ks[i].entry;
      assert ks[i] in multiset(keyed);
      var j :| 0 <= j < |keyed| && keyed[j] == ks[i];
    }
  }

  /**
   * For a file of proper lines whose records all carry a score, `process_fasta_file` on the sorted
   * file sees the sequences of the records kept by `[:int(top * n / 100)]` of the score order (the
   * first floor(top * n / 100) for `top` between 0 and 100).
   */
  lemma SortedFileSequences(lines: seq<string>, top: int)
    requires forall i :: 0 <= i < |lines| ==> FileLine(lines[i])
    requires (lines == [] || IsHeader(lines[0])) && PushedCount(lines) > 0
    requires KeyAll(Records(lines, PushedCount(lines))).Some?
    ensures SortFasta(lines, top).Written?
    ensures exists ks ::
              && ScoreOrder(ks, KeyAll(Records(lines, PushedCount(lines))).value)
              && ReadSequences(SplitLines(SortFasta(lines, top).text)) == SequenceTexts(PyPrefix(Unkey(ks), KeptCount(top, PushedCount(lines))))
  {
    var m := KeptCount(top, PushedCount(lines));
    var keyed := KeyAll(Records(lines, PushedCount(lines))).value;
    SortFastaWritten(lines, top);
    var ks :| ScoreOrder(ks, keyed) && SortFasta(lines, top).text == Serialise(PyPrefix(Unkey(ks), m));
    var kept := PyPrefix(Unkey(ks), m);
    KeyedWritable(lines);
    KeptWritable(ks, keyed, kept, m);
    WrittenSequences(kept);
  }

  // ---------------------------------------------------------------------------------------
  // One input file

  datatype PipelineError =
    | SortFailed(error: FastaError)      // `sort_fasta_by_score` raised
    | NoSortedFile                       // nothing was written, so opening `sorted_<name>` fails
    | NoConsensus(reason: ConsensusError) // the sorted file holds no sequence

  /** The sequences `process_fasta_file` reads from `sorted_<name>`; none when nothing was written. */
  function SortedSequences(lines: seq<string>, top: int): seq<string>
  {
    match SortFasta(lines, top)
    case Written(text) => ReadSequences(SplitLines(text))
    case _ => []
  }

  /** The file yields a record: the sorted file was written and holds at least one sequence. */
  predicate FileSucceeds(lines: seq<string>, top: int)
  {
    SortedSequences(lines, top) != []
  }

  /** The exception a failing file raises; it does not depend on how ties are broken. */
  function FileError(lines: seq<string>, top: int): PipelineError
  {
    match SortFasta(lines, top)
    case Failed(e) => SortFailed(e)
    case NoEntries => NoSortedFile
    case Written(_) => NoConsensus(NoSequences)
  }

  /** rec is a record main can collect for this file. */
  ghost predicate IsFileRecord(rec: string, lines: seq<string>, top: int, binder: Option<string>)
  {
    FileSucceeds(lines, top) &&
    exists c :: IsConsensus(c, SortedSequences(lines, top)) && rec == FormatRecord(c, binder)
  }

  /** The body of main's loop for one `.fa` file. */
  method FileRecord(lines: seq<string>, top: int, binder: Option<string>) returns (r: Result<string, PipelineError>)
    ensures r.Ok? <==> FileSucceeds(lines, top)
    ensures r.Ok? ==> IsFileRecord(r.value, lines, top, binder)
    ensures r.Err? ==> r.error == FileError(lines, top)
  {
    var out := SortFastaByScore(lines, top);
    if out.Failed? {
      return Err(SortFailed(out.error));
    }
    if out.NoEntries? {
      return Err(NoSortedFile);
    }
    var c := ProcessFastaFile(SplitLines(out.text));
    if c.Err? {
      return Err(NoConsensus(c.error));
    }
    return Ok(FormatRecord(c.value, binder));
  }
}
