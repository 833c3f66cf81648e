/**
 * `sort_fasta_by_score` of helper_scripts/calculate_consensus.py: read a FASTA file keeping
 * headers, order the entries by the ` score=` value in their headers, and write the best
 * `num_records` percent of them. File contents are given as the lines the file iteration
 * yields (each with its `\n`), and the written file as the text handed to `write`.
 */
module ScoreSort {
  import opened Wrappers
  import opened PyStr
  import opened FastaLines

  /** One `{"header": ..., "sequence": ...}` dict. */
  datatype Entry = Entry(header: string, sequence: string)

  datatype FastaError =
    | NoCurrentEntry  // a sequence line before any header: `current_entry` is still None (TypeError)
    | MissingScore    // a header without ` score=<digits>.<digits>`: `re.search` gives None (AttributeError)

  /** The outcome of one call: an exception, the "No FASTA entries" return, or the text written to the output file. */
  datatype SortOutcome = Failed(error: FastaError) | NoEntries | Written(text: string)

  // ---------------------------------------------------------------------------------------
  // Reading: the loop over lines, as a left fold of its body

  /** The reader's variables between two iterations; Crashed once the loop body has raised. */
  datatype ScanState = Scanning(entries: seq<Entry>, current: Option<Entry>) | Crashed

  /** One iteration of the reading loop. A dict with two keys is always truthy, so `if current_entry` only tests for None. */
  function Step(st: ScanState, line: string): ScanState
  {
    match st
    case Crashed => Crashed
    case Scanning(entries, current) =>
      var l := RStrip(line);
      if IsHeader(l) then
        Scanning(entries + (if current.Some? then [current.value] else []), Some(Entry(l[1..], "")))
      else if current.None? then Crashed
      else Scanning(entries, Some(current.value.(sequence := current.value.sequence + l)))
  }

  function Scan(lines: seq<string>): ScanState
  {
    if lines == [] then Scanning([], None) else Step(Scan(lines[..|lines| - 1]), lines[|lines| - 1])
  }

  /** What the reading part of `sort_fasta_by_score` leaves in `entries`, or the exception it raises. */
  function ParseEntries(lines: seq<string>): Result<seq<Entry>, FastaError>
  {
    match Scan(lines)
    case Crashed => Err(NoCurrentEntry)
    case Scanning(entries, _) => Ok(entries)
  }

  /** The reading loop of `sort_fasta_by_score`. */
  method ReadScoredEntries(lines: seq<string>) returns (r: Result<seq<Entry>, FastaError>)
    ensures r == ParseEntries(lines)
  {
    var entries: seq<Entry> := [];
    var current: Option<Entry> := None;
    var i := 0;
    while i < |lines|
      invariant 0 <= i <= |lines|
      invariant Scan(lines[..i]) == Scanning(entries, current)
    {
      assert lines[..i + 1][..i] == lines[..i];
      var line := RStrip(lines[i]);
      if IsHeader(line) {
        if current.Some? {
          entries := entries + [current.value];
        }
        current := Some(Entry(line[1..], ""));
      } else if current.None? {
        CrashPersists(lines, i + 1);
        return Err(NoCurrentEntry);
      } else {
        current := Some(current.value.(sequence := current.value.sequence + line));
      }
      i := i + 1;
    }
    assert lines[..i] == lines;
    return Ok(entries);
  }

  /** Once the loop body has raised, no later line changes that. */
  lemma {:induction false} CrashPersists(lines: seq<string>, i: nat)
    requires i <= |lines| && Scan(lines[..i]) == Crashed
    ensures Scan(lines) == Crashed
    decreases |lines| - i
  {
    if i == |lines| {
      assert lines[..i] == lines;
    } else {
      assert lines[..i + 1][..i] == lines[..i];
      CrashPersists(lines, i + 1);
    }
  }

  // ---------------------------------------------------------------------------------------
  // What the reader computes, stated over header indices and segments

  /** The body lines of a record, each rstripped, joined. */
  function RStripJoin(ls: seq<string>): string
  {
    if ls == [] then "" else RStripJoin(ls[..|ls| - 1]) + RStrip(ls[|ls| - 1])
  }

  /** The record opened by the k-th header line: the rstripped line without `>`, and its body. */
  function Record(lines: seq<string>, k: nat): Entry
    requires k < |Cut(lines).heads|
  {
    var c := Cut(lines);
    RStripKeepsHeader(c.heads[k]);
    Entry(RStrip(c.heads[k])[1..], RStripJoin(c.segments[k + 1]))
  }

  /** The first m records. */
  function Records(lines: seq<string>, m: nat): (r: seq<Entry>)
    requires m <= |Cut(lines).heads|
    ensures |r| == m && forall k :: 0 <= k < m ==> r[k] == Record(lines, k)
  {
    if m == 0 then [] else Records(lines, m - 1) + [Record(lines, m - 1)]
  }

  /** The number of records the reader keeps: one fewer than the headers. */
  function PushedCount(lines: seq<string>): nat
  {
    if |Cut(lines).heads| == 0 then 0 else |Cut(lines).heads| - 1
  }

  /** The state the reader is in after the given lines. */
  function Expected(lines: seq<string>): ScanState
  {
    var c := Cut(lines);
    if c.segments[0] != [] then Crashed
    else Scanning(Records(lines, PushedCount(lines)),
                  if |c.heads| == 0 then None else Some(Record(lines, |c.heads| - 1)))
  }

  /** The reader state after any prefix of the file. */
  lemma {:induction false} ScanShape(lines: seq<string>)
    ensures Scan(lines) == Expected(lines)
  {
    if lines != [] {
      var p, x := lines[..|lines| - 1], lines[|lines| - 1];
      assert lines == p + [x];
      ScanShape(p);
      if IsHeader(x) {
        ScanShapeHeader(p, x);
      } else {
        ScanShapeBody(p, x);
      }
    }
  }

  lemma ScanShapeHeader(p: seq<string>, x: string)
    requires IsHeader(x) && Scan(p) == Expected(p)
    ensures Scan(p + [x]) == Expected(p + [x])
  {
    var q := p + [x];
    assert q[..|p|] == p;
    RStripKeepsHeader(x);
    SnocCut(p, x);
    var n := |Cut(p).heads|;
    assert Records(q, n) == Records(p, PushedCount(p)) + (if n > 0 then [Record(p, n - 1)] else []) by {
      HeaderKeepsRecords(p, x);
    }
    assert Cut(q) == Layout(Cut(p).heads + [x], Cut(p).segments + [[]]);
    HeaderOpensRecord(p, q, x);
  }

  /** A header line opens a record with that header and no sequence yet. */
  lemma HeaderOpensRecord(p: seq<string>, q: seq<string>, x: string)
    requires IsHeader(x) && Cut(q) == Layout(Cut(p).heads + [x], Cut(p).segments + [[]])
    ensures Record(q, |Cut(p).heads|) == Entry(RStrip(x)[1..], "")
  {
    assert Cut(q).segments[|Cut(p).heads| + 1] == [];
  }

  lemma HeaderKeepsRecords(p: seq<string>, x: string)
    requires IsHeader(x)
    ensures |Cut(p + [x]).heads| == |Cut(p).heads| + 1
    ensures Records(p + [x], |Cut(p).heads|) == Records(p, |Cut(p).heads|)
  {
    SnocCut(p, x);
    var q, c := p + [x], Cut(p);
    assert Cut(q) == Layout(c.heads + [x], c.segments + [[]]);
    forall k | 1 <= k <= |c.heads| ensures Cut(q).segments[k] == c.segments[k] {
      assert (c.segments + [[]])[k] == c.segments[k];
    }
    RecordsAgree(p, q, |c.heads|);
  }

  lemma ScanShapeBody(p: seq<string>, x: string)
    requires !IsHeader(x) && Scan(p) == Expected(p)
    ensures Scan(p + [x]) == Expected(p + [x])
  {
    var q := p + [x];
    assert q[..|p|] == p;
    RStripKeepsHeader(x);
    SnocCut(p, x);
    var c := Cut(p);
    if |c.heads| > 0 {
      assert Cut(q).segments[0] == c.segments[0];
      BodyKeepsRecords(p, x);
      var n := |c.heads|;
      assert Cut(q) == Layout(c.heads, c.segments[..n] + [c.segments[n] + [x]]);
      OpenRecordExtended(p, q, n - 1, x);
    } else {
      assert Cut(q).segments[0] == c.segments[0] + [x];
    }
  }

  lemma BodyKeepsRecords(p: seq<string>, x: string)
    requires !IsHeader(x) && |Cut(p).heads| > 0
    ensures Records(p + [x], |Cut(p).heads| - 1) == Records(p, |Cut(p).heads| - 1)
  {
    SnocCut(p, x);
    var q, c := p + [x], Cut(p);
    var n := |c.heads|;
    var segs := c.segments[..n] + [c.segments[n] + [x]];
    assert Cut(q) == Layout(c.heads, segs);
    forall k | 1 <= k <= n - 1 ensures Cut(q).segments[k] == c.segments[k] {
      assert segs[k] == c.segments[k];
    }
    RecordsAgree(p, q, n - 1);
  }

  /** The first m records depend only on the first m header lines and the segments after them. */
  lemma RecordsAgree(p: seq<string>, q: seq<string>, m: nat)
    requires m <= |Cut(p).heads| && m <= |Cut(q).heads|
    requires forall k :: 0 <= k < m ==> Cut(q).heads[k] == Cut(p).heads[k]
    requires forall k :: 1 <= k <= m ==> Cut(q).segments[k] == Cut(p).segments[k]
    ensures Records(q, m) == Records(p, m)
  {
    var a, b := Records(q, m), Records(p, m);
    forall k | 0 <= k < m ensures a[k] == b[k] {
      SameRecord(p, q, k);
    }
  }

  /** A record depends only on its header line and the segment after it. */
  lemma SameRecord(p: seq<string>, q: seq<string>, k: nat)
    requires k < |Cut(p).heads| && k < |Cut(q).heads|
    requires Cut(q).heads[k] == Cut(p).heads[k] && Cut(q).segments[k + 1] == Cut(p).segments[k + 1]
    ensures Record(q, k) == Record(p, k)
  {
  }

  /** A body line added to the segment after the k-th header extends that record by its rstripped text. */
  lemma OpenRecordExtended(p: seq<string>, q: seq<string>, k: nat, x: string)
    requires k < |Cut(p).heads| && Cut(q).heads == Cut(p).heads
    requires Cut(q).segments[k + 1] == Cut(p).segments[k + 1] + [x]
    ensures Record(q, k) == Entry(Record(p, k).header, Record(p, k).sequence + RStrip(x))
  {
    RStripJoinSnoc(Cut(p).segments[k + 1], x);
  }

  /** Rstripping and joining one more line appends that line's rstripped text. */
  lemma RStripJoinSnoc(s: seq<string>, x: string)
    ensures RStripJoin(s + [x]) == RStripJoin(s) + RStrip(x)
  {
    assert (s + [x])[..|s|] == s;
  }

  lemma ParseEntriesExpected(lines: seq<string>)
    requires Scan(lines) == Expected(lines)
    ensures ParseEntries(lines).Err? <==> Cut(lines).segments[0] != []
    ensures ParseEntries(lines).Ok? ==> ParseEntries(lines).value == Records(lines, PushedCount(lines))
  {
  }

  /** The reader raises exactly when the first line is not a header (an empty first line included). */
  lemma ParseEntriesFails(lines: seq<string>)
    ensures ParseEntries(lines).Err? <==> lines != [] && !IsHeader(lines[0])
  {
    ScanShape(lines);
    ParseEntriesExpected(lines);
    LeadingSegmentEmpty(lines);
  }

  /**
   * Otherwise it returns one entry per header line except the last, in file order: the last
   * record of the file is never pushed.
   */
  lemma ParseEntriesRecords(lines: seq<string>)
    requires lines == [] || IsHeader(lines[0])
    ensures ParseEntries(lines).Ok?
    ensures |ParseEntries(lines).value| == PushedCount(lines)
    ensures forall k :: 0 <= k < PushedCount(lines) ==> ParseEntries(lines).value[k] == Record(lines, k)
  {
    ScanShape(lines);
    ParseEntriesExpected(lines);
    LeadingSegmentEmpty(lines);
  }

  /** A file with one record: its entry is never pushed, so nothing is sorted or written. */
  lemma OneRecordDropped()
    ensures SortFasta([">d score=1.5\n", "ACGT\n"], 100) == NoEntries
  {
    var lines := [">d score=1.5\n", "ACGT\n"];
    assert lines[..1] == [lines[0]];
    assert |Cut(lines).heads| == 1;
    SortFastaNoEntries(lines, 100);
  }

  /** The reader with the last record pushed after the loop, as `process_fasta_file` does for its sequences. */
  function ParseAllEntries(lines: seq<string>): Result<seq<Entry>, FastaError>
  {
    match Scan(lines)
    case Crashed => Err(NoCurrentEntry)
    case Scanning(entries, None) => Ok(entries)
    case Scanning(entries, Some(last)) => Ok(entries + [last])
  }

  /** It yields one entry per header line, in file order. */
  lemma ParseAllEntriesRecords(lines: seq<string>)
    requires lines == [] || IsHeader(lines[0])
    ensures ParseAllEntries(lines) == Ok(Records(lines, |Cut(lines).heads|))
  {
    ScanShape(lines);
    LeadingSegmentEmpty(lines);
    var n := |Cut(lines).heads|;
    assert Cut(lines).segments[0] == [];
    if n > 0 {
      assert Scan(lines) == Scanning(Records(lines, n - 1), Some(Record(lines, n - 1)));
      assert Records(lines, n) == Records(lines, n - 1) + [Record(lines, n - 1)];
    } else {
      assert Scan(lines) == Scanning([], None);
    }
  }

  // ---------------------------------------------------------------------------------------
  // get_score: re.search(r" score=(\d+\.\d+)", header).group(1), as an exact decimal

  predicate IsDigit(c: char)
  {
    '0' <= c <= '9'
  }

  /** Length of the maximal run of digits starting at i (what a greedy `\d+` consumes). */
  function DigitRun(s: string, i: nat): (n: nat)
    requires i <= |s|
    ensures i + n <= |s|
    ensures forall j :: i <= j < i + n ==> IsDigit(s[j])
    ensures i + n < |s| ==> !IsDigit(s[i + n])
    decreases |s| - i
  {
    if i < |s| && IsDigit(s[i]) then 1 + DigitRun(s, i + 1) else 0
  }

  /** The pattern matches at p: ` score=`, digits, `.`, digits. */
  predicate MatchesAt(h: string, p: nat)
  {
    p + 7 <= |h| && h[p..p + 7] == " score=" &&
    var d := DigitRun(h, p + 7);
    d > 0 && p + 7 + d < |h| && h[p + 7 + d] == '.' && DigitRun(h, p + 8 + d) > 0
  }

  /** `re.search` from position p: the leftmost position where the pattern matches. */
  function FirstMatch(h: string, p: nat): (r: Option<nat>)
    requires p <= |h|
    ensures r.Some? ==> p <= r.value <= |h| && MatchesAt(h, r.value)
    ensures r.Some? ==> forall q :: p <= q < r.value ==> !MatchesAt(h, q)
    ensures r.None? ==> forall q :: p <= q <= |h| ==> !MatchesAt(h, q)
    decreases |h| - p
  {
    if MatchesAt(h, p) then Some(p) else if p == |h| then None else FirstMatch(h, p + 1)
  }

  /** The value of a run of decimal digits, never negative. */
  function DigitsValue(s: string): (v: int)
    ensures (forall i :: 0 <= i < |s| ==> IsDigit(s[i])) ==> v >= 0
  {
    if s == [] then 0 else 10 * DigitsValue(s[..|s| - 1]) + (s[|s| - 1] as int - '0' as int)
  }

  function Pow10(n: nat): (r: int)
    ensures r > 0
  {
    if n == 0 then 1 else 10 * Pow10(n - 1)
  }

  /** The exact value of the decimal `group(1)` of a match at p: the pattern has no sign, so it is never negative. */
  function ScoreAt(h: string, p: nat): (v: real)
    requires MatchesAt(h, p)
    ensures v >= 0.0
  {
    var d := DigitRun(h, p + 7);
    var f := DigitRun(h, p + 8 + d);
    var whole, frac := h[p + 7..p + 7 + d], h[p + 8 + d..p + 8 + d + f];
    assert forall i :: 0 <= i < |whole| ==> whole[i] == h[p + 7 + i];
    assert forall i :: 0 <= i < |frac| ==> frac[i] == h[p + 8 + d + i];
    DigitsValue(whole) as real + DigitsValue(frac) as real / Pow10(f) as real
  }

  /** `get_score(header)`: the score of the leftmost match, None where `re.search` finds nothing. */
  function GetScore(header: string): (r: Option<real>)
    ensures r.None? <==> forall p :: 0 <= p <= |header| ==> !MatchesAt(header, p)
    ensures r.Some? ==> r.value >= 0.0
  {
    match FirstMatch(header, 0)
    case None => None
    case Some(p) => Some(ScoreAt(header, p))
  }

  /** The score is read at the leftmost match. */
  lemma GetScoreLeftmost(header: string, p: nat)
    requires p <= |header| && MatchesAt(header, p)
    requires forall q :: 0 <= q < p ==> !MatchesAt(header, q)
    ensures GetScore(header) == Some(ScoreAt(header, p))
  {
    assert FirstMatch(header, 0).Some?;
  }

  /** The score ` score=2.05` denotes is exactly 2.05: the fractional digits are read with their leading zero. */
  lemma GetScoreExample()
    ensures GetScore(" score=2.05") == Some(2.05)
  {
    var h := " score=2.05";
    assert h[0..7] == " score=";
    assert DigitRun(h, 7) == 1 by {
      assert DigitRun(h, 8) == 0;
    }
    assert DigitRun(h, 9) == 2 by {
      assert DigitRun(h, 11) == 0;
      assert DigitRun(h, 10) == 1;
    }
    assert MatchesAt(h, 0);
    GetScoreLeftmost(h, 0);
    assert h[7..8] == "2" && h[9..11] == "05";
    assert DigitsValue("2") == 2 by { assert "2"[..0] == ""; }
    assert DigitsValue("05") == 5 by { assert "05"[..1] == "0"; assert "0"[..0] == ""; }
    assert Pow10(2) == 100;
  }

  /** A header without a blank never matches, since the pattern starts with one: the key function raises on it. */
  lemma GetScoreNeedsBlank(header: string)
    requires ' ' !in header
    ensures GetScore(header) == None
  {
    forall q | 0 <= q <= |header| ensures !MatchesAt(header, q) {
      if q + 7 <= |header| {
        assert header[q..q + 7][0] == header[q];
      }
    }
  }

  // ---------------------------------------------------------------------------------------
  // entries.sort(key=...): keys for every entry, then a stable sort on the keys

  datatype Keyed = Keyed(score: real, entry: Entry)

  /** The sort's key calls: every entry is keyed by its score, or the sort raises at the first header without one. */
  function KeyAll(es: seq<Entry>): (r: Option<seq<Keyed>>)
    ensures r.Some? <==> forall i :: 0 <= i < |es| ==> GetScore(es[i].header).Some?
    ensures r.Some? ==> |r.value| == |es|
    ensures r.Some? ==> forall i :: 0 <= i < |es| ==> r.value[i] == Keyed(GetScore(es[i].header).value, es[i])
  {
    if es == [] then Some([])
    else match GetScore(es[0].header)
      case None => None
      case Some(v) =>
        match KeyAll(es[1..])
        case None => None
        case Some(rest) => Some([Keyed(v, es[0])] + rest)
  }

  predicate SortedByScore(s: seq<Keyed>)
  {
    forall i, j :: 0 <= i < j < |s| ==> s[i].score <= s[j].score
  }

  /** Insert x behind every element whose score is not larger. */
  function Insert(s: seq<Keyed>, x: Keyed): (r: seq<Keyed>)
    ensures multiset(r) == multiset(s) + multiset{x}
  {
    if s == [] then [x]
    else if s[|s| - 1].score <= x.score then s + [x]
    else
      assert s == s[..|s| - 1] + [s[|s| - 1]];
      Insert(s[..|s| - 1], x) + [s[|s| - 1]]
  }

  /** A stable ascending sort by score. A stable sort's result is unique, so this is also the order `list.sort` produces. */
  function StableSort(s: seq<Keyed>): (r: seq<Keyed>)
    ensures multiset(r) == multiset(s)
  {
    if s == [] then []
    else
      assert s == s[..|s| - 1] + [s[|s| - 1]];
      Insert(StableSort(s[..|s| - 1]), s[|s| - 1])
  }

  /** The elements with score v, in order. */
  function WithScore(s: seq<Keyed>, v: real): seq<Keyed>
  {
    if s == [] then []
    else WithScore(s[..|s| - 1], v) + (if s[|s| - 1].score == v then [s[|s| - 1]] else [])
  }

  lemma {:induction false} InsertSorted(s: seq<Keyed>, x: Keyed)
    requires SortedByScore(s)
    ensures SortedByScore(Insert(s, x))
  {
    if s != [] && s[|s| - 1].score > x.score {
      var init, last := s[..|s| - 1], s[|s| - 1];
      InsertSorted(init, x);
      var t := Insert(init, x);
      forall i | 0 <= i < |t| ensures t[i].score <= last.score {
        assert t[i] in multiset(t);
        assert t[i] in multiset(init) || t[i] == x;
      }
    }
  }

  lemma WithScoreSnoc(p: seq<Keyed>, y: Keyed, v: real)
    ensures WithScore(p + [y], v) == WithScore(p, v) + (if y.score == v then [y] else [])
  {
    assert (p + [y])[..|p|] == p;
  }

  lemma {:induction false} InsertWithScore(t: seq<Keyed>, x: Keyed, v: real)
    ensures WithScore(Insert(t, x), v) == WithScore(t, v) + (if x.score == v then [x] else [])
  {
    if t == [] {
      WithScoreSnoc([], x, v);
      assert [] + [x] == [x];
    } else if t[|t| - 1].score <= x.score {
      WithScoreSnoc(t, x, v);
    } else {
      var init, last := t[..|t| - 1], t[|t| - 1];
      var u := Insert(init, x);
      var xs := if x.score == v then [x] else [];
      var ls := if last.score == v then [last] else [];
      assert Insert(t, x) == u + [last];
      assert t == init + [last];
      calc {
        WithScore(Insert(t, x), v);
        { WithScoreSnoc(u, last, v); }
        WithScore(u, v) + ls;
        { InsertWithScore(init, x, v); }
        WithScore(init, v) + xs + ls;
        { assert xs == [] || ls == []; }
        WithScore(init, v) + ls + xs;
        { WithScoreSnoc(init, last, v); }
        WithScore(t, v) + xs;
      }
    }
  }

  /** The sort's promise: ascending scores, the same entries, and entries with equal scores in their original order. */
  lemma {:induction false} StableSortSpec(s: seq<Keyed>)
    ensures SortedByScore(StableSort(s))
    ensures multiset(StableSort(s)) == multiset(s)
    ensures forall v :: WithScore(StableSort(s), v) == WithScore(s, v)
  {
    if s != [] {
      var init, last := s[..|s| - 1], s[|s| - 1];
      StableSortSpec(init);
      InsertSorted(StableSort(init), last);
      forall v ensures WithScore(StableSort(s), v) == WithScore(s, v) {
        InsertWithScore(StableSort(init), last, v);
      }
    }
  }

  /** `entries.sort(...)` on the keyed entries: an insertion sort in place. */
  method SortInPlace(a: array<Keyed>)
    modifies a
    ensures a[..] == StableSort(old(a[..]))
  {
    ghost var input := a[..];
    var i := 0;
    while i < a.Length
      invariant 0 <= i <= a.Length
      invariant a[..] == StableSort(input[..i]) + input[i..]
    {
      UnfoldAt(StableSort(input[..i]), input, i);
      InsertStep(a, i);
      SortPrefixStep(input, i);
      i := i + 1;
    }
    assert input[..a.Length] == input && input[a.Length..] == [];
  }

  /** Where the unsorted part starts, the array holds the next input element, followed by the rest. */
  lemma UnfoldAt(sorted: seq<Keyed>, input: seq<Keyed>, i: nat)
    requires i < |input| && |sorted| == i
    ensures (sorted + input[i..])[..i] == sorted
    ensures (sorted + input[i..])[i] == input[i]
    ensures (sorted + input[i..])[i + 1..] == input[i + 1..]
  {
  }

  lemma SortPrefixStep(input: seq<Keyed>, i: nat)
    requires i < |input|
    ensures Insert(StableSort(input[..i]), input[i]) + input[i + 1..] == StableSort(input[..i + 1]) + input[i + 1..]
  {
    assert input[..i + 1][..i] == input[..i];
  }

  /** Moves a[i] left past the larger scores before it, so that a[..i + 1] is its insertion into a[..i]. */
  method InsertStep(a: array<Keyed>, i: nat)
    requires i < a.Length
    modifies a
    ensures a[..] == Insert(old(a[..i]), old(a[i])) + old(a[i + 1..])
  {
    ghost var sorted := a[..i];
    ghost var rest := a[i + 1..];
    var x := a[i];
    var j := ShiftGreater(a, i, x);
    a[j] := x;
    Arranged(a[..], sorted, rest, j, x);
    InsertAt(sorted, j, x);
  }

  /** The inner loop: shifts the elements before a[i] whose score exceeds x one place right; j is the gap left. */
  method ShiftGreater(a: array<Keyed>, i: nat, x: Keyed) returns (j: nat)
    requires i < a.Length
    modifies a
    ensures j <= i && (j == 0 || old(a[j - 1]).score <= x.score)
    ensures forall k :: j <= k < i ==> old(a[k]).score > x.score
    ensures forall k :: 0 <= k < j ==> a[k] == old(a[k])
    ensures forall k :: j < k <= i ==> a[k] == old(a[k - 1])
    ensures forall k :: i < k < a.Length ==> a[k] == old(a[k])
  {
    j := i;
    while j > 0 && a[j - 1].score > x.score
      invariant 0 <= j <= i
      invariant forall k :: j <= k < i ==> old(a[k]).score > x.score
      invariant forall k :: 0 <= k < j ==> a[k] == old(a[k])
      invariant forall k :: j < k <= i ==> a[k] == old(a[k - 1])
      invariant forall k :: i < k < a.Length ==> a[k] == old(a[k])
    {
      a[j] := a[j - 1];
      j := j - 1;
    }
  }

  /** Inserting x into s puts it behind the last element whose score is not larger. */
  lemma {:induction false} InsertAt(s: seq<Keyed>, j: nat, x: Keyed)
    requires j <= |s| && (j == 0 || s[j - 1].score <= x.score)
    requires forall k :: j <= k < |s| ==> s[k].score > x.score
    ensures Insert(s, x) == s[..j] + [x] + s[j..]
  {
    if j < |s| {
      var init, last := s[..|s| - 1], s[|s| - 1];
      assert Insert(s, x) == Insert(init, x) + [last];
      InsertAt(init, j, x);
      SliceSnoc(s, j);
    } else {
      assert s[..j] == s;
    }
  }

  lemma SliceSnoc(s: seq<Keyed>, j: nat)
    requires j < |s|
    ensures s[..|s| - 1][..j] == s[..j]
    ensures s[..|s| - 1][j..] + [s[|s| - 1]] == s[j..]
  {
  }

  lemma Arranged(b: seq<Keyed>, s: seq<Keyed>, rest: seq<Keyed>, j: nat, x: Keyed)
    requires j <= |s| && |b| == |s| + 1 + |rest| && b[j] == x
    requires forall k :: 0 <= k < j ==> b[k] == s[k]
    requires forall k :: j < k <= |s| ==> b[k] == s[k - 1]
    requires forall k :: |s| < k < |b| ==> b[k] == rest[k - |s| - 1]
    ensures b == s[..j] + [x] + s[j..] + rest
  {
  }

  // ---------------------------------------------------------------------------------------
  // Truncation to the best num_records percent, and serialisation

  function Unkey(s: seq<Keyed>): (r: seq<Entry>)
    ensures |r| == |s| && forall i :: 0 <= i < |s| ==> r[i] == s[i].entry
  {
    if s == [] then [] else [s[0].entry] + Unkey(s[1..])
  }

  /** `int(num_records * n / 100)`: true division, then truncation toward zero. */
  function KeptCount(numRecords: int, n: nat): (k: int)
    ensures var x := numRecords * n;
      && (x >= 0 ==> 0 <= k && 100 * k <= x < 100 * k + 100)
      && (x < 0 ==> k <= 0 && 100 * k - 100 < x <= 100 * k)
  {
    var x := numRecords * n;
    if x >= 0 then x / 100 else -((-x) / 100)
  }

  /** `s[:k]`: a prefix of s; a bound past the end takes all, a negative bound counts from the end. */
  function PyPrefix<T>(s: seq<T>, k: int): (r: seq<T>)
    ensures r <= s
    ensures 0 <= k <= |s| ==> |r| == k
    ensures k > |s| ==> r == s
    ensures -|s| <= k < 0 ==> |r| == |s| + k
    ensures k < -|s| ==> r == []
  {
    if k >= 0 then (if k <= |s| then s[..k] else s)
    else if |s| + k >= 0 then s[..|s| + k] else []
  }

  /** With a percentage between 0 and 100 exactly floor(top * n / 100) of n entries are kept, never more than n. */
  lemma KeptCountBounds<T>(s: seq<T>, top: int)
    requires 0 <= top <= 100
    ensures top * |s| / 100 <= |s|
    ensures PyPrefix(s, KeptCount(top, |s|)) == s[..top * |s| / 100]
  {
    MulBounds(top, |s|);
  }

  lemma MulBounds(top: int, n: nat)
    requires 0 <= top <= 100
    ensures 0 <= top * n <= 100 * n
  {
  }

  /** At 100 or more every entry is kept. */
  lemma KeptCountAbove<T>(s: seq<T>, top: int)
    requires top >= 100
    ensures PyPrefix(s, KeptCount(top, |s|)) == s
  {
    assert top * |s| >= 100 * |s|;
  }

  /** A negative percentage makes the slice bound count from the end: floor(-top * n / 100) entries are dropped there. */
  lemma KeptCountNegative<T>(s: seq<T>, top: int)
    requires -100 <= top < 0
    ensures PyPrefix(s, KeptCount(top, |s|)) == s[..if -top * |s| < 100 then 0 else |s| - (-top * |s|) / 100]
  {
    var n := |s|;
    assert top * n == -(-top * n);
    MulBounds(-top, n);
  }

  /** At -100 or below nothing is kept. */
  lemma KeptCountFarNegative<T>(s: seq<T>, top: int)
    requires top <= -100
    ensures PyPrefix(s, KeptCount(top, |s|)) == []
  {
    var n := |s|;
    assert top * n == -(-top * n);
    assert -top * n >= 100 * n;
  }

  /** One written record: `f">{header}\n{sequence}\n"`, a `>` line followed by the sequence line. */
  function RecordText(e: Entry): (r: string)
    ensures |r| == |e.header| + |e.sequence| + 3
    ensures r[0] == '>' && r[|e.header| + 1] == '\n' && r[|r| - 1] == '\n'
  {
    ">" + e.header + "\n" + e.sequence + "\n"
  }

  /** The records written one after the other: nothing for no entry, otherwise a text from the first `>` to a final line break. */
  function Serialise(es: seq<Entry>): (r: string)
    ensures r == "" <==> es == []
    ensures r != "" ==> r[0] == '>' && r[|r| - 1] == '\n'
  {
    if es == [] then "" else RecordText(es[0]) + Serialise(es[1..])
  }

  lemma {:induction false} SerialiseSnoc(es: seq<Entry>, e: Entry)
    ensures Serialise(es + [e]) == Serialise(es) + RecordText(e)
  {
    if es == [] {
      assert [e][1..] == [];
    } else {
      assert (es + [e])[1..] == es[1..] + [e];
      SerialiseSnoc(es[1..], e);
    }
  }

  // ---------------------------------------------------------------------------------------
  // The whole function

  /**
   * What `sort_fasta_by_score(fasta_file, output_file, num_records)` does with the file's lines.
   * The key function is reached only once the reader has returned at least one entry, the file is
   * written only once every entry has a score.
   */
  function SortFasta(lines: seq<string>, numRecords: int): (r: SortOutcome)
    ensures r.Written? || r == Failed(MissingScore) ==> ParseEntries(lines).Ok? && ParseEntries(lines).value != []
    ensures r.Written? ==> KeyAll(ParseEntries(lines).value).Some?
  {
    match ParseEntries(lines)
    case Err(e) => Failed(e)
    case Ok(entries) =>
      if entries == [] then NoEntries
      else match KeyAll(entries)
        case None => Failed(MissingScore)
        case Some(keyed) => Written(Serialise(PyPrefix(Unkey(StableSort(keyed)), KeptCount(numRecords, |entries|))))
  }

  /** The reader's exception surfaces exactly when the file does not start with a header line. */
  lemma SortFastaReadError(lines: seq<string>, top: int)
    ensures SortFasta(lines, top) == Failed(NoCurrentEntry) <==> lines != [] && !IsHeader(lines[0])
  {
    ParseEntriesFails(lines);
  }

  /** "No FASTA entries" is reported for a well-started file with at most one header: its only record is never pushed. */
  lemma SortFastaNoEntries(lines: seq<string>, top: int)
    ensures SortFasta(lines, top) == NoEntries <==> (lines == [] || IsHeader(lines[0])) && |Cut(lines).heads| <= 1
  {
    ParseEntriesFails(lines);
    if lines == [] || IsHeader(lines[0]) {
      ParseEntriesRecords(lines);
    }
  }

  /** The sort raises exactly when some pushed record's header carries no score. */
  lemma SortFastaMissingScore(lines: seq<string>, top: int)
    requires lines == [] || IsHeader(lines[0])
    ensures SortFasta(lines, top) == Failed(MissingScore) <==>
      exists k :: 0 <= k < PushedCount(lines) && GetScore(Record(lines, k).header).None?
  {
    ParseEntriesRecords(lines);
    var es := ParseEntries(lines).value;
    assert SortFasta(lines, top) == Failed(MissingScore) <==> KeyAll(es).None?;
    if KeyAll(es).None? {
      var i :| 0 <= i < |es| && GetScore(es[i].header).None?;
      assert GetScore(Record(lines, i).header).None?;
    } else {
      forall k | 0 <= k < PushedCount(lines) ensures GetScore(Record(lines, k).header).Some? {
        assert es[k] == Record(lines, k);
      }
    }
  }


  /** The order `list.sort` leaves the keyed entries in: ascending, a permutation, equal scores in input order. */
  ghost predicate ScoreOrder(ks: seq<Keyed>, keyed: seq<Keyed>)
  {
    SortedByScore(ks) && multiset(ks) == multiset(keyed) && forall v :: WithScore(ks, v) == WithScore(keyed, v)
  }

  /**
   * When every pushed record has a score, the file written holds the prefix `[:int(top * n / 100)]`
   * of the score order, n being the number of pushed records: for `top` between 0 and 100 the first
   * floor(top * n / 100) records (KeptCountBounds), and the other ranges as the KeptCount lemmas say.
   */
  lemma SortFastaWritten(lines: seq<string>, top: int)
    requires (lines == [] || IsHeader(lines[0])) && PushedCount(lines) > 0
    requires KeyAll(Records(lines, PushedCount(lines))).Some?
    ensures SortFasta(lines, top).Written?
    ensures exists ks ::
              && ScoreOrder(ks, KeyAll(Records(lines, PushedCount(lines))).value)
              && SortFasta(lines, top).text == Serialise(PyPrefix(Unkey(ks), KeptCount(top, PushedCount(lines))))
  {
    var n := PushedCount(lines);
    ParseEntriesRecords(lines);
    var es := ParseEntries(lines).value;
    assert es == Records(lines, n);
    var keyed := KeyAll(es).value;
    var ks := StableSort(keyed);
    StableSortSpec(keyed);
    assert ScoreOrder(ks, keyed);
    assert SortFasta(lines, top) == Written(Serialise(PyPrefix(Unkey(ks), KeptCount(top, n))));
  }

  /** `sort_fasta_by_score` with the final entry pushed after the reading loop. */
  function SortFastaAll(lines: seq<string>, numRecords: int): SortOutcome
  {
    match ParseAllEntries(lines)
    case Err(e) => Failed(e)
    case Ok(entries) =>
      if entries == [] then NoEntries
      else match KeyAll(entries)
        case None => Failed(MissingScore)
        case Some(keyed) => Written(Serialise(PyPrefix(Unkey(StableSort(keyed)), KeptCount(numRecords, |entries|))))
  }

  /**
   * With the final push, a well-started file with n header lines, all scored, has the prefix
   * `[:int(top * n / 100)]` of all n records written in score order (the first floor(top * n / 100)
   * for `top` between 0 and 100); a single record is no longer lost.
   */
  lemma SortFastaAllWritten(lines: seq<string>, top: int)
    requires (lines == [] || IsHeader(lines[0])) && |Cut(lines).heads| > 0
    requires KeyAll(Records(lines, |Cut(lines).heads|)).Some?
    ensures SortFastaAll(lines, top).Written?
    ensures exists ks ::
              && ScoreOrder(ks, KeyAll(Records(lines, |Cut(lines).heads|)).value)
              && SortFastaAll(lines, top).text == Serialise(PyPrefix(Unkey(ks), KeptCount(top, |Cut(lines).heads|)))
  {
    var n := |Cut(lines).heads|;
    ParseAllEntriesRecords(lines);
    var es := Records(lines, n);
    var keyed := KeyAll(es).value;
    var ks := StableSort(keyed);
    StableSortSpec(keyed);
    assert ScoreOrder(ks, keyed);
    assert SortFastaAll(lines, top) == Written(Serialise(PyPrefix(Unkey(ks), KeptCount(top, n))));
  }

  /** The one-record file that the code as written drops is written in full. */
  lemma OneRecordKept()
    ensures SortFastaAll([">d score=1.5\n", "ACGT\n"], 100).Written?
  {
    var lines := [">d score=1.5\n", "ACGT\n"];
    OneRecordHeader(lines);
    ExampleHeaderScored();
    assert Records(lines, 1) == [Record(lines, 0)];
    SortFastaAllWritten(lines, 100);
  }

  lemma OneRecordHeader(lines: seq<string>)
    requires lines == [">d score=1.5\n", "ACGT\n"]
    ensures IsHeader(lines[0]) && |Cut(lines).heads| == 1 && Record(lines, 0).header == "d score=1.5"
  {
    assert lines[..1] == [lines[0]];
    assert [lines[0]][..0] == [];
    assert Cut([lines[0]]) == Layout([lines[0]], [[], []]);
    assert !IsHeader(lines[1]);
    assert Cut(lines).heads == [lines[0]];
    assert RStrip(">d score=1.5") == ">d score=1.5";
    assert RStrip(lines[0]) == ">d score=1.5" by {
      assert lines[0][..|lines[0]| - 1] == ">d score=1.5";
    }
  }

  lemma ExampleHeaderScored()
    ensures GetScore("d score=1.5").Some?
  {
    var h := "d score=1.5";
    assert h[1..8] == " score=";
    assert DigitRun(h, 8) == 1 by { assert DigitRun(h, 9) == 0; }
    assert DigitRun(h, 10) == 1 by { assert DigitRun(h, 11) == 0; }
    assert MatchesAt(h, 1);
    assert FirstMatch(h, 1) == Some(1);
    assert FirstMatch(h, 0).Some?;
  }

  method SortFastaByScore(lines: seq<string>, numRecords: int) returns (out: SortOutcome)
    ensures out == SortFasta(lines, numRecords)
  {
    var parsed := ReadScoredEntries(lines);
    if parsed.Err? {
      return Failed(parsed.error);
    }
    var entries := parsed.value;
    if entries == [] {
      return NoEntries;
    }
    var keyed := KeyAll(entries);
    if keyed.None? {
      return Failed(MissingScore);
    }
    var a := new Keyed[|keyed.value|](i requires 0 <= i < |keyed.value| => keyed.value[i]);
    assert a[..] == keyed.value;
    SortInPlace(a);
    var kept := PyPrefix(Unkey(a[..]), KeptCount(numRecords, |entries|));
    var text := WriteRecords(kept);
    return Written(text);
  }

  /** The writing loop: one `handle.write` per kept entry, in order. */
  method WriteRecords(kept: seq<Entry>) returns (text: string)
    ensures text == Serialise(kept)
  {
    text := "";
    for i := 0 to |kept|
      invariant text == Serialise(kept[..i])
    {
      assert kept[..i + 1] == kept[..i] + [kept[i]];
      SerialiseSnoc(kept[..i], kept[i]);
      text := text + RecordText(kept[i]);
    }
    assert kept[..|kept|] == kept;
  }
}
