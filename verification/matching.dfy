/** Finding the records that duplicate an image's label, and resolving each
    duplicate with the operator's decision. */
module Matching {
  import opened Specimens
  import Display

  // ---------------------------------------------------------------------------
  // Candidate matcher
  // ---------------------------------------------------------------------------

  /** The id of a nullable foreign key: the store compares foreign keys by id,
      and a null only equals a null. */
  function RefId(o: Option<Ref>): Option<nat> {
    match o
    case None => None
    case Some(r) => Some(r.id)
  }

  /** The fields besides the species that the query compares with the label's. */
  datatype MatchKey = MatchKey(
    year: Option<int>, month: Option<int>, day: Option<int>,
    state: Option<nat>, county: Option<nat>, collection: Option<nat>)

  function KeyOf(r: Record): MatchKey {
    MatchKey(r.year, r.month, r.day, RefId(r.state), RefId(r.county), RefId(r.collection))
  }

  /** `r` is a duplicate of the label of an image of species `speciesId`: it
      belongs to that species, agrees with the label on the match key, and is
      not the label itself. */
  predicate IsCandidate(speciesId: SpeciesId, labelRecord: Record, r: Record) {
    r.species.id == speciesId && KeyOf(r) == KeyOf(labelRecord) && r.id != labelRecord.id
  }

  /** The query's result: the rows that are candidates, in the order the store
      gives them. */
  function Candidates(rows: seq<Record>, speciesId: SpeciesId, labelRecord: Record): (cands: seq<Record>)
    ensures |cands| <= |rows|
    ensures forall r :: r in cands <==> r in rows && IsCandidate(speciesId, labelRecord, r)
  {
    if rows == [] then []
    else
      var rest := Candidates(rows[1..], speciesId, labelRecord);
      if IsCandidate(speciesId, labelRecord, rows[0]) then [rows[0]] + rest else rest
  }

  /** No two rows share an id. */
  predicate DistinctIds(rows: seq<Record>) {
    forall i, j :: 0 <= i < j < |rows| ==> rows[i].id != rows[j].id
  }

  /** Filtering keeps rows distinct, and the label's own record (or any row
      with its id) is never among its candidates. */
  lemma {:induction false} CandidatesDistinct(rows: seq<Record>, speciesId: SpeciesId, labelRecord: Record)
    requires DistinctIds(rows)
    ensures DistinctIds(Candidates(rows, speciesId, labelRecord))
    ensures forall r :: r in Candidates(rows, speciesId, labelRecord) ==> r.id != labelRecord.id
    ensures labelRecord !in Candidates(rows, speciesId, labelRecord)
  {
    if rows != [] {
      var tail := rows[1..];
      assert DistinctIds(tail) by {
        forall i, j | 0 <= i < j < |tail| ensures tail[i].id != tail[j].id {
          assert tail[i] == rows[i + 1] && tail[j] == rows[j + 1];
        }
      }
      CandidatesDistinct(tail, speciesId, labelRecord);
      var rest := Candidates(tail, speciesId, labelRecord);
      if IsCandidate(speciesId, labelRecord, rows[0]) {
        var cands := [rows[0]] + rest;
        forall i, j | 0 <= i < j < |cands| ensures cands[i].id != cands[j].id {
          if i == 0 {
            assert cands[j] in tail;
            var k :| 0 <= k < |tail| && tail[k] == cands[j];
            assert rows[k + 1] == cands[j];
          } else {
            assert cands[i] == rest[i - 1] && cands[j] == rest[j - 1];
          }
        }
      }
    }
  }

  /** When the selected species is the label's own, a candidate is exactly a
      record that agrees with the label on the whole match key (species, year,
      month, day, state, county, collection) and has another id. */
  lemma CandidateOfOwnSpecies(labelRecord: Record, r: Record)
    ensures IsCandidate(labelRecord.species.id, labelRecord, r) <==>
      (r.species.id == labelRecord.species.id && r.year == labelRecord.year &&
       r.month == labelRecord.month && r.day == labelRecord.day &&
       RefId(r.state) == RefId(labelRecord.state) && RefId(r.county) == RefId(labelRecord.county) &&
       RefId(r.collection) == RefId(labelRecord.collection) && r.id != labelRecord.id)
  {
  }

  // ---------------------------------------------------------------------------
  // Decisions
  // ---------------------------------------------------------------------------

  /** The four menu options offered for each candidate. */
  datatype Decision =
    | ReplaceDeleteOld   // '1': delete the current label, use the candidate
    | ReplaceKeepOld     // '2': use the candidate, keep the old label in the store
    | DeleteCandidate    // '3': delete the candidate, label unchanged
    | NoChange           // '4'

  /** The text the operator types for a decision. */
  function Token(d: Decision): (t: string)
    ensures |t| == 1 && '1' <= t[0] <= '4'
  {
    match d
    case ReplaceDeleteOld => "1"
    case ReplaceKeepOld => "2"
    case DeleteCandidate => "3"
    case NoChange => "4"
  }

  /** A single digit from 1 to 4. */
  predicate IsOption(answer: string) {
    |answer| == 1 && '1' <= answer[0] <= '4'
  }

  /** The accepted answers are exactly the four one-digit texts. */
  lemma OptionTexts(answer: string)
    ensures IsOption(answer) <==> answer in {"1", "2", "3", "4"}
  {
    if IsOption(answer) {
      assert answer == [answer[0]];
    }
  }

  /** The decision an answer selects; any answer other than exactly "1" to "4" selects none. */
  function Decode(answer: string): (d: Option<Decision>)
    ensures d.Some? <==> IsOption(answer)
    ensures d.Some? ==> Token(d.value) == answer
  {
    if answer == "1" then Some(ReplaceDeleteOld)
    else if answer == "2" then Some(ReplaceKeepOld)
    else if answer == "3" then Some(DeleteCandidate)
    else if answer == "4" then Some(NoChange)
    else None
  }

  /** Every decision's own token selects it, and no other text does. */
  lemma DecodeToken(answer: string, d: Decision)
    ensures Decode(answer) == Some(d) <==> answer == Token(d)
  {
  }

  /** The decisions a run of answers selects, in order; invalid answers select nothing. */
  function Decisions(answers: seq<string>): seq<Decision> {
    if answers == [] then []
    else
      var last := Decode(answers[|answers| - 1]);
      Decisions(answers[..|answers| - 1]) + (if last.Some? then [last.value] else [])
  }

  lemma {:induction false} DecisionsAppend(a: seq<string>, b: seq<string>)
    ensures Decisions(a + b) == Decisions(a) + Decisions(b)
  {
    if b == [] {
      assert a + b == a;
    } else {
      var b' := b[..|b| - 1];
      assert (a + b)[..|a + b| - 1] == a + b';
      assert (a + b)[|a + b| - 1] == b[|b| - 1];
      DecisionsAppend(a, b');
    }
  }

  /** A run of invalid answers selects nothing. */
  lemma {:induction false} DecisionsOfInvalid(answers: seq<string>)
    requires forall i :: 0 <= i < |answers| ==> Decode(answers[i]).None?
    ensures Decisions(answers) == []
  {
    if answers != [] {
      DecisionsOfInvalid(answers[..|answers| - 1]);
    }
  }

  /** Asks for one candidate until a valid answer comes: reads `answers` from
      `pos` and stops after the first valid one; when the answers run out
      first, no decision is made. */
  method Prompt(answers: seq<string>, pos: nat) returns (d: Option<Decision>, next: nat)
    requires pos <= |answers|
    ensures pos <= next <= |answers|
    ensures forall i :: pos <= i < next - 1 ==> Decode(answers[i]).None?
    ensures d.Some? ==> next > pos && Decode(answers[next - 1]) == d
    ensures d.None? ==> next == |answers| && forall i :: pos <= i < |answers| ==> Decode(answers[i]).None?
    ensures Decisions(answers[pos..next]) == if d.Some? then [d.value] else []
  {
    next := pos;
    d := None;
    while d.None? && next < |answers|
      invariant pos <= next <= |answers|
      invariant d.None? ==> forall i :: pos <= i < next ==> Decode(answers[i]).None?
      invariant d.Some? ==> (next > pos && Decode(answers[next - 1]) == d &&
        forall i :: pos <= i < next - 1 ==> Decode(answers[i]).None?)
    {
      d := Decode(answers[next]);
      next := next + 1;
    }
    if d.Some? {
      DecisionsOfInvalid(answers[pos..next - 1]);
      assert answers[pos..next] == answers[pos..next - 1] + [answers[next - 1]];
      DecisionsAppend(answers[pos..next - 1], [answers[next - 1]]);
    } else {
      DecisionsOfInvalid(answers[pos..next]);
    }
  }

  /** Splitting the answers read so far at `next`. */
  lemma DecisionsExtend(answers: seq<string>, pos: nat, next: nat, after: nat)
    requires pos <= next <= after <= |answers|
    ensures Decisions(answers[pos..after]) == Decisions(answers[pos..next]) + Decisions(answers[next..after])
  {
    assert answers[pos..after] == answers[pos..next] + answers[next..after];
    DecisionsAppend(answers[pos..next], answers[next..after]);
  }

  // ---------------------------------------------------------------------------
  // Effect of a decision on the store and the image
  // ---------------------------------------------------------------------------

  /** What one image's resolution sees and changes: the store's records and
      the id of the record the image currently uses as its label. */
  datatype LabelState = LabelState(records: map<RecordId, Record>, current: RecordId)

  /** The effect of one decision on the store and the image, for candidate `cand`. */
  function Apply(s: LabelState, cand: Record, d: Decision): (t: LabelState)
    ensures d == ReplaceDeleteOld ==>
      t.records.Keys == s.records.Keys - {s.current} && t.current == cand.id
    ensures d == ReplaceKeepOld ==>
      t.records == s.records && t.current == cand.id
    ensures d == DeleteCandidate ==>
      t.records.Keys == s.records.Keys - {cand.id} && t.current == s.current
    ensures d == NoChange ==> t == s
    ensures forall k :: k in t.records ==> k in s.records && t.records[k] == s.records[k]
  {
    match d
    case ReplaceDeleteOld => LabelState(s.records - {s.current}, cand.id)
    case ReplaceKeepOld => LabelState(s.records, cand.id)
    case DeleteCandidate => LabelState(s.records - {cand.id}, s.current)
    case NoChange => s
  }

  /** The effect of the first `|ds|` candidates' decisions, applied in turn.
      The candidate list is fixed beforehand: decisions never recompute it. */
  function ResolveAll(s: LabelState, cands: seq<Record>, ds: seq<Decision>): LabelState
    requires |ds| <= |cands|
  {
    if ds == [] then s
    else Apply(ResolveAll(s, cands, ds[..|ds| - 1]), cands[|ds| - 1], ds[|ds| - 1])
  }

  /** One more decision applies to the state the earlier ones left. */
  lemma {:induction false} ResolveAllStep(s: LabelState, cands: seq<Record>, ds: seq<Decision>, d: Decision)
    requires |ds| < |cands|
    ensures ResolveAll(s, cands, ds + [d]) == Apply(ResolveAll(s, cands, ds), cands[|ds|], d)
  {
    assert (ds + [d])[..|ds|] == ds;
  }

  /** The record the image holds after the first `|ds|` decisions: options 1
      and 2 replace it by that decision's candidate, options 3 and 4 keep it.
      This is the record the grid shows next to the following candidate. */
  function CurrentRecord(labelRecord: Record, cands: seq<Record>, ds: seq<Decision>): Record
    requires |ds| <= |cands|
  {
    if ds == [] then labelRecord
    else
      var n := |ds| - 1;
      if ds[n] == ReplaceDeleteOld || ds[n] == ReplaceKeepOld then cands[n]
      else CurrentRecord(labelRecord, cands, ds[..n])
  }

  /** The record the image holds is the one its record id names. */
  lemma {:induction false} CurrentRecordId(s: LabelState, labelRecord: Record, cands: seq<Record>, ds: seq<Decision>)
    requires |ds| <= |cands| && s.current == labelRecord.id
    ensures CurrentRecord(labelRecord, cands, ds).id == ResolveAll(s, cands, ds).current
  {
    if ds != [] {
      CurrentRecordId(s, labelRecord, cands, ds[..|ds| - 1]);
    }
  }

  /** The grid for a shown label and a candidate can be printed. */
  predicate GridShows(shown: Record, cand: Record) {
    Display.Printable(shown) && Display.Printable(cand)
  }

  /** `print_grid` for the record on show and a candidate: whether the lines
      could be produced. The lines themselves go to the terminal. */
  method ShowGrid(shown: Record, cand: Record) returns (printed: bool)
    ensures printed <==> GridShows(shown, cand)
  {
    var lines, padded := Display.RenderGrid(shown, cand);
    printed := lines.Some?;
  }

  /** Every decision in `ds` was taken after the grid of the record the image
      held at that point and the candidate was printed. */
  predicate AllShown(labelRecord: Record, cands: seq<Record>, ds: seq<Decision>)
    requires |ds| <= |cands|
  {
    ds == [] ||
      var n := |ds| - 1;
      AllShown(labelRecord, cands, ds[..n]) && GridShows(CurrentRecord(labelRecord, cands, ds[..n]), cands[n])
  }

  /** `AllShown` read decision by decision: decision `i` came after the grid of
      the record then on show and candidate `i`. */
  lemma {:induction false} AllShownAt(labelRecord: Record, cands: seq<Record>, ds: seq<Decision>, i: nat)
    requires |ds| <= |cands| && i < |ds|
    requires AllShown(labelRecord, cands, ds)
    ensures GridShows(CurrentRecord(labelRecord, cands, ds[..i]), cands[i])
  {
    var n := |ds| - 1;
    if i < n {
      AllShownAt(labelRecord, cands, ds[..n], i);
      assert ds[..n][..i] == ds[..i];
    }
  }

  /** One more decision, taken after the grid for the next candidate was
      printed, keeps `AllShown`. */
  lemma {:induction false} AllShownStep(labelRecord: Record, cands: seq<Record>, ds: seq<Decision>, d: Decision)
    requires |ds| < |cands|
    requires AllShown(labelRecord, cands, ds)
    requires GridShows(CurrentRecord(labelRecord, cands, ds), cands[|ds|])
    ensures AllShown(labelRecord, cands, ds + [d])
  {
    assert (ds + [d])[..|ds|] == ds;
  }

  /** One more decision: options 1 and 2 put its candidate on show, options
      3 and 4 keep the record shown before. */
  lemma {:induction false} CurrentRecordStep(labelRecord: Record, cands: seq<Record>, ds: seq<Decision>, d: Decision)
    requires |ds| < |cands|
    ensures CurrentRecord(labelRecord, cands, ds + [d]) ==
      if d == ReplaceDeleteOld || d == ReplaceKeepOld then cands[|ds|] else CurrentRecord(labelRecord, cands, ds)
  {
    assert (ds + [d])[..|ds|] == ds;
  }

  /** Resolution never creates or alters a record: the store only loses entries. */
  lemma {:induction false} ResolveOnlyDeletes(s: LabelState, cands: seq<Record>, ds: seq<Decision>)
    requires |ds| <= |cands|
    ensures var t := ResolveAll(s, cands, ds);
      forall k :: k in t.records ==> k in s.records && t.records[k] == s.records[k]
  {
    if ds != [] {
      ResolveOnlyDeletes(s, cands, ds[..|ds| - 1]);
    }
  }

  /** Within one image's resolution, starting from a label that is in the store
      and candidates that are in the store with ids distinct from each other and
      from the label's, the image never points at a deleted record; it points
      at the label or at one of the candidates decided so far, and every
      candidate still to come is in the store. */
  lemma {:induction false} ImageNeverDangles(s: LabelState, cands: seq<Record>, ds: seq<Decision>)
    requires |ds| <= |cands|
    requires s.current in s.records
    requires DistinctIds(cands)
    requires forall i :: 0 <= i < |cands| ==> cands[i].id in s.records && cands[i].id != s.current
    ensures var t := ResolveAll(s, cands, ds);
      t.current in t.records &&
      (t.current == s.current || exists i :: 0 <= i < |ds| && cands[i].id == t.current) &&
      forall i :: |ds| <= i < |cands| ==> cands[i].id in t.records
  {
    if ds != [] {
      var n := |ds| - 1;
      ImageNeverDangles(s, cands, ds[..n]);
      var prev := ResolveAll(s, cands, ds[..n]);
      assert prev.current != cands[n].id;
    }
  }

  /** The candidate list is not recomputed after a decision. After option 2
      points the image at candidate `c1`, a later option 1 for candidate `c2`
      deletes `c1` (what the image now uses), not the original label, which
      stays in the store. */
  lemma StaleReplace(s: LabelState, c1: Record, c2: Record)
    requires s.current in s.records && c1.id != s.current && c1.id != c2.id
    ensures var t := ResolveAll(s, [c1, c2], [ReplaceKeepOld, ReplaceDeleteOld]);
      t.current == c2.id && c1.id !in t.records && s.current in t.records &&
      t.records[s.current] == s.records[s.current]
  {
    var cands, ds, first := [c1, c2], [ReplaceKeepOld, ReplaceDeleteOld], [ReplaceKeepOld];
    assert first[..0] == [];
    assert ResolveAll(s, cands, first) == Apply(s, c1, ReplaceKeepOld);
    assert ds[..1] == first;
  }

  /** A worked case: record 1 is an image's label and record 2 duplicates it
      (same species, date, state, county and collection). Record 2 is the only
      candidate; an invalid answer "9" followed by "1" selects option 1 once,
      which deletes record 1 and points the image at record 2. */
  lemma DuplicateLabelReplaced(a: Record, b: Record, other: Record)
    requires a.id == 1 && b.id == 2 && other.id == 3
    requires b == a.(id := 2) && other.species.id != a.species.id
    ensures Candidates([a, b, other], a.species.id, a) == [b]
    ensures Decisions(["9", "1"]) == [ReplaceDeleteOld]
    ensures var t := Apply(LabelState(map[1 := a, 2 := b, 3 := other], 1), b, ReplaceDeleteOld);
      t.current == 2 && t.records == map[2 := b, 3 := other]
  {
    assert ["9", "1"][..1] == ["9"] && ["9"][..0] == [];
    assert [a, b, other][1..] == [b, other] && [b, other][1..] == [other] && [other][1..] == [];
    assert !IsCandidate(a.species.id, a, a) && IsCandidate(a.species.id, a, b);
    assert Candidates([other], a.species.id, a) == [];
    assert Candidates([b, other], a.species.id, a) == [b];
    assert map[1 := a, 2 := b, 3 := other] - {1} == map[2 := b, 3 := other];
  }

  // ---------------------------------------------------------------------------
  // The store and the resolution loops
  // ---------------------------------------------------------------------------

  /** How a run of `match_species` ends. */
  datatype Outcome =
    | Finished              // every image of the species was resolved
    | InputExhausted        // the operator's answers ran out before the end
    | LabelMissing(image: ImageId)  // an image's label is null or gone from the store
    | TextNotAscii(image: ImageId, record: RecordId)  // the grid for this candidate could not be printed

  /** What the resolution of one image did: the image, the state it started
      from, the label record on show at the start, the candidate list computed
      once from that state, and the answers it read (`from` up to `to`) with
      the decisions they selected. */
  datatype Run = Run(image: ImageId, start: LabelState, labelRecord: Record, cands: seq<Record>,
                     from: nat, to: nat, ds: seq<Decision>)

  /** The state a run leaves: its decisions applied in turn to its candidates. */
  function After(r: Run): LabelState {
    if |r.ds| <= |r.cands| then ResolveAll(r.start, r.cands, r.ds) else r.start
  }

  /** A run as one image's resolution makes it: the label is the stored record
      the image held, the candidates are exactly that label's candidates in
      the store it started from, and each decision came from the answers read
      and after its grid was printed. */
  ghost predicate RunOf(speciesId: SpeciesId, answers: seq<string>, r: Run) {
    r.start.current in r.start.records && r.labelRecord == r.start.records[r.start.current] &&
    (forall c :: c in r.cands <==>
      c.id in r.start.records && r.start.records[c.id] == c && IsCandidate(speciesId, r.labelRecord, c)) &&
    DistinctIds(r.cands) &&
    r.from <= r.to <= |answers| && r.ds == Decisions(answers[r.from..r.to]) && |r.ds| <= |r.cands| &&
    AllShown(r.labelRecord, r.cands, r.ds)
  }

  /** Every candidate of the run was decided, and no answer was read past the
      last valid one. */
  ghost predicate Complete(answers: seq<string>, r: Run) {
    |r.ds| == |r.cands| && r.to <= |answers| &&
    if r.ds == [] then r.to == r.from else r.to > r.from && IsOption(answers[r.to - 1])
  }

  /** Where the answers stand after the runs: where the last one stopped, or
      the start. */
  function EndPos(runs: seq<Run>): nat {
    if runs == [] then 0 else runs[|runs| - 1].to
  }

  /** The records the runs leave, starting from `records0`. */
  function EndRecords(records0: map<RecordId, Record>, runs: seq<Run>): map<RecordId, Record> {
    if runs == [] then records0 else After(runs[|runs| - 1]).records
  }

  /** The images the runs worked on. */
  function RunImages(runs: seq<Run>): (imgs: set<ImageId>)
    ensures forall k :: 0 <= k < |runs| ==> runs[k].image in imgs
  {
    if runs == [] then {} else RunImages(runs[..|runs| - 1]) + {runs[|runs| - 1].image}
  }

  /** `RunImages` holds nothing but the runs' images. */
  lemma {:induction false} RunImagesOnly(runs: seq<Run>, i: ImageId)
    requires i in RunImages(runs)
    ensures exists k :: 0 <= k < |runs| && runs[k].image == i
  {
    var n := |runs| - 1;
    if i != runs[n].image {
      RunImagesOnly(runs[..n], i);
      var k :| 0 <= k < n && runs[..n][k].image == i;
      assert runs[k].image == i;
    }
  }

  /** `runs` is what `match_species` did so far for the species, image after
      image, from the records `records0` and the images `images0`: each run is
      one image's resolution, of an image of the species not worked on before,
      which started from the record that image held at the outset, read the
      answers where the runs before it stopped and started from the records
      they left; every run but the last is complete. */
  ghost predicate Trace(speciesId: SpeciesId, answers: seq<string>, records0: map<RecordId, Record>,
                        images0: map<ImageId, Image>, runs: seq<Run>)
  {
    runs == [] ||
      var n := |runs| - 1;
      var r := runs[n];
      Trace(speciesId, answers, records0, images0, runs[..n]) &&
      (n > 0 ==> Complete(answers, runs[n - 1])) &&
      RunOf(speciesId, answers, r) &&
      r.from == EndPos(runs[..n]) && r.start.records == EndRecords(records0, runs[..n]) &&
      r.image in images0 && images0[r.image].species == Some(speciesId) &&
      images0[r.image].record == Some(r.start.current) &&
      r.image !in RunImages(runs[..n])
  }

  /** Appending the next image's run to a trace. */
  lemma {:induction false} TraceStep(speciesId: SpeciesId, answers: seq<string>, records0: map<RecordId, Record>,
                                     images0: map<ImageId, Image>, runs: seq<Run>, run: Run)
    requires Trace(speciesId, answers, records0, images0, runs)
    requires runs != [] ==> Complete(answers, runs[|runs| - 1])
    requires RunOf(speciesId, answers, run)
    requires run.from == EndPos(runs) && run.start.records == EndRecords(records0, runs)
    requires run.image in images0 && images0[run.image].species == Some(speciesId)
    requires images0[run.image].record == Some(run.start.current) && run.image !in RunImages(runs)
    ensures Trace(speciesId, answers, records0, images0, runs + [run])
    ensures RunImages(runs + [run]) == RunImages(runs) + {run.image}
  {
    assert (runs + [run])[..|runs|] == runs;
  }

  /** Run `k` of a trace is one image's resolution, of an image of the
      species, starting from the record that image held at the outset. */
  lemma {:induction false} TraceRun(speciesId: SpeciesId, answers: seq<string>, records0: map<RecordId, Record>,
                                    images0: map<ImageId, Image>, runs: seq<Run>, k: nat)
    requires Trace(speciesId, answers, records0, images0, runs) && k < |runs|
    ensures RunOf(speciesId, answers, runs[k])
    ensures runs[k].image in images0 && images0[runs[k].image].species == Some(speciesId)
    ensures images0[runs[k].image].record == Some(runs[k].start.current)
  {
    var n := |runs| - 1;
    if k < n {
      TraceRun(speciesId, answers, records0, images0, runs[..n], k);
      assert runs[..n][k] == runs[k];
    }
  }

  /** Run `k` of a trace reads on where run `k - 1` stopped (the first from
      the start of the answers) and starts from the records it left (the
      first from `records0`). */
  lemma {:induction false} TraceLink(speciesId: SpeciesId, answers: seq<string>, records0: map<RecordId, Record>,
                                     images0: map<ImageId, Image>, runs: seq<Run>, k: nat)
    requires Trace(speciesId, answers, records0, images0, runs) && k < |runs|
    ensures runs[k].from == (if k == 0 then 0 else runs[k - 1].to)
    ensures runs[k].start.records == (if k == 0 then records0 else After(runs[k - 1]).records)
  {
    var n := |runs| - 1;
    var prefix := runs[..n];
    if k < n {
      TraceLink(speciesId, answers, records0, images0, prefix, k);
      assert prefix[k] == runs[k];
      if k > 0 {
        assert prefix[k - 1] == runs[k - 1];
      }
    }
  }

  /** No image is resolved twice in a trace. */
  lemma {:induction false} TraceOnce(speciesId: SpeciesId, answers: seq<string>, records0: map<RecordId, Record>,
                                     images0: map<ImageId, Image>, runs: seq<Run>, j: nat, k: nat)
    requires Trace(speciesId, answers, records0, images0, runs) && j < k < |runs|
    ensures runs[j].image != runs[k].image
  {
    var n := |runs| - 1;
    var prefix := runs[..n];
    assert prefix[j] == runs[j];
    if k < n {
      TraceOnce(speciesId, answers, records0, images0, prefix, j, k);
      assert prefix[k] == runs[k];
    }
  }

  /** Every run of a trace but the last is complete: each image before the
      last one was resolved through all of its candidates. */
  lemma {:induction false} TraceComplete(speciesId: SpeciesId, answers: seq<string>, records0: map<RecordId, Record>,
                                         images0: map<ImageId, Image>, runs: seq<Run>, k: nat)
    requires Trace(speciesId, answers, records0, images0, runs) && k + 1 < |runs|
    ensures Complete(answers, runs[k])
  {
    var n := |runs| - 1;
    var prefix := runs[..n];
    if k + 1 < n {
      TraceComplete(speciesId, answers, records0, images0, prefix, k);
      assert prefix[k] == runs[k];
    }
  }

  /** The store after the runs, against the store at the outset: the records
      are those the last run left, and the store only lost entries; every image
      keeps its species; each image worked on holds the record its run left it
      holding, and every other image is as it was. */
  ghost predicate StoreAfter(records0: map<RecordId, Record>, images0: map<ImageId, Image>, runs: seq<Run>,
                             records: map<RecordId, Record>, images: map<ImageId, Image>)
  {
    records == EndRecords(records0, runs) &&
    (forall k :: k in records ==> k in records0 && records[k] == records0[k]) &&
    images.Keys == images0.Keys &&
    (forall i :: i in images ==> images[i].species == images0[i].species) &&
    (forall k :: 0 <= k < |runs| ==>
      runs[k].image in images && images[runs[k].image].record == Some(After(runs[k]).current)) &&
    (forall i :: i in images && i !in RunImages(runs) ==> images[i] == images0[i])
  }

  /** One more image's run, applied to the store, keeps `StoreAfter`. */
  lemma {:induction false} StoreStep(records0: map<RecordId, Record>, images0: map<ImageId, Image>, runs: seq<Run>,
                                     records: map<RecordId, Record>, images: map<ImageId, Image>,
                                     run: Run, records': map<RecordId, Record>, images': map<ImageId, Image>)
    requires StoreAfter(records0, images0, runs, records, images)
    requires run.image !in RunImages(runs)
    requires records' == After(run).records
    requires forall k :: k in records' ==> k in records && records'[k] == records[k]
    requires images'.Keys == images.Keys && run.image in images'
    requires images'[run.image].record == Some(After(run).current)
    requires images'[run.image].species == images[run.image].species
    requires forall i :: i in images' && i != run.image ==> images'[i] == images[i]
    ensures StoreAfter(records0, images0, runs + [run], records', images')
    ensures RunImages(runs + [run]) == RunImages(runs) + {run.image}
  {
    var rs := runs + [run];
    assert rs[..|runs|] == runs;
    assert forall k :: 0 <= k < |runs| ==> rs[k] == runs[k];
  }

  /** How a run of `match_species` that made the runs `runs` and read the
      answers up to `next` can have ended: when it finished, or stopped at an
      image without a label, the last run is complete; when the answers ran
      out, or a grid could not be printed, the last run stopped with a
      candidate undecided, after that candidate's grid was shown or at the
      grid that could not be printed. */
  ghost predicate Ending(answers: seq<string>, outcome: Outcome, next: nat, runs: seq<Run>) {
    ((outcome.Finished? || outcome.LabelMissing?) && runs != [] ==> Complete(answers, runs[|runs| - 1])) &&
    (outcome.InputExhausted? ==> (runs != [] && next == |answers| &&
      var r := runs[|runs| - 1];
      |r.ds| < |r.cands| && GridShows(CurrentRecord(r.labelRecord, r.cands, r.ds), r.cands[|r.ds|]))) &&
    (outcome.TextNotAscii? ==> (runs != [] &&
      var r := runs[|runs| - 1];
      |r.ds| < |r.cands| && outcome == TextNotAscii(r.image, r.cands[|r.ds|].id) &&
      !GridShows(CurrentRecord(r.labelRecord, r.cands, r.ds), r.cands[|r.ds|])))
  }

  /** The in-memory record store: records by id, and images by id. */
  class Store {
    var records: map<RecordId, Record>
    var images: map<ImageId, Image>

    /** Every record is stored under its own id. */
    ghost predicate Valid()
      reads this
    {
      forall id :: id in records ==> records[id].id == id
    }

    constructor (records: map<RecordId, Record>, images: map<ImageId, Image>)
      requires forall id :: id in records ==> records[id].id == id
      ensures Valid() && this.records == records && this.images == images
    {
      this.records := records;
      this.images := images;
    }

    /** The record an image currently uses as its label. */
    function LabelRecordOf(image: ImageId): Record
      reads this
      requires image in images && images[image].record.Some? && images[image].record.value in records
    {
      records[images[image].record.value]
    }

    /** The state one image's resolution works on. */
    function LabelOf(image: ImageId): LabelState
      reads this
      requires image in images && images[image].record.Some?
    {
      LabelState(records, images[image].record.value)
    }

    /** The store's records, in the store's own (unspecified) order. */
    method Rows() returns (rows: seq<Record>)
      requires Valid()
      ensures forall r :: r in rows <==> r in records.Values
      ensures DistinctIds(rows)
    {
      rows := [];
      var left := records.Keys;
      while left != {}
        invariant left <= records.Keys
        invariant forall i :: 0 <= i < |rows| ==> rows[i].id in records && records[rows[i].id] == rows[i] && rows[i].id !in left
        invariant forall k :: k in records && k !in left ==> records[k] in rows
        invariant DistinctIds(rows)
        decreases left
      {
        var k :| k in left;
        rows := rows + [records[k]];
        left := left - {k};
      }
    }

    /** The images of a species, in the store's own (unspecified) order. */
    method ImagesOf(speciesId: SpeciesId) returns (ids: seq<ImageId>)
      ensures forall i :: i in ids <==> i in images && images[i].species == Some(speciesId)
      ensures forall i, j :: 0 <= i < j < |ids| ==> ids[i] != ids[j]
    {
      ids := [];
      var left := images.Keys;
      while left != {}
        invariant left <= images.Keys
        invariant forall i :: i in ids <==> i in images && i !in left && images[i].species == Some(speciesId)
        invariant forall i, j :: 0 <= i < j < |ids| ==> ids[i] != ids[j]
        decreases left
      {
        var k :| k in left;
        if images[k].species == Some(speciesId) {
          ids := ids + [k];
        }
        left := left - {k};
      }
    }

    /** Applies one decision for `image` and candidate `cand`. Option 1 deletes
        the image's current record, then points the image at the candidate;
        option 2 only points the image at the candidate; option 3 deletes the
        candidate; option 4 changes nothing. No other image changes, and no
        image changes species. */
    method Resolve(image: ImageId, cand: Record, d: Decision)
      requires Valid() && image in images && images[image].record.Some?
      modifies this
      ensures Valid()
      ensures image in images && images[image].record.Some?
      ensures LabelOf(image) == Apply(old(LabelOf(image)), cand, d)
      ensures d == ReplaceDeleteOld ==>
        records.Keys == old(records.Keys) - {old(images[image].record.value)} &&
        images[image].record == Some(cand.id)
      ensures d == ReplaceKeepOld ==> records == old(records) && images[image].record == Some(cand.id)
      ensures d == DeleteCandidate ==>
        records.Keys == old(records.Keys) - {cand.id} && images[image] == old(images[image])
      ensures d == NoChange ==> records == old(records) && images == old(images)
      ensures forall k :: k in records ==> k in old(records) && records[k] == old(records[k])
      ensures images.Keys == old(images.Keys)
      ensures images[image].species == old(images[image].species)
      ensures forall i :: i in images && i != image ==> images[i] == old(images[i])
    {
      match d
      case ReplaceDeleteOld =>
        records := records - {images[image].record.value};
        images := images[image := images[image].(record := Some(cand.id))];
      case ReplaceKeepOld =>
        images := images[image := images[image].(record := Some(cand.id))];
      case DeleteCandidate =>
        records := records - {cand.id};
      case NoChange =>
    }

    /** After the grid is printed: asks until a valid answer comes, and
        applies the decision to the candidate. */
    method Decide(image: ImageId, cand: Record, answers: seq<string>, at: nat)
      returns (d: Option<Decision>, next: nat)
      requires Valid() && image in images && images[image].record.Some?
      requires at <= |answers|
      modifies this
      ensures Valid() && image in images && images[image].record.Some?
      ensures at <= next <= |answers|
      ensures Decisions(answers[at..next]) == if d.Some? then [d.value] else []
      ensures d.Some? ==> next > at && IsOption(answers[next - 1])
      ensures d.None? ==> next == |answers|
      ensures LabelOf(image) == if d.Some? then Apply(old(LabelOf(image)), cand, d.value) else old(LabelOf(image))
      ensures images.Keys == old(images.Keys)
      ensures images[image].species == old(images[image].species)
      ensures forall i :: i in images && i != image ==> images[i] == old(images[i])
    {
      d, next := Prompt(answers, at);
      if d.Some? {
        Resolve(image, cand, d.value);
      }
    }

    /** The per-candidate loop for one image: for each candidate of the fixed
        list `cands` in turn, shows the grid of the record the image holds and
        the candidate, asks for a decision, re-asking after every invalid
        answer, and applies it. Stops when a grid cannot be printed or the
        answers run out. Returns the position after the last answer read. */
    method ResolveCandidates(image: ImageId, labelRecord: Record, cands: seq<Record>, answers: seq<string>, pos: nat)
      returns (next: nat, outcome: Outcome, ghost ds: seq<Decision>)
      requires Valid() && image in images && images[image].record == Some(labelRecord.id)
      requires pos <= |answers|
      modifies this
      ensures Valid() && image in images && images[image].record.Some?
      ensures pos <= next <= |answers|
      ensures ds == Decisions(answers[pos..next]) && |ds| <= |cands|
      ensures LabelOf(image) == ResolveAll(old(LabelOf(image)), cands, ds)
      ensures AllShown(labelRecord, cands, ds)
      ensures outcome.Finished? || outcome.InputExhausted? || outcome.TextNotAscii?
      ensures outcome.Finished? <==> |ds| == |cands|
      ensures outcome.InputExhausted? ==> (|ds| < |cands| && next == |answers| &&
        GridShows(CurrentRecord(labelRecord, cands, ds), cands[|ds|]))
      ensures outcome.TextNotAscii? ==> (|ds| < |cands| && outcome == TextNotAscii(image, cands[|ds|].id) &&
        !GridShows(CurrentRecord(labelRecord, cands, ds), cands[|ds|]))
      ensures !outcome.InputExhausted? ==>
        if |ds| == 0 then next == pos else next > pos && IsOption(answers[next - 1])
      ensures images.Keys == old(images.Keys)
      ensures images[image].species == old(images[image].species)
      ensures forall i :: i in images && i != image ==> images[i] == old(images[i])
    {
      ghost var s0 := LabelOf(image);
      var shown := labelRecord;
      next := pos;
      outcome := Finished;
      var i := 0;
      ds := [];
      while i < |cands|
        invariant 0 <= i <= |cands|
        invariant pos <= next <= |answers|
        invariant Valid() && image in images && images[image].record.Some?
        invariant ds == Decisions(answers[pos..next]) && |ds| == i
        invariant LabelOf(image) == ResolveAll(s0, cands, ds)
        invariant shown == CurrentRecord(labelRecord, cands, ds)
        invariant AllShown(labelRecord, cands, ds)
        invariant if i == 0 then next == pos else next > pos && IsOption(answers[next - 1])
        invariant images.Keys == old(images.Keys)
        invariant images[image].species == old(images[image].species)
        invariant forall j :: j in images && j != image ==> images[j] == old(images[j])
      {
        var printed := ShowGrid(shown, cands[i]);
        if !printed {
          outcome := TextNotAscii(image, cands[i].id);
          break;
        }
        var d, after := Decide(image, cands[i], answers, next);
        DecisionsExtend(answers, pos, next, after);
        if d.None? {
          assert Decisions(answers[pos..after]) == ds + [] == ds;
          next := after;
          outcome := InputExhausted;
          break;
        }
        if d.value == ReplaceDeleteOld || d.value == ReplaceKeepOld {
          shown := cands[i];
        }
        next := after;
        CurrentRecordStep(labelRecord, cands, ds, d.value);
        AllShownStep(labelRecord, cands, ds, d.value);
        ResolveAllStep(s0, cands, ds, d.value);
        ds := ds + [d.value];
        i := i + 1;
      }
    }

    /** Resolves one image: computes its candidates once, from the label and
        the store as they are now, before any decision, then runs the
        per-candidate loop over that list. */
    method ResolveImage(speciesId: SpeciesId, image: ImageId, answers: seq<string>, pos: nat)
      returns (cands: seq<Record>, next: nat, outcome: Outcome, ghost ds: seq<Decision>)
      requires Valid() && image in images && images[image].record.Some?
      requires images[image].record.value in records
      requires pos <= |answers|
      modifies this
      ensures Valid() && image in images && images[image].record.Some?
      ensures forall r :: r in cands <==>
        r in old(records).Values && IsCandidate(speciesId, old(LabelRecordOf(image)), r)
      ensures DistinctIds(cands)
      ensures pos <= next <= |answers|
      ensures ds == Decisions(answers[pos..next]) && |ds| <= |cands|
      ensures LabelOf(image) == ResolveAll(old(LabelOf(image)), cands, ds)
      ensures AllShown(old(LabelRecordOf(image)), cands, ds)
      ensures outcome.Finished? || outcome.InputExhausted? || outcome.TextNotAscii?
      ensures outcome.Finished? <==> |ds| == |cands|
      ensures outcome.InputExhausted? ==> (|ds| < |cands| && next == |answers| &&
        GridShows(CurrentRecord(old(LabelRecordOf(image)), cands, ds), cands[|ds|]))
      ensures outcome.TextNotAscii? ==> (|ds| < |cands| && outcome == TextNotAscii(image, cands[|ds|].id) &&
        !GridShows(CurrentRecord(old(LabelRecordOf(image)), cands, ds), cands[|ds|]))
      ensures !outcome.InputExhausted? ==>
        if |ds| == 0 then next == pos else next > pos && IsOption(answers[next - 1])
      ensures images.Keys == old(images.Keys)
      ensures images[image].species == old(images[image].species)
      ensures forall i :: i in images && i != image ==> images[i] == old(images[i])
    {
      var labelRecord := records[images[image].record.value];
      var rows := Rows();
      cands := Candidates(rows, speciesId, labelRecord);
      CandidatesDistinct(rows, speciesId, labelRecord);
      next, outcome, ds := ResolveCandidates(image, labelRecord, cands, answers, pos);
    }

    /** One image of `match_species`: `ResolveImage`, with what it did
        recorded as a run. */
    method ResolveNext(speciesId: SpeciesId, image: ImageId, answers: seq<string>, pos: nat)
      returns (next: nat, outcome: Outcome, ghost run: Run)
      requires Valid() && image in images && images[image].record.Some?
      requires images[image].record.value in records
      requires pos <= |answers|
      modifies this
      ensures Valid() && image in images
      ensures RunOf(speciesId, answers, run)
      ensures run.image == image && run.from == pos && run.to == next
      ensures run.start == old(LabelOf(image))
      ensures records == After(run).records && images[image].record == Some(After(run).current)
      ensures outcome.Finished? ==> Complete(answers, run)
      ensures outcome.InputExhausted? ==> (next == |answers| && |run.ds| < |run.cands| &&
        GridShows(CurrentRecord(run.labelRecord, run.cands, run.ds), run.cands[|run.ds|]))
      ensures outcome.TextNotAscii? ==> (|run.ds| < |run.cands| &&
        outcome == TextNotAscii(image, run.cands[|run.ds|].id) &&
        !GridShows(CurrentRecord(run.labelRecord, run.cands, run.ds), run.cands[|run.ds|]))
      ensures outcome.Finished? || outcome.InputExhausted? || outcome.TextNotAscii?
      ensures forall k :: k in records ==> k in old(records) && records[k] == old(records[k])
      ensures images.Keys == old(images.Keys)
      ensures images[image].species == old(images[image].species)
      ensures forall i :: i in images && i != image ==> images[i] == old(images[i])
    {
      ghost var before := LabelOf(image);
      ghost var labelRecord := LabelRecordOf(image);
      var cands;
      ghost var ds;
      cands, next, outcome, ds := ResolveImage(speciesId, image, answers, pos);
      ResolveOnlyDeletes(before, cands, ds);
      run := Run(image, before, labelRecord, cands, pos, next, ds);
    }

    /** Where `match_species` stands, against the store `records0`, `images0`
        it started from: the runs so far form a trace, the store is what they
        left, the answers are read up to `next`, and the outcome so far is
        read off the runs (or names an image of the species whose label is
        missing, not worked on). */
    ghost predicate Resolving(speciesId: SpeciesId, answers: seq<string>, records0: map<RecordId, Record>,
                              images0: map<ImageId, Image>, outcome: Outcome, next: nat, runs: seq<Run>)
      reads this
    {
      Valid() && next <= |answers| && next == EndPos(runs) &&
      Trace(speciesId, answers, records0, images0, runs) &&
      StoreAfter(records0, images0, runs, records, images) &&
      Ending(answers, outcome, next, runs) &&
      (outcome.LabelMissing? ==> (outcome.image in images &&
        images[outcome.image].species == Some(speciesId) &&
        (images[outcome.image].record.None? || images[outcome.image].record.value !in records) &&
        outcome.image !in RunImages(runs)))
    }

    /** One image of `match_species`, with the earlier images finished: stops
        at once if the image has no label in the store, and otherwise resolves
        it and records the run. */
    method Visit(speciesId: SpeciesId, answers: seq<string>, ghost records0: map<RecordId, Record>,
                 ghost images0: map<ImageId, Image>, image: ImageId, pos: nat, ghost runs: seq<Run>)
      returns (outcome: Outcome, next: nat, ghost runs': seq<Run>)
      requires Resolving(speciesId, answers, records0, images0, Finished, pos, runs)
      requires image in images0 && images0[image].species == Some(speciesId) && image !in RunImages(runs)
      modifies this
      ensures outcome.LabelMissing? ==> outcome == LabelMissing(image) && runs' == runs
      ensures !outcome.LabelMissing? ==> |runs'| == |runs| + 1 && runs'[|runs|].image == image
      ensures |runs| <= |runs'| && forall k :: 0 <= k < |runs| ==> runs'[k] == runs[k]
      ensures !outcome.LabelMissing? ==> RunImages(runs') == RunImages(runs) + {image}
      ensures Resolving(speciesId, answers, records0, images0, outcome, next, runs')
    {
      if images[image].record.None? || images[image].record.value !in records {
        outcome, next, runs' := LabelMissing(image), pos, runs;
        return;
      }
      ghost var records1, images1 := records, images;
      ghost var run;
      next, outcome, run := ResolveNext(speciesId, image, answers, pos);
      TraceStep(speciesId, answers, records0, images0, runs, run);
      StoreStep(records0, images0, runs, records1, images1, run, records, images);
      runs' := runs + [run];
      assert runs'[|runs|] == run;
    }

    /** `match_species`: resolves every image of the species in the store's
        order, reading the operator's answers from the start of `answers`.
        Stops early when an image has no label in the store, when a grid
        cannot be printed, or when the answers run out. `runs` records each
        image's resolution in turn: all but the last are complete, and the
        last is complete unless the answers ran out or a grid failed. */
    method MatchSpecies(speciesId: SpeciesId, answers: seq<string>)
      returns (outcome: Outcome, next: nat, ghost runs: seq<Run>)
      requires Valid()
      modifies this
      ensures Resolving(speciesId, answers, old(records), old(images), outcome, next, runs)
      ensures outcome.Finished? ==>
        forall i :: i in images && images[i].species == Some(speciesId) ==> i in RunImages(runs)
    {
      var ids := ImagesOf(speciesId);
      next := 0;
      outcome := Finished;
      runs := [];
      var n := 0;
      while n < |ids|
        invariant 0 <= n <= |ids| && outcome == Finished
        invariant forall i :: i in ids <==> i in old(images) && old(images)[i].species == Some(speciesId)
        invariant forall k :: 0 <= k < n ==> ids[k] in RunImages(runs)
        invariant forall k :: n <= k < |ids| ==> ids[k] !in RunImages(runs)
        invariant Resolving(speciesId, answers, old(records), old(images), Finished, next, runs)
      {
        var image := ids[n];
        ghost var runs' := runs;
        outcome, next, runs' := Visit(speciesId, answers, old(records), old(images), image, next, runs);
        runs := runs';
        if !outcome.Finished? {
          return;
        }
        n := n + 1;
      }
    }
  }
}
