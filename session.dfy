/** The record-list logic of the web layer in `main.py`: the read view of
    `get_data` (the first MIR's temperature and the PTR results in buffer
    order) and the positional update of `update_data` (new temperature on
    the first MIR, the i-th test result on the i-th PTR record), then the
    whole decode, update, encode cycle over a stored buffer. */
module Session {
  import opened Wire
  import opened Text
  import opened Records
  import opened Decoder
  import opened Encoder
  import opened RoundTrip

  /** One entry of `UpdateData.test_results`; its name is carried but
      never consulted. The value is the float32 word it is written as. */
  datatype TestResultUpdate = TestResultUpdate(testName: string, testValue: Word, passFail: int)

  /** The body of a POST to `/update`. */
  datatype UpdateData = UpdateData(temperature: Word, testResults: seq<TestResultUpdate>)

  /** One entry of the `test_results` list `get_data` answers with. */
  datatype TestView = TestView(testName: string, testValue: Word, passFail: int)

  /** The answer of `get_data` when a MIR record exists. */
  datatype DataView = DataView(temperature: Word, testResults: seq<TestView>)

  // ---------------------------------------------------------------------
  // Selection

  /** `next(idx for idx, record in enumerate(records) if type == "MIR")`. */
  function FirstMir(rs: seq<Record>): (m: Option<nat>)
    ensures m.Some? ==> m.value < |rs| && rs[m.value].MIR? && forall j | 0 <= j < m.value :: !rs[j].MIR?
    ensures m.None? ==> forall j | 0 <= j < |rs| :: !rs[j].MIR?
  {
    if rs == [] then None
    else if rs[0].MIR? then Some(0)
    else
      match FirstMir(rs[1..])
      case None => None
      case Some(m) => Some(m + 1)
  }

  /** How many PTR records `rs` holds. */
  function PtrCount(rs: seq<Record>): (n: nat)
    ensures n <= |rs|
  {
    if rs == [] then 0
    else PtrCount(rs[..|rs| - 1]) + (if rs[|rs| - 1].PTR? then 1 else 0)
  }

  /** `ptr_indices`: the positions of the PTR records, in order. */
  function PtrIndices(rs: seq<Record>): (ix: seq<nat>)
    ensures |ix| == PtrCount(rs)
    ensures forall k | 0 <= k < |ix| :: ix[k] < |rs|
  {
    if rs == [] then []
    else PtrIndices(rs[..|rs| - 1]) + (if rs[|rs| - 1].PTR? then [|rs| - 1] else [])
  }

  /** Counting PTR records over a growing prefix: one more exactly when the
      next record is a PTR. */
  lemma PtrCountStep(rs: seq<Record>, i: nat)
    requires i < |rs|
    ensures PtrCount(rs[..i + 1]) == PtrCount(rs[..i]) + (if rs[i].PTR? then 1 else 0)
  {
    assert rs[..i + 1][..i] == rs[..i];
  }

  /** `ptr_indices` lists every PTR record exactly once, in buffer order:
      the k-th entry is a PTR with k PTR records before it, and every PTR
      record appears at the position given by its rank. */
  lemma {:induction false} PtrIndicesExact(rs: seq<Record>)
    ensures forall k | 0 <= k < |PtrIndices(rs)| ::
      rs[PtrIndices(rs)[k]].PTR? && PtrCount(rs[..PtrIndices(rs)[k]]) == k
    ensures forall i | 0 <= i < |rs| && rs[i].PTR? ::
      PtrCount(rs[..i]) < PtrCount(rs) && PtrIndices(rs)[PtrCount(rs[..i])] == i
  {
    if rs != [] {
      var n := |rs| - 1;
      var init := rs[..n];
      PtrIndicesExact(init);
      forall i | 0 <= i <= n
        ensures init[..i] == rs[..i]
      {
      }
      assert rs[..n] == init;
    }
  }

  /** The k-th entry of `ptr_indices` is a PTR record with k PTR records
      before it. */
  lemma PtrIndexAt(rs: seq<Record>, k: nat)
    requires k < PtrCount(rs)
    ensures rs[PtrIndices(rs)[k]].PTR? && PtrCount(rs[..PtrIndices(rs)[k]]) == k
  {
    PtrIndicesExact(rs);
  }

  /** A PTR record with k PTR records before it is the k-th entry of
      `ptr_indices`. */
  lemma PtrIndexOf(rs: seq<Record>, i: nat)
    requires i < |rs| && rs[i].PTR?
    ensures PtrCount(rs[..i]) < PtrCount(rs) && PtrIndices(rs)[PtrCount(rs[..i])] == i
  {
    PtrIndicesExact(rs);
  }

  /** The positions in `ptr_indices` increase strictly. */
  lemma PtrIndicesIncrease(rs: seq<Record>)
    ensures forall k, l | 0 <= k < l < |PtrIndices(rs)| :: PtrIndices(rs)[k] < PtrIndices(rs)[l]
  {
    var ix := PtrIndices(rs);
    PtrIndicesExact(rs);
    forall k, l | 0 <= k < l < |ix|
      ensures ix[k] < ix[l]
    {
      if ix[l] <= ix[k] {
        PtrCountMonotone(rs, ix[l], ix[k]);
      }
    }
  }

  lemma {:induction false} PtrCountMonotone(rs: seq<Record>, i: nat, j: nat)
    requires i <= j <= |rs|
    ensures PtrCount(rs[..i]) <= PtrCount(rs[..j])
    decreases j - i
  {
    if i < j {
      PtrCountStep(rs, i);
      PtrCountMonotone(rs, i + 1, j);
    }
  }

  /** Two lists with the same kinds in the same order select the same
      first MIR and the same PTR positions. */
  predicate SameKinds(a: seq<Record>, b: seq<Record>) {
    |a| == |b| && forall i | 0 <= i < |a| :: KindOf(a[i]) == KindOf(b[i])
  }

  lemma SameKindsSelectSame(a: seq<Record>, b: seq<Record>)
    requires SameKinds(a, b)
    ensures FirstMir(a) == FirstMir(b)
    ensures PtrCount(a) == PtrCount(b) && PtrIndices(a) == PtrIndices(b)
  {
    assert forall j | 0 <= j < |a| :: a[j].MIR? == b[j].MIR?;
    SameKindsSamePtrs(a, b);
  }

  lemma {:induction false} SameKindsSamePtrs(a: seq<Record>, b: seq<Record>)
    requires SameKinds(a, b)
    ensures PtrCount(a) == PtrCount(b) && PtrIndices(a) == PtrIndices(b)
  {
    if a != [] {
      var n := |a| - 1;
      assert SameKinds(a[..n], b[..n]);
      SameKindsSamePtrs(a[..n], b[..n]);
      assert a[n].PTR? == b[n].PTR?;
    }
  }

  // ---------------------------------------------------------------------
  // get_data

  function ViewOf(r: Record): TestView
    requires r.PTR?
  {
    TestView(r.testName, r.testValue, r.passFail)
  }

  /** The `test_results` comprehension of `get_data`. */
  function PtrViews(rs: seq<Record>): (vs: seq<TestView>)
    ensures |vs| == PtrCount(rs)
  {
    if rs == [] then []
    else
      var last := rs[|rs| - 1];
      PtrViews(rs[..|rs| - 1]) + (if last.PTR? then [ViewOf(last)] else [])
  }

  /** `get_data` on the decoded records: an error when no MIR exists. */
  function Project(rs: seq<Record>): (r: Result<DataView>)
    ensures r.Err? <==> forall j | 0 <= j < |rs| :: !rs[j].MIR?
    ensures r.Err? ==> r.error == MirNotFound
    ensures r.Ok? ==> |r.value.testResults| == PtrCount(rs)
  {
    match FirstMir(rs)
    case None => Err(MirNotFound)
    case Some(m) => Ok(DataView(rs[m].temperature, PtrViews(rs)))
  }

  /** The k-th view is the k-th PTR record's name, value and code. */
  lemma {:induction false} PtrViewsAt(rs: seq<Record>)
    ensures forall k | 0 <= k < PtrCount(rs) ::
      var i := PtrIndices(rs)[k]; rs[i].PTR? && PtrViews(rs)[k] == ViewOf(rs[i])
  {
    PtrIndicesExact(rs);
    if rs != [] {
      PtrViewsAt(rs[..|rs| - 1]);
    }
  }

  /** The read view answers with the temperature of the first MIR record
      and one entry per PTR record in buffer order; it fails exactly when
      there is no MIR record. */
  lemma ProjectSpec(rs: seq<Record>)
    ensures Project(rs).Err? <==> forall j | 0 <= j < |rs| :: !rs[j].MIR?
    ensures Project(rs).Err? ==> Project(rs).error == MirNotFound
    ensures Project(rs).Ok? ==>
      var m := FirstMir(rs).value;
      var view := Project(rs).value;
      && view.temperature == rs[m].temperature
      && |view.testResults| == PtrCount(rs)
      && forall k | 0 <= k < PtrCount(rs) ::
           rs[PtrIndices(rs)[k]].PTR? && view.testResults[k] == ViewOf(rs[PtrIndices(rs)[k]])
  {
    PtrViewsAt(rs);
  }

  // ---------------------------------------------------------------------
  // update_data

  /** `record.update({"test_value": …, "pass_fail": …})` on a PTR record. */
  function SetResult(r: Record, u: TestResultUpdate): (p: Record)
    requires r.PTR?
    ensures p.PTR? && p.header == r.header && p.testName == r.testName
    ensures p.lowLimit == r.lowLimit && p.highLimit == r.highLimit
    ensures p.testValue == u.testValue && p.passFail == u.passFail
  {
    r.(testValue := u.testValue, passFail := u.passFail)
  }

  /** The records once the MIR record at `m` has its temperature set and
      the first `done` PTR records have their results set, the k-th from
      the k-th entry of `results`. */
  function Patched(rs: seq<Record>, m: nat, t: Word, results: seq<TestResultUpdate>, done: nat): (ps: seq<Record>)
    requires m < |rs| && rs[m].MIR? && done <= |results|
    ensures |ps| == |rs|
  {
    seq(|rs|, i requires 0 <= i < |rs| =>
      if i == m then rs[i].(temperature := t)
      else if rs[i].PTR? && PtrCount(rs[..i]) < done then SetResult(rs[i], results[PtrCount(rs[..i])])
      else rs[i])
  }

  /** `update_data` on the decoded records, as a specification. */
  function Update(rs: seq<Record>, data: UpdateData): (r: Result<seq<Record>>)
    ensures r == Err(MirNotFound) <==> forall j | 0 <= j < |rs| :: !rs[j].MIR?
    ensures r.Err? ==> r.error == MirNotFound || r.error == TestResultIndex
    ensures r.Ok? ==> |r.value| == |rs|
  {
    match FirstMir(rs)
    case None => Err(MirNotFound)
    case Some(m) =>
      if |data.testResults| < PtrCount(rs) then Err(TestResultIndex)
      else Ok(Patched(rs, m, data.temperature, data.testResults, PtrCount(rs)))
  }

  /** Setting the results of one more PTR record changes exactly that
      record. */
  lemma PatchedStep(rs: seq<Record>, m: nat, t: Word, results: seq<TestResultUpdate>, k: nat)
    requires m < |rs| && rs[m].MIR? && k < |results| && k < PtrCount(rs)
    ensures var i := PtrIndices(rs)[k];
      && rs[i].PTR? && i != m
      && Patched(rs, m, t, results, k)[i] == rs[i]
      && Patched(rs, m, t, results, k + 1) ==
         Patched(rs, m, t, results, k)[i := SetResult(rs[i], results[k])]
  {
    var i := PtrIndices(rs)[k];
    PtrIndexAt(rs, k);
    var before, after := Patched(rs, m, t, results, k), Patched(rs, m, t, results, k + 1);
    var updated := before[i := SetResult(rs[i], results[k])];
    forall j | 0 <= j < |rs|
      ensures after[j] == updated[j]
    {
      if j != i {
        PatchedElsewhere(rs, m, t, results, k, j);
      }
    }
    assert after == updated;
  }

  lemma PatchedElsewhere(rs: seq<Record>, m: nat, t: Word, results: seq<TestResultUpdate>, k: nat, j: nat)
    requires m < |rs| && rs[m].MIR? && k < |results| && k < PtrCount(rs)
    requires j < |rs| && j != PtrIndices(rs)[k]
    ensures Patched(rs, m, t, results, k + 1)[j] == Patched(rs, m, t, results, k)[j]
  {
    if rs[j].PTR? {
      PtrIndexOf(rs, j);
    }
  }

  /** The update fails with "MIR record not found" exactly when there is
      no MIR record, and with an index error exactly when there is one but
      fewer test results than PTR records. */
  lemma UpdateErrors(rs: seq<Record>, data: UpdateData)
    ensures Update(rs, data) == Err(MirNotFound) <==> forall j | 0 <= j < |rs| :: !rs[j].MIR?
    ensures Update(rs, data) == Err(TestResultIndex) <==>
      (exists j | 0 <= j < |rs| :: rs[j].MIR?) && |data.testResults| < PtrCount(rs)
  {
    if FirstMir(rs).Some? {
      assert rs[FirstMir(rs).value].MIR?;
    }
  }

  /** What a successful update keeps: the number, order, kinds and
      headers of the records, the operator of the first MIR record (whose
      temperature is the new one), the later MIR records and the PRR
      records. */
  lemma UpdateShape(rs: seq<Record>, data: UpdateData)
    requires Update(rs, data).Ok?
    ensures var us := Update(rs, data).value;
      var m := FirstMir(rs).value;
      && SameKinds(rs, us)
      && (forall i | 0 <= i < |rs| :: us[i].header == rs[i].header)
      && us[m] == MIR(rs[m].header, data.temperature, rs[m].operator)
      && (forall i | 0 <= i < |rs| && i != m && rs[i].MIR? :: us[i] == rs[i])
      && (forall i | 0 <= i < |rs| && rs[i].PRR? :: us[i] == rs[i])
  {
    var m := FirstMir(rs).value;
    PatchedShape(rs, m, data.temperature, data.testResults, PtrCount(rs));
  }

  lemma PatchedShape(rs: seq<Record>, m: nat, t: Word, results: seq<TestResultUpdate>, done: nat)
    requires m < |rs| && rs[m].MIR? && done <= |results|
    ensures var ps := Patched(rs, m, t, results, done);
      && SameKinds(rs, ps)
      && (forall i | 0 <= i < |rs| :: ps[i].header == rs[i].header)
      && ps[m] == MIR(rs[m].header, t, rs[m].operator)
      && (forall i | 0 <= i < |rs| && i != m && rs[i].MIR? :: ps[i] == rs[i])
      && (forall i | 0 <= i < |rs| && rs[i].PRR? :: ps[i] == rs[i])
  {
  }

  /** What a successful update sets: the k-th PTR record takes the value
      and code of the k-th test result and keeps its header, name and
      limits. */
  lemma UpdateSetsResults(rs: seq<Record>, data: UpdateData)
    requires Update(rs, data).Ok?
    ensures var us := Update(rs, data).value;
      forall k | 0 <= k < PtrCount(rs) ::
        var i := PtrIndices(rs)[k];
        rs[i].PTR? && us[i] == PTR(rs[i].header, rs[i].testName, data.testResults[k].testValue,
                                   rs[i].lowLimit, rs[i].highLimit, data.testResults[k].passFail)
  {
    var us := Update(rs, data).value;
    forall k | 0 <= k < PtrCount(rs)
      ensures var i := PtrIndices(rs)[k];
        rs[i].PTR? && us[i] == PTR(rs[i].header, rs[i].testName, data.testResults[k].testValue,
                                   rs[i].lowLimit, rs[i].highLimit, data.testResults[k].passFail)
    {
      PtrIndexAt(rs, k);
    }
  }

  /** Only the values and codes of the first `PtrCount` test results
      matter: surplus entries and every test name are ignored. */
  lemma UpdateIgnoresNamesAndSurplus(rs: seq<Record>, data: UpdateData, other: UpdateData)
    requires other.temperature == data.temperature
    requires |data.testResults| >= PtrCount(rs) && |other.testResults| >= PtrCount(rs)
    requires forall k | 0 <= k < PtrCount(rs) ::
      && other.testResults[k].testValue == data.testResults[k].testValue
      && other.testResults[k].passFail == data.testResults[k].passFail
    ensures Update(rs, other) == Update(rs, data)
  {
    if FirstMir(rs).Some? {
      var m := FirstMir(rs).value;
      var a := Patched(rs, m, data.temperature, data.testResults, PtrCount(rs));
      var b := Patched(rs, m, other.temperature, other.testResults, PtrCount(rs));
      forall i | 0 <= i < |rs|
        ensures a[i] == b[i]
      {
        if rs[i].PTR? && i != m {
          PtrCountMonotone(rs, i, |rs|);
          assert rs[..|rs|] == rs;
        }
      }
      assert a == b;
    }
  }

  /** Reading after updating: the view shows the new temperature and, for
      the k-th PTR record, its own name with the k-th new value and code. */
  lemma ReadAfterUpdate(rs: seq<Record>, data: UpdateData)
    requires Update(rs, data).Ok?
    ensures Project(Update(rs, data).value).Ok?
    ensures var view := Project(Update(rs, data).value).value;
      && view.temperature == data.temperature
      && |view.testResults| == PtrCount(rs)
      && forall k | 0 <= k < PtrCount(rs) ::
           rs[PtrIndices(rs)[k]].PTR? &&
           view.testResults[k] == TestView(rs[PtrIndices(rs)[k]].testName,
                                           data.testResults[k].testValue, data.testResults[k].passFail)
  {
    var us := Update(rs, data).value;
    UpdateShape(rs, data);
    UpdateSetsResults(rs, data);
    SameKindsSelectSame(rs, us);
    ProjectSpec(us);
  }

  /** The in-place update of `update_data` on the decoded list: find the
      first MIR record, set its temperature, then give the k-th PTR record
      the k-th test result. Fewer test results than PTR records raise an
      index error after the earlier PTR records have been patched. */
  method UpdateRecords(records: array<Record>, data: UpdateData) returns (outcome: Result<()>)
    modifies records
    ensures Update(old(records[..]), data).Ok? ==>
      outcome == Ok(()) && records[..] == Update(old(records[..]), data).value
    ensures Update(old(records[..]), data).Err? ==> outcome == Err(Update(old(records[..]), data).error)
    ensures outcome == Err(MirNotFound) ==> records[..] == old(records[..])
    ensures outcome == Err(TestResultIndex) ==>
      records[..] == Patched(old(records[..]), FirstMir(old(records[..])).value,
                             data.temperature, data.testResults, |data.testResults|)
  {
    ghost var rs := records[..];
    var mirIndex := 0;
    while mirIndex < records.Length && !records[mirIndex].MIR?
      invariant 0 <= mirIndex <= records.Length
      invariant forall j | 0 <= j < mirIndex :: !rs[j].MIR?
    {
      mirIndex := mirIndex + 1;
    }
    if mirIndex == records.Length {
      return Err(MirNotFound);
    }
    assert FirstMir(rs) == Some(mirIndex);
    var t := data.temperature;
    var results := data.testResults;
    records[mirIndex] := records[mirIndex].(temperature := t);
    assert records[..] == Patched(rs, mirIndex, t, results, 0);
    SameKindsSelectSame(rs, records[..]);
    var ptrIndices := PtrIndices(records[..]);
    for k := 0 to |ptrIndices|
      invariant k <= |results|
      invariant records[..] == Patched(rs, mirIndex, t, results, k)
    {
      if k >= |results| {
        return Err(TestResultIndex);
      }
      var i := ptrIndices[k];
      PatchedStep(rs, mirIndex, t, results, k);
      records[i] := SetResult(records[i], results[k]);
    }
    outcome := Ok(());
  }

  // ---------------------------------------------------------------------
  // The stored buffer

  /** `update_data` on a stored buffer: decode, update, re-encode. */
  function UpdateBytes(content: seq<byte>, data: UpdateData, round: Rounding): (r: Result<seq<byte>>)
    ensures Decode(content, round).Err? ==> r == Err(Decode(content, round).error)
    ensures r.Ok? ==> Decode(content, round).Ok? && Update(Decode(content, round).value, data).Ok?
  {
    match Decode(content, round)
    case Err(e) => Err(e)
    case Ok(rs) =>
      match Update(rs, data)
      case Err(e) => Err(e)
      case Ok(us) => Encode(us)
  }

  /** Lines 96–118 of `update_data`, proved to compute `UpdateBytes`. */
  method UpdateBuffer(content: seq<byte>, data: UpdateData, round: Rounding) returns (r: Result<seq<byte>>)
    ensures r == UpdateBytes(content, data, round)
  {
    var decoded := DecodeBinary(content, round);
    if decoded.Err? {
      return Err(decoded.error);
    }
    var rs := decoded.value;
    var records := new Record[|rs|](i requires 0 <= i < |rs| => rs[i]);
    assert records[..] == rs;
    var outcome := UpdateRecords(records, data);
    if outcome.Err? {
      return Err(outcome.error);
    }
    r := EncodeBinary(records[..]);
  }

  /** Without a MIR record the update is refused and no new buffer is
      produced, so the stored one stays as it was. */
  lemma UpdateBytesNoMir(content: seq<byte>, data: UpdateData, round: Rounding)
    requires Decode(content, round).Ok?
    requires forall j | 0 <= j < |Decode(content, round).value| :: !Decode(content, round).value[j].MIR?
    ensures UpdateBytes(content, data, round) == Err(MirNotFound)
  {
    UpdateErrors(Decode(content, round).value, data);
  }

  /** An updated record is well formed when the decoded one had no
      trailing NUL in its string, the new numbers are fixed points of the
      rounding, and the record could be encoded. */
  lemma UpdatedWellFormed(r: Record, u: Record, round: Rounding)
    requires Idempotent(round) && DecodedShape(r, round) && NoTrailingNul(r)
    requires KindOf(u) == KindOf(r) && u.header == r.header && EncodeRecord(u).Ok?
    requires u.MIR? ==> u.operator == r.operator && round(u.temperature) == u.temperature
    requires u.PRR? ==> u == r
    requires u.PTR? ==>
      && u.testName == r.testName && u.lowLimit == r.lowLimit && u.highLimit == r.highLimit
      && round(u.testValue) == u.testValue
    ensures WellFormed(u, round)
  {
  }

  /** End to end: after a successful update the new buffer decodes to
      exactly the updated records, so `get_data` then shows the new
      temperature and results. This needs the decoded strings to carry no
      trailing NUL and the new numbers that are used (the temperature and
      one value per PTR record) to be fixed points of the rounding. */
  lemma UpdateThenDecode(content: seq<byte>, data: UpdateData, round: Rounding)
    requires Idempotent(round) && UpdateBytes(content, data, round).Ok?
    requires forall j | 0 <= j < |Decode(content, round).value| :: NoTrailingNul(Decode(content, round).value[j])
    requires round(data.temperature) == data.temperature
    requires forall k | 0 <= k < |data.testResults| && k < PtrCount(Decode(content, round).value) ::
      round(data.testResults[k].testValue) == data.testResults[k].testValue
    ensures Decode(UpdateBytes(content, data, round).value, round) == Update(Decode(content, round).value, data)
  {
    var rs := Decode(content, round).value;
    var us := Update(rs, data).value;
    DecodedRecordsShape(content, round);
    UpdateShape(rs, data);
    EncodeOk(us);
    PtrIndicesExact(rs);
    forall i | 0 <= i < |us|
      ensures WellFormed(us[i], round)
    {
      assert EncodeRecord(us[i]).Ok?;
      if us[i].PTR? {
        var k := PtrCount(rs[..i]);
        assert PtrIndices(rs)[k] == i;
      }
      UpdatedWellFormed(rs[i], us[i], round);
    }
    ListRoundTrip(us, round);
  }

  /** An update cannot be stored for a buffer whose MIR operator slot holds
      a byte outside ASCII: the decoder accepts it, but the operator it
      yields cannot be re-encoded, whatever the update data. */
  lemma UpdateFailsOnTolerantOperator(data: UpdateData, round: Rounding)
    ensures
      var buf := MIR_TAG + [0] + [0, 0, 0, 0] + ([0x80] + Zeros(19));
      && Decode(buf, round).Ok?
      && UpdateBytes(buf, data, round) == Err(NonAsciiText)
  {
    var h: Header := MIR_TAG + [0];
    var buf := h + [0, 0, 0, 0] + ([0x80] + Zeros(19));
    TolerantOperatorIsNotEncodable(round);
    var rs := Decode(buf, round).value;
    assert PtrCount(rs) == 0 by {
      assert rs[..0] == [];
    }
    var us := Update(rs, data).value;
    assert us == [rs[0].(temperature := data.temperature)];
    assert EncodeRecord(us[0]) == Err(NonAsciiText);
  }
}
