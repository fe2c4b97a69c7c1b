/** Stream aggregation (`RawDataFile`): calls are grouped by resource and
    defining triple, each new record is given a per-step call counter, every
    group is trimmed to the retention bound, rows are dispatched in order to
    the definition table or to the call groups, and each group is named. */
module Aggregator {
  import opened Wrappers
  import opened Text
  import opened Dicts
  import opened Values
  import opened Definitions
  import opened DefTable
  import opened Calls

  const HwArgs := "hw_args"

  /** `(resource_name, defining_triple)`: the key calls are grouped by. */
  type StreamKey = (string, DefStrings)

  /** `_calls_dict`: each key's records, oldest first. */
  type CallsDict = Dict<StreamKey, seq<Record>>

  function KeyOf(c: HwCall): StreamKey
  {
    (c.resourceName, c.definition.defStrings)
  }

  /** A decoded call's group is fixed by its name field alone: the resource
      before the first `__` and the triple written after it. */
  lemma KeyOfCallRow(row: Row, d: HwCallDef)
    requires |row| > DurationIndex && IsDecimal(row[TimeIndex]) && IsDecimal(row[DurationIndex])
    requires d.logT0.Some? && Contains(row[NameIndex], "__") && Defines(d, row)
    ensures KeyOf(DecodeCall(row, d)) == (ResourceNameOf(row[NameIndex]), CallTriple(row))
  {
  }

  /** Python's `s[-n:]` for `n >= 0`: the last `n` elements, and the whole
      list when `n` is 0 (since `-0` is `0`). */
  function LastN<T>(s: seq<T>, n: nat): (r: seq<T>)
    ensures n == 0 || n >= |s| ==> r == s
    ensures 0 < n <= |s| ==> |r| == n
    ensures r == s[|s| - |r|..]
  {
    if n == 0 || n >= |s| then s else s[|s| - n..]
  }

  /** The trim loop of `add_call`: every list cut to its last `n` records. */
  function TrimAll(cd: CallsDict, n: nat): (r: CallsDict)
    ensures |r| == |cd|
    ensures forall j :: 0 <= j < |cd| ==> r[j] == (cd[j].0, LastN(cd[j].1, n))
  {
    if cd == [] then [] else [(cd[0].0, LastN(cd[0].1, n))] + TrimAll(cd[1..], n)
  }

  /** The trim, when a bound is set. */
  function Trimmed(cd: CallsDict, bound: Option<nat>): (r: CallsDict)
    ensures |r| == |cd|
    ensures forall j :: 0 <= j < |cd| ==> r[j] == (cd[j].0, TrimmedList(cd[j].1, bound))
  {
    if bound.Some? then TrimAll(cd, bound.value) else cd
  }

  /** What the trim does to one list. */
  function TrimmedList(calls: seq<Record>, bound: Option<nat>): (r: seq<Record>)
    ensures |r| <= |calls| && r == calls[|calls| - |r|..]
    ensures calls != [] ==> r != []
    ensures bound.None? ==> r == calls
    ensures bound.Some? && bound.value >= 1 ==> |r| <= bound.value
  {
    if bound.Some? then LastN(calls, bound.value) else calls
  }

  /** Looking a key up after the trim finds the trimmed list. */
  lemma TrimmedGet(cd: CallsDict, bound: Option<nat>, k: StreamKey)
    ensures Get(Trimmed(cd, bound), k) ==
      if Get(cd, k).Some? then Some(TrimmedList(Get(cd, k).value, bound)) else None
  {
    if bound.Some? {
      TrimAllGet(cd, bound.value, k);
    }
  }

  lemma {:induction false} TrimAllGet(cd: CallsDict, n: nat, k: StreamKey)
    ensures Get(TrimAll(cd, n), k) == if Get(cd, k).Some? then Some(LastN(Get(cd, k).value, n)) else None
  {
    if cd != [] {
      assert TrimAll(cd, n)[1..] == TrimAll(cd[1..], n);
      TrimAllGet(cd[1..], n, k);
    }
  }

  /** The trim keeps the keys, in order. */
  lemma TrimmedKeys(cd: CallsDict, bound: Option<nat>)
    ensures Keys(Trimmed(cd, bound)) == Keys(cd)
  {
    var r := Trimmed(cd, bound);
    assert |Keys(r)| == |Keys(cd)|;
    forall j | 0 <= j < |cd| ensures Keys(r)[j] == Keys(cd)[j] {
    }
  }

  predicate HasStep(r: Record)
  {
    StepColumn in Keys(r)
  }

  /** The record's `test_step`. */
  function Step(r: Record): Value
    requires HasStep(r)
  {
    Get(r, StepColumn).value
  }

  predicate HasCounter(r: Record)
  {
    var g := Get(r, CounterColumn);
    g.Some? && g.value.Int? && g.value.i >= 0
  }

  /** The record's `step_call_counter`. */
  function Counter(r: Record): nat
    requires HasCounter(r)
  {
    Get(r, CounterColumn).value.i
  }

  /** A stored record: it has a step and a non-negative counter. */
  predicate WellCounted(r: Record)
  {
    HasStep(r) && HasCounter(r)
  }

  /** The counter of a record stored after `last`: 0 when the steps differ
      (Python's `!=`, under which `None` differs from any text), otherwise one
      more than `last`'s. */
  function NextCounter(last: Record, newDict: Record): (n: nat)
    requires WellCounted(last) && HasStep(newDict)
    ensures n == 0 <==> !PyEq(Step(last), Step(newDict))
  {
    if !PyEq(Step(last), Step(newDict)) then 0 else Counter(last) + 1
  }

  /** `new_dict.update({'step_call_counter': n})`. */
  function Stamp(r: Record, n: nat): (s: Record)
    requires HasStep(r)
    ensures WellCounted(s) && Counter(s) == n && Step(s) == Step(r)
  {
    Update(r, CounterColumn, Int(n))
  }

  /** The counter of record `i` follows from record `i - 1`. */
  predicate CountedAt(calls: seq<Record>, i: nat)
  {
    && 1 <= i < |calls|
    && WellCounted(calls[i - 1]) && WellCounted(calls[i])
    && Counter(calls[i]) == NextCounter(calls[i - 1], calls[i])
  }

  /** One key's list: non-empty, every record counted, and each counter
      follows from the record before it. */
  predicate StreamOk(calls: seq<Record>)
  {
    && calls != []
    && (forall i :: 0 <= i < |calls| ==> WellCounted(calls[i]))
    && (forall i :: 1 <= i < |calls| ==> CountedAt(calls, i))
  }

  /** The invariant of `_calls_dict`. */
  predicate Aggregated(cd: CallsDict)
  {
    DistinctKeys(cd) && forall p :: p in cd ==> StreamOk(p.1)
  }

  /** What may be stored under a key: nothing, or a consistent list. */
  predicate StoredOk(stored: Option<seq<Record>>)
  {
    stored.Some? ==> StreamOk(stored.value)
  }

  /** The list stored under the call's key before the trim, from what was
      stored there: Python's `if calls:` takes both `None` and an empty
      list to the second branch. */
  function Extended(stored: Option<seq<Record>>, newDict: Record): (calls: seq<Record>)
    requires StoredOk(stored) && HasStep(newDict)
    ensures StreamOk(calls)
    ensures stored.Some? ==> |calls| == |stored.value| + 1 && calls[..|stored.value|] == stored.value
    ensures Step(calls[|calls| - 1]) == Step(newDict)
  {
    if stored.Some? && stored.value != [] then
      var prev := stored.value;
      var last := prev[|prev| - 1];
      AppendOk(prev, Stamp(newDict, NextCounter(last, newDict)));
      assert (prev + [Stamp(newDict, NextCounter(last, newDict))])[..|prev|] == prev;
      prev + [Stamp(newDict, NextCounter(last, newDict))]
    else
      [Stamp(newDict, 0)]
  }

  /** Every key of a consistent dict holds a consistent list. */
  lemma GetStoredOk(cd: CallsDict, key: StreamKey)
    requires Aggregated(cd)
    ensures StoredOk(Get(cd, key))
  {
    var stored := Get(cd, key);
    if stored.Some? {
      assert (key, stored.value) in cd;
    }
  }

  lemma AppendOk(calls: seq<Record>, r: Record)
    requires StreamOk(calls) && WellCounted(r)
    requires Counter(r) == NextCounter(calls[|calls| - 1], r)
    ensures StreamOk(calls + [r])
  {
    var s := calls + [r];
    forall i | 1 <= i < |s| ensures CountedAt(s, i) {
      if i < |calls| {
        assert CountedAt(calls, i);
        assert s[i] == calls[i] && s[i - 1] == calls[i - 1];
      } else {
        assert s[i - 1] == calls[|calls| - 1];
      }
    }
  }

  /** A non-empty suffix of a consistent list is consistent. */
  lemma SuffixOk(calls: seq<Record>, k: nat)
    requires StreamOk(calls) && k < |calls|
    ensures StreamOk(calls[k..])
  {
    var s := calls[k..];
    forall i | 1 <= i < |s| ensures CountedAt(s, i) {
      assert CountedAt(calls, k + i);
      assert s[i] == calls[k + i] && s[i - 1] == calls[k + i - 1];
    }
  }

  /** `RawDataFile.add_call`: the call's record joins its key's list (a new
      key is appended), then every list is trimmed when a bound is set. */
  function AddedCall(cd: CallsDict, key: StreamKey, newDict: Record, bound: Option<nat>): (r: CallsDict)
    requires Aggregated(cd) && HasStep(newDict)
    ensures Aggregated(r)
  {
    GetStoredOk(cd, key);
    var added := Update(cd, key, Extended(Get(cd, key), newDict));
    UpdateKeepsDistinct(cd, key, Extended(Get(cd, key), newDict));
    UpdateEntries(cd, key, Extended(Get(cd, key), newDict));
    TrimmedOk(added, bound);
    Trimmed(added, bound)
  }

  /** `add_call` is the append followed by the trim. */
  lemma AddedCallSteps(cd: CallsDict, key: StreamKey, newDict: Record, bound: Option<nat>)
    requires Aggregated(cd) && HasStep(newDict)
    ensures DistinctKeys(Update(cd, key, Extended(Get(cd, key), newDict)))
    ensures AddedCall(cd, key, newDict, bound) == Trimmed(Update(cd, key, Extended(Get(cd, key), newDict)), bound)
  {
    UpdateKeepsDistinct(cd, key, Extended(Get(cd, key), newDict));
  }

  lemma TrimmedOk(cd: CallsDict, bound: Option<nat>)
    requires Aggregated(cd)
    ensures Aggregated(Trimmed(cd, bound))
  {
    TrimmedDistinct(cd, bound);
    if bound.Some? {
      TrimAllOk(cd, bound.value);
    }
  }

  lemma TrimmedDistinct(cd: CallsDict, bound: Option<nat>)
    requires DistinctKeys(cd)
    ensures DistinctKeys(Trimmed(cd, bound))
  {
    var r := Trimmed(cd, bound);
    TrimmedKeys(cd, bound);
    forall i, j | 0 <= i < j < |r| ensures r[i].0 != r[j].0 {
      assert r[i].0 == Keys(r)[i] == Keys(cd)[i] == cd[i].0;
      assert r[j].0 == Keys(r)[j] == Keys(cd)[j] == cd[j].0;
    }
  }

  lemma TrimAllOk(cd: CallsDict, n: nat)
    requires forall p :: p in cd ==> StreamOk(p.1)
    ensures forall p :: p in TrimAll(cd, n) ==> StreamOk(p.1)
  {
    var r := TrimAll(cd, n);
    forall p | p in r ensures StreamOk(p.1) {
      var j :| 0 <= j < |r| && r[j] == p;
      assert cd[j] in cd;
      LastNOk(cd[j].1, n);
    }
  }

  lemma LastNOk(calls: seq<Record>, n: nat)
    requires StreamOk(calls)
    ensures StreamOk(LastN(calls, n))
  {
    var r := LastN(calls, n);
    var k := if 0 < n < |calls| then |calls| - n else 0;
    assert r == calls[k..];
    SuffixOk(calls, k);
  }

  /** The keys after `add_call`: unchanged, or the new key appended last. */
  lemma AddedCallKeys(cd: CallsDict, key: StreamKey, newDict: Record, bound: Option<nat>)
    requires Aggregated(cd) && HasStep(newDict)
    ensures key in Keys(cd) ==> Keys(AddedCall(cd, key, newDict, bound)) == Keys(cd)
    ensures key !in Keys(cd) ==> Keys(AddedCall(cd, key, newDict, bound)) == Keys(cd) + [key]
  {
    TrimmedKeys(Update(cd, key, Extended(Get(cd, key), newDict)), bound);
  }

  /** The first call for a key starts a one-record list with counter 0. */
  lemma AddedCallNewKey(cd: CallsDict, key: StreamKey, newDict: Record, bound: Option<nat>)
    requires Aggregated(cd) && HasStep(newDict) && key !in Keys(cd)
    ensures Get(AddedCall(cd, key, newDict, bound), key) == Some([Stamp(newDict, 0)])
  {
    TrimmedGet(Update(cd, key, Extended(Get(cd, key), newDict)), bound, key);
  }

  /** A later call for a key is appended after that key's records, with the
      counter rule applied to the previous record; then the list is trimmed. */
  lemma AddedCallExistingKey(cd: CallsDict, key: StreamKey, newDict: Record, bound: Option<nat>)
    requires Aggregated(cd) && HasStep(newDict) && Get(cd, key).Some?
    ensures var prev := Get(cd, key).value;
      && StreamOk(prev)
      && Get(AddedCall(cd, key, newDict, bound), key) ==
         Some(TrimmedList(prev + [Stamp(newDict, NextCounter(prev[|prev| - 1], newDict))], bound))
  {
    TrimmedGet(Update(cd, key, Extended(Get(cd, key), newDict)), bound, key);
  }

  /** Apart from the trim, no other key's list changes. */
  lemma AddedCallOthers(cd: CallsDict, key: StreamKey, newDict: Record, bound: Option<nat>, k: StreamKey)
    requires Aggregated(cd) && HasStep(newDict) && k != key
    ensures Get(AddedCall(cd, key, newDict, bound), k) ==
      if Get(cd, k).Some? then Some(TrimmedList(Get(cd, k).value, bound)) else None
  {
    AddedCallSteps(cd, key, newDict, bound);
    TrimmedGet(Update(cd, key, Extended(Get(cd, key), newDict)), bound, k);
  }

  /** The new record is the last of its key's list. */
  lemma AddedCallNewestLast(cd: CallsDict, key: StreamKey, newDict: Record, bound: Option<nat>)
    requires Aggregated(cd) && HasStep(newDict)
    ensures var calls := Get(AddedCall(cd, key, newDict, bound), key);
      && calls.Some? && calls.value != []
      && calls.value[|calls.value| - 1] == Extended(Get(cd, key), newDict)[|Extended(Get(cd, key), newDict)| - 1]
  {
    var ext := Extended(Get(cd, key), newDict);
    AddedCallSteps(cd, key, newDict, bound);
    TrimmedGet(Update(cd, key, ext), bound, key);
    TrimmedListLast(ext, bound);
  }

  /** The trim keeps the newest record of a non-empty list. */
  lemma TrimmedListLast(calls: seq<Record>, bound: Option<nat>)
    requires calls != []
    ensures var t := TrimmedList(calls, bound);
      t != [] && t[|t| - 1] == calls[|calls| - 1]
  {
    var t := TrimmedList(calls, bound);
    assert t == calls[|calls| - |t|..];
  }

  /** With a bound of at least one, every list holds at most that many records. */
  lemma AddedCallBounded(cd: CallsDict, key: StreamKey, newDict: Record, n: nat)
    requires Aggregated(cd) && HasStep(newDict) && n >= 1
    ensures forall p :: p in AddedCall(cd, key, newDict, Some(n)) ==> 1 <= |p.1| <= n
  {
    AddedCallSteps(cd, key, newDict, Some(n));
    TrimAllBounded(Update(cd, key, Extended(Get(cd, key), newDict)), n);
    var r := AddedCall(cd, key, newDict, Some(n));
    forall p | p in r ensures 1 <= |p.1| {
      assert StreamOk(p.1);
    }
  }

  /** With `n >= 1`, a trimmed list holds at most `n` records. */
  lemma TrimAllBounded(cd: CallsDict, n: nat)
    requires n >= 1
    ensures forall p :: p in TrimAll(cd, n) ==> |p.1| <= n
  {
    var r := TrimAll(cd, n);
    forall p | p in r ensures |p.1| <= n {
      var j :| 0 <= j < |r| && r[j] == p;
      assert p.1 == LastN(cd[j].1, n);
    }
  }

  /** The counter of the record `Extended` appends: 0 when nothing was
      stored or the step changed, otherwise one more than the last one's. */
  lemma ExtendedCounter(stored: Option<seq<Record>>, newDict: Record)
    requires StoredOk(stored) && HasStep(newDict)
    ensures var ext := Extended(stored, newDict);
      Counter(ext[|ext| - 1]) ==
        if stored.None? then 0
        else var last := stored.value[|stored.value| - 1];
          if PyEq(Step(last), Step(newDict)) then Counter(last) + 1 else 0
  {
  }

  /** The newest record of the call's key after `add_call` carries the
      call's step, and its counter is 0 for a new key or a changed step,
      otherwise one more than the previous record's. */
  lemma AddedCallCounter(cd: CallsDict, key: StreamKey, newDict: Record, bound: Option<nat>)
    requires Aggregated(cd) && HasStep(newDict)
    ensures var calls := Get(AddedCall(cd, key, newDict, bound), key);
      var prev := Get(cd, key);
      && calls.Some? && calls.value != []
      && var newest := calls.value[|calls.value| - 1];
      && WellCounted(newest) && Step(newest) == Step(newDict)
      && Counter(newest) ==
        if prev.None? then 0
        else var last := prev.value[|prev.value| - 1];
          if PyEq(Step(last), Step(newDict)) then Counter(last) + 1 else 0
  {
    GetStoredOk(cd, key);
    AddedCallNewestLast(cd, key, newDict, bound);
    ExtendedCounter(Get(cd, key), newDict);
  }

  /** What a decoded log has built so far: the table and the call groups. */
  datatype Session = Session(table: Table, calls: CallsDict)

  predicate Consistent(s: Session)
  {
    Anchored(s.table) && Aggregated(s.calls)
  }

  /** One row of `load_raw_data_file`. `None` is the exception the row
      raises: a short row, a time `float` rejects, a call name with no `__`,
      or a call no definition matches. */
  function StepRow(s: Session, row: Row, bound: Option<nat>): (r: Option<Session>)
    requires Consistent(s)
    ensures r.Some? ==> Consistent(r.value) && |row| > OriginIndex
    ensures r.Some? && row[OriginIndex] == HwArgs ==> r.value.calls == s.calls
    ensures r.Some? && row[OriginIndex] != HwArgs ==> r.value.table == s.table
  {
    if |row| <= OriginIndex then None
    else if row[OriginIndex] == HwArgs then
      if |row| > IoIndex && IsDecimal(row[TimeIndex]) then
        Some(Session(WithDef(s.table, DecodeDefinition(row)), s.calls))
      else None
    else if !Contains(row[NameIndex], "__") then None
    else
      match GetDefinition(s.table, row)
      case None => None
      case Some(d) =>
        if |row| > DurationIndex && IsDecimal(row[TimeIndex]) && IsDecimal(row[DurationIndex]) then
          var call := DecodeCall(row, d);
          Some(Session(s.table, AddedCall(s.calls, KeyOf(call), Flatten(call), bound)))
        else None
  }

  /** A readable definition row changes only the table, through `add_def`
      as written. */
  lemma StepDefinitionRow(s: Session, row: Row, bound: Option<nat>)
    requires Consistent(s) && |row| > IoIndex && row[OriginIndex] == HwArgs && IsDecimal(row[TimeIndex])
    ensures StepRow(s, row, bound) == Some(Session(WithDef(s.table, DecodeDefinition(row)), s.calls))
  {
  }

  /** A readable definition row that declares the triple of the table's
      first entry. */
  predicate RedefinesFirst(t: Table, row: Row)
  {
    && |row| > IoIndex && row[OriginIndex] == HwArgs && IsDecimal(row[TimeIndex])
    && t.lut != [] && t.lut[0].defStrings == DecodeDefinition(row).defStrings
  }

  /** A row keeps the table's first entry, and keeps one entry per triple
      unless it redeclares the first entry's triple. */
  lemma StepRowKeepsUniqueUnlessFirst(s: Session, row: Row, bound: Option<nat>)
    requires Consistent(s) && UniqueTriples(s.table.lut) && StepRow(s, row, bound).Some?
    requires !RedefinesFirst(s.table, row)
    ensures UniqueTriples(StepRow(s, row, bound).value.table.lut)
    ensures s.table.lut != [] ==>
      StepRow(s, row, bound).value.table.lut != [] && StepRow(s, row, bound).value.table.lut[0] == s.table.lut[0]
  {
    if row[OriginIndex] == HwArgs {
      WithDefKeepsUniqueUnlessFirst(s.table, DecodeDefinition(row));
    }
  }

  /** The defect of `add_def` seen from the loop: after a definition row that
      redeclares the first entry's triple the table has grown by a duplicate,
      and a call with that triple still resolves to the old entry. */
  lemma StepRowRedefiningFirst(s: Session, defRow: Row, callRow: Row, bound: Option<nat>)
    requires Consistent(s) && RedefinesFirst(s.table, defRow)
    requires |callRow| > NameIndex && Contains(callRow[NameIndex], "__") && Defines(s.table.lut[0], callRow)
    ensures StepRow(s, defRow, bound).Some?
    ensures |StepRow(s, defRow, bound).value.table.lut| == |s.table.lut| + 1
    ensures GetDefinition(StepRow(s, defRow, bound).value.table, callRow) == Some(s.table.lut[0])
  {
    WithDefDuplicatesFirst(s.table, DecodeDefinition(defRow));
  }

  /** A call row fails exactly when its definition cannot be found or its
      fields cannot be read; otherwise only the call groups change. */
  lemma StepCallRow(s: Session, row: Row, bound: Option<nat>)
    requires Consistent(s) && |row| > OriginIndex && row[OriginIndex] != HwArgs
    ensures StepRow(s, row, bound).None? <==>
      || !Contains(row[NameIndex], "__")
      || GetDefinition(s.table, row).None?
      || !(|row| > DurationIndex && IsDecimal(row[TimeIndex]) && IsDecimal(row[DurationIndex]))
    ensures StepRow(s, row, bound).Some? ==>
      StepRow(s, row, bound).value ==
        var call := DecodeCall(row, GetDefinition(s.table, row).value);
        Session(s.table, AddedCall(s.calls, KeyOf(call), Flatten(call), bound))
  {
  }

  /** `load_raw_data_file` over the rows: each row in order, stopping at the
      first that raises. */
  function Run(s: Session, rows: seq<Row>, bound: Option<nat>): (r: Option<Session>)
    requires Consistent(s)
    ensures r.Some? ==> Consistent(r.value)
    decreases |rows|
  {
    if rows == [] then Some(s)
    else
      match StepRow(s, rows[0], bound)
      case None => None
      case Some(next) => Run(next, rows[1..], bound)
  }

  /** Over a whole load from a non-empty table, the first entry stays, and
      the table keeps one entry per triple as long as no definition row
      redeclares the first entry's triple. */
  lemma {:induction false} RunKeepsUniqueUnlessFirst(s: Session, rows: seq<Row>, bound: Option<nat>)
    requires Consistent(s) && UniqueTriples(s.table.lut) && s.table.lut != [] && Run(s, rows, bound).Some?
    requires forall i :: 0 <= i < |rows| ==> !RedefinesFirst(s.table, rows[i])
    ensures UniqueTriples(Run(s, rows, bound).value.table.lut)
    ensures Run(s, rows, bound).value.table.lut != [] && Run(s, rows, bound).value.table.lut[0] == s.table.lut[0]
    decreases |rows|
  {
    if rows != [] {
      var next := StepRow(s, rows[0], bound).value;
      StepRowKeepsUniqueUnlessFirst(s, rows[0], bound);
      forall i | 0 <= i < |rows[1..]| ensures !RedefinesFirst(next.table, rows[1..][i]) {
        assert !RedefinesFirst(s.table, rows[i + 1]);
      }
      RunKeepsUniqueUnlessFirst(next, rows[1..], bound);
    }
  }

  /** The row step with the corrected `add_def`, which replaces the entry
      with the triple wherever it is. */
  function StepRowCorrected(s: Session, row: Row, bound: Option<nat>): (r: Option<Session>)
    requires Consistent(s)
    ensures r.Some? ==> Consistent(r.value)
    ensures r.Some? <==> StepRow(s, row, bound).Some?
    ensures |row| > OriginIndex && row[OriginIndex] != HwArgs ==> r == StepRow(s, row, bound)
  {
    if |row| > IoIndex && row[OriginIndex] == HwArgs && IsDecimal(row[TimeIndex]) then
      Some(Session(WithDefCorrected(s.table, DecodeDefinition(row)), s.calls))
    else StepRow(s, row, bound)
  }

  /** The load with the corrected `add_def`. */
  function RunCorrected(s: Session, rows: seq<Row>, bound: Option<nat>): (r: Option<Session>)
    requires Consistent(s)
    ensures r.Some? ==> Consistent(r.value)
    decreases |rows|
  {
    if rows == [] then Some(s)
    else
      match StepRowCorrected(s, rows[0], bound)
      case None => None
      case Some(next) => RunCorrected(next, rows[1..], bound)
  }

  /** With the corrected `add_def`, every row keeps one table entry per triple. */
  lemma StepRowCorrectedKeepsUnique(s: Session, row: Row, bound: Option<nat>)
    requires Consistent(s) && UniqueTriples(s.table.lut) && StepRowCorrected(s, row, bound).Some?
    ensures UniqueTriples(StepRowCorrected(s, row, bound).value.table.lut)
  {
    if |row| > IoIndex && row[OriginIndex] == HwArgs && IsDecimal(row[TimeIndex]) {
      WithDefCorrectedUpserts(s.table, DecodeDefinition(row));
    }
  }

  /** With the corrected `add_def`, a whole load keeps one entry per triple. */
  lemma {:induction false} RunCorrectedKeepsUnique(s: Session, rows: seq<Row>, bound: Option<nat>)
    requires Consistent(s) && UniqueTriples(s.table.lut) && RunCorrected(s, rows, bound).Some?
    ensures UniqueTriples(RunCorrected(s, rows, bound).value.table.lut)
    decreases |rows|
  {
    if rows != [] {
      var next := StepRowCorrected(s, rows[0], bound).value;
      StepRowCorrectedKeepsUnique(s, rows[0], bound);
      RunCorrectedKeepsUnique(next, rows[1..], bound);
    }
  }

  /** Running two runs of rows one after the other. */
  lemma {:induction false} RunAppend(s: Session, a: seq<Row>, b: seq<Row>, bound: Option<nat>)
    requires Consistent(s)
    ensures Run(s, a + b, bound) ==
      if Run(s, a, bound).None? then None else Run(Run(s, a, bound).value, b, bound)
    decreases |a|
  {
    if a == [] {
      assert a + b == b;
    } else {
      assert (a + b)[0] == a[0] && (a + b)[1..] == a[1..] + b;
      var next := StepRow(s, a[0], bound);
      if next.Some? {
        RunAppend(next.value, a[1..], b, bound);
        assert Run(s, a + b, bound) == Run(next.value, a[1..] + b, bound);
        assert Run(s, a, bound) == Run(next.value, a[1..], bound);
      } else {
        assert Run(s, a + b, bound) == None && Run(s, a, bound) == None;
      }
    }
  }

  /** The rows up to `i + 1` run as the rows up to `i` followed by row `i`. */
  lemma RunSnoc(s: Session, rows: seq<Row>, i: nat, bound: Option<nat>)
    requires Consistent(s) && i < |rows|
    ensures Run(s, rows[..i + 1], bound) ==
      if Run(s, rows[..i], bound).None? then None else StepRow(Run(s, rows[..i], bound).value, rows[i], bound)
  {
    assert rows[..i + 1] == rows[..i] + [rows[i]];
    RunAppend(s, rows[..i], [rows[i]], bound);
    if Run(s, rows[..i], bound).Some? {
      assert [rows[i]][1..] == [];
    }
  }

  /** The rows from `i` on continue from where the rows before `i` left off. */
  lemma RunSplit(s: Session, rows: seq<Row>, i: nat, bound: Option<nat>)
    requires Consistent(s) && i <= |rows|
    ensures Run(s, rows, bound) ==
      if Run(s, rows[..i], bound).None? then None else Run(Run(s, rows[..i], bound).value, rows[i..], bound)
  {
    assert rows == rows[..i] + rows[i..];
    RunAppend(s, rows[..i], rows[i..], bound);
  }

  /** A failing row stops the whole load, whatever follows it. */
  lemma RunFailsAt(s: Session, rows: seq<Row>, i: nat, bound: Option<nat>)
    requires Consistent(s) && i < |rows| && Run(s, rows[..i], bound).Some?
    requires StepRow(Run(s, rows[..i], bound).value, rows[i], bound).None?
    ensures Run(s, rows, bound).None?
  {
    RunSplit(s, rows, i, bound);
    var rest := rows[i..];
    assert rest != [] && rest[0] == rows[i];
  }

  /** After a first row that succeeds, the rows up to `k + 1` run as the
      rows after the first up to `k`. */
  lemma RunCons(s: Session, rows: seq<Row>, k: nat, bound: Option<nat>)
    requires Consistent(s) && k < |rows| && StepRow(s, rows[0], bound).Some?
    ensures Run(s, rows[..k + 1], bound) == Run(StepRow(s, rows[0], bound).value, rows[1..][..k], bound)
  {
    var t := rows[..k + 1];
    assert t[0] == rows[0] && t[1..] == rows[1..][..k];
  }

  /** A load that fails has a first failing row. */
  lemma {:induction false} RunFailsSomewhere(s: Session, rows: seq<Row>, bound: Option<nat>)
    requires Consistent(s) && Run(s, rows, bound).None?
    ensures exists i ::
      0 <= i < |rows| && Run(s, rows[..i], bound).Some? && StepRow(Run(s, rows[..i], bound).value, rows[i], bound).None?
    decreases |rows|
  {
    var next := StepRow(s, rows[0], bound);
    if next.Some? {
      var tail := rows[1..];
      assert Run(next.value, tail, bound).None?;
      RunFailsSomewhere(next.value, tail, bound);
      var k :| 0 <= k < |tail| && Run(next.value, tail[..k], bound).Some? &&
        StepRow(Run(next.value, tail[..k], bound).value, tail[k], bound).None?;
      RunCons(s, rows, k, bound);
      assert rows[k + 1] == tail[k];
    } else {
      assert rows[..0] == [];
      assert Run(s, rows[..0], bound) == Some(s);
    }
  }

  /** The load fails exactly when some row fails after all rows before it
      succeeded. */
  lemma RunFailsIff(s: Session, rows: seq<Row>, bound: Option<nat>)
    requires Consistent(s)
    ensures Run(s, rows, bound).None? <==>
      exists i :: 0 <= i < |rows| && Run(s, rows[..i], bound).Some? &&
        StepRow(Run(s, rows[..i], bound).value, rows[i], bound).None?
  {
    if Run(s, rows, bound).None? {
      RunFailsSomewhere(s, rows, bound);
    } else {
      forall i | 0 <= i < |rows| && Run(s, rows[..i], bound).Some?
        ensures StepRow(Run(s, rows[..i], bound).value, rows[i], bound).Some?
      {
        if StepRow(Run(s, rows[..i], bound).value, rows[i], bound).None? {
          RunFailsAt(s, rows, i, bound);
        }
      }
    }
  }

  /** A record whose naming columns hold text. */
  predicate TextAt(r: Record, column: string)
  {
    Get(r, column).Some? && Get(r, column).value.Str?
  }

  predicate Named(r: Record)
  {
    TextAt(r, "resource_name") && TextAt(r, "accessor") && TextAt(r, "access_type")
  }

  function TextOf(r: Record, column: string): string
    requires TextAt(r, column)
  {
    Get(r, column).value.s
  }

  /** The naming rule of `generate_data_frames`: `resource.accessor`, then
      `_type` unless the type is `function`. */
  function NameOf(resource: string, accessor: string, accessType: string): string
  {
    var dictKey := resource + "." + accessor;
    if accessType != "function" then dictKey + "_" + accessType else dictKey
  }

  /** The name a list gets, from its first record. */
  function StreamName(first: Record): string
    requires Named(first)
  {
    NameOf(TextOf(first, "resource_name"), TextOf(first, "accessor"), TextOf(first, "access_type"))
  }

  /** Only plain functions go without a type suffix. */
  lemma NameOfAccessType(resource: string, t: DefStrings)
    ensures NameOf(resource, t.accessor, t.accessType.Name()) ==
      resource + "." + t.accessor + (if t.accessType == Function then "" else "_" + t.accessType.Name())
  {
    match t.accessType
    case Getter =>
      assert "getter"[0] != "function"[0];
    case Setter =>
      assert "setter"[0] != "function"[0];
    case Function =>
  }

  /** The naming columns of a call's record, when no output overwrites them. */
  lemma FlattenNaming(c: HwCall)
    requires "resource_name" !in Keys(OutputPairs(c.definition.defStrings.accessor, c.outputs))
    requires "accessor" !in Keys(OutputPairs(c.definition.defStrings.accessor, c.outputs))
    requires "access_type" !in Keys(OutputPairs(c.definition.defStrings.accessor, c.outputs))
    ensures Get(Flatten(c), "resource_name") == Some(Str(c.resourceName))
    ensures Get(Flatten(c), "accessor") == Some(Str(c.definition.defStrings.accessor))
    ensures Get(Flatten(c), "access_type") == Some(Str(c.definition.defStrings.accessType.Name()))
  {
    assert BasicColumns[3] == "resource_name" && BasicColumns[5] == "accessor" && BasicColumns[6] == "access_type";
    FlattenBasic(c, 3);
    FlattenBasic(c, 5);
    FlattenBasic(c, 6);
  }

  /** A record whose naming columns hold the given texts is named by them. */
  lemma StreamNameOfRecord(r: Record, resource: string, accessor: string, accessType: string)
    requires Get(r, "resource_name") == Some(Str(resource))
    requires Get(r, "accessor") == Some(Str(accessor))
    requires Get(r, "access_type") == Some(Str(accessType))
    ensures Named(r) && StreamName(r) == NameOf(resource, accessor, accessType)
  {
  }

  /** The name of a call's stream, when no output column overwrites a naming
      column: the resource class is not part of it. */
  lemma StreamNameOfCall(c: HwCall, n: nat)
    requires "resource_name" !in Keys(OutputPairs(c.definition.defStrings.accessor, c.outputs))
    requires "accessor" !in Keys(OutputPairs(c.definition.defStrings.accessor, c.outputs))
    requires "access_type" !in Keys(OutputPairs(c.definition.defStrings.accessor, c.outputs))
    ensures var t := c.definition.defStrings;
      && Named(Stamp(Flatten(c), n))
      && StreamName(Stamp(Flatten(c), n)) ==
         c.resourceName + "." + t.accessor + (if t.accessType == Function then "" else "_" + t.accessType.Name())
  {
    var t := c.definition.defStrings;
    FlattenNaming(c);
    StreamNameOfRecord(Stamp(Flatten(c), n), c.resourceName, t.accessor, t.accessType.Name());
    NameOfAccessType(c.resourceName, t);
  }

  /** Every list can be named. */
  predicate Nameable(cd: CallsDict)
  {
    forall p :: p in cd ==> p.1 != [] && Named(p.1[0])
  }

  /** Each list paired with its name. */
  function StreamPairs(cd: CallsDict): (ps: seq<(string, seq<Record>)>)
    requires Nameable(cd)
    ensures |ps| == |cd|
    ensures forall i :: 0 <= i < |cd| ==> ps[i] == (StreamName(cd[i].1[0]), cd[i].1)
  {
    seq(|cd|, i requires 0 <= i < |cd| && Nameable(cd) => assert cd[i] in cd; (StreamName(cd[i].1[0]), cd[i].1))
  }

  /** `generate_data_frames`'s `df_dict`: each list under its name, in order
      (a later list with the same name replaces an earlier one). */
  function Streams(cd: CallsDict): Dict<string, seq<Record>>
    requires Nameable(cd)
  {
    UpdateAll([], StreamPairs(cd))
  }

  /** The stream names are exactly the names of the lists. */
  lemma StreamsKeys(cd: CallsDict, name: string)
    requires Nameable(cd)
    ensures |Streams(cd)| <= |cd|
    ensures name in Keys(Streams(cd)) <==> exists i :: 0 <= i < |cd| && StreamName(cd[i].1[0]) == name
  {
    var ps := StreamPairs(cd);
    UpdateAllKeys([], ps);
    assert name in Keys(Streams(cd)) <==> name in Keys(ps);
    if name in Keys(ps) {
      var i :| 0 <= i < |ps| && Keys(ps)[i] == name;
      assert ps[i].0 == name;
    } else {
      forall i | 0 <= i < |cd| ensures StreamName(cd[i].1[0]) != name {
        assert Keys(ps)[i] == ps[i].0;
      }
    }
  }

  /** Lists with the same name overwrite each other: under a name the
      streams hold the list of the last group, in key order, that has that
      name. Two groups whose keys differ only in the resource class share a
      name, and the earlier one is lost. */
  lemma StreamsGetLast(cd: CallsDict, i: nat)
    requires Nameable(cd) && i < |cd|
    requires forall j :: i < j < |cd| ==> StreamName(cd[j].1[0]) != StreamName(cd[i].1[0])
    ensures Get(Streams(cd), StreamName(cd[i].1[0])) == Some(cd[i].1)
  {
    var ps := StreamPairs(cd);
    forall j | i < j < |ps| ensures ps[j].0 != ps[i].0 {
      assert ps[j].0 == StreamName(cd[j].1[0]);
    }
    GetUpdateAllLast([], ps, i);
  }

  /** With distinct names, each list is found under its own name. */
  lemma StreamsGet(cd: CallsDict, i: nat)
    requires Nameable(cd) && i < |cd|
    requires forall a, b :: 0 <= a < b < |cd| ==> StreamName(cd[a].1[0]) != StreamName(cd[b].1[0])
    ensures Get(Streams(cd), StreamName(cd[i].1[0])) == Some(cd[i].1)
  {
    var ps := StreamPairs(cd);
    assert DistinctKeys(ps);
    GetUpdateAllAssigned([], ps, i);
  }

  /** Every record of a list can be named. */
  predicate RecordsNamed(calls: seq<Record>)
  {
    forall i :: 0 <= i < |calls| ==> Named(calls[i])
  }

  /** Every stored record can be named. */
  predicate GroupsNamed(cd: CallsDict)
  {
    forall p :: p in cd ==> RecordsNamed(p.1)
  }

  /** The columns `generate_data_frames` names a stream from. */
  const NamingColumns: seq<string> := ["resource_name", "accessor", "access_type"]

  /** A definition none of whose outputs is written to a naming column. */
  predicate KeepsNaming(d: HwCallDef)
  {
    forall name :: name in d.io.outputMapping ==> OutputKey(d.defStrings.accessor, name) !in NamingColumns
  }

  /** Every definition in the table keeps the naming columns. */
  predicate TableKeepsNaming(t: Table)
  {
    forall d :: d in t.lut ==> KeepsNaming(d)
  }

  /** A readable definition row declares a definition that keeps the naming
      columns; other rows are unconstrained. */
  predicate RowKeepsNaming(row: Row)
  {
    |row| > IoIndex && row[OriginIndex] == HwArgs && IsDecimal(row[TimeIndex]) ==>
      KeepsNaming(DecodeDefinition(row))
  }

  /** Consistent groups whose records can all be named can be named. */
  lemma NameableOfNamed(cd: CallsDict)
    requires Aggregated(cd) && GroupsNamed(cd)
    ensures Nameable(cd)
  {
    forall p | p in cd ensures p.1 != [] && Named(p.1[0]) {
      assert StreamOk(p.1) && RecordsNamed(p.1);
    }
  }

  /** The counter is not a naming column. */
  lemma StampNamed(r: Record, n: nat)
    requires HasStep(r) && Named(r)
    ensures Named(Stamp(r, n))
  {
  }

  /** Appending a named record to named records. */
  lemma ExtendedNamed(stored: Option<seq<Record>>, newDict: Record)
    requires StoredOk(stored) && HasStep(newDict) && Named(newDict)
    requires stored.Some? ==> RecordsNamed(stored.value)
    ensures RecordsNamed(Extended(stored, newDict))
  {
    if stored.Some? && stored.value != [] {
      ExtendedAppendNamed(stored.value, newDict);
    } else {
      StampNamed(newDict, 0);
    }
  }

  lemma ExtendedAppendNamed(prev: seq<Record>, newDict: Record)
    requires StreamOk(prev) && RecordsNamed(prev) && HasStep(newDict) && Named(newDict)
    ensures RecordsNamed(Extended(Some(prev), newDict))
  {
    var stamped := Stamp(newDict, NextCounter(prev[|prev| - 1], newDict));
    StampNamed(newDict, NextCounter(prev[|prev| - 1], newDict));
    AppendNamed(prev, stamped);
  }

  lemma AppendNamed(calls: seq<Record>, r: Record)
    requires RecordsNamed(calls) && Named(r)
    ensures RecordsNamed(calls + [r])
  {
    forall i | 0 <= i < |calls| + 1 ensures Named((calls + [r])[i]) {
      if i < |calls| {
        assert (calls + [r])[i] == calls[i];
      }
    }
  }

  /** The trim keeps only records that were there. */
  lemma TrimmedNamed(cd: CallsDict, bound: Option<nat>)
    requires GroupsNamed(cd)
    ensures GroupsNamed(Trimmed(cd, bound))
  {
    var r := Trimmed(cd, bound);
    forall p | p in r ensures RecordsNamed(p.1) {
      var j :| 0 <= j < |r| && r[j] == p;
      assert cd[j] in cd;
      TrimmedListNamed(cd[j].1, bound);
    }
  }

  lemma TrimmedListNamed(calls: seq<Record>, bound: Option<nat>)
    requires RecordsNamed(calls)
    ensures RecordsNamed(TrimmedList(calls, bound))
  {
    var kept := TrimmedList(calls, bound);
    SuffixNamed(calls, |calls| - |kept|);
  }

  lemma SuffixNamed(calls: seq<Record>, k: nat)
    requires RecordsNamed(calls) && k <= |calls|
    ensures RecordsNamed(calls[k..])
  {
    forall i | 0 <= i < |calls| - k ensures Named(calls[k..][i]) {
      assert calls[k..][i] == calls[k + i];
    }
  }

  /** `add_call` of a named record keeps every record nameable. */
  lemma AddedCallNamed(cd: CallsDict, key: StreamKey, newDict: Record, bound: Option<nat>)
    requires Aggregated(cd) && HasStep(newDict) && Named(newDict) && GroupsNamed(cd)
    ensures GroupsNamed(AddedCall(cd, key, newDict, bound))
  {
    var stored := Get(cd, key);
    GetStoredOk(cd, key);
    ExtendedNamed(stored, newDict);
    var calls := Extended(stored, newDict);
    UpdateEntries(cd, key, calls);
    AddedCallSteps(cd, key, newDict, bound);
    TrimmedNamed(Update(cd, key, calls), bound);
  }

  /** A call decoded against a definition that keeps the naming columns
      gives a record that can be named. */
  lemma DecodedCallNamed(row: Row, d: HwCallDef)
    requires |row| > DurationIndex && IsDecimal(row[TimeIndex]) && IsDecimal(row[DurationIndex])
    requires d.logT0.Some? && KeepsNaming(d)
    ensures Named(Flatten(DecodeCall(row, d)))
  {
    var c := DecodeCall(row, d);
    OutputKeysKeepNaming(d, c.outputs);
    FlattenNaming(c);
  }

  /** Outputs named by a definition that keeps the naming columns are
      written elsewhere. */
  lemma OutputKeysKeepNaming(d: HwCallDef, outputs: Record)
    requires KeepsNaming(d) && forall k :: k in Keys(outputs) ==> k in d.io.outputMapping
    ensures forall k :: k in Keys(OutputPairs(d.defStrings.accessor, outputs)) ==> k !in NamingColumns
  {
    var outs := OutputPairs(d.defStrings.accessor, outputs);
    forall k | k in Keys(outs) ensures k !in NamingColumns {
      var i :| 0 <= i < |outs| && Keys(outs)[i] == k;
      assert Keys(outputs)[i] == outputs[i].0;
    }
  }

  /** A row keeps the table's definitions and the stored records nameable. */
  lemma StepRowKeepsNamed(s: Session, row: Row, bound: Option<nat>)
    requires Consistent(s) && TableKeepsNaming(s.table) && GroupsNamed(s.calls)
    requires RowKeepsNaming(row) && StepRow(s, row, bound).Some?
    ensures TableKeepsNaming(StepRow(s, row, bound).value.table)
    ensures GroupsNamed(StepRow(s, row, bound).value.calls)
  {
    if row[OriginIndex] == HwArgs {
      WithDefEntries(s.table, DecodeDefinition(row));
    } else {
      var d := GetDefinition(s.table, row).value;
      DecodedCallNamed(row, d);
      var call := DecodeCall(row, d);
      AddedCallNamed(s.calls, KeyOf(call), Flatten(call), bound);
    }
  }

  /** After a completed load whose definitions keep the naming columns,
      every group can be named, so `generate_data_frames` can follow. */
  lemma {:induction false} RunKeepsNamed(s: Session, rows: seq<Row>, bound: Option<nat>)
    requires Consistent(s) && TableKeepsNaming(s.table) && GroupsNamed(s.calls)
    requires forall i :: 0 <= i < |rows| ==> RowKeepsNaming(rows[i])
    requires Run(s, rows, bound).Some?
    ensures TableKeepsNaming(Run(s, rows, bound).value.table)
    ensures GroupsNamed(Run(s, rows, bound).value.calls)
    ensures Nameable(Run(s, rows, bound).value.calls)
    decreases |rows|
  {
    if rows == [] {
      NameableOfNamed(s.calls);
    } else {
      StepRowKeepsNamed(s, rows[0], bound);
      forall i | 0 <= i < |rows[1..]| ensures RowKeepsNaming(rows[1..][i]) {
        assert rows[1..][i] == rows[i + 1];
      }
      RunKeepsNamed(StepRow(s, rows[0], bound).value, rows[1..], bound);
    }
  }

  /** The first part of `add_call`: the call's record, with its counter,
      appended to its key's list, or stored as a new list of one. */
  method StoreCall(cd: CallsDict, key: StreamKey, newDict: Record) returns (r: CallsDict)
    requires StoredOk(Get(cd, key)) && HasStep(newDict)
    ensures r == Update(cd, key, Extended(Get(cd, key), newDict))
  {
    var calls := Get(cd, key);
    if calls.Some? && calls.value != [] {
      var lastDict := calls.value[|calls.value| - 1];
      CounterRule(lastDict, newDict);
      var stepCounter := if !PyEq(Get(lastDict, StepColumn).value, Get(newDict, StepColumn).value) then 0
        else Get(lastDict, CounterColumn).value.i + 1;
      r := Update(cd, key, calls.value + [Stamp(newDict, stepCounter)]);
    } else {
      r := Update(cd, key, [Stamp(newDict, 0)]);
    }
  }

  /** The counter rule of `add_call` on the fields it reads. */
  lemma CounterRule(lastDict: Record, newDict: Record)
    requires WellCounted(lastDict) && HasStep(newDict)
    ensures Get(lastDict, StepColumn).Some? && Get(newDict, StepColumn).Some?
    ensures Get(lastDict, CounterColumn).Some? && Get(lastDict, CounterColumn).value.Int?
    ensures NextCounter(lastDict, newDict) ==
      if !PyEq(Get(lastDict, StepColumn).value, Get(newDict, StepColumn).value) then 0
      else Get(lastDict, CounterColumn).value.i + 1
  {
  }

  /** The trim loop of `add_call`: each list, in key order, is replaced by
      its last `n` records. */
  method TrimEach(cd: CallsDict, n: nat) returns (r: CallsDict)
    requires DistinctKeys(cd)
    ensures r == TrimAll(cd, n)
  {
    r := cd;
    for i := 0 to |cd|
      invariant |r| == |cd|
      invariant forall j :: 0 <= j < i ==> r[j] == (cd[j].0, LastN(cd[j].1, n))
      invariant forall j :: i <= j < |cd| ==> r[j] == cd[j]
      invariant DistinctKeys(r)
    {
      var (callRef, callList) := r[i];
      UpdateAtIndex(r, i, LastN(callList, n));
      r := Update(r, callRef, LastN(callList, n));
    }
  }

  /** The body of `add_call` on the call groups: store, then trim when a
      bound is set. */
  method AddCallTo(cd: CallsDict, key: StreamKey, newDict: Record, bound: Option<nat>) returns (r: CallsDict)
    requires Aggregated(cd) && HasStep(newDict)
    ensures r == AddedCall(cd, key, newDict, bound)
  {
    AddedCallSteps(cd, key, newDict, bound);
    GetStoredOk(cd, key);
    r := StoreCall(cd, key, newDict);
    if bound.Some? {
      r := TrimEach(r, bound.value);
    }
  }

  /** `RawDataFile`: the definition table of the file being read, the call
      groups and the named streams. */
  class RawDataFile {
    const table: HwCallDefLUT
    var callsDict: CallsDict
    var dfs: Dict<string, seq<Record>>
    const maxStoredCalls: Option<nat>

    function State(): Session
      reads this, table
    {
      Session(table.State(), callsDict)
    }

    ghost predicate Valid()
      reads this, table
    {
      table.Valid() && Aggregated(callsDict)
    }

    /** The state `__init__` sets up before it loads the file. */
    constructor (maxStoredCalls: Option<nat>)
      ensures Valid() && fresh(table) && this.maxStoredCalls == maxStoredCalls
      ensures State() == Session(Table([], None), []) && dfs == []
    {
      table := new HwCallDefLUT();
      callsDict := [];
      dfs := [];
      this.maxStoredCalls := maxStoredCalls;
    }

    /** `add_call`. */
    method AddCall(newCall: HwCall)
      requires Valid()
      modifies this
      ensures Valid() && dfs == old(dfs)
      ensures callsDict == AddedCall(old(callsDict), KeyOf(newCall), Flatten(newCall), maxStoredCalls)
    {
      var newDict := Dictionary(newCall);
      callsDict := AddCallTo(callsDict, KeyOf(newCall), newDict, maxStoredCalls);
    }

    /** One pass of the loop of `load_raw_data_file`: a definition row goes
        to the table, any other row is decoded against its definition and
        added; `ok` is false when the row raised. */
    method ReadRow(line: Row) returns (ok: bool)
      requires Valid()
      modifies this, table
      ensures Valid() && dfs == old(dfs)
      ensures ok <==> StepRow(old(State()), line, maxStoredCalls).Some?
      ensures ok ==> State() == StepRow(old(State()), line, maxStoredCalls).value
      ensures !ok ==> State() == old(State())
    {
      if |line| <= OriginIndex {
        return false;
      }
      if line[OriginIndex] == HwArgs {
        ok := ReadDefinitionRow(line);
      } else {
        ok := ReadCallRow(line);
      }
    }

    /** A `hw_args` row: the definition it declares goes to the table. */
    method ReadDefinitionRow(line: Row) returns (ok: bool)
      requires Valid() && |line| > OriginIndex && line[OriginIndex] == HwArgs
      modifies table
      ensures Valid()
      ensures ok <==> StepRow(old(State()), line, maxStoredCalls).Some?
      ensures ok ==> State() == StepRow(old(State()), line, maxStoredCalls).value
      ensures !ok ==> State() == old(State())
    {
      if !(|line| > IoIndex && IsDecimal(line[TimeIndex])) {
        return false;
      }
      var newDef := DecodeDefinition(line);
      table.AddDef(newDef);
      return true;
    }

    /** A call row: decoded against its definition and added. */
    method ReadCallRow(line: Row) returns (ok: bool)
      requires Valid() && |line| > OriginIndex && line[OriginIndex] != HwArgs
      modifies this
      ensures Valid() && dfs == old(dfs)
      ensures ok <==> StepRow(old(State()), line, maxStoredCalls).Some?
      ensures ok ==> State() == StepRow(old(State()), line, maxStoredCalls).value
      ensures !ok ==> State() == old(State())
    {
      if !Contains(line[NameIndex], "__") {
        return false;
      }
      var definingCall := table.GetDefinitionOf(line);
      if definingCall.None? ||
         !(|line| > DurationIndex && IsDecimal(line[TimeIndex]) && IsDecimal(line[DurationIndex])) {
        return false;
      }
      var call := DecodeCall(line, definingCall.value);
      AddCall(call);
      return true;
    }

    /** `load_raw_data_file` on rows already split into fields: `ok` is false
        when a row raised, and then the rows that follow are not read. */
    method LoadRawDataFile(rows: seq<Row>) returns (ok: bool)
      requires Valid()
      modifies this, table
      ensures Valid() && dfs == old(dfs)
      ensures ok <==> Run(old(State()), rows, maxStoredCalls).Some?
      ensures ok ==> State() == Run(old(State()), rows, maxStoredCalls).value
      ensures !ok ==> exists i :: 0 <= i < |rows| && Run(old(State()), rows[..i], maxStoredCalls) == Some(State())
                                && StepRow(State(), rows[i], maxStoredCalls).None?
    {
      ghost var start := State();
      assert rows[..0] == [];
      for i := 0 to |rows|
        invariant Valid() && dfs == old(dfs)
        invariant Run(start, rows[..i], maxStoredCalls) == Some(State())
      {
        RunSnoc(start, rows, i, maxStoredCalls);
        var rowOk := ReadRow(rows[i]);
        if !rowOk {
          RunFailsAt(start, rows, i, maxStoredCalls);
          assert Run(start, rows[..i], maxStoredCalls) == Some(State());
          return false;
        }
      }
      assert rows[..|rows|] == rows;
      return true;
    }

    /** `generate_data_frames`: each list stored under its name. */
    method GenerateDataFrames()
      requires Nameable(callsDict)
      modifies this
      ensures callsDict == old(callsDict) && dfs == Streams(callsDict)
    {
      var cd := callsDict;
      var dfDict: Dict<string, seq<Record>> := [];
      ghost var ps := StreamPairs(cd);
      for i := 0 to |cd|
        invariant callsDict == cd
        invariant dfDict == UpdateAll([], ps[..i])
      {
        var calls := cd[i].1;
        assert cd[i] in cd;
        var firstEntry := calls[0];
        var dictKey := TextOf(firstEntry, "resource_name") + "." + TextOf(firstEntry, "accessor");
        if TextOf(firstEntry, "access_type") != "function" {
          dictKey := dictKey + "_" + TextOf(firstEntry, "access_type");
        }
        assert dictKey == StreamName(firstEntry);
        UpdateAllStep([], ps, i);
        dfDict := Update(dfDict, dictKey, calls);
      }
      assert ps[..|cd|] == ps;
      dfs := dfDict;
    }
  }

  /** `RawDataFile.__init__`: a new file, the rows loaded, then the streams
      named. When the load completes, every group can be named and the
      streams are `Streams` of the loaded groups. */
  method OpenRawDataFile(rows: seq<Row>, maxStoredCalls: Option<nat>) returns (file: RawDataFile, ok: bool)
    requires forall i :: 0 <= i < |rows| ==> RowKeepsNaming(rows[i])
    ensures fresh(file) && file.maxStoredCalls == maxStoredCalls
    ensures ok <==> Run(Session(Table([], None), []), rows, maxStoredCalls).Some?
    ensures ok ==> && file.State() == Run(Session(Table([], None), []), rows, maxStoredCalls).value
                   && Nameable(file.callsDict) && file.dfs == Streams(file.callsDict)
  {
    file := new RawDataFile(maxStoredCalls);
    ghost var start := file.State();
    ok := file.LoadRawDataFile(rows);
    if ok {
      RunKeepsNamed(start, rows, maxStoredCalls);
      file.GenerateDataFrames();
    }
  }
}
