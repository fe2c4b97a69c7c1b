/** The definition lookup table (`HwCallDefLUT`): an ordered list of the
    definitions seen in the current file and the file start time, taken from
    the first definition registered after a reset. The table's behaviour is
    given by functions on a `Table` value; the class `HwCallDefLUT` updates
    its fields in place and is proved to follow them. */
module DefTable {
  import opened Wrappers
  import opened Text
  import opened Definitions

  /** The state of a lookup table: its entries in order, and `log_t0`. */
  datatype Table = Table(lut: seq<HwCallDef>, logT0: Option<real>)

  /** The start time is set exactly when the table has entries, and every
      entry carries it. */
  predicate Anchored(t: Table)
  {
    && (t.lut == [] <==> t.logT0.None?)
    && forall i :: 0 <= i < |t.lut| ==> t.lut[i].logT0 == t.logT0
  }

  /** The start time is the relative time of the first entry. */
  predicate AnchoredOnFirst(t: Table)
  {
    t.lut != [] ==> t.logT0 == Some(t.lut[0].relativeSec)
  }

  /** At most one entry per defining triple. */
  predicate UniqueTriples(lut: seq<HwCallDef>)
  {
    forall i, j :: 0 <= i < j < |lut| ==> lut[i].defStrings != lut[j].defStrings
  }

  /** The index of the first entry with the given triple. */
  function FirstMatch(lut: seq<HwCallDef>, triple: DefStrings): (r: Option<nat>)
    ensures r.Some? ==> r.value < |lut| && lut[r.value].defStrings == triple
    ensures r.Some? ==> forall j :: 0 <= j < r.value ==> lut[j].defStrings != triple
    ensures r.None? ==> forall j :: 0 <= j < |lut| ==> lut[j].defStrings != triple
  {
    if lut == [] then None
    else if lut[0].defStrings == triple then Some(0)
    else
      match FirstMatch(lut[1..], triple)
      case None => None
      case Some(k) => Some(k + 1)
  }

  /** The first match is the only index with a match and none before it. */
  lemma FirstMatchAt(lut: seq<HwCallDef>, triple: DefStrings, k: nat)
    requires k < |lut| && lut[k].defStrings == triple
    requires forall j :: 0 <= j < k ==> lut[j].defStrings != triple
    ensures FirstMatch(lut, triple) == Some(k)
  {
  }

  /** The first entry with the given triple, if any. */
  function Lookup(lut: seq<HwCallDef>, triple: DefStrings): (r: Option<HwCallDef>)
    ensures r.Some? ==> r.value in lut && r.value.defStrings == triple
    ensures r.None? <==> forall j :: 0 <= j < |lut| ==> lut[j].defStrings != triple
  {
    match FirstMatch(lut, triple)
    case Some(i) => Some(lut[i])
    case None => None
  }

  /** The start time a definition receives when it is added to `t`. */
  function StartTime(t: Table, newDef: HwCallDef): real
    requires Anchored(t)
  {
    if t.lut == [] then newDef.relativeSec else t.logT0.value
  }

  /** Python's truth value of the index `add_def` finds: both `None` and `0` are false. */
  predicate Truthy(index: Option<nat>)
  {
    index.Some? && index.value != 0
  }

  /** `HwCallDefLUT.add_def` as written: the definition is stamped with the
      start time, then overwrites the entry with its triple when that entry's
      index is truthy, and is appended otherwise. */
  function WithDef(t: Table, newDef: HwCallDef): (r: Table)
    requires Anchored(t)
    ensures Anchored(r) && r.logT0 == Some(StartTime(t, newDef))
    ensures t.lut != [] ==> r.logT0 == t.logT0 && r.lut[0] == t.lut[0]
    ensures AnchoredOnFirst(t) ==> AnchoredOnFirst(r)
  {
    var t0 := StartTime(t, newDef);
    var stamped := newDef.(logT0 := Some(t0));
    var existingIndex := FirstMatch(t.lut, newDef.defStrings);
    if Truthy(existingIndex) then Table(t.lut[existingIndex.value := stamped], Some(t0))
    else Table(t.lut + [stamped], Some(t0))
  }

  /** Every entry after `add_def` was already in the table or is the new
      definition with the start time. */
  lemma WithDefEntries(t: Table, newDef: HwCallDef)
    requires Anchored(t)
    ensures forall d :: d in WithDef(t, newDef).lut ==>
      d in t.lut || d == newDef.(logT0 := WithDef(t, newDef).logT0)
  {
    var r := WithDef(t, newDef);
    var stamped := newDef.(logT0 := r.logT0);
    forall d | d in r.lut ensures d in t.lut || d == stamped {
      var j :| 0 <= j < |r.lut| && r.lut[j] == d;
      if j < |t.lut| && d != stamped {
        assert d == t.lut[j];
      }
    }
  }

  /** Replace-or-append by triple, correct at every index including 0. */
  function WithDefCorrected(t: Table, newDef: HwCallDef): (r: Table)
    requires Anchored(t)
    ensures Anchored(r) && r.logT0 == Some(StartTime(t, newDef))
    ensures t.lut != [] ==> r.logT0 == t.logT0
  {
    var t0 := StartTime(t, newDef);
    var stamped := newDef.(logT0 := Some(t0));
    match FirstMatch(t.lut, newDef.defStrings)
    case Some(i) => Table(t.lut[i := stamped], Some(t0))
    case None => Table(t.lut + [stamped], Some(t0))
  }

  /** A redefinition whose triple first appears at index 1 or later
      overwrites that entry and nothing else, and later lookups find it. */
  lemma WithDefReplaces(t: Table, newDef: HwCallDef, i: nat)
    requires Anchored(t) && FirstMatch(t.lut, newDef.defStrings) == Some(i) && i >= 1
    ensures var r := WithDef(t, newDef);
      && |r.lut| == |t.lut|
      && r.lut[i] == newDef.(logT0 := r.logT0)
      && (forall j :: 0 <= j < |t.lut| && j != i ==> r.lut[j] == t.lut[j])
      && Lookup(r.lut, newDef.defStrings) == Some(newDef.(logT0 := r.logT0))
  {
    var r := WithDef(t, newDef);
    FirstMatchAt(r.lut, newDef.defStrings, i);
  }

  /** A definition with a new triple, or with the triple of the entry at
      index 0, is appended. */
  lemma WithDefAppends(t: Table, newDef: HwCallDef)
    requires Anchored(t) && !Truthy(FirstMatch(t.lut, newDef.defStrings))
    ensures var r := WithDef(t, newDef);
      r.lut == t.lut + [newDef.(logT0 := r.logT0)]
  {
  }

  /** The defect: redefining the first entry appends a duplicate, breaking
      "one entry per triple", and lookups keep returning the old entry. */
  lemma WithDefDuplicatesFirst(t: Table, newDef: HwCallDef)
    requires Anchored(t) && t.lut != [] && t.lut[0].defStrings == newDef.defStrings
    ensures var r := WithDef(t, newDef);
      && |r.lut| == |t.lut| + 1
      && !UniqueTriples(r.lut)
      && Lookup(r.lut, newDef.defStrings) == Some(t.lut[0])
  {
    var r := WithDef(t, newDef);
    assert r.lut[|t.lut|].defStrings == r.lut[0].defStrings;
  }

  /** As written, uniqueness survives every addition except a redefinition of the first entry. */
  lemma WithDefKeepsUniqueUnlessFirst(t: Table, newDef: HwCallDef)
    requires Anchored(t) && UniqueTriples(t.lut)
    requires t.lut != [] ==> t.lut[0].defStrings != newDef.defStrings
    ensures UniqueTriples(WithDef(t, newDef).lut)
  {
    var r := WithDef(t, newDef);
    var existingIndex := FirstMatch(t.lut, newDef.defStrings);
    forall i, j | 0 <= i < j < |r.lut| ensures r.lut[i].defStrings != r.lut[j].defStrings {
      if existingIndex.None? && j == |t.lut| {
        assert r.lut[j].defStrings == newDef.defStrings;
      }
    }
  }

  /** The corrected addition overwrites the entry with the triple in place,
      wherever it is, and appends otherwise; it keeps one entry per triple
      and makes the new definition what lookups find. */
  lemma WithDefCorrectedUpserts(t: Table, newDef: HwCallDef)
    requires Anchored(t) && UniqueTriples(t.lut)
    ensures var r := WithDefCorrected(t, newDef);
      && UniqueTriples(r.lut)
      && (forall i :: FirstMatch(t.lut, newDef.defStrings) == Some(i) ==>
            r.lut == t.lut[i := newDef.(logT0 := r.logT0)])
      && (FirstMatch(t.lut, newDef.defStrings).None? ==> r.lut == t.lut + [newDef.(logT0 := r.logT0)])
      && Lookup(r.lut, newDef.defStrings) == Some(newDef.(logT0 := r.logT0))
  {
    var r := WithDefCorrected(t, newDef);
    var stamped := newDef.(logT0 := r.logT0);
    match FirstMatch(t.lut, newDef.defStrings)
    case Some(i) =>
      forall j | 0 <= j < |r.lut| && j != i ensures r.lut[j].defStrings != newDef.defStrings {
        assert r.lut[j] == t.lut[j];
        if j < i {
          assert t.lut[j].defStrings != t.lut[i].defStrings;
        } else {
          assert t.lut[i].defStrings != t.lut[j].defStrings;
        }
      }
      FirstMatchAt(r.lut, newDef.defStrings, i);
    case None =>
      FirstMatchAt(r.lut, newDef.defStrings, |t.lut|);
  }

  /** `get_definition`'s choice: the first entry whose triple is the one the
      call row names (`defines`); `None` when no entry matches, where the
      source's `next(...)` raises `StopIteration`. A resolved definition
      carries the table's start time. */
  function GetDefinition(t: Table, row: Row): (r: Option<HwCallDef>)
    requires |row| > NameIndex && Contains(row[NameIndex], "__")
    ensures r.Some? ==> r.value in t.lut && Defines(r.value, row)
    ensures r.None? <==> forall j :: 0 <= j < |t.lut| ==> !Defines(t.lut[j], row)
    ensures Anchored(t) && r.Some? ==> t.logT0.Some? && r.value.logT0 == t.logT0
  {
    var r := Lookup(t.lut, CallTriple(row));
    assert r.Some? ==> exists i :: 0 <= i < |t.lut| && t.lut[i] == r.value;
    r
  }

  /** Of several entries defining the call, the first one is chosen. */
  lemma GetDefinitionFirst(t: Table, row: Row, i: nat)
    requires |row| > NameIndex && Contains(row[NameIndex], "__")
    requires i < |t.lut| && Defines(t.lut[i], row)
    requires forall j :: 0 <= j < i ==> !Defines(t.lut[j], row)
    ensures GetDefinition(t, row) == Some(t.lut[i])
  {
    FirstMatchAt(t.lut, CallTriple(row), i);
  }

  /** `HwCallDefLUT`: the table object one file is decoded against. */
  class HwCallDefLUT {
    var lut: seq<HwCallDef>
    var logT0: Option<real>

    function State(): Table
      reads this
    {
      Table(lut, logT0)
    }

    ghost predicate Valid()
      reads this
    {
      Anchored(State())
    }

    constructor ()
      ensures Valid() && lut == [] && logT0 == None
    {
      lut := [];
      logT0 := None;
    }

    /** `reset`: empties the table and clears the start time. */
    method Reset()
      modifies this
      ensures Valid() && lut == [] && logT0 == None
    {
      lut := [];
      logT0 := None;
    }

    /** The scan `add_def` makes for an entry with the given triple. */
    method IndexOf(triple: DefStrings) returns (index: Option<nat>)
      ensures index == FirstMatch(lut, triple)
    {
      var i := 0;
      while i < |lut|
        invariant 0 <= i <= |lut|
        invariant forall j :: 0 <= j < i ==> lut[j].defStrings != triple
      {
        if lut[i].defStrings == triple {
          return Some(i);
        }
        i := i + 1;
      }
      return None;
    }

    /** `add_def`, as written (a match at index 0 is appended again). */
    method AddDef(newDef: HwCallDef)
      requires Valid()
      modifies this
      ensures Valid() && State() == WithDef(old(State()), newDef)
    {
      if lut == [] {
        logT0 := Some(newDef.relativeSec);
      }
      var stamped := newDef.(logT0 := logT0);
      var existingIndex := IndexOf(newDef.defStrings);
      if existingIndex.Some? && existingIndex.value != 0 {
        lut := lut[existingIndex.value := stamped];
      } else {
        lut := lut + [stamped];
      }
    }

    /** `add_def` with the index test fixed: replace at any index. */
    method AddDefCorrected(newDef: HwCallDef)
      requires Valid()
      modifies this
      ensures Valid() && State() == WithDefCorrected(old(State()), newDef)
    {
      if lut == [] {
        logT0 := Some(newDef.relativeSec);
      }
      var stamped := newDef.(logT0 := logT0);
      var existingIndex := IndexOf(newDef.defStrings);
      if existingIndex.Some? {
        lut := lut[existingIndex.value := stamped];
      } else {
        lut := lut + [stamped];
      }
    }

    /** `get_definition`: a linear scan for the first entry that defines the call. */
    method GetDefinitionOf(row: Row) returns (d: Option<HwCallDef>)
      requires |row| > NameIndex && Contains(row[NameIndex], "__")
      ensures d == GetDefinition(State(), row)
    {
      var index := IndexOf(CallTriple(row));
      d := if index.Some? then Some(lut[index.value]) else None;
    }
  }
}
