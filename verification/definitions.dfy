/** Decoding of definition rows (`HwCallDef`): the name grammar
    `Class.accessor[_getter|_setter]` with its single-token fallback, the split
    of the io fields into input names and output names, and the derivation of
    output names from `hw_out` tokens. */
module Definitions {
  import opened Wrappers
  import opened Text
  import opened Values

  /** `HwCallDef.access_types`. */
  datatype AccessType = Getter | Setter | Function {
    function Name(): string
    {
      match this
      case Getter => "getter"
      case Setter => "setter"
      case Function => "function"
    }
  }

  /** `def_strings`: the defining triple (resource class, accessor, access type). */
  datatype DefStrings = DefStrings(resourceClass: string, accessor: string, accessType: AccessType)

  /** One row of the log, already split into fields. */
  type Row = seq<string>

  const NameIndex := 0
  const TimeIndex := 2
  const IoIndex := 4
  const GenericOutputDef := "hw_out"
  const GetterSuffix := "_getter"
  const SetterSuffix := "_setter"

  /** `HwCallDef.parse_call_strings`. */
  function ParseCallStrings(defString: string): (r: DefStrings)
    ensures '.' !in r.resourceClass && '.' !in r.accessor
  {
    var defNames := Split(defString, ".");
    if |defNames| < 2 then
      // a single token (a wrapped definition): the whole text is the accessor
      ContainsChar(defString, '.');
      DefStrings("", defNames[0], Function)
    else
      var second := defNames[1];
      ContainsChar(defNames[0], '.');
      ContainsChar(second, '.');
      if EndsWith(second, GetterSuffix) then
        assert second == second[..|second| - 7] + GetterSuffix;
        DefStrings(defNames[0], second[..|second| - 7], Getter)
      else if EndsWith(second, SetterSuffix) then
        assert second == second[..|second| - 7] + SetterSuffix;
        DefStrings(defNames[0], second[..|second| - 7], Setter)
      else
        DefStrings(defNames[0], second, Function)
  }

  /** The text a triple is written as in a definition row. */
  function DefString(t: DefStrings): string
  {
    t.resourceClass + "." + t.accessor +
      match t.accessType
      case Getter => GetterSuffix
      case Setter => SetterSuffix
      case Function => ""
  }

  /** A triple that its written form can represent: no `.` in the class or the
      accessor, and a plain function's accessor does not end in a suffix. */
  predicate Writable(t: DefStrings)
  {
    && '.' !in t.resourceClass
    && '.' !in t.accessor
    && (t.accessType == Function ==> !EndsWith(t.accessor, GetterSuffix) && !EndsWith(t.accessor, SetterSuffix))
  }

  /** Splitting `c.x` where `c` has no `.`. */
  lemma SplitClassDot(c: string, x: string)
    requires '.' !in c
    ensures Split(c + "." + x, ".") == [c] + Split(x, ".")
  {
    ContainsChar(c, '.');
    FindAfterFreePrefix(c, ".", x);
    SplitAtFirst(c, ".", x);
  }

  /** Parsing `c.x` where neither part has a `.`. */
  lemma ParseClassDot(c: string, x: string)
    requires '.' !in c && '.' !in x
    ensures ParseCallStrings(c + "." + x) ==
      if EndsWith(x, GetterSuffix) then DefStrings(c, x[..|x| - 7], Getter)
      else if EndsWith(x, SetterSuffix) then DefStrings(c, x[..|x| - 7], Setter)
      else DefStrings(c, x, Function)
  {
    SplitClassDot(c, x);
    ContainsChar(x, '.');
    assert Split(c + "." + x, ".") == [c, x];
  }

  /** An accessor followed by a suffix ends with that suffix, which cuts off again. */
  lemma Suffixed(a: string, suffix: string)
    requires '.' !in a && '.' !in suffix
    ensures var x := a + suffix; '.' !in x && EndsWith(x, suffix) && x[..|x| - |suffix|] == a
  {
    var x := a + suffix;
    assert forall k :: 0 <= k < |x| ==> x[k] == if k < |a| then a[k] else suffix[k - |a|];
    assert x[|x| - |suffix|..] == suffix;
  }

  lemma RoundTripGetter(c: string, a: string)
    requires '.' !in c && '.' !in a
    ensures ParseCallStrings(c + "." + a + GetterSuffix) == DefStrings(c, a, Getter)
  {
    Suffixed(a, GetterSuffix);
    assert c + "." + a + GetterSuffix == c + "." + (a + GetterSuffix);
    ParseClassDot(c, a + GetterSuffix);
  }

  lemma RoundTripSetter(c: string, a: string)
    requires '.' !in c && '.' !in a
    ensures ParseCallStrings(c + "." + a + SetterSuffix) == DefStrings(c, a, Setter)
  {
    var x := a + SetterSuffix;
    Suffixed(a, SetterSuffix);
    assert !EndsWith(x, GetterSuffix) by {
      assert x[|x| - 7..][1] == SetterSuffix[1] != GetterSuffix[1];
    }
    assert c + "." + a + SetterSuffix == c + "." + x;
    ParseClassDot(c, x);
  }

  /** Parsing recovers every writable triple from its written form; `_getter`
      is tried before `_setter`, so `C.x_setter_getter` is a getter of `x_setter`. */
  lemma ParseCallStringsRoundTrip(t: DefStrings)
    requires Writable(t)
    ensures ParseCallStrings(DefString(t)) == t
  {
    var c, a := t.resourceClass, t.accessor;
    match t.accessType
    case Getter =>
      assert DefString(t) == c + "." + a + GetterSuffix;
      RoundTripGetter(c, a);
    case Setter =>
      assert DefString(t) == c + "." + a + SetterSuffix;
      RoundTripSetter(c, a);
    case Function =>
      assert DefString(t) == c + "." + a + "";
      assert c + "." + a + "" == c + "." + a;
      ParseClassDot(c, a);
  }

  /** A name without `.` never fails: it is the accessor of a function with no class. */
  lemma ParseCallStringsFallback(s: string)
    requires '.' !in s
    ensures ParseCallStrings(s) == DefStrings("", s, Function)
  {
    ContainsChar(s, '.');
  }

  /** Parsing looks at the first two pieces only. */
  lemma ParseCallStringsFirstTwo(s1: string, s2: string)
    requires |Split(s1, ".")| >= 2 && |Split(s2, ".")| >= 2
    requires Split(s1, ".")[..2] == Split(s2, ".")[..2]
    ensures ParseCallStrings(s1) == ParseCallStrings(s2)
  {
    assert Split(s1, ".")[0] == Split(s1, ".")[..2][0];
    assert Split(s1, ".")[1] == Split(s1, ".")[..2][1];
  }

  /** Splitting `c.x` where neither part has a `.`. */
  lemma SplitTwo(c: string, x: string)
    requires '.' !in c && '.' !in x
    ensures Split(c + "." + x, ".") == [c, x]
  {
    SplitClassDot(c, x);
    ContainsChar(x, '.');
  }

  /** Splitting `c.x.rest`: its first two pieces are `c` and `x`. */
  lemma SplitThree(c: string, x: string, rest: string)
    requires '.' !in c && '.' !in x
    ensures |Split(c + "." + x + "." + rest, ".")| >= 2
    ensures Split(c + "." + x + "." + rest, ".")[..2] == [c, x]
  {
    var tail := x + "." + rest;
    assert c + "." + x + "." + rest == c + "." + tail;
    SplitClassDot(c, tail);
    SplitClassDot(x, rest);
    var pieces := [c] + ([x] + Split(rest, "."));
    assert pieces[..2] == [c, x];
  }

  /** Segments after the second one are ignored. */
  lemma ParseCallStringsIgnoresRest(c: string, x: string, rest: string)
    requires '.' !in c && '.' !in x
    ensures ParseCallStrings(c + "." + x + "." + rest) == ParseCallStrings(c + "." + x)
  {
    SplitThree(c, x, rest);
    SplitTwo(c, x);
    ParseCallStringsFirstTwo(c + "." + x + "." + rest, c + "." + x);
  }

  /** The name of one output field, from its definition token: whatever
      follows the first six characters, or `hw_out` when nothing does. */
  function OutputName(outputDef: string): (r: string)
    ensures r != ""
    ensures r == GenericOutputDef || (|r| < |outputDef| && r == outputDef[|outputDef| - |r|..])
  {
    var indexStrings := if |outputDef| <= |GenericOutputDef| then "" else outputDef[|GenericOutputDef|..];
    if indexStrings == "" then GenericOutputDef else indexStrings
  }

  /** The output names of a list of output tokens, one per token. */
  function OutputNames(outputDefs: seq<string>): (r: seq<string>)
    ensures |r| == |outputDefs|
    ensures forall i :: 0 <= i < |r| ==> r[i] != ""
    ensures forall i :: 0 <= i < |r| && |outputDefs[i]| <= 6 ==> r[i] == GenericOutputDef
    ensures forall i :: 0 <= i < |r| && |outputDefs[i]| > 6 ==> r[i] == outputDefs[i][6..]
  {
    seq(|outputDefs|, i requires 0 <= i < |outputDefs| => OutputName(outputDefs[i]))
  }

  /** `HwCallDef.parse_output_defs`: appends one name per token. */
  method ParseOutputDefs(outputDefList: seq<string>) returns (outputs: seq<string>)
    ensures outputs == OutputNames(outputDefList)
  {
    outputs := [];
    for i := 0 to |outputDefList|
      invariant |outputs| == i
      invariant forall j :: 0 <= j < i ==> outputs[j] == OutputName(outputDefList[j])
    {
      var outputDef := outputDefList[i];
      var indexStrings := if |outputDef| <= |GenericOutputDef| then "" else outputDef[|GenericOutputDef|..];
      if indexStrings == "" {
        outputs := outputs + [GenericOutputDef];
      } else {
        outputs := outputs + [indexStrings];
      }
    }
  }

  /** A token written as the marker followed by a sub-key yields that sub-key;
      the bare marker yields the marker. */
  lemma OutputNameOfMarkedToken(key: string)
    ensures OutputName(GenericOutputDef + key) == if key == "" then GenericOutputDef else key
  {
    assert (GenericOutputDef + key)[6..] == key;
  }

  /** No prefix is checked: any token longer than six characters loses its
      first six, whatever they are. */
  lemma OutputNameChecksNoPrefix()
    ensures OutputName("xhw_out[a]") == "t[a]"
    ensures OutputName("abc") == GenericOutputDef
  {
    assert "xhw_out[a]"[6..] == "t[a]";
  }

  /** The index of the first token that contains `hw_out`, or the length. */
  function OutputStart(tokens: seq<string>): (k: nat)
    ensures k <= |tokens|
    ensures forall j :: 0 <= j < k ==> !Contains(tokens[j], GenericOutputDef)
    ensures k < |tokens| ==> Contains(tokens[k], GenericOutputDef)
  {
    if tokens == [] then 0
    else if Contains(tokens[0], GenericOutputDef) then 0
    else 1 + OutputStart(tokens[1..])
  }

  /** The io part of a definition. */
  datatype IoDefs = IoDefs(hasName: bool, inputMapping: seq<string>, outputMapping: seq<string>)

  /** `HwCallDef.extract_io_defs`: a leading `name` token sets `hasName` and is
      dropped; the inputs are the longest prefix of the rest with no token
      containing `hw_out`; every remaining token gives one output name. */
  function ExtractIoDefs(ioDefList: seq<string>): (r: IoDefs)
    requires |ioDefList| >= 1
    ensures r.hasName <==> ioDefList[0] == "name"
    ensures var rest := if r.hasName then ioDefList[1..] else ioDefList;
      && |r.inputMapping| <= |rest|
      && r.inputMapping == rest[..|r.inputMapping|]
      && (forall j :: 0 <= j < |r.inputMapping| ==> !Contains(r.inputMapping[j], GenericOutputDef))
      && (|r.inputMapping| < |rest| ==> Contains(rest[|r.inputMapping|], GenericOutputDef))
      && r.outputMapping == OutputNames(rest[|r.inputMapping|..])
  {
    var hasName := ioDefList[0] == "name";
    var rest := if hasName then ioDefList[1..] else ioDefList;
    var outputStart := OutputStart(rest);
    IoDefs(hasName, rest[..outputStart], OutputNames(rest[outputStart..]))
  }

  /** A hardware call definition. `logT0` is the file start time, set when
      the definition is registered in a table. */
  datatype HwCallDef = HwCallDef(defStrings: DefStrings, io: IoDefs, relativeSec: real, logT0: Option<real>)

  /** `HwCallDef.__init__` on a definition row. */
  function DecodeDefinition(row: Row): (d: HwCallDef)
    requires |row| > IoIndex && IsDecimal(row[TimeIndex])
    ensures d.logT0 == None && d.relativeSec == DecimalValue(row[TimeIndex])
    ensures d.io.hasName <==> row[IoIndex] == "name"
    ensures (if d.io.hasName then 1 else 0) + |d.io.inputMapping| + |d.io.outputMapping| == |row| - IoIndex
  {
    HwCallDef(ParseCallStrings(row[NameIndex]), ExtractIoDefs(row[IoIndex..]), DecimalValue(row[TimeIndex]), None)
  }

  /** The definition name embedded in a call's name field: the text between
      the first and the second `__`. */
  function CallDefString(row: Row): (r: string)
    requires |row| > NameIndex && Contains(row[NameIndex], "__")
    ensures !Contains(r, "__")
  {
    Split(row[NameIndex], "__")[1]
  }

  /** The triple a call row refers to. */
  function CallTriple(row: Row): (t: DefStrings)
    requires |row| > NameIndex && Contains(row[NameIndex], "__")
    ensures '.' !in t.resourceClass && '.' !in t.accessor
  {
    ParseCallStrings(CallDefString(row))
  }

  /** `HwCallDef.defines`. */
  predicate Defines(d: HwCallDef, row: Row): (b: bool)
    requires |row| > NameIndex && Contains(row[NameIndex], "__")
    ensures b ==> '.' !in d.defStrings.resourceClass && '.' !in d.defStrings.accessor
  {
    d.defStrings == CallTriple(row)
  }

  /** A call named `<resource>__<written triple>` refers to that triple. */
  lemma CallTripleRoundTrip(resource: string, t: DefStrings, row: Row)
    requires Writable(t) && !Contains(DefString(t), "__")
    requires !Contains(resource, "__") && (resource != [] ==> resource[|resource| - 1] != '_')
    requires |row| > NameIndex && row[NameIndex] == resource + "__" + DefString(t)
    ensures Contains(row[NameIndex], "__") && CallTriple(row) == t
  {
    FindAfterFreePrefix(resource, "__", DefString(t));
    SplitAtFirst(resource, "__", DefString(t));
    ParseCallStringsRoundTrip(t);
  }
}
